/** The total of the attendance sweep with a negative tolerance: what overlaps may be counted twice. */
module PresenceOverlap {
  import opened Collections
  import opened Presence
  import opened PresenceBlocks
  import opened PresenceMeasure
  import opened PresenceCover

  /** The segment at i begins a block that is not empty while an earlier segment is still there. */
  ghost predicate Overlaps(s: seq<Segment>, i: nat, tol: int) {
    && StartsAt(s, i, tol) && s[i].join < s[i].leave
    && exists k :: 0 <= k < i && s[i].join < s[k].leave
  }

  ghost predicate NoOverlap(s: seq<Segment>, n: nat, tol: int) {
    forall i {:trigger Overlaps(s, i, tol)} :: 0 <= i < n ==> !Overlaps(s, i, tol)
  }

  /** The same for a segment that joins last. */
  ghost predicate OverlapsSet(x: Segment, s: set<Segment>) {
    x.join < x.leave && exists b :: b in s && x.join < b.leave
  }

  /**
   * The sweep has counted f milliseconds, at least the time covered and exactly that while clear, when
   * nothing has been counted twice; then no leave lies beyond the open stretch.
   */
  ghost predicate Counted(w: Sweep, s: set<Segment>, f: int, clear: bool) {
    && Flush(w) * 1000.0 == f as real
    && |Covered(s, 0)| <= f && (|Covered(s, 0)| == f <==> clear)
    && (forall t {:trigger Reached(s, 0, t)} :: w.start <= t < w.end ==> Reached(s, 0, t))
    && (clear && w.start < w.end ==> forall b :: b in s ==> b.leave <= w.end)
  }

  lemma UnionSize(a: set<int>, lo: int, hi: int)
    ensures |a + Interval(lo, hi)| <= |a| + Max(0, hi - lo)
    ensures |a + Interval(lo, hi)| == |a| + Max(0, hi - lo) <==> forall t :: t in a ==> !(lo <= t < hi)
  {
    var b := Interval(lo, hi);
    assert |a + b| == |a| + |b| - |a * b|;
    if forall t :: t in a ==> !(lo <= t < hi) {
      assert a * b == {};
    } else {
      var t :| t in a && lo <= t < hi;
      assert t in a * b;
    }
  }

  lemma CoveredWithLast(s: set<Segment>, x: Segment, lo: int)
    requires x.join <= lo && forall t :: x.join <= t < lo && t < x.leave ==> Reached(s, 0, t)
    ensures Covered(s + {x}, 0) == Covered(s, 0) + Interval(lo, x.leave)
  {
    var now, parts := Covered(s + {x}, 0), Covered(s, 0) + Interval(lo, x.leave);
    forall t
      ensures t in now <==> t in parts
    {
      ReachedWithLast(s, x, 0, t);
      assert t in now <==> Reached(s + {x}, 0, t);
      assert t in Covered(s, 0) <==> Reached(s, 0, t);
    }
  }

  lemma StillReached(s: set<Segment>, x: Segment, t: int)
    requires Reached(s, 0, t) || x.join <= t < x.leave
    ensures Reached(s + {x}, 0, t)
  {
    ReachedWithLast(s, x, 0, t);
  }

  /** A segment that is reached before the open stretch ends. */
  lemma MergeCounted(w: Sweep, s: set<Segment>, x: Segment, f: int, clear: bool, w': Sweep) returns (f': int)
    requires Counted(w, s, f, clear) && w.start <= x.join < w.end
    requires w'.total == w.total && w'.start == w.start && w'.end == Max(w.end, x.leave)
    ensures Counted(w', s + {x}, f', clear)
  {
    f' := f + Max(0, x.leave - w.end);
    FlushMs(w);
    FlushMs(w');
    CoveredWithLast(s, x, w.end);
    UnionSize(Covered(s, 0), w.end, x.leave);
    if clear {
      forall t | t in Covered(s, 0)
        ensures t < w.end
      {
        assert Reached(s, 0, t);
      }
    }
    forall t | w'.start <= t < w'.end
      ensures Reached(s + {x}, 0, t)
    {
      StillReached(s, x, t);
    }
  }

  lemma OverlapIsCovered(x: Segment, s: set<Segment>)
    requires JoinsLast(x, s)
    ensures OverlapsSet(x, s) <==> exists t :: t in Covered(s, 0) && x.join <= t < x.leave
  {
    if OverlapsSet(x, s) {
      var b :| b in s && x.join < b.leave;
      assert b.join <= x.join < b.leave + 0;
      assert Reached(s, 0, x.join);
    }
    if t :| t in Covered(s, 0) && x.join <= t < x.leave {
      assert Reached(s, 0, t);
      var b :| b in s && b.join <= t < b.leave + 0;
    }
  }

  /** A segment that begins a block. */
  lemma NewBlockCounted(w: Sweep, s: set<Segment>, x: Segment, f: int, clear: bool, w': Sweep) returns (f': int)
    requires Counted(w, s, f, clear) && JoinsLast(x, s)
    requires w'.total == Flush(w) && w'.start == x.join && w'.end == x.leave
    ensures Counted(w', s + {x}, f', clear && !OverlapsSet(x, s))
  {
    f' := f + Max(0, x.leave - x.join);
    FlushMs(w');
    CoveredWithLast(s, x, x.join);
    UnionSize(Covered(s, 0), x.join, x.leave);
    OverlapIsCovered(x, s);
    forall t | w'.start <= t < w'.end
      ensures Reached(s + {x}, 0, t)
    {
      StillReached(s, x, t);
    }
  }

  lemma CoveredByOne(x: Segment)
    ensures Covered({x}, 0) == Interval(x.join, x.leave)
  {
    var now := Covered({x}, 0);
    forall t
      ensures t in now <==> x.join <= t < x.leave
    {
      assert x in {x};
      assert t in now <==> Reached({x}, 0, t);
    }
  }

  lemma OneIsCounted(x: Segment)
    ensures Counted(Sweep(0.0, 0, x.join, x.leave), {x}, Max(0, x.leave - x.join), true)
  {
    CoveredByOne(x);
    FlushMs(Sweep(0.0, 0, x.join, x.leave));
    forall t | x.join <= t < x.leave
      ensures Reached({x}, 0, t)
    {
      assert t in Covered({x}, 0);
    }
  }

  lemma OverlapInPrefix(s: seq<Segment>, n: nat, tol: int)
    requires n < |s|
    ensures Overlaps(s, n, tol) <==> StartsAt(s, n, tol) && OverlapsSet(s[n], Elements(s[..n]))
    ensures NoOverlap(s, n + 1, tol) <==> NoOverlap(s, n, tol) && !Overlaps(s, n, tol)
  {
    if OverlapsSet(s[n], Elements(s[..n])) {
      var b :| b in Elements(s[..n]) && s[n].join < b.leave;
      var k :| 0 <= k < n && s[..n][k] == b;
      assert s[k] == b;
    }
    if k :| 0 <= k < n && s[n].join < s[k].leave {
      assert s[..n][k] == s[k] && s[k] in Elements(s[..n]);
    }
  }

  lemma StepCounted(w: Sweep, s: seq<Segment>, n: nat, tolerance: real, f: int, clear: bool) returns (f': int)
    requires 0 < n < |s| && SortedByJoin(s) && tolerance < 0.0
    requires KnowsReach(w, Elements(s[..n]), ToleranceMs(tolerance)) && Counted(w, Elements(s[..n]), f, clear)
    ensures Counted(SweepStep(w, s[n], tolerance), Elements(s[..n + 1]), f',
      clear && !Overlaps(s, n, ToleranceMs(tolerance)))
  {
    var S, x, w' := Elements(s[..n]), s[n], SweepStep(w, s[n], tolerance);
    PrefixStep(s, n);
    StartsUnlessReached(w, s, n, tolerance);
    GapWithinTolerance(x.join - w.end, tolerance);
    OverlapInPrefix(s, n, ToleranceMs(tolerance));
    if StartsAt(s, n, ToleranceMs(tolerance)) {
      f' := NewBlockCounted(w, S, x, f, clear, w');
    } else {
      f' := MergeCounted(w, S, x, f, clear, w');
    }
  }

  lemma {:induction false} SweepCounted(s: seq<Segment>, n: nat, tolerance: real) returns (f: int)
    requires 0 < n <= |s| && SortedByJoin(s) && tolerance < 0.0
    ensures Counted(SweepAll(s[..n], tolerance), Elements(s[..n]), f, NoOverlap(s, n, ToleranceMs(tolerance)))
  {
    var tol := ToleranceMs(tolerance);
    if n == 1 {
      assert s[..1] == [s[0]] && Elements([s[0]]) == {s[0]};
      assert !Overlaps(s, 0, tol);
      OneIsCounted(s[0]);
      f := Max(0, s[0].leave - s[0].join);
    } else {
      var m := n - 1;
      f := SweepCounted(s, m, tolerance);
      PrefixStep(s, m);
      SweepKnowsReach(s[..m], tolerance);
      SweepNext(s, m, tolerance);
      OverlapInPrefix(s, m, tol);
      f := StepCounted(SweepAll(s[..m], tolerance), s, m, tolerance, f, NoOverlap(s, m, tol));
    }
  }

  /**
   * With a negative tolerance the total is at least the measure of the union of all [join, leave), and
   * equal to it exactly if no block begins, other than an empty one, before an earlier segment leaves.
   */
  lemma OverlapExactly(s: seq<Segment>, tolerance: real)
    requires s != [] && SortedByJoin(s) && tolerance < 0.0
    ensures var covered, total := |Covered(Elements(s), 0)| as real / 1000.0, Flush(SweepAll(s, tolerance));
      && covered <= total
      && (covered == total <==> NoOverlap(s, |s|, ToleranceMs(tolerance)))
  {
    var f := SweepCounted(s, |s|, tolerance);
    assert s[..|s|] == s;
  }
}
