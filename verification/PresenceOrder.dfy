/** When the order in which segments are supplied matters, for segments and tolerances of any kind. */
module PresenceOrder {
  import opened Collections
  import opened Options
  import opened Presence
  import opened PresenceBlocks
  import opened PresenceMeaning

  ghost predicate Reaches(a: Segment, tol: int, j: int) {
    a.leave + tol >= j
  }

  /** No segment with an earlier join reaches j, so the first segment that joins at j begins a block. */
  ghost predicate Fresh(s: set<Segment>, tol: int, j: int) {
    forall c :: c in s && c.join < j ==> !Reaches(c, tol, j)
  }

  /** Two segments join when a block begins, and only one of them reaches its own join. */
  ghost predicate Mixed(s: set<Segment>, tol: int, a: Segment, b: Segment) {
    && a in s && b in s && a.join == b.join && Fresh(s, tol, a.join)
    && Reaches(a, tol, a.join) && !Reaches(b, tol, a.join)
  }

  /** They join last, when a block begins, none reaches its own join, and they leave at different times. */
  ghost predicate EndsDiffer(s: set<Segment>, tol: int, a: Segment, b: Segment) {
    && a in s && b in s && a.join == b.join && a.leave != b.leave && Fresh(s, tol, a.join)
    && forall c :: c in s ==> c.join <= a.join && (c.join == a.join ==> !Reaches(c, tol, a.join))
  }

  ghost predicate OrderMatters(s: set<Segment>, tol: int) {
    || (exists a, b :: Mixed(s, tol, a, b))
    || (exists a, b :: EndsDiffer(s, tol, a, b))
  }

  // ----- sweeps that go on alike -----

  /** The sweeps have flushed the same, and end alike or both out of reach of any later join. */
  ghost predicate Alike(w: Sweep, v: Sweep, tol: int) {
    && w.start == v.start && w.reconnections == v.reconnections && Flush(w) == Flush(v)
    && (w.end == v.end || (w.end + tol < w.start && v.end + tol < w.start))
  }

  lemma AlikeStep(w: Sweep, v: Sweep, x: Segment, tolerance: real)
    requires Alike(w, v, ToleranceMs(tolerance)) && w.start <= x.join
    ensures Alike(SweepStep(w, x, tolerance), SweepStep(v, x, tolerance), ToleranceMs(tolerance))
  {
    GapWithinTolerance(x.join - w.end, tolerance);
    GapWithinTolerance(x.join - v.end, tolerance);
  }

  lemma AlikeThrough(w: Sweep, v: Sweep, u: Sweep, tol: int)
    requires Alike(w, v, tol) && Alike(v, u, tol)
    ensures Alike(w, u, tol)
  {
  }

  /** Two segments with one join, in either order, unless one reaches the join and the other does not. */
  lemma SwapStep(w: Sweep, x: Segment, y: Segment, tolerance: real)
    requires x.join == y.join
    requires x.join - w.end > ToleranceMs(tolerance) ==>
      (Reaches(x, ToleranceMs(tolerance), x.join) <==> Reaches(y, ToleranceMs(tolerance), x.join))
    ensures Alike(SweepStep(SweepStep(w, x, tolerance), y, tolerance),
                  SweepStep(SweepStep(w, y, tolerance), x, tolerance), ToleranceMs(tolerance))
  {
    var j, tol := x.join, ToleranceMs(tolerance);
    GapWithinTolerance(j - w.end, tolerance);
    if j - w.end <= tol {
      GapWithinTolerance(j - Max(w.end, x.leave), tolerance);
      GapWithinTolerance(j - Max(w.end, y.leave), tolerance);
    } else {
      GapWithinTolerance(j - x.leave, tolerance);
      GapWithinTolerance(j - y.leave, tolerance);
    }
  }

  lemma SwapFirst(x: Segment, y: Segment, tolerance: real)
    requires x.join == y.join
    requires Reaches(x, ToleranceMs(tolerance), x.join) <==> Reaches(y, ToleranceMs(tolerance), x.join)
    ensures Alike(SweepStep(Sweep(0.0, 0, x.join, x.leave), y, tolerance),
                  SweepStep(Sweep(0.0, 0, y.join, y.leave), x, tolerance), ToleranceMs(tolerance))
  {
    GapWithinTolerance(x.join - x.leave, tolerance);
    GapWithinTolerance(x.join - y.leave, tolerance);
  }

  lemma SweepSnoc(s: seq<Segment>, x: Segment, tolerance: real)
    ensures SweepAll(s + [x], tolerance)
            == if s == [] then Sweep(0.0, 0, x.join, x.leave) else SweepStep(SweepAll(s, tolerance), x, tolerance)
  {
    assert (s + [x])[..|s|] == s;
  }

  // ----- permutations of sorted segments -----

  ghost predicate NeverMixed(s: set<Segment>, tol: int) {
    forall a, b :: !Mixed(s, tol, a, b)
  }

  lemma SortedPrefix(s: seq<Segment>, n: nat)
    requires SortedByJoin(s) && n <= |s|
    ensures SortedByJoin(s[..n])
  {
  }

  /** Where nothing is mixed, two neighbours with one join may change places. */
  lemma SwapLast(p: seq<Segment>, x: Segment, y: Segment, tolerance: real)
    requires SortedByJoin(p + [x, y]) && x.join == y.join && NeverMixed(Elements(p + [x, y]), ToleranceMs(tolerance))
    ensures Alike(SweepAll(p + [x] + [y], tolerance), SweepAll(p + [y] + [x], tolerance), ToleranceMs(tolerance))
  {
    var tol, j, S := ToleranceMs(tolerance), x.join, Elements(p + [x, y]);
    SweepSnoc(p, x, tolerance);
    SweepSnoc(p, y, tolerance);
    SweepSnoc(p + [x], y, tolerance);
    SweepSnoc(p + [y], x, tolerance);
    assert (p + [x, y])[|p|] == x && (p + [x, y])[|p| + 1] == y;
    assert !Mixed(S, tol, x, y) && !Mixed(S, tol, y, x);
    if p == [] {
      SwapFirst(x, y, tolerance);
    } else {
      var w := SweepAll(p, tolerance);
      PrefixReach(p, x, y, tolerance);
      SwapStep(w, x, y, tolerance);
    }
  }

  lemma PrefixJoins(p: seq<Segment>, x: Segment, y: Segment)
    requires SortedByJoin(p + [x, y]) && x.join == y.join
    ensures SortedByJoin(p) && JoinsLast(x, Elements(p))
    ensures forall c :: c in Elements(p + [x, y]) && c.join < x.join ==> c in Elements(p)
  {
    var s := p + [x, y];
    assert s[..|p|] == p && s[|p|] == x;
    SortedPrefix(s, |p|);
    forall c | c in p
      ensures c.join <= x.join
    {
      var k :| 0 <= k < |p| && p[k] == c;
      assert s[k] == c;
    }
  }

  /** If the sweep so far does not reach the join, no earlier segment does. */
  lemma PrefixReach(p: seq<Segment>, x: Segment, y: Segment, tolerance: real)
    requires p != [] && SortedByJoin(p + [x, y]) && x.join == y.join
    ensures x.join - SweepAll(p, tolerance).end > ToleranceMs(tolerance) ==>
      Fresh(Elements(p + [x, y]), ToleranceMs(tolerance), x.join)
  {
    PrefixJoins(p, x, y);
    SweepKnowsReach(p, tolerance);
    StepKnowsReach(SweepAll(p, tolerance), Elements(p), x, tolerance);
  }

  /** Leaving out a segment that joins last mixes nothing. */
  lemma NeverMixedWithout(s: set<Segment>, x: Segment, tol: int)
    requires NeverMixed(s + {x}, tol) && JoinsLast(x, s)
    ensures NeverMixed(s, tol)
  {
    forall a, b | Mixed(s, tol, a, b)
      ensures false
    {
      assert Mixed(s + {x}, tol, a, b);
    }
  }

  lemma ExtendAlike(s: seq<Segment>, t: seq<Segment>, x: Segment, tolerance: real)
    requires s != [] && t != [] && SortedByJoin(s) && JoinsLast(x, Elements(s))
    requires Alike(SweepAll(s, tolerance), SweepAll(t, tolerance), ToleranceMs(tolerance))
    ensures Alike(SweepAll(s + [x], tolerance), SweepAll(t + [x], tolerance), ToleranceMs(tolerance))
  {
    SweepKnowsReach(s, tolerance);
    SweepSnoc(s, x, tolerance);
    SweepSnoc(t, x, tolerance);
    AlikeStep(SweepAll(s, tolerance), SweepAll(t, tolerance), x, tolerance);
  }

  lemma AppendSorted(s: seq<Segment>, x: Segment)
    requires SortedByJoin(s + [x])
    ensures SortedByJoin(s) && JoinsLast(x, Elements(s)) && Elements(s + [x]) == Elements(s) + {x}
  {
    LastOne(s + [x]);
    assert (s + [x])[..|s|] == s;
  }

  lemma TwoLast(p: seq<Segment>, x: Segment, y: Segment)
    requires SortedByJoin(p + [x]) && x.join == y.join
    ensures p + [x] + [y] == p + [x, y] && SortedByJoin(p + [x, y]) && SortedByJoin(p + [y])
    ensures Elements(p + [x, y]) == Elements(p + [x]) + {y}
  {
    AppendSorted(p, x);
    forall i | 0 <= i < |p|
      ensures p[i].join <= x.join
    {
      assert p[i] in Elements(p);
    }
    assert p + [x] + [y] == p + [x, y];
  }

  lemma SwapElements(p: seq<Segment>, x: Segment, y: Segment)
    ensures Elements(p + [x] + [y]) == Elements(p + [x]) + {y}
    ensures Elements(p + [x] + [y]) == Elements(p + [y] + [x])
  {
  }

  /** One more tied segment to move behind. */
  lemma BubbleNext(front: seq<Segment>, p: seq<Segment>, x: Segment, y: Segment, tolerance: real)
    requires SortedByJoin(p + [x]) && SortedByJoin(front) && front != [] && x.join == y.join
    requires Elements(front) == Elements(p + [x])
    requires Alike(SweepAll(front, tolerance), SweepAll(p + [x], tolerance), ToleranceMs(tolerance))
    requires NeverMixed(Elements(p + [x] + [y]), ToleranceMs(tolerance))
    ensures Alike(SweepAll(front + [y], tolerance), SweepAll(p + [y] + [x], tolerance), ToleranceMs(tolerance))
    ensures Elements(front + [y]) == Elements(p + [y] + [x])
  {
    TwoLast(p, x, y);
    AppendSorted(p + [x], y);
    ExtendAlike(front, p + [x], y, tolerance);
    SwapLast(p, x, y, tolerance);
    AlikeThrough(SweepAll(front + [y], tolerance), SweepAll(p + [x] + [y], tolerance),
      SweepAll(p + [y] + [x], tolerance), ToleranceMs(tolerance));
    SwapElements(p, x, y);
  }

  /** A segment may be moved behind all that follow it with the same join. */
  lemma {:induction false} Bubble(p: seq<Segment>, x: Segment, q: seq<Segment>, tolerance: real)
    requires SortedByJoin(p + [x] + q) && (forall y :: y in q ==> y.join == x.join)
    requires NeverMixed(Elements(p + [x] + q), ToleranceMs(tolerance))
    ensures Alike(SweepAll(p + [x] + q, tolerance), SweepAll(p + q + [x], tolerance), ToleranceMs(tolerance))
    ensures SortedByJoin(p + q + [x]) && Elements(p + [x] + q) == Elements(p + q + [x])
  {
    if q == [] {
      assert p + [x] + q == p + [x] && p + q + [x] == p + [x];
    } else {
      var n := |q| - 1;
      var y, front, back := q[n], p + [x] + q[..n], p + q[..n];
      assert p + q == back + [y] && p + [x] + q == front + [y];
      AppendSorted(front, y);
      NeverMixedWithout(Elements(front), y, ToleranceMs(tolerance));
      Bubble(p, x, q[..n], tolerance);
      SwapElements(back, x, y);
      BubbleNext(front, back, x, y, tolerance);
      TwoLast(back, x, y);
      TwoLast(back, y, x);
      assert back + [y] + [x] == p + q + [x];
    }
  }

  lemma LastJoinsLast(t: seq<Segment>)
    requires t != [] && SortedByJoin(t)
    ensures forall y :: y in t ==> y.join <= t[|t| - 1].join
  {
  }

  lemma BehindIsTied(p: seq<Segment>, x: Segment, q: seq<Segment>)
    requires SortedByJoin(p + [x] + q) && forall y :: y in p + [x] + q ==> y.join <= x.join
    ensures forall y :: y in q ==> y.join == x.join
  {
    var s := p + [x] + q;
    forall y | y in q
      ensures y.join == x.join
    {
      var i :| 0 <= i < |q| && q[i] == y;
      assert s[|p|] == x && s[|p| + 1 + i] == y;
    }
  }

  lemma RestIsSame(p: seq<Segment>, x: Segment, q: seq<Segment>, init: seq<Segment>)
    requires multiset(p + [x] + q) == multiset(init + [x])
    ensures multiset(p + q) == multiset(init)
  {
    assert p + [x] + q == p + ([x] + q) && init + [x] == init + ([x] + []) && init + [] == init;
    TakeOut(p, x, q, init, []);
  }

  /** The last of a sorted sequence is somewhere in any other sorting of it, with only ties behind. */
  lemma FindLast(s: seq<Segment>, t: seq<Segment>) returns (p: seq<Segment>, q: seq<Segment>)
    requires t != [] && SortedByJoin(s) && SortedByJoin(t) && multiset(s) == multiset(t)
    ensures var x := t[|t| - 1];
      && s == p + [x] + q && (forall y :: y in q ==> y.join == x.join)
      && multiset(p + q) == multiset(t[..|t| - 1]) && SortedByJoin(t[..|t| - 1])
  {
    var x := t[|t| - 1];
    SameElements(s, t);
    assert x in Elements(t);
    var k :| 0 <= k < |s| && s[k] == x;
    p, q := s[..k], s[k + 1..];
    assert s == p + [x] + q && t == t[..|t| - 1] + [x];
    LastJoinsLast(t);
    forall y | y in s
      ensures y.join <= x.join
    {
      assert y in Elements(s);
    }
    BehindIsTied(p, x, q);
    RestIsSame(p, x, q, t[..|t| - 1]);
    SortedPrefix(t, |t| - 1);
  }

  /** Two sorted orders of the same segments sweep alike, where nothing is mixed. */
  lemma {:induction false} SameSegmentsAlike(s: seq<Segment>, t: seq<Segment>, tolerance: real)
    requires t != [] && SortedByJoin(s) && SortedByJoin(t) && multiset(s) == multiset(t)
    requires NeverMixed(Elements(s), ToleranceMs(tolerance))
    ensures s != [] && Alike(SweepAll(s, tolerance), SweepAll(t, tolerance), ToleranceMs(tolerance))
    decreases |t|
  {
    var init, x := t[..|t| - 1], t[|t| - 1];
    var p, q := FindLast(s, t);
    Bubble(p, x, q, tolerance);
    AppendSorted(p + q, x);
    assert t == init + [x];
    SameElements(p + q, init);
    if init == [] {
      assert p + q == [];
    } else {
      NeverMixedWithout(Elements(p + q), x, ToleranceMs(tolerance));
      SameSegmentsAlike(p + q, init, tolerance);
      ExtendAlike(p + q, init, x, tolerance);
      AlikeThrough(SweepAll(s, tolerance), SweepAll(p + q + [x], tolerance), SweepAll(t, tolerance),
        ToleranceMs(tolerance));
    }
  }

  // ----- where the order does not matter -----

  /** A sweep whose stretch ends out of reach of its own start has just begun a block. */
  lemma LastBegins(s: seq<Segment>, tolerance: real)
    requires s != [] && SortedByJoin(s)
    requires SweepAll(s, tolerance).end + ToleranceMs(tolerance) < SweepAll(s, tolerance).start
    ensures var x, w := s[|s| - 1], SweepAll(s, tolerance);
      x in s && w.start == x.join && w.end == x.leave && Fresh(Elements(s), ToleranceMs(tolerance), x.join)
  {
    var init, x, tol := s[..|s| - 1], s[|s| - 1], ToleranceMs(tolerance);
    LastOne(s);
    if init != [] {
      var w := SweepAll(init, tolerance);
      SweepKnowsReach(init, tolerance);
      StepKnowsReach(w, Elements(init), x, tolerance);
      GapWithinTolerance(x.join - w.end, tolerance);
      assert w.start <= x.join;
    }
  }

  lemma SameFirstJoin(s: seq<Segment>, t: seq<Segment>)
    requires s != [] && t != [] && SortedByJoin(s) && SortedByJoin(t) && Elements(s) == Elements(t)
    ensures s[0].join == t[0].join
  {
    assert s[0] in Elements(t) && t[0] in Elements(s);
  }

  lemma SameEnd(s: seq<Segment>, t: seq<Segment>, tolerance: real)
    requires s != [] && t != [] && SortedByJoin(s) && SortedByJoin(t) && Elements(s) == Elements(t)
    requires Alike(SweepAll(s, tolerance), SweepAll(t, tolerance), ToleranceMs(tolerance))
    requires !OrderMatters(Elements(s), ToleranceMs(tolerance))
    ensures SweepAll(s, tolerance).end == SweepAll(t, tolerance).end
  {
    var S, tol := Elements(s), ToleranceMs(tolerance);
    if SweepAll(s, tolerance).end != SweepAll(t, tolerance).end {
      LastBegins(s, tolerance);
      LastBegins(t, tolerance);
      LastJoinsLast(s);
      var a, b := s[|s| - 1], t[|t| - 1];
      assert a in S && b in S;
      forall c | c in S
        ensures c.join <= a.join && (c.join == a.join ==> !Reaches(c, tol, a.join))
      {
        assert !Mixed(S, tol, c, a);
      }
      assert EndsDiffer(S, tol, a, b);
    }
  }

  /** All that the result depends on. */
  ghost predicate SameSweep(s: seq<Segment>, t: seq<Segment>, tolerance: real) {
    && (s == [] <==> t == [])
    && (s != [] && t != [] ==>
          && s[0].join == t[0].join
          && SweepAll(s, tolerance).end == SweepAll(t, tolerance).end
          && SweepAll(s, tolerance).reconnections == SweepAll(t, tolerance).reconnections
          && Flush(SweepAll(s, tolerance)) == Flush(SweepAll(t, tolerance)))
  }

  lemma SortedSameSweep(s: seq<Segment>, t: seq<Segment>, tolerance: real)
    requires SortedByJoin(s) && SortedByJoin(t) && multiset(s) == multiset(t)
    requires !OrderMatters(Elements(s), ToleranceMs(tolerance))
    ensures SameSweep(s, t, tolerance)
  {
    SameElements(s, t);
    if t != [] {
      SameSegmentsAlike(s, t, tolerance);
      SameFirstJoin(s, t);
      SameEnd(s, t, tolerance);
    }
  }

  lemma UsableAround(p: seq<RawSegment>, x: RawSegment, q: seq<RawSegment>)
    ensures multiset(UsableSegments(p + ([x] + q))) == multiset(UsableSegments([x])) + multiset(UsableSegments(p + q))
  {
    UsableConcat(p, [x] + q);
    UsableConcat([x], q);
    UsableConcat(p, q);
  }

  lemma Around<T>(p: seq<T>, m: seq<T>, q: seq<T>)
    ensures multiset(p + m + q) == multiset(p + q) + multiset(m)
  {
  }

  lemma TakeAt<T>(s: seq<T>, k: nat)
    requires k < |s|
    ensures s == s[..k] + ([s[k]] + s[k + 1..])
    ensures multiset([s[k]] + (s[..k] + s[k + 1..])) == multiset(s)
  {
    var p, x, q := s[..k], s[k], s[k + 1..];
    assert s == p + [x] + q;
    Around(p, [x], q);
    assert multiset([x] + (p + q)) == multiset([x]) + multiset(p + q);
  }

  lemma RestOf<T>(x: T, rest: seq<T>, rs: multiset<T>)
    requires multiset([x] + rest) == rs + multiset{x}
    ensures multiset(rest) == rs
  {
    assert multiset([x] + rest) == multiset(rest) + multiset{x};
    assert multiset(rest) == multiset(rest) + multiset{x} - multiset{x};
    assert rs == rs + multiset{x} - multiset{x};
  }

  lemma {:induction false} UsablePermutes(a: seq<RawSegment>, b: seq<RawSegment>)
    requires multiset(a) == multiset(b)
    ensures multiset(UsableSegments(a)) == multiset(UsableSegments(b))
  {
    if a == [] {
      assert |multiset(b)| == 0;
    } else {
      var x, rest := a[0], a[1..];
      assert a == [x] + rest && x in multiset(a);
      var k :| 0 <= k < |b| && b[k] == x;
      TakeAt(b, k);
      var others := b[..k] + b[k + 1..];
      assert multiset([x] + others) == multiset(others) + multiset{x};
      RestOf(x, rest, multiset(others));
      UsablePermutes(rest, others);
      UsableAround(b[..k], x, b[k + 1..]);
      UsableConcat([x], rest);
    }
  }

  lemma SameSweepSameResult(input: Input, other: Input)
    requires other == input.(segments := other.segments)
    requires SameSweep(Sorted(input), Sorted(other), Tolerance(input))
    ensures AttendanceOf(input) == AttendanceOf(other)
  {
  }

  /** The order in which the segments are supplied does not matter. */
  lemma OrderIrrelevant(input: Input, other: Input)
    requires other == input.(segments := other.segments) && multiset(input.segments) == multiset(other.segments)
    requires !OrderMatters(Segments(input), ToleranceMs(Tolerance(input)))
    ensures AttendanceOf(input) == AttendanceOf(other)
  {
    UsablePermutes(input.segments, other.segments);
    SortedSegments(input);
    SortedSegments(other);
    SortedSameSweep(Sorted(input), Sorted(other), Tolerance(input));
    SameSweepSameResult(input, other);
  }

  /** It never does if no segment leaves before it joins, nor if no two join at the same moment. */
  lemma OrderlySegments(s: set<Segment>, tol: int)
    ensures WellFormed(s) && tol >= 0 ==> !OrderMatters(s, tol)
    ensures (forall a, b :: a in s && b in s && a.join == b.join ==> a == b) ==> !OrderMatters(s, tol)
  {
  }

  // ----- where it does -----

  lemma SortedWithout(s: seq<Segment>, k: nat)
    requires k < |s| && SortedByJoin(s)
    ensures SortedByJoin(s[..k] + s[k + 1..])
  {
    var r := s[..k] + s[k + 1..];
    forall i | 0 <= i < |r|
      ensures r[i] == s[if i < k then i else i + 1]
    {
    }
  }

  lemma TakeFrom(s: seq<Segment>, x: Segment) returns (r: seq<Segment>)
    requires x in s && SortedByJoin(s)
    ensures SortedByJoin(r) && multiset(r) + multiset{x} == multiset(s)
    ensures forall y :: y in r ==> y in s
    ensures forall y :: y in s && y != x ==> y in r
  {
    var k :| 0 <= k < |s| && s[k] == x;
    r := s[..k] + s[k + 1..];
    assert s == s[..k] + [x] + s[k + 1..];
    SortedWithout(s, k);
  }

  lemma {:induction false} SplitAt(s: seq<Segment>, j: int) returns (p: seq<Segment>, q: seq<Segment>)
    requires SortedByJoin(s)
    ensures s == p + q && SortedByJoin(p) && SortedByJoin(q)
    ensures (forall y :: y in p ==> y.join < j) && (forall y :: y in q ==> j <= y.join)
  {
    if s == [] || s[|s| - 1].join < j {
      p, q := s, [];
      if s != [] { LastJoinsLast(s); }
    } else {
      SortedPrefix(s, |s| - 1);
      var q0;
      p, q0 := SplitAt(s[..|s| - 1], j);
      q := q0 + [s[|s| - 1]];
      LastJoinsLast(s);
      assert s == s[..|s| - 1] + [s[|s| - 1]];
      assert forall k :: 0 <= k < |q0| ==> q0[k] in s;
    }
  }

  lemma SortedAround(p: seq<Segment>, m: seq<Segment>, q: seq<Segment>, j: int)
    requires SortedByJoin(p) && SortedByJoin(q)
    requires (forall y :: y in p ==> y.join < j) && (forall y :: y in q ==> j <= y.join)
    requires forall y :: y in m ==> y.join == j
    ensures SortedByJoin(p + m + q)
  {
    var s := p + m + q;
    forall i, k | 0 <= i < k < |s|
      ensures s[i].join <= s[k].join
    {
      assert i < |p| ==> s[i] in p;
      assert |p| <= i < |p| + |m| ==> s[i] in m;
      assert |p| + |m| <= i ==> s[i] == q[i - |p| - |m|];
      assert k < |p| ==> s[k] == p[k];
      assert |p| <= k < |p| + |m| ==> s[k] in m;
      assert |p| + |m| <= k ==> s[k] == q[k - |p| - |m|] && s[k] in q;
    }
  }

  /** Sweeps that differ by a reconnection go on to do so. */
  lemma {:induction false} StaysOff(s: seq<Segment>, t: seq<Segment>, q: seq<Segment>, tolerance: real)
    requires s != [] && t != []
    requires SweepAll(s, tolerance).start == SweepAll(t, tolerance).start
    requires SweepAll(s, tolerance).end == SweepAll(t, tolerance).end
    requires SweepAll(s, tolerance).reconnections != SweepAll(t, tolerance).reconnections
    ensures SweepAll(s + q, tolerance).reconnections != SweepAll(t + q, tolerance).reconnections
    ensures SweepAll(s + q, tolerance).start == SweepAll(t + q, tolerance).start
    ensures SweepAll(s + q, tolerance).end == SweepAll(t + q, tolerance).end
  {
    if q == [] {
      assert s + q == s && t + q == t;
    } else {
      var init, x := q[..|q| - 1], q[|q| - 1];
      StaysOff(s, t, init, tolerance);
      assert s + q == (s + init) + [x] && t + q == (t + init) + [x];
      SweepSnoc(s + init, x, tolerance);
      SweepSnoc(t + init, x, tolerance);
    }
  }

  /** At a fresh join, the one that does not reach it first makes one reconnection less. */
  lemma MixedDiffers(p: seq<Segment>, a: Segment, b: Segment, tolerance: real)
    requires SortedByJoin(p) && a.join == b.join && (forall c :: c in p ==> !Reaches(c, ToleranceMs(tolerance), a.join))
    requires Reaches(a, ToleranceMs(tolerance), a.join) && !Reaches(b, ToleranceMs(tolerance), a.join)
    ensures var w, v := SweepAll(p + [b] + [a], tolerance), SweepAll(p + [a] + [b], tolerance);
      w.start == v.start && w.end == v.end && v.reconnections == w.reconnections + 1
  {
    var j := a.join;
    SweepSnoc(p, a, tolerance);
    SweepSnoc(p, b, tolerance);
    SweepSnoc(p + [a], b, tolerance);
    SweepSnoc(p + [b], a, tolerance);
    GapWithinTolerance(j - a.leave, tolerance);
    GapWithinTolerance(j - b.leave, tolerance);
    if p != [] {
      SweepKnowsReach(p, tolerance);
      GapWithinTolerance(j - SweepAll(p, tolerance).end, tolerance);
    }
  }

  /** In their reconnections or their end. */
  ghost predicate SweepsDiffer(t: seq<Segment>, u: seq<Segment>, tolerance: real) {
    && t != [] && u != []
    && var w, v := SweepAll(t, tolerance), SweepAll(u, tolerance);
       w.end != v.end || w.reconnections != v.reconnections
  }

  ghost predicate SortingOf(t: seq<Segment>, s: seq<Segment>) {
    SortedByJoin(t) && multiset(t) == multiset(s)
  }

  lemma PutBack(s: seq<Segment>, r: seq<Segment>, p: seq<Segment>, a: Segment, b: Segment, q: seq<Segment>)
    requires multiset(r) + multiset{a} == multiset(s) && multiset(p + q) + multiset{b} == multiset(r)
    ensures multiset(p + [a, b] + q) == multiset(s) && multiset(p + [b, a] + q) == multiset(s)
  {
    Around(p, [a, b], q);
    Around(p, [b, a], q);
    assert multiset([a, b]) == multiset{b} + multiset{a} && multiset([b, a]) == multiset{b} + multiset{a};
  }

  lemma MixedPlaces(s: seq<Segment>, a: Segment, b: Segment) returns (p: seq<Segment>, q: seq<Segment>)
    requires SortedByJoin(s) && a in s && b in s && a != b && a.join == b.join
    ensures SortingOf(p + [a, b] + q, s) && SortingOf(p + [b, a] + q, s)
    ensures SortedByJoin(p) && forall c :: c in p ==> c in s && c.join < a.join
  {
    var r := TakeFrom(s, a);
    var r' := TakeFrom(r, b);
    p, q := SplitAt(r', a.join);
    assert forall c :: c in p ==> c in r';
    PutBack(s, r, p, a, b, q);
    SortedAround(p, [b, a], q, a.join);
    SortedAround(p, [a, b], q, a.join);
  }

  lemma MixedOrders(s: seq<Segment>, a: Segment, b: Segment, tolerance: real) returns (t: seq<Segment>, u: seq<Segment>)
    requires SortedByJoin(s) && Mixed(Elements(s), ToleranceMs(tolerance), a, b)
    ensures SortingOf(t, s) && SortingOf(u, s) && SweepsDiffer(t, u, tolerance)
  {
    var p, q := MixedPlaces(s, a, b);
    t, u := p + [b, a] + q, p + [a, b] + q;
    assert forall c :: c in p ==> c in Elements(s);
    MixedDiffers(p, a, b, tolerance);
    assert p + [b] + [a] == p + [b, a] && p + [a] + [b] == p + [a, b];
    StaysOff(p + [b, a], p + [a, b], q, tolerance);
  }

  /** Any of the segments that join last may be put last. */
  lemma PutLast(s: seq<Segment>, a: Segment, tolerance: real) returns (t: seq<Segment>)
    requires SortedByJoin(s) && a in s
    requires forall c :: c in s ==> c.join <= a.join && !Reaches(c, ToleranceMs(tolerance), a.join)
    ensures SortingOf(t, s) && t != [] && SweepAll(t, tolerance).end == a.leave
  {
    var r := TakeFrom(s, a);
    t := r + [a];
    SweepSnoc(r, a, tolerance);
    if r != [] {
      SweepKnowsReach(r, tolerance);
      GapWithinTolerance(a.join - SweepAll(r, tolerance).end, tolerance);
    }
    forall i, k | 0 <= i < k < |t|
      ensures t[i].join <= t[k].join
    {
      assert r[i] in r;
    }
  }

  lemma EndOrders(s: seq<Segment>, a: Segment, b: Segment, tolerance: real) returns (t: seq<Segment>, u: seq<Segment>)
    requires SortedByJoin(s) && EndsDiffer(Elements(s), ToleranceMs(tolerance), a, b)
    ensures SortingOf(t, s) && SortingOf(u, s) && SweepsDiffer(t, u, tolerance)
  {
    assert forall c :: c in s ==> c in Elements(s);
    t := PutLast(s, a, tolerance);
    u := PutLast(s, b, tolerance);
  }

  lemma TwoOrders(s: seq<Segment>, tolerance: real) returns (t: seq<Segment>, u: seq<Segment>)
    requires SortedByJoin(s) && OrderMatters(Elements(s), ToleranceMs(tolerance))
    ensures SortingOf(t, s) && SortingOf(u, s) && SweepsDiffer(t, u, tolerance)
  {
    if a, b :| Mixed(Elements(s), ToleranceMs(tolerance), a, b) {
      t, u := MixedOrders(s, a, b, tolerance);
    } else {
      var a, b :| EndsDiffer(Elements(s), ToleranceMs(tolerance), a, b);
      t, u := EndOrders(s, a, b, tolerance);
    }
  }

  // ----- any order of the segments can be supplied -----

  lemma {:induction false} FindRaw(rs: seq<RawSegment>, x: Segment) returns (k: nat)
    requires x in UsableSegments(rs)
    ensures k < |rs| && Usable(rs[k]) && ToSegment(rs[k]) == x
  {
    if Usable(rs[0]) && ToSegment(rs[0]) == x {
      k := 0;
    } else {
      var i := FindRaw(rs[1..], x);
      k := i + 1;
    }
  }

  lemma TakeRaw(rs: seq<RawSegment>, x: Segment) returns (r: RawSegment, rs': seq<RawSegment>)
    requires x in UsableSegments(rs)
    ensures Usable(r) && ToSegment(r) == x && |rs'| < |rs| && multiset([r] + rs') == multiset(rs)
    ensures multiset(UsableSegments(rs')) + multiset{x} == multiset(UsableSegments(rs))
  {
    var k := FindRaw(rs, x);
    TakeAt(rs, k);
    UsableAround(rs[..k], rs[k], rs[k + 1..]);
    r, rs' := rs[k], rs[..k] + rs[k + 1..];
    assert UsableSegments([r]) == [x] && multiset([x]) == multiset{x};
  }

  lemma {:induction false} RawPermutation(rs: seq<RawSegment>, segs: seq<Segment>) returns (rs': seq<RawSegment>)
    requires multiset(segs) == multiset(UsableSegments(rs))
    ensures multiset(rs') == multiset(rs) && UsableSegments(rs') == segs
    decreases |rs|
  {
    if segs == [] {
      rs' := rs;
      assert |multiset(UsableSegments(rs))| == 0;
    } else {
      var x, rest := segs[0], segs[1..];
      assert segs == [x] + rest;
      assert x in multiset(segs);
      var r, rs0 := TakeRaw(rs, x);
      RestOf(x, rest, multiset(UsableSegments(rs0)));
      var rs1 := RawPermutation(rs0, rest);
      rs' := [r] + rs1;
      UsableConcat([r], rs1);
      assert multiset([r] + rs1) == multiset{r} + multiset(rs1) && multiset([r] + rs0) == multiset{r} + multiset(rs0);
    }
  }

  /** The segments supplied in another order. */
  ghost predicate Reordered(input: Input, other: Input) {
    other == input.(segments := other.segments) && multiset(other.segments) == multiset(input.segments)
  }

  lemma Supply(input: Input, t: seq<Segment>) returns (other: Input)
    requires SortingOf(t, Sorted(input))
    ensures Reordered(input, other) && Sorted(other) == t
  {
    var rs := RawPermutation(input.segments, t);
    other := input.(segments := rs);
    SortOfSorted(t);
  }

  lemma DifferentSweepDifferentResult(input: Input, other: Input)
    requires Reordered(input, other)
    requires SweepsDiffer(Sorted(input), Sorted(other), Tolerance(input))
    ensures AttendanceOf(input) != AttendanceOf(other)
  {
  }

  /**
   * Whatever the segments and the tolerance, every order of them gives the same result exactly if no
   * two that join when a block begins differ in reaching their own join, and no two that join last
   * and begin blocks of their own leave at different times.
   */
  lemma OrderExactly(input: Input)
    ensures (forall other :: Reordered(input, other) ==> AttendanceOf(other) == AttendanceOf(input))
            <==> !OrderMatters(Segments(input), ToleranceMs(Tolerance(input)))
  {
    if OrderMatters(Segments(input), ToleranceMs(Tolerance(input))) {
      SortedSegments(input);
      var t, u := TwoOrders(Sorted(input), Tolerance(input));
      var one := Supply(input, t);
      var two := Supply(input, u);
      DifferentSweepDifferentResult(one, two);
    } else {
      forall other | Reordered(input, other)
        ensures AttendanceOf(other) == AttendanceOf(input)
      {
        OrderIrrelevant(input, other);
      }
    }
  }
}
