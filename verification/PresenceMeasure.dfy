/** The total of the attendance sweep is the measure of presence. */
module PresenceMeasure {
  import opened Collections
  import opened Presence
  import opened PresenceBlocks

  ghost function Before(moments: set<int>, cut: int): (r: set<int>)
    ensures forall t :: t in r <==> t in moments && t < cut
  {
    set t | t in moments && t < cut
  }

  /** The last block began with the open stretch, and presence since then lasts to its end. */
  ghost predicate KnowsLastBlock(w: Sweep, s: set<Segment>, tol: int) {
    && Begins(s, tol, w.start) && (forall j {:trigger Begins(s, tol, j)} :: Begins(s, tol, j) ==> j <= w.start)
    && (forall t {:trigger Present(s, tol, t)} :: w.start <= t ==> (Present(s, tol, t) <==> t < w.end))
  }

  ghost predicate KnowsPresence(w: Sweep, s: set<Segment>, tol: int) {
    KnowsLastBlock(w, s, tol) && w.total * 1000.0 == |Before(Filled(s, tol), w.start)| as real
  }

  /** With the same block starts, the segments of a set span the same moments in a larger one. */
  lemma SameSpans(s: set<Segment>, s': set<Segment>, tol: int, a: Segment, b: Segment, t: int)
    requires s <= s' && a in s && b in s
    requires forall j {:trigger Begins(s', tol, j)} {:trigger Begins(s, tol, j)} ::
      t < j <= b.join ==> (Begins(s', tol, j) <==> Begins(s, tol, j))
    ensures Spans(s', tol, a, b, t) <==> Spans(s, tol, a, b, t)
  {
  }

  /** A segment that is reached leaves everything before the open stretch as it was. */
  lemma MergeKeepsPast(w: Sweep, s: set<Segment>, x: Segment, tol: int, t: int)
    requires KnowsLastBlock(w, s, tol) && JoinsLast(x, s) && w.start <= x.join
    requires SameStarts(s, s + {x}, tol) && t < w.start
    ensures Present(s + {x}, tol, t) <==> Present(s, tol, t)
  {
    var s' := s + {x};
    if a, b :| Spans(s, tol, a, b, t) {
      SameSpans(s, s', tol, a, b, t);
    }
    if a, b :| Spans(s', tol, a, b, t) {
      assert b != x && a != x;
      SameSpans(s, s', tol, a, b, t);
    }
  }

  lemma MergeWidens(w: Sweep, s: set<Segment>, x: Segment, tol: int, t: int)
    requires KnowsReach(w, s, tol) && KnowsLastBlock(w, s, tol) && w.start <= x.join && tol >= -1
    requires SameStarts(s, s + {x}, tol) && w.start <= t
    ensures Present(s + {x}, tol, t) <==> t < Max(w.end, x.leave)
  {
    var s' := s + {x};
    if t < w.end {
      assert Present(s, tol, t);
      var a, b :| Spans(s, tol, a, b, t);
      SameSpans(s, s', tol, a, b, t);
    } else if t < x.leave {
      var first :| first in s && first.join == w.start;
      assert Spans(s', tol, first, x, t);
    }
    if a, b :| Spans(s', tol, a, b, t) {
      assert b == x || b.leave <= w.end;
    }
  }

  lemma MergeKeepsFilled(w: Sweep, s: set<Segment>, x: Segment, tol: int)
    requires KnowsLastBlock(w, s, tol) && JoinsLast(x, s) && w.start <= x.join
    requires SameStarts(s, s + {x}, tol)
    ensures Before(Filled(s + {x}, tol), w.start) == Before(Filled(s, tol), w.start)
  {
    forall t
      ensures t in Before(Filled(s + {x}, tol), w.start) <==> t in Before(Filled(s, tol), w.start)
    {
      if t < w.start { MergeKeepsPast(w, s, x, tol, t); }
      assert t in Filled(s, tol) <==> Present(s, tol, t);
      assert t in Filled(s + {x}, tol) <==> Present(s + {x}, tol, t);
    }
  }

  lemma MergeKnowsPresence(w: Sweep, s: set<Segment>, x: Segment, tol: int)
    requires KnowsReach(w, s, tol) && KnowsPresence(w, s, tol) && JoinsLast(x, s) && tol >= -1
    requires x.join - w.end <= tol
    ensures KnowsPresence(Sweep(w.total, w.reconnections + 1, w.start, Max(w.end, x.leave)), s + {x}, tol)
  {
    var last :| last in s && last.leave == w.end;
    StartsWithLast(s, x, tol);
    assert w.start <= x.join;
    MergeKeepsFilled(w, s, x, tol);
    forall t | w.start <= t
      ensures Present(s + {x}, tol, t) <==> t < Max(w.end, x.leave)
    {
      MergeWidens(w, s, x, tol, t);
    }
  }

  /** A segment that nothing reaches: what came before stays. */
  lemma NewBlockKeepsPast(s: set<Segment>, x: Segment, tol: int, t: int)
    requires JoinsLast(x, s) && (forall b :: b in s ==> b.leave + tol < x.join)
    requires OneStartMore(s, s + {x}, tol, x.join) && t < x.join
    ensures Present(s + {x}, tol, t) <==> Present(s, tol, t)
  {
    var s' := s + {x};
    if a, b :| Spans(s, tol, a, b, t) {
      if b.join == x.join { assert Begins(s, tol, b.join); }
      SameSpans(s, s', tol, a, b, t);
    }
    if a, b :| Spans(s', tol, a, b, t) {
      assert Begins(s', tol, x.join);
      assert b != x && a != x && b.join != x.join;
      SameSpans(s, s', tol, a, b, t);
    }
  }

  /** And it alone is present from its join on. */
  lemma NewBlockFromJoin(s: set<Segment>, x: Segment, tol: int, t: int)
    requires JoinsLast(x, s) && tol >= -1 && (forall b :: b in s ==> b.leave + tol < x.join)
    requires x.join <= t
    ensures !Present(s, tol, t) && (Present(s + {x}, tol, t) <==> t < x.leave)
  {
    var s' := s + {x};
    if t < x.leave {
      assert forall j {:trigger Begins(s', tol, j)} :: Begins(s', tol, j) ==> j <= x.join;
      assert Spans(s', tol, x, x, t);
    }
  }

  lemma SplitCardinality(all: set<int>, before: set<int>, lo: int, hi: int)
    requires forall t :: t in before ==> t < lo
    requires forall t :: t in all <==> t in before || lo <= t < hi
    ensures |all| == |before| + Max(0, hi - lo)
  {
    assert before !! Interval(lo, hi);
    assert all == before + Interval(lo, hi);
  }

  /** Presence is what came before the open stretch and the stretch. */
  lemma PresenceSplits(w: Sweep, s: set<Segment>, tol: int)
    requires KnowsLastBlock(w, s, tol)
    ensures |Filled(s, tol)| == |Before(Filled(s, tol), w.start)| + Max(0, w.end - w.start)
  {
    SplitCardinality(Filled(s, tol), Before(Filled(s, tol), w.start), w.start, w.end);
  }

  lemma FlushMs(w: Sweep)
    ensures Flush(w) * 1000.0 == w.total * 1000.0 + Max(0, w.end - w.start) as real
  {
  }

  lemma NewBlockKnowsLast(w: Sweep, s: set<Segment>, x: Segment, tol: int)
    requires JoinsLast(x, s) && tol >= -1 && (forall b :: b in s ==> b.leave + tol < x.join)
    requires OneStartMore(s, s + {x}, tol, x.join)
    requires w.start == x.join && w.end == x.leave
    ensures KnowsLastBlock(w, s + {x}, tol)
    ensures Before(Filled(s + {x}, tol), x.join) == Filled(s, tol)
  {
    forall t | t < x.join
      ensures Present(s + {x}, tol, t) <==> Present(s, tol, t)
    {
      NewBlockKeepsPast(s, x, tol, t);
    }
    forall t | x.join <= t
      ensures !Present(s, tol, t) && (Present(s + {x}, tol, t) <==> t < x.leave)
    {
      NewBlockFromJoin(s, x, tol, t);
    }
    forall t
      ensures t in Before(Filled(s + {x}, tol), x.join) <==> t in Filled(s, tol)
    {
      assert t in Filled(s, tol) <==> Present(s, tol, t);
      assert t in Filled(s + {x}, tol) <==> Present(s + {x}, tol, t);
    }
  }

  lemma NewBlockKnowsPresence(w: Sweep, s: set<Segment>, x: Segment, tol: int)
    requires KnowsReach(w, s, tol) && KnowsPresence(w, s, tol) && JoinsLast(x, s) && tol >= -1
    requires x.join - w.end > tol
    ensures KnowsPresence(Sweep(Flush(w), w.reconnections, x.join, x.leave), s + {x}, tol)
  {
    assert w.start <= x.join;
    StartsWithLast(s, x, tol);
    NewBlockKnowsLast(Sweep(Flush(w), w.reconnections, x.join, x.leave), s, x, tol);
    PresenceSplits(w, s, tol);
    FlushMs(w);
  }

  lemma OneKnowsPresence(x: Segment, tol: int)
    requires tol >= -1
    ensures KnowsPresence(Sweep(0.0, 0, x.join, x.leave), {x}, tol)
  {
    assert Begins({x}, tol, x.join);
    assert Before(Filled({x}, tol), x.join) == {};
    forall t | x.join <= t < x.leave
      ensures Present({x}, tol, t)
    {
      assert Spans({x}, tol, x, x, t);
    }
  }

  lemma StepKnowsPresence(w: Sweep, s: set<Segment>, x: Segment, tolerance: real)
    requires KnowsReach(w, s, ToleranceMs(tolerance)) && KnowsPresence(w, s, ToleranceMs(tolerance))
    requires JoinsLast(x, s) && tolerance >= -0.001
    ensures KnowsPresence(SweepStep(w, x, tolerance), s + {x}, ToleranceMs(tolerance))
  {
    GapWithinTolerance(x.join - w.end, tolerance);
    if x.join - w.end <= ToleranceMs(tolerance) {
      MergeKnowsPresence(w, s, x, ToleranceMs(tolerance));
    } else {
      NewBlockKnowsPresence(w, s, x, ToleranceMs(tolerance));
    }
  }

  lemma {:induction false} SweepKnowsPresence(s: seq<Segment>, tolerance: real)
    requires s != [] && SortedByJoin(s) && tolerance >= -0.001
    ensures KnowsPresence(SweepAll(s, tolerance), Elements(s), ToleranceMs(tolerance))
  {
    LastOne(s);
    if |s| > 1 {
      var init := s[..|s| - 1];
      SweepKnowsPresence(init, tolerance);
      SweepKnowsReach(init, tolerance);
      StepKnowsPresence(SweepAll(init, tolerance), Elements(init), s[|s| - 1], tolerance);
    } else {
      assert Elements(s) == {s[0]};
      OneKnowsPresence(s[0], ToleranceMs(tolerance));
    }
  }

  lemma TotalIsMeasure(s: seq<Segment>, tolerance: real)
    requires s != [] && SortedByJoin(s) && tolerance >= -0.001
    ensures Flush(SweepAll(s, tolerance)) == |Filled(Elements(s), ToleranceMs(tolerance))| as real / 1000.0
  {
    var w := SweepAll(s, tolerance);
    SweepKnowsPresence(s, tolerance);
    PresenceSplits(w, Elements(s), ToleranceMs(tolerance));
    FlushMs(w);
  }
}
