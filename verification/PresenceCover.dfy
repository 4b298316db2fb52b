/** The total of the attendance sweep in terms of stretches lengthened by the tolerance. */
module PresenceCover {
  import opened Collections
  import opened Presence
  import opened PresenceBlocks
  import opened PresenceMeasure

  /** Before another block begins, some segment leaves at or after the join that began the block at i. */
  ghost predicate Lasts(s: seq<Segment>, i: nat, tol: int)
    requires i < |s|
  {
    exists k :: i <= k < |s| && s[k].leave >= s[i].join && forall m :: i < m <= k ==> !StartsAt(s, m, tol)
  }

  /** Every block that begins before n lasts. */
  ghost predicate AllLast(s: seq<Segment>, n: nat, tol: int)
    requires n <= |s|
  {
    forall i {:trigger Lasts(s, i, tol)} :: 0 <= i < n && StartsAt(s, i, tol) ==> Lasts(s, i, tol)
  }

  /** After n segments the open block is the one begun at p, and its latest leave ends the stretch. */
  ghost predicate KnowsOpenBlock(w: Sweep, s: seq<Segment>, n: nat, p: nat, tol: int) {
    && p < n <= |s| && StartsAt(s, p, tol) && w.start == s[p].join
    && (forall m :: p < m < n ==> !StartsAt(s, m, tol))
    && (exists k :: p <= k < n && s[k].leave == w.end)
    && (forall k :: p <= k < n ==> s[k].leave <= w.end)
  }

  /** Once the next block begins, it is known whether the open one lasted. */
  lemma OpenBlockLasts(w: Sweep, s: seq<Segment>, n: nat, p: nat, tol: int)
    requires KnowsOpenBlock(w, s, n, p, tol) && (n == |s| || StartsAt(s, n, tol))
    ensures Lasts(s, p, tol) <==> w.start <= w.end
    ensures AllLast(s, n, tol) <==> AllLast(s, p, tol) && w.start <= w.end
  {
    if w.start <= w.end {
      var k :| p <= k < n && s[k].leave == w.end;
      assert forall m :: p < m <= k ==> !StartsAt(s, m, tol);
    }
  }

  ghost predicate KnowsReached(w: Sweep, s: set<Segment>, tol: int) {
    forall t {:trigger Reached(s, tol, t)} :: w.start <= t ==> (Reached(s, tol, t) <==> t < w.end + tol)
  }

  lemma CoveredSplits(w: Sweep, s: set<Segment>, tol: int)
    requires KnowsReached(w, s, tol)
    ensures |Covered(s, tol)| == |Before(Covered(s, tol), w.start)| + Max(0, w.end + tol - w.start)
  {
    SplitCardinality(Covered(s, tol), Before(Covered(s, tol), w.start), w.start, w.end + tol);
  }

  lemma ReachedWithLast(s: set<Segment>, x: Segment, tol: int, t: int)
    ensures Reached(s + {x}, tol, t) <==> Reached(s, tol, t) || x.join <= t < x.leave + tol
  {
    if a :| a in s && a.join <= t < a.leave + tol { assert a in s + {x}; }
    if x.join <= t < x.leave + tol { assert x in s + {x}; }
  }

  lemma MergeKnowsReached(w: Sweep, s: set<Segment>, x: Segment, tol: int, w': Sweep)
    requires KnowsReached(w, s, tol) && w.start <= x.join <= w.end + tol
    requires w'.start == w.start && w'.end == Max(w.end, x.leave)
    ensures KnowsReached(w', s + {x}, tol)
    ensures Before(Covered(s + {x}, tol), w.start) == Before(Covered(s, tol), w.start)
  {
    forall t
      ensures Reached(s + {x}, tol, t) <==> Reached(s, tol, t) || x.join <= t < x.leave + tol
    {
      ReachedWithLast(s, x, tol, t);
    }
  }

  lemma NewBlockKnowsReached(s: set<Segment>, x: Segment, tol: int, w': Sweep)
    requires forall b :: b in s ==> b.leave + tol < x.join
    requires w'.start == x.join && w'.end == x.leave
    ensures KnowsReached(w', s + {x}, tol)
    ensures Before(Covered(s + {x}, tol), x.join) == Covered(s, tol)
  {
    var now, was := Before(Covered(s + {x}, tol), x.join), Covered(s, tol);
    forall t
      ensures Reached(s + {x}, tol, t) <==> Reached(s, tol, t) || x.join <= t < x.leave + tol
    {
      ReachedWithLast(s, x, tol, t);
    }
    forall t
      ensures t in now <==> t in was
    {
      assert t in was <==> Reached(s, tol, t);
    }
  }

  /** The tolerance so many times. */
  ghost function Times(tol: int, k: nat): int {
    if k == 0 then 0 else Times(tol, k - 1) + tol
  }

  lemma {:induction false} TimesIsProduct(tol: int, k: nat)
    ensures Times(tol, k) == tol * k
  {
    if k > 0 {
      TimesIsProduct(tol, k - 1);
      assert tol * k == tol * (k - 1) + tol;
    }
  }

  /** The finished blocks: their covered time, less the tolerance for each, against their presence. */
  ghost predicate Compares(covered: int, finished: nat, filled: int, tol: int, lasted: bool) {
    && covered - Times(tol, finished) <= filled
    && (covered - Times(tol, finished) == filled <==> tol == 0 || lasted)
  }

  ghost predicate KnowsCovered(w: Sweep, s: set<Segment>, tol: int, finished: nat, lasted: bool) {
    && KnowsReached(w, s, tol)
    && Compares(|Before(Covered(s, tol), w.start)|, finished, |Before(Filled(s, tol), w.start)|, tol, lasted)
  }

  /** A finished block adds no more than its length, and that much exactly if it lasts. */
  lemma OneMoreFinished(covered: int, k: nat, filled: int, tol: int, lasted: bool, length: int)
    requires tol >= 0 && k > 0 && Compares(covered, k - 1, filled, tol, lasted)
    ensures Compares(covered + Max(0, length + tol), k, filled + Max(0, length), tol, lasted && length >= 0)
  {
    assert Max(0, length + tol) - tol <= Max(0, length);
  }

  /** The finished blocks with one more among them. */
  lemma NewBlockKnowsCovered(w: Sweep, s: set<Segment>, x: Segment, tol: int, finished: nat, lasted: bool, w': Sweep)
    requires KnowsLastBlock(w, s, tol) && JoinsLast(x, s) && tol >= 0
    requires KnowsCovered(w, s, tol, finished, lasted) && !IsReached(x, s, tol)
    requires w'.start == x.join && w'.end == x.leave
    ensures KnowsCovered(w', s + {x}, tol, finished + 1, lasted && w.start <= w.end)
  {
    StartsWithLast(s, x, tol);
    NewBlockKnowsReached(s, x, tol, w');
    NewBlockKnowsLast(w', s, x, tol);
    CoveredSplits(w, s, tol);
    PresenceSplits(w, s, tol);
    OneMoreFinished(|Before(Covered(s, tol), w.start)|, finished + 1,
      |Before(Filled(s, tol), w.start)|, tol, lasted, w.end - w.start);
  }

  lemma MergeKnowsCovered(w: Sweep, s: set<Segment>, x: Segment, tol: int, finished: nat, lasted: bool, w': Sweep)
    requires KnowsLastBlock(w, s, tol) && JoinsLast(x, s)
    requires KnowsCovered(w, s, tol, finished, lasted) && IsReached(x, s, tol)
    requires w.start <= x.join <= w.end + tol
    requires w'.start == w.start && w'.end == Max(w.end, x.leave)
    ensures KnowsCovered(w', s + {x}, tol, finished, lasted)
  {
    StartsWithLast(s, x, tol);
    MergeKnowsReached(w, s, x, tol, w');
    MergeKeepsFilled(w, s, x, tol);
  }

  lemma PrefixStep(s: seq<Segment>, n: nat)
    requires 0 < n < |s| && SortedByJoin(s)
    ensures s[..n + 1][..n] == s[..n] && Elements(s[..n + 1]) == Elements(s[..n]) + {s[n]}
    ensures SortedByJoin(s[..n]) && JoinsLast(s[n], Elements(s[..n]))
  {
    LastOne(s[..n + 1]);
    assert s[..n + 1][..n] == s[..n];
  }

  lemma PrefixStarts(s: seq<Segment>, n: nat, tol: int)
    requires 0 < n < |s|
    ensures StartCount(s[..n + 1], tol) == StartCount(s[..n], tol) + if StartsAt(s, n, tol) then 1 else 0
    ensures StartsAt(s, n, tol) <==> !IsReached(s[n], Elements(s[..n]), tol)
  {
    var upto := s[..n + 1];
    assert upto[..n] == s[..n] && upto[n] == s[n];
    assert StartsAt(upto, n, tol) <==> StartsAt(s, n, tol);
    StartsWhenNotReached(upto, tol);
  }

  lemma MergeKnowsOpenBlock(w: Sweep, s: seq<Segment>, n: nat, p: nat, tol: int, w': Sweep)
    requires n < |s| && KnowsOpenBlock(w, s, n, p, tol) && !StartsAt(s, n, tol)
    requires w'.start == w.start && w'.end == Max(w.end, s[n].leave)
    ensures KnowsOpenBlock(w', s, n + 1, p, tol)
  {
    var k :| p <= k < n && s[k].leave == w.end;
    assert s[if w.end < s[n].leave then n else k].leave == w'.end;
  }

  /** The comparison for the first n segments. */
  ghost predicate Counts(w: Sweep, s: seq<Segment>, n: nat, tol: int, finished: nat, lasted: bool)
    requires n <= |s|
  {
    StartCount(s[..n], tol) == finished + 1 && KnowsCovered(w, Elements(s[..n]), tol, finished, lasted)
  }

  lemma StartsUnlessReached(w: Sweep, s: seq<Segment>, n: nat, tolerance: real)
    requires 0 < n < |s| && SortedByJoin(s) && KnowsReach(w, Elements(s[..n]), ToleranceMs(tolerance))
    ensures StartsAt(s, n, ToleranceMs(tolerance)) <==> s[n].join - w.end > ToleranceMs(tolerance)
    ensures w.start <= s[n].join
    ensures var w' := SweepStep(w, s[n], tolerance);
      if StartsAt(s, n, ToleranceMs(tolerance)) then w'.start == s[n].join && w'.end == s[n].leave
      else w'.start == w.start && w'.end == Max(w.end, s[n].leave)
  {
    PrefixStep(s, n);
    PrefixStarts(s, n, ToleranceMs(tolerance));
    StepKnowsReach(w, Elements(s[..n]), s[n], tolerance);
    GapWithinTolerance(s[n].join - w.end, tolerance);
  }

  lemma NewBlockCounts(w: Sweep, s: seq<Segment>, n: nat, tol: int, w': Sweep, k: nat, lasted: bool)
    requires 0 < n < |s| && SortedByJoin(s) && tol >= 0 && StartsAt(s, n, tol)
    requires Counts(w, s, n, tol, k, lasted) && KnowsLastBlock(w, Elements(s[..n]), tol)
    requires w'.start == s[n].join && w'.end == s[n].leave
    ensures Counts(w', s, n + 1, tol, k + 1, lasted && w.start <= w.end)
  {
    var S, x := Elements(s[..n]), s[n];
    assert Elements(s[..n + 1]) == S + {x} && JoinsLast(x, S) by { PrefixStep(s, n); }
    assert StartCount(s[..n + 1], tol) == k + 2 && !IsReached(x, S, tol) by { PrefixStarts(s, n, tol); }
    NewBlockKnowsCovered(w, S, x, tol, k, lasted, w');
  }

  lemma MergeCounts(w: Sweep, s: seq<Segment>, n: nat, tol: int, w': Sweep, k: nat, lasted: bool)
    requires 0 < n < |s| && SortedByJoin(s) && !StartsAt(s, n, tol)
    requires Counts(w, s, n, tol, k, lasted) && KnowsLastBlock(w, Elements(s[..n]), tol)
    requires w.start <= s[n].join <= w.end + tol
    requires w'.start == w.start && w'.end == Max(w.end, s[n].leave)
    ensures Counts(w', s, n + 1, tol, k, lasted)
  {
    var S, x := Elements(s[..n]), s[n];
    assert Elements(s[..n + 1]) == S + {x} && JoinsLast(x, S) by { PrefixStep(s, n); }
    assert StartCount(s[..n + 1], tol) == k + 1 && IsReached(x, S, tol) by { PrefixStarts(s, n, tol); }
    MergeKnowsCovered(w, S, x, tol, k, lasted, w');
  }

  lemma NewBlockOpens(s: seq<Segment>, n: nat, tol: int, w': Sweep)
    requires n < |s| && StartsAt(s, n, tol) && w'.start == s[n].join && w'.end == s[n].leave
    ensures KnowsOpenBlock(w', s, n + 1, n, tol)
  {
  }

  lemma StepCounts(w: Sweep, s: seq<Segment>, n: nat, tolerance: real, k: nat, lasted: bool)
    requires 0 < n < |s| && SortedByJoin(s) && tolerance >= 0.0
    requires w == SweepAll(s[..n], tolerance) && Counts(w, s, n, ToleranceMs(tolerance), k, lasted)
    ensures var w', begins := SweepStep(w, s[n], tolerance), StartsAt(s, n, ToleranceMs(tolerance));
      Counts(w', s, n + 1, ToleranceMs(tolerance), if begins then k + 1 else k, lasted && (begins ==> w.start <= w.end))
  {
    PrefixStep(s, n);
    SweepKnowsReach(s[..n], tolerance);
    SweepKnowsPresence(s[..n], tolerance);
    StartsUnlessReached(w, s, n, tolerance);
    var w' := SweepStep(w, s[n], tolerance);
    if StartsAt(s, n, ToleranceMs(tolerance)) {
      NewBlockCounts(w, s, n, ToleranceMs(tolerance), w', k, lasted);
    } else {
      MergeCounts(w, s, n, ToleranceMs(tolerance), w', k, lasted);
    }
  }

  lemma StepOpens(w: Sweep, s: seq<Segment>, n: nat, p: nat, tolerance: real) returns (p': nat)
    requires 0 < n < |s| && SortedByJoin(s)
    requires w == SweepAll(s[..n], tolerance) && KnowsOpenBlock(w, s, n, p, ToleranceMs(tolerance))
    ensures p' == if StartsAt(s, n, ToleranceMs(tolerance)) then n else p
    ensures KnowsOpenBlock(SweepStep(w, s[n], tolerance), s, n + 1, p', ToleranceMs(tolerance))
  {
    PrefixStep(s, n);
    SweepKnowsReach(s[..n], tolerance);
    StartsUnlessReached(w, s, n, tolerance);
    if StartsAt(s, n, ToleranceMs(tolerance)) {
      NewBlockOpens(s, n, ToleranceMs(tolerance), SweepStep(w, s[n], tolerance));
      p' := n;
    } else {
      MergeKnowsOpenBlock(w, s, n, p, ToleranceMs(tolerance), SweepStep(w, s[n], tolerance));
      p' := p;
    }
  }

  lemma SweepNext(s: seq<Segment>, n: nat, tolerance: real)
    requires 0 < n < |s|
    ensures SweepAll(s[..n + 1], tolerance) == SweepStep(SweepAll(s[..n], tolerance), s[n], tolerance)
  {
    assert s[..n + 1][..n] == s[..n];
  }

  lemma OneOpens(s: seq<Segment>, tolerance: real)
    requires s != []
    ensures KnowsOpenBlock(SweepAll(s[..1], tolerance), s, 1, 0, ToleranceMs(tolerance))
  {
    assert s[..1] == [s[0]];
  }

  lemma {:induction false} SweepOpens(s: seq<Segment>, n: nat, tolerance: real) returns (p: nat)
    requires 0 < n <= |s| && SortedByJoin(s)
    ensures KnowsOpenBlock(SweepAll(s[..n], tolerance), s, n, p, ToleranceMs(tolerance))
  {
    if n == 1 {
      p := 0;
      OneOpens(s, tolerance);
    } else {
      var m := n - 1;
      var p0 := SweepOpens(s, m, tolerance);
      SweepNext(s, m, tolerance);
      p := StepOpens(SweepAll(s[..m], tolerance), s, m, p0, tolerance);
    }
  }

  lemma {:induction false} SweepCounts(s: seq<Segment>, n: nat, tolerance: real) returns (p: nat, k: nat)
    requires 0 < n <= |s| && SortedByJoin(s) && tolerance >= 0.0
    ensures KnowsOpenBlock(SweepAll(s[..n], tolerance), s, n, p, ToleranceMs(tolerance))
    ensures Counts(SweepAll(s[..n], tolerance), s, n, ToleranceMs(tolerance), k, AllLast(s, p, ToleranceMs(tolerance)))
  {
    var tol := ToleranceMs(tolerance);
    if n == 1 {
      p, k := 0, 0;
      OneIsKnown(s, tolerance);
    } else {
      var m := n - 1;
      var p0, k0 := SweepCounts(s, m, tolerance);
      var w := SweepAll(s[..m], tolerance);
      SweepNext(s, m, tolerance);
      StepCounts(w, s, m, tolerance, k0, AllLast(s, p0, tol));
      p := StepOpens(w, s, m, p0, tolerance);
      k := if p == m then k0 + 1 else k0;
      if p == m { OpenBlockLasts(w, s, m, p0, tol); }
    }
  }

  lemma OneIsKnown(s: seq<Segment>, tolerance: real)
    requires s != [] && tolerance >= 0.0
    ensures KnowsOpenBlock(SweepAll(s[..1], tolerance), s, 1, 0, ToleranceMs(tolerance))
    ensures Counts(SweepAll(s[..1], tolerance), s, 1, ToleranceMs(tolerance), 0, AllLast(s, 0, ToleranceMs(tolerance)))
  {
    var tol, x := ToleranceMs(tolerance), s[0];
    assert s[..1] == [x] && Elements([x]) == {x};
    assert [x][..0] == [] && StartCount([x], tol) == 1;
    forall t
      ensures Reached({x}, tol, t) <==> x.join <= t < x.leave + tol
    {
      assert x in {x};
    }
    assert Before(Covered({x}, tol), x.join) == {};
    OneKnowsPresence(x, tol);
  }

  /**
   * Lengthening every stretch by the tolerance and taking it off again once for each block measures no
   * more than the total, and measures it exactly if there is no tolerance or every block lasts.
   */
  lemma CoveredExactly(s: seq<Segment>, tolerance: real)
    requires s != [] && SortedByJoin(s) && tolerance >= 0.0
    ensures var S, tol := Elements(s), ToleranceMs(tolerance);
      var less := |Covered(S, tol)| - tol * StartCount(s, tol);
      && less <= |Filled(S, tol)|
      && (less == |Filled(S, tol)| <==> tol == 0 || AllLast(s, |s|, tol))
  {
    var S, tol, w := Elements(s), ToleranceMs(tolerance), SweepAll(s, tolerance);
    var k, lasted := SweepEnds(s, tolerance);
    SweepKnowsPresence(s, tolerance);
    AllFinished(w, S, tol, k, lasted);
  }

  lemma SweepEnds(s: seq<Segment>, tolerance: real) returns (k: nat, lasted: bool)
    requires s != [] && SortedByJoin(s) && tolerance >= 0.0
    ensures var tol, w := ToleranceMs(tolerance), SweepAll(s, tolerance);
      && StartCount(s, tol) == k + 1 && KnowsCovered(w, Elements(s), tol, k, lasted)
      && (AllLast(s, |s|, tol) <==> lasted && w.start <= w.end)
  {
    var p;
    p, k := SweepCounts(s, |s|, tolerance);
    assert s[..|s|] == s;
    lasted := AllLast(s, p, ToleranceMs(tolerance));
    OpenBlockLasts(SweepAll(s, tolerance), s, |s|, p, ToleranceMs(tolerance));
  }

  lemma AllFinished(w: Sweep, s: set<Segment>, tol: int, k: nat, lasted: bool)
    requires KnowsLastBlock(w, s, tol) && KnowsCovered(w, s, tol, k, lasted) && tol >= 0
    ensures var less := |Covered(s, tol)| - tol * (k + 1);
      && less <= |Filled(s, tol)|
      && (less == |Filled(s, tol)| <==> tol == 0 || (lasted && w.start <= w.end))
  {
    CoveredSplits(w, s, tol);
    PresenceSplits(w, s, tol);
    OneMoreFinished(|Before(Covered(s, tol), w.start)|, k + 1,
      |Before(Filled(s, tol), w.start)|, tol, lasted, w.end - w.start);
    TimesIsProduct(tol, k + 1);
  }
}
