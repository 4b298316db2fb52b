/**
 * Blocks and presence in terms of a set of segments and whole milliseconds, and the blocks in the order
 * of the sweep. Segments may be of any kind, also such that leave before they join.
 */
module PresenceBlocks {
  import opened Collections
  import opened Presence

  /** The tolerance in whole milliseconds; a fraction of one cannot matter. */
  function ToleranceMs(tolerance: real): int {
    (tolerance * 1000.0).Floor
  }

  lemma GapWithinTolerance(gap: int, tolerance: real)
    ensures gap as real / 1000.0 <= tolerance <==> gap <= ToleranceMs(tolerance)
  {
    assert gap as real / 1000.0 <= tolerance <==> gap as real <= tolerance * 1000.0;
  }

  // ----- blocks and presence, without an order -----

  /** Someone joins at j, and no segment with an earlier join reaches that far, even with the tolerance. */
  ghost predicate Begins(s: set<Segment>, tol: int, j: int) {
    && (exists a :: a in s && a.join == j)
    && (forall b :: b in s && b.join < j ==> b.leave + tol < j)
  }

  ghost predicate IsBlockStarts(r: set<int>, s: set<Segment>, tol: int) {
    forall j :: j in r <==> Begins(s, tol, j)
  }

  lemma BlockStartsExist(s: set<Segment>, tol: int)
    ensures exists r :: IsBlockStarts(r, s, tol)
  {
    assert IsBlockStarts(set a | a in s && Begins(s, tol, a.join) :: a.join, s, tol);
  }

  /** The moments at which a block begins. */
  ghost function BlockStarts(s: set<Segment>, tol: int): (r: set<int>)
    ensures forall j :: j in r <==> Begins(s, tol, j)
  {
    BlockStartsExist(s, tol);
    var r :| IsBlockStarts(r, s, tol);
    r
  }

  /** No block begins after t and by the time of the join. */
  ghost predicate Unbroken(s: set<Segment>, tol: int, t: int, join: int) {
    forall j {:trigger Begins(s, tol, j)} :: Begins(s, tol, j) ==> !(t < j <= join)
  }

  ghost predicate Spans(s: set<Segment>, tol: int, a: Segment, b: Segment, t: int) {
    a in s && b in s && a.join <= t < b.leave && Unbroken(s, tol, t, b.join)
  }

  /** A moment of presence: after a join and before a leave, with no block beginning in between. */
  ghost predicate Present(s: set<Segment>, tol: int, t: int) {
    exists a, b :: Spans(s, tol, a, b, t)
  }

  ghost predicate IsFilled(r: set<int>, s: set<Segment>, tol: int) {
    forall t :: t in r <==> Present(s, tol, t)
  }

  lemma FilledExists(s: set<Segment>, tol: int)
    ensures exists r :: IsFilled(r, s, tol)
  {
    var r := set a, b, t | a in s && b in s && a.join <= t < b.leave && Present(s, tol, t) :: t;
    forall t | Present(s, tol, t)
      ensures t in r
    {
      var a, b :| Spans(s, tol, a, b, t);
    }
    assert IsFilled(r, s, tol);
  }

  /** All moments of presence. */
  ghost function Filled(s: set<Segment>, tol: int): (r: set<int>)
    ensures forall t :: t in r <==> Present(s, tol, t)
  {
    FilledExists(s, tol);
    var r :| IsFilled(r, s, tol);
    r
  }

  /** A moment of some stretch [join, leave + tolerance). */
  ghost predicate Reached(s: set<Segment>, tol: int, t: int) {
    exists a :: a in s && a.join <= t < a.leave + tol
  }

  ghost predicate IsCovered(r: set<int>, s: set<Segment>, tol: int) {
    forall t :: t in r <==> Reached(s, tol, t)
  }

  lemma CoveredExists(s: set<Segment>, tol: int)
    ensures exists r :: IsCovered(r, s, tol)
  {
    var r := set a, t | a in s && a.join <= t < a.leave + tol && Reached(s, tol, t) :: t;
    assert IsCovered(r, s, tol);
  }

  /** The union of those stretches. */
  ghost function Covered(s: set<Segment>, tol: int): (r: set<int>)
    ensures forall t :: t in r <==> Reached(s, tol, t)
  {
    CoveredExists(s, tol);
    var r :| IsCovered(r, s, tol);
    r
  }

  ghost predicate WellFormed(s: set<Segment>) {
    forall a :: a in s ==> a.join <= a.leave
  }

  ghost predicate IsEarliest(s: set<Segment>, t: int, d: Segment) {
    d in s && t < d.join && forall c :: c in s && t < c.join ==> d.join <= c.join
  }

  lemma {:induction false} EarliestAfter(s: set<Segment>, t: int, b: Segment) returns (d: Segment)
    requires b in s && t < b.join
    ensures IsEarliest(s, t, d)
    decreases s
  {
    d := b;
    if c :| c in s && t < c.join < b.join {
      d := EarliestAfter(s - {b}, t, c);
    }
  }

  /** One segment spans the moment, or one before it reaches another that leaves after it. */
  ghost predicate Connected(s: set<Segment>, tol: int, t: int) {
    exists a, b :: a in s && b in s && a.join <= t < b.leave && (a == b || b.join <= a.leave + tol)
  }

  /**
   * What the tolerance connects is presence, and if no segment leaves before it joins there is no other;
   * from a tolerance of minus a millisecond on, a segment that spans a moment connects with itself.
   */
  lemma PresentIsConnected(s: set<Segment>, tol: int, t: int)
    ensures Connected(s, tol, t) ==> Present(s, tol, t)
    ensures WellFormed(s) ==> (Present(s, tol, t) <==> Connected(s, tol, t))
    ensures tol >= -1 ==> (Connected(s, tol, t) <==>
      exists a, b :: a in s && b in s && a.join <= t < b.leave && b.join <= a.leave + tol)
  {
    if WellFormed(s) && Present(s, tol, t) {
      var a, b :| Spans(s, tol, a, b, t);
      if t < b.join {
        var d := EarliestAfter(s, t, b);
        assert !Begins(s, tol, d.join);
        var c :| c in s && c.join < d.join && c.leave + tol >= d.join;
        assert c.join <= t < d.leave;
      }
    }
    if a, b :| a in s && b in s && a.join <= t < b.leave && (a == b || b.join <= a.leave + tol) {
      assert Spans(s, tol, a, b, t);
    }
  }

  // ----- blocks in the order of the sweep -----

  /** No segment before reaches the one at i. */
  ghost predicate StartsAt(s: seq<Segment>, i: nat, tol: int) {
    i < |s| && forall k :: 0 <= k < i ==> s[k].leave + tol < s[i].join
  }

  /** How many blocks the sweep forms. */
  ghost function StartCount(s: seq<Segment>, tol: int): nat {
    if s == [] then 0
    else StartCount(s[..|s| - 1], tol) + if StartsAt(s, |s| - 1, tol) then 1 else 0
  }

  /** What the sweep knows of the segments so far: its open stretch, and that nothing else reaches further. */
  ghost predicate KnowsReach(w: Sweep, s: set<Segment>, tol: int) {
    && (exists a :: a in s && a.join == w.start)
    && (exists b :: b in s && b.leave == w.end)
    && forall b :: b in s ==> b.leave <= w.end || b.leave + tol < w.start
  }

  ghost predicate JoinsLast(x: Segment, s: set<Segment>) {
    forall a :: a in s ==> a.join <= x.join
  }

  lemma StepKnowsReach(w: Sweep, s: set<Segment>, x: Segment, tolerance: real)
    requires KnowsReach(w, s, ToleranceMs(tolerance)) && JoinsLast(x, s)
    ensures KnowsReach(SweepStep(w, x, tolerance), s + {x}, ToleranceMs(tolerance))
    ensures x.join - w.end <= ToleranceMs(tolerance) <==> IsReached(x, s, ToleranceMs(tolerance))
  {
    GapWithinTolerance(x.join - w.end, tolerance);
    assert w.start <= x.join;
  }

  lemma LastOne(s: seq<Segment>)
    requires s != [] && SortedByJoin(s)
    ensures Elements(s) == Elements(s[..|s| - 1]) + {s[|s| - 1]}
    ensures JoinsLast(s[|s| - 1], Elements(s[..|s| - 1])) && SortedByJoin(s[..|s| - 1])
  {
    assert s == s[..|s| - 1] + [s[|s| - 1]];
  }

  lemma {:induction false} SweepKnowsReach(s: seq<Segment>, tolerance: real)
    requires s != [] && SortedByJoin(s)
    ensures KnowsReach(SweepAll(s, tolerance), Elements(s), ToleranceMs(tolerance))
  {
    LastOne(s);
    if |s| > 1 {
      SweepKnowsReach(s[..|s| - 1], tolerance);
      StepKnowsReach(SweepAll(s[..|s| - 1], tolerance), Elements(s[..|s| - 1]), s[|s| - 1], tolerance);
    } else {
      assert s[0] in Elements(s);
    }
  }

  lemma StartsWhenNotReached(s: seq<Segment>, tol: int)
    requires s != []
    ensures StartsAt(s, |s| - 1, tol) <==> !IsReached(s[|s| - 1], Elements(s[..|s| - 1]), tol)
  {
    var init := s[..|s| - 1];
    assert forall k :: 0 <= k < |init| ==> init[k] == s[k] && init[k] in Elements(init);
  }

  /** Every segment that begins no block is counted as a reconnection, whatever segments and tolerance. */
  lemma {:induction false} ReconnectionsExactly(s: seq<Segment>, tolerance: real)
    requires s != [] && SortedByJoin(s)
    ensures SweepAll(s, tolerance).reconnections + StartCount(s, ToleranceMs(tolerance)) == |s|
  {
    var tol, init, x := ToleranceMs(tolerance), s[..|s| - 1], s[|s| - 1];
    if |s| > 1 {
      ReconnectionsExactly(init, tolerance);
      LastOne(s);
      SweepKnowsReach(init, tolerance);
      StepKnowsReach(SweepAll(init, tolerance), Elements(init), x, tolerance);
      StartsWhenNotReached(s, tol);
      GapWithinTolerance(x.join - SweepAll(init, tolerance).end, tolerance);
    } else {
      assert StartCount(s[..0], tol) == 0;
    }
  }

  /** Of segments that do not leave before they join, the first of each block start is the only one counted. */
  lemma {:induction false} StartCountIsBlocks(s: seq<Segment>, tol: int)
    requires SortedByJoin(s) && WellFormed(Elements(s)) && tol >= 0
    ensures StartCount(s, tol) == |BlockStarts(Elements(s), tol)|
  {
    if s == [] {
      forall j
        ensures j !in BlockStarts(Elements(s), tol)
      {
        assert !Begins(Elements(s), tol, j);
      }
    } else {
      var init, x := s[..|s| - 1], s[|s| - 1];
      LastOne(s);
      StartCountIsBlocks(init, tol);
      StartsWhenNotReached(s, tol);
      OneMoreStart(Elements(init), x, tol);
    }
  }

  lemma OneMoreStart(s: set<Segment>, x: Segment, tol: int)
    requires JoinsLast(x, s) && WellFormed(s) && tol >= 0
    ensures |BlockStarts(s + {x}, tol)| == |BlockStarts(s, tol)| + if IsReached(x, s, tol) then 0 else 1
  {
    var was, now := BlockStarts(s, tol), BlockStarts(s + {x}, tol);
    forall j
      ensures j in now <==> j in was || (j == x.join && !IsReached(x, s, tol))
    {
      StartsWithLastAt(s, x, tol, j);
      assert j in now <==> Begins(s + {x}, tol, j);
    }
    if IsReached(x, s, tol) {
      assert now == was;
    } else {
      assert x.join !in was;
      assert now == was + {x.join};
    }
  }

  ghost predicate IsReached(x: Segment, s: set<Segment>, tol: int) {
    exists b :: b in s && x.join <= b.leave + tol
  }

  /** The larger set has the same blocks beginning. */
  ghost predicate SameStarts(s: set<Segment>, s': set<Segment>, tol: int) {
    forall j {:trigger Begins(s', tol, j)} {:trigger Begins(s, tol, j)} :: Begins(s', tol, j) <==> Begins(s, tol, j)
  }

  /** And one more. */
  ghost predicate OneStartMore(s: set<Segment>, s': set<Segment>, tol: int, q: int) {
    forall j {:trigger Begins(s', tol, j)} {:trigger Begins(s, tol, j)} ::
      Begins(s', tol, j) <==> Begins(s, tol, j) || j == q
  }

  lemma StartsWithLastAt(s: set<Segment>, x: Segment, tol: int, j: int)
    requires JoinsLast(x, s)
    ensures Begins(s + {x}, tol, j) <==> Begins(s, tol, j) || (j == x.join && !IsReached(x, s, tol))
  {
    var s' := s + {x};
    if Begins(s, tol, j) {
      var a :| a in s && a.join == j;
      assert a in s';
    }
    if j == x.join {
      assert x in s';
      if b :| b in s && x.join <= b.leave + tol {
        if Begins(s', tol, j) { assert b.join == j; }
      }
    } else if Begins(s', tol, j) {
      var a :| a in s' && a.join == j;
      assert a in s;
    }
  }

  /** A segment that joins last begins a block if nothing reaches it, and changes no other. */
  lemma StartsWithLast(s: set<Segment>, x: Segment, tol: int)
    requires JoinsLast(x, s)
    ensures if IsReached(x, s, tol) then SameStarts(s, s + {x}, tol) else OneStartMore(s, s + {x}, tol, x.join)
  {
    forall j
      ensures Begins(s + {x}, tol, j) <==> Begins(s, tol, j) || (j == x.join && !IsReached(x, s, tol))
    {
      StartsWithLastAt(s, x, tol, j);
    }
  }
}
