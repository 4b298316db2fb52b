/** How the attendance answers to more tolerance and to more segments, and which tolerances are sound. */
module PresenceChange {
  import opened Collections
  import opened Options
  import opened Presence
  import opened PresenceBlocks
  import opened PresenceMeasure
  import opened PresenceMeaning

  function Rank(p: PresenceType): nat {
    match p
    case Ausente => 0
    case Parcial => 1
    case Integral => 2
  }

  /** No field that measures presence is lower; an absent result counts as lowest. */
  ghost predicate NoLower(a: Option<Attendance>, b: Option<Attendance>) {
    a.Some? ==>
      && b.Some?
      && a.value.totalSeconds <= b.value.totalSeconds
      && a.value.reconnections <= b.value.reconnections
      && Rank(a.value.presence) <= Rank(b.value.presence)
  }

  lemma RoundMonotone(a: int, b: int, duration: real, threshold: real)
    requires 0 <= a <= b
    ensures var ra, rb := Round(a as real / 1000.0), Round(b as real / 1000.0);
      && ra <= rb
      && Rank(Classify(ra, duration, threshold)) <= Rank(Classify(rb, duration, threshold))
  {
    assert 0 <= Round(a as real / 1000.0) <= Round(b as real / 1000.0);
  }

  /** With the total as described, more presence and no more blocks for the segments lower nothing. */
  lemma DescribesNoLower(a: Attendance, s: set<Segment>, blocks: nat, n: nat, tol: int,
                         b: Attendance, s': set<Segment>, blocks': nat, n': nat, tol': int,
                         duration: real, threshold: real)
    requires Frames(a, s, blocks, n, tol, duration, threshold) && Measures(a, s, tol)
    requires Frames(b, s', blocks', n', tol', duration, threshold) && Measures(b, s', tol')
    requires |Filled(s, tol)| <= |Filled(s', tol')| && blocks' + n <= blocks + n'
    ensures NoLower(Some(a), Some(b))
  {
    RoundMonotone(|Filled(s, tol)|, |Filled(s', tol')|, duration, threshold);
  }

  lemma FilledGrowsWithTolerance(s: set<Segment>, tol: int, tol': int)
    requires tol <= tol'
    ensures |Filled(s, tol)| <= |Filled(s, tol')|
  {
    forall t | t in Filled(s, tol)
      ensures t in Filled(s, tol')
    {
      assert Present(s, tol, t);
      var a, b :| Spans(s, tol, a, b, t);
      assert forall j :: Begins(s, tol', j) ==> Begins(s, tol, j);
      assert Spans(s, tol', a, b, t);
      assert Present(s, tol', t);
    }
    SubsetCardinality(Filled(s, tol), Filled(s, tol'));
  }

  lemma {:induction false} FewerStarts(s: seq<Segment>, tol: int, tol': int)
    requires tol <= tol'
    ensures StartCount(s, tol') <= StartCount(s, tol)
  {
    if s != [] { FewerStarts(s[..|s| - 1], tol, tol'); }
  }

  /** From a tolerance of minus a millisecond on, a longer one never counts less. */
  lemma RaisingToleranceNeverLowers(input: Input, tolerance: real)
    requires -0.001 <= Tolerance(input) <= tolerance
    ensures NoLower(AttendanceOf(input), AttendanceOf(input.(tolerance := Some(tolerance))))
  {
    var raised, sorted := input.(tolerance := Some(tolerance)), Sorted(input);
    var tol, tol' := ToleranceMs(Tolerance(input)), ToleranceMs(tolerance);
    AttendanceMeaning(input);
    AttendanceMeaning(raised);
    FewerStarts(sorted, tol, tol');
    FilledGrowsWithTolerance(Segments(input), tol, tol');
    if AttendanceOf(input).Some? {
      DescribesNoLower(AttendanceOf(input).value, Segments(input), StartCount(sorted, tol), |sorted|, tol,
        AttendanceOf(raised).value, Segments(input), StartCount(sorted, tol'), |sorted|, tol',
        input.duration, Threshold(input));
    }
  }

  /** One more segment begins no block in the middle of another. */
  lemma StillUnbroken(s: set<Segment>, x: Segment, tol: int, t: int, b: Segment)
    requires b in s && Unbroken(s, tol, t, b.join)
    ensures Unbroken(s + {x}, tol, t, b.join)
  {
    var s' := s + {x};
    forall j | Begins(s', tol, j)
      ensures !(t < j <= b.join)
    {
      if t < j <= b.join {
        var d := EarliestAfter(s, j - 1, b);
        assert d.join <= b.join;
        assert Begins(s, tol, d.join);
      }
    }
  }

  lemma FilledGrowsWithSegment(s: set<Segment>, x: Segment, tol: int)
    ensures |Filled(s, tol)| <= |Filled(s + {x}, tol)|
  {
    forall t | t in Filled(s, tol)
      ensures t in Filled(s + {x}, tol)
    {
      assert Present(s, tol, t);
      var a, b :| Spans(s, tol, a, b, t);
      StillUnbroken(s, x, tol, t, b);
      assert Spans(s + {x}, tol, a, b, t);
      assert Present(s + {x}, tol, t);
    }
    SubsetCardinality(Filled(s, tol), Filled(s + {x}, tol));
  }

  lemma StillStarts(u: seq<Segment>, x: Segment, v: seq<Segment>, tol: int)
    requires v != [] && StartsAt(u + [x] + v, |u| + |v|, tol)
    ensures StartsAt(u + v, |u| + |v| - 1, tol)
  {
    var longer, shorter := u + [x] + v, u + v;
    forall k | 0 <= k < |shorter|
      ensures shorter[k] == longer[if k < |u| then k else k + 1]
    {
    }
  }

  lemma {:induction false} OneStartMoreAtMost(u: seq<Segment>, x: Segment, v: seq<Segment>, tol: int)
    ensures StartCount(u + [x] + v, tol) <= StartCount(u + v, tol) + 1
  {
    var longer, shorter := u + [x] + v, u + v;
    if v == [] {
      assert longer[..|u|] == u && shorter == u;
    } else {
      var n := |v| - 1;
      assert longer[..|u| + |v|] == u + [x] + v[..n] && shorter[..|u| + n] == u + v[..n];
      OneStartMoreAtMost(u, x, v[..n], tol);
      if StartsAt(longer, |u| + |v|, tol) { StillStarts(u, x, v, tol); }
    }
  }

  lemma {:induction false} InsertSplits(s: seq<Segment>, x: Segment) returns (p: nat)
    ensures p <= |s| && InsertByJoin(s, x) == s[..p] + [x] + s[p..]
  {
    if s == [] || x.join < s[0].join {
      p := 0;
    } else {
      var q := InsertSplits(s[1..], x);
      p := q + 1;
      assert s[..p] == [s[0]] + s[1..][..q] && s[p..] == s[1..][q..];
    }
  }

  /** One more usable segment is inserted among the sorted ones. */
  lemma AppendedSegment(input: Input, extra: RawSegment)
    ensures var more := input.(segments := input.segments + [extra]);
      if !Usable(extra) then UsableSegments(more.segments) == UsableSegments(input.segments)
      else Sorted(more) == InsertByJoin(Sorted(input), ToSegment(extra))
           && Segments(more) == Segments(input) + {ToSegment(extra)}
  {
    var segs := UsableSegments(input.segments);
    UsableConcat(input.segments, [extra]);
    if Usable(extra) {
      var segs' := segs + [ToSegment(extra)];
      assert UsableSegments(input.segments + [extra]) == segs';
      assert segs'[..|segs|] == segs;
    }
  }

  lemma OneStartMoreSorted(s: seq<Segment>, x: Segment, tol: int)
    ensures StartCount(InsertByJoin(s, x), tol) <= StartCount(s, tol) + 1
    ensures |InsertByJoin(s, x)| == |s| + 1
  {
    var p := InsertSplits(s, x);
    OneStartMoreAtMost(s[..p], x, s[p..], tol);
    assert s[..p] + s[p..] == s;
  }

  /** One more segment never counts less, wherever it lies and whatever its kind. */
  lemma AddingSegmentNeverLowers(input: Input, extra: RawSegment)
    requires Tolerance(input) >= -0.001
    ensures NoLower(AttendanceOf(input), AttendanceOf(input.(segments := input.segments + [extra])))
  {
    var more := input.(segments := input.segments + [extra]);
    var sorted, tol := Sorted(input), ToleranceMs(Tolerance(input));
    AppendedSegment(input, extra);
    if Usable(extra) && AttendanceOf(input).Some? {
      var x := ToSegment(extra);
      OneStartMoreSorted(sorted, x, tol);
      FilledGrowsWithSegment(Segments(input), x, tol);
      AttendanceMeaning(input);
      AttendanceMeaning(more);
      DescribesNoLower(AttendanceOf(input).value, Segments(input), StartCount(sorted, tol), |sorted|, tol,
        AttendanceOf(more).value, Segments(more), StartCount(Sorted(more), tol), |Sorted(more)|, tol,
        input.duration, Threshold(input));
    }
  }

  // ----- inputs made of given segments -----

  function Raw(s: seq<Segment>): seq<RawSegment> {
    if s == [] then [] else [RawSegment(At(s[0].join), LeftAt(At(s[0].leave)))] + Raw(s[1..])
  }

  lemma {:induction false} UsableRaw(s: seq<Segment>)
    ensures UsableSegments(Raw(s)) == s
  {
    if s != [] {
      UsableRaw(s[1..]);
      assert Raw(s)[1..] == Raw(s[1..]);
    }
  }

  function InputOf(s: seq<Segment>, duration: real, tolerance: real): Input {
    Input(Raw(s), duration, Some(tolerance), None)
  }

  lemma InputTotals(s: seq<Segment>, duration: real, tolerance: real)
    requires s != [] && SortedByJoin(s)
    ensures Sorted(InputOf(s, duration, tolerance)) == s
    ensures AttendanceOf(InputOf(s, duration, tolerance)).Some?
    ensures AttendanceOf(InputOf(s, duration, tolerance)).value.totalSeconds == Round(Flush(SweepAll(s, tolerance)))
  {
    UsableRaw(s);
    SortOfSorted(s);
  }

  lemma SweepTwo(a: Segment, b: Segment, tolerance: real)
    ensures SweepAll([a, b], tolerance) == SweepStep(Sweep(0.0, 0, a.join, a.leave), b, tolerance)
  {
    assert [a, b][..1] == [a];
  }

  /** Two segments that overlap, by less than a negative tolerance asks for or not. */
  lemma TwoOverlapping(a: Segment, b: Segment, tolerance: real)
    requires a.join <= b.join <= a.leave <= b.leave
    ensures Flush(SweepAll([a, b], tolerance)) * 1000.0 ==
      if b.join - a.leave <= ToleranceMs(tolerance) then (b.leave - a.join) as real
      else (a.leave - a.join + b.leave - b.join) as real
  {
    SweepTwo(a, b, tolerance);
    GapWithinTolerance(b.join - a.leave, tolerance);
    FlushMs(SweepAll([a, b], tolerance));
  }

  lemma RawTwo(a: Segment, b: Segment)
    ensures Raw([a, b]) == [RawSegment(At(a.join), LeftAt(At(a.leave))), RawSegment(At(b.join), LeftAt(At(b.leave)))]
  {
    assert [a, b][1..] == [b] && [b][1..] == [];
    assert Raw([b]) == [RawSegment(At(b.join), LeftAt(At(b.leave)))];
    assert Raw([a, b]) == [RawSegment(At(a.join), LeftAt(At(a.leave)))] + Raw([b]);
  }

  /** The rounded totals of two overlapping segments, by whether the overlap is enough for the tolerance. */
  lemma TwoOverlappingRounded(a: Segment, b: Segment, duration: real, tolerance: real, seconds: int)
    requires a.join <= b.join <= a.leave <= b.leave
    requires seconds * 1000 == if b.join - a.leave <= ToleranceMs(tolerance) then b.leave - a.join
                               else a.leave - a.join + b.leave - b.join
    ensures var r := AttendanceOf(InputOf([a, b], duration, tolerance));
      r.Some? && r.value.totalSeconds == seconds
  {
    InputTotals([a, b], duration, tolerance);
    TwoOverlapping(a, b, tolerance);
  }

  /** With a tolerance of minus ten seconds five seconds count twice, and without any they do not. */
  lemma NegativeToleranceCountsTwice(duration: real)
    ensures var segs := [RawSegment(At(0), LeftAt(At(10_000))), RawSegment(At(5_000), LeftAt(At(15_000)))];
      var negative := AttendanceOf(Input(segs, duration, Some(-10.0), None));
      var none := AttendanceOf(Input(segs, duration, Some(0.0), None));
      negative.Some? && none.Some? && negative.value.totalSeconds == 20 && none.value.totalSeconds == 15
  {
    var a, b := Segment(0, 10_000), Segment(5_000, 15_000);
    RawTwo(a, b);
    TwoOverlappingRounded(a, b, duration, -10.0, 20);
    TwoOverlappingRounded(a, b, duration, 0.0, 15);
  }

  // ----- the tolerances for which nothing goes wrong -----

  const SPLIT := [Segment(0, 250), Segment(249, 499)]

  /** Below minus a millisecond, an overlap of one millisecond counts twice. */
  lemma SplitTotals(tolerance: real)
    requires tolerance < -0.001
    ensures Flush(SweepAll(SPLIT, tolerance)) == 0.5 && Flush(SweepAll(SPLIT, 0.0)) < 0.5
  {
    TwoOverlapping(SPLIT[0], SPLIT[1], tolerance);
    TwoOverlapping(SPLIT[0], SPLIT[1], 0.0);
    assert SPLIT == [SPLIT[0], SPLIT[1]];
  }

  lemma FilledWithin(s: set<Segment>, tol: int, lo: int, hi: int)
    requires lo <= hi && forall a :: a in s ==> lo <= a.join && a.leave <= hi
    ensures |Filled(s, tol)| <= hi - lo
  {
    forall t | t in Filled(s, tol)
      ensures t in Interval(lo, hi)
    {
      assert Present(s, tol, t);
      var a, b :| Spans(s, tol, a, b, t);
    }
    SubsetCardinality(Filled(s, tol), Interval(lo, hi));
  }

  ghost predicate TotalsMeasure(tolerance: real) {
    forall s :: s != [] && SortedByJoin(s) ==>
      Flush(SweepAll(s, tolerance)) == |Filled(Elements(s), ToleranceMs(tolerance))| as real / 1000.0
  }

  /** The total is the measure of presence for all segments exactly from a tolerance of minus a millisecond on. */
  lemma MeasureExactly(tolerance: real)
    ensures TotalsMeasure(tolerance) <==> tolerance >= -0.001
  {
    if tolerance >= -0.001 {
      forall s | s != [] && SortedByJoin(s)
        ensures Flush(SweepAll(s, tolerance)) == |Filled(Elements(s), ToleranceMs(tolerance))| as real / 1000.0
      {
        TotalIsMeasure(s, tolerance);
      }
    } else {
      SplitTotals(tolerance);
      FilledWithin(Elements(SPLIT), ToleranceMs(tolerance), 0, 499);
      assert SortedByJoin(SPLIT);
    }
  }

  ghost predicate RaisingIsSafe(tolerance: real) {
    forall input: Input, longer: real :: Tolerance(input) == tolerance && tolerance <= longer ==>
      NoLower(AttendanceOf(input), AttendanceOf(input.(tolerance := Some(longer))))
  }

  /** Raising a tolerance never lowers anything exactly from a tolerance of minus a millisecond on. */
  lemma RaisingExactly(tolerance: real)
    ensures RaisingIsSafe(tolerance) <==> tolerance >= -0.001
  {
    if tolerance >= -0.001 {
      forall input: Input, longer: real | Tolerance(input) == tolerance && tolerance <= longer
        ensures NoLower(AttendanceOf(input), AttendanceOf(input.(tolerance := Some(longer))))
      {
        RaisingToleranceNeverLowers(input, longer);
      }
    } else {
      var input := InputOf(SPLIT, 0.0, tolerance);
      SplitTotals(tolerance);
      InputTotals(SPLIT, 0.0, tolerance);
      InputTotals(SPLIT, 0.0, 0.0);
      assert input.(tolerance := Some(0.0)) == InputOf(SPLIT, 0.0, 0.0);
      assert !NoLower(AttendanceOf(input), AttendanceOf(input.(tolerance := Some(0.0))));
    }
  }

  /** Two segments that overlap by a millisecond, and one that bridges them so that both are reached. */
  lemma BridgedTotals(tolerance: real, t: int, n: int)
    requires tolerance < -0.001 && t == -ToleranceMs(tolerance) && n == 250 + 500 * t
    ensures t >= 2
    ensures Flush(SweepAll([Segment(0, n), Segment(n - 1, 2 * n - 1)], tolerance)) == t as real + 0.5
    ensures Flush(SweepAll([Segment(0, n), Segment(n - t, n - 1 + t), Segment(n - 1, 2 * n - 1)], tolerance))
            < t as real + 0.5
  {
    var a, x, b := Segment(0, n), Segment(n - t, n - 1 + t), Segment(n - 1, 2 * n - 1);
    TwoOverlapping(a, b, tolerance);
    SweepTwo(a, x, tolerance);
    GapWithinTolerance(x.join - a.leave, tolerance);
    assert SweepAll([a, x], tolerance) == Sweep(0.0, 1, 0, n - 1 + t);
    GapWithinTolerance(b.join - (n - 1 + t), tolerance);
    assert [a, x, b][..2] == [a, x];
    assert SweepAll([a, x, b], tolerance) == Sweep(0.0, 2, 0, 2 * n - 1);
    FlushMs(SweepAll([a, x, b], tolerance));
  }

  ghost predicate AddingIsSafe(tolerance: real) {
    forall input: Input, extra: RawSegment :: Tolerance(input) == tolerance ==>
      NoLower(AttendanceOf(input), AttendanceOf(input.(segments := input.segments + [extra])))
  }

  lemma InsertBetween(a: Segment, x: Segment, b: Segment)
    requires a.join <= x.join < b.join
    ensures InsertByJoin([a, b], x) == [a, x, b]
  {
    assert [a, b][1..] == [b];
    assert InsertByJoin([b], x) == [x] + [b];
    assert InsertByJoin([a, b], x) == [a] + InsertByJoin([b], x);
  }

  function RawOf(x: Segment): RawSegment {
    RawSegment(At(x.join), LeftAt(At(x.leave)))
  }

  lemma AddedTotal(s: seq<Segment>, x: Segment, duration: real, tolerance: real)
    requires s != [] && SortedByJoin(s)
    ensures var input := InputOf(s, duration, tolerance);
      var r := AttendanceOf(input.(segments := input.segments + [RawOf(x)]));
      r.Some? && r.value.totalSeconds == Round(Flush(SweepAll(InsertByJoin(s, x), tolerance)))
  {
    var input := InputOf(s, duration, tolerance);
    InputTotals(s, duration, tolerance);
    AppendedSegment(input, RawOf(x));
    assert Usable(RawOf(x)) && ToSegment(RawOf(x)) == x;
    assert Sorted(input.(segments := input.segments + [RawOf(x)])) == InsertByJoin(s, x);
  }

  lemma HalfRoundsUp(t: int, x: real, y: real)
    requires x == t as real + 0.5 && y < t as real + 0.5
    ensures Round(y) < Round(x)
  {
    var up, down := Round(x), Round(y);
    assert x + 0.5 == (t + 1) as real;
    assert up as real <= (t + 1) as real < up as real + 1.0;
    assert down as real <= y + 0.5 < (t + 1) as real;
  }

  /** An input whose total falls when one more segment is added. */
  lemma BridgeLowers(tolerance: real) returns (input: Input, extra: RawSegment)
    requires tolerance < -0.001
    ensures Tolerance(input) == tolerance
    ensures !NoLower(AttendanceOf(input), AttendanceOf(input.(segments := input.segments + [extra])))
  {
    var t := -ToleranceMs(tolerance);
    var n := 250 + 500 * t;
    var a, x, b := Segment(0, n), Segment(n - t, n - 1 + t), Segment(n - 1, 2 * n - 1);
    BridgedTotals(tolerance, t, n);
    HalfRoundsUp(t, Flush(SweepAll([a, b], tolerance)), Flush(SweepAll([a, x, b], tolerance)));
    InsertBetween(a, x, b);
    InputTotals([a, b], 0.0, tolerance);
    AddedTotal([a, b], x, 0.0, tolerance);
    input, extra := InputOf([a, b], 0.0, tolerance), RawOf(x);
  }

  /** One more segment never lowers anything exactly from a tolerance of minus a millisecond on. */
  lemma AddingExactly(tolerance: real)
    ensures AddingIsSafe(tolerance) <==> tolerance >= -0.001
  {
    if tolerance >= -0.001 {
      forall input: Input, extra: RawSegment | Tolerance(input) == tolerance
        ensures NoLower(AttendanceOf(input), AttendanceOf(input.(segments := input.segments + [extra])))
      {
        AddingSegmentNeverLowers(input, extra);
      }
    } else {
      var input, extra := BridgeLowers(tolerance);
    }
  }
}
