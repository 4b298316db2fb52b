/** What the attendance says about the segments, and how it answers to more tolerance and more segments. */
module PresenceMeaning {
  import opened Collections
  import opened Options
  import opened Presence
  import opened PresenceBlocks
  import opened PresenceMeasure
  import opened PresenceCover
  import opened PresenceOverlap

  // ----- what the result says -----

  ghost predicate IsEarliestJoin(s: set<Segment>, t: int) {
    (exists a :: a in s && a.join == t) && forall a :: a in s ==> t <= a.join
  }

  ghost predicate IsLatestLeave(s: set<Segment>, t: int) {
    (exists a :: a in s && a.leave == t) && forall a :: a in s ==> a.leave <= t
  }

  /** Any segment that leaves later left before a block began, and too early to reach it. */
  ghost predicate IsLastLeave(s: set<Segment>, tol: int, t: int) {
    && (exists a :: a in s && a.leave == t)
    && forall a :: a in s && a.leave > t ==> exists j :: Begins(s, tol, j) && a.leave + tol < j
  }

  /** Times, reconnections and class of n segments that form the set s and so many blocks, for any tolerance. */
  ghost predicate Frames(a: Attendance, s: set<Segment>, blocks: nat, n: nat, tol: int,
                         duration: real, threshold: real) {
    && IsEarliestJoin(s, a.joinTime)
    && IsLastLeave(s, tol, a.leaveTime)
    && a.reconnections + blocks == n
    && a.presence == Classify(a.totalSeconds, duration, threshold)
  }

  /** And the total. */
  ghost predicate Measures(a: Attendance, s: set<Segment>, tol: int) {
    a.totalSeconds == Round(|Filled(s, tol)| as real / 1000.0)
  }

  function Threshold(input: Input): real {
    input.threshold.GetOr(PRESENCE_INTEGRAL_THRESHOLD)
  }

  function Sorted(input: Input): seq<Segment> {
    SortByJoin(UsableSegments(input.segments))
  }

  ghost function Segments(input: Input): set<Segment> {
    Elements(UsableSegments(input.segments))
  }

  lemma SameElements(a: seq<Segment>, b: seq<Segment>)
    requires multiset(a) == multiset(b)
    ensures Elements(a) == Elements(b) && |a| == |b|
  {
    assert |multiset(a)| == |multiset(b)|;
    forall x
      ensures x in a <==> x in b
    {
      assert x in a <==> x in multiset(a);
      assert x in b <==> x in multiset(b);
    }
  }

  lemma SortedSegments(input: Input)
    ensures SortedByJoin(Sorted(input)) && Elements(Sorted(input)) == Segments(input)
    ensures |Sorted(input)| == |UsableSegments(input.segments)|
  {
    SortIsSorted(UsableSegments(input.segments));
    SameElements(Sorted(input), UsableSegments(input.segments));
  }

  lemma {:induction false} SortedInsertLast(s: seq<Segment>, x: Segment)
    requires JoinsLast(x, Elements(s))
    ensures InsertByJoin(s, x) == s + [x]
  {
    if s != [] {
      assert s[0] in Elements(s) && forall y :: y in s[1..] ==> y in Elements(s);
      SortedInsertLast(s[1..], x);
    }
  }

  lemma {:induction false} SortOfSorted(s: seq<Segment>)
    requires SortedByJoin(s)
    ensures SortByJoin(s) == s
  {
    if s != [] {
      var init, x := s[..|s| - 1], s[|s| - 1];
      LastOne(s);
      SortOfSorted(init);
      SortedInsertLast(init, x);
      assert s == init + [x];
      assert SortByJoin(s) == InsertByJoin(SortByJoin(init), x);
    }
  }

  lemma FirstIsEarliestJoin(s: seq<Segment>)
    requires s != [] && SortedByJoin(s)
    ensures IsEarliestJoin(Elements(s), s[0].join)
  {
    assert s[0] in Elements(s);
  }

  lemma EndIsLastLeave(s: seq<Segment>, tolerance: real)
    requires s != [] && SortedByJoin(s)
    ensures IsLastLeave(Elements(s), ToleranceMs(tolerance), SweepAll(s, tolerance).end)
  {
    var tol, w := ToleranceMs(tolerance), SweepAll(s, tolerance);
    SweepKnowsReach(s, tolerance);
    var p := SweepOpens(s, |s|, tolerance);
    assert s[..|s|] == s;
    OpenBlockBegins(s, p, tol);
    forall a | a in Elements(s) && a.leave > w.end
      ensures Begins(Elements(s), tol, w.start) && a.leave + tol < w.start
    {
      assert w.start == s[p].join;
    }
  }

  lemma OpenBlockBegins(s: seq<Segment>, p: nat, tol: int)
    requires SortedByJoin(s) && StartsAt(s, p, tol)
    ensures Begins(Elements(s), tol, s[p].join)
  {
    forall b | b in Elements(s) && b.join < s[p].join
      ensures b.leave + tol < s[p].join
    {
      var k :| 0 <= k < |s| && s[k] == b;
      assert k < p;
    }
    assert s[p] in Elements(s);
  }

  /** No segment leaves later than the one at m, and no block begins after it. */
  ghost predicate IsLastLatest(s: seq<Segment>, m: nat, tol: int) {
    && m < |s|
    && (forall k :: 0 <= k < |s| ==> s[k].leave <= s[m].leave)
    && (forall i :: m < i < |s| ==> !StartsAt(s, i, tol))
  }

  /** Some segment with the latest leave of all has no block begin after it. */
  ghost predicate LatestInLastBlock(s: seq<Segment>, tol: int) {
    exists m :: IsLastLatest(s, m, tol)
  }

  lemma LatestEnds(w: Sweep, s: seq<Segment>, p: nat, tol: int, m: nat)
    requires KnowsOpenBlock(w, s, |s|, p, tol) && IsLastLatest(s, m, tol)
    ensures IsLatestLeave(Elements(s), w.end)
  {
    assert p <= m;
    assert s[m].leave == w.end && s[m] in Elements(s);
  }

  lemma EndIsInLastBlock(w: Sweep, s: seq<Segment>, p: nat, tol: int)
    requires KnowsOpenBlock(w, s, |s|, p, tol) && IsLatestLeave(Elements(s), w.end)
    ensures LatestInLastBlock(s, tol)
  {
    var m :| p <= m < |s| && s[m].leave == w.end;
    forall k | 0 <= k < |s|
      ensures s[k].leave <= s[m].leave
    {
      assert s[k] in Elements(s);
    }
    assert IsLastLatest(s, m, tol);
  }

  /** The sweep ends at the latest leave of all exactly if the last block holds a segment with it. */
  lemma EndIsLatestExactly(s: seq<Segment>, tolerance: real)
    requires s != [] && SortedByJoin(s)
    ensures IsLatestLeave(Elements(s), SweepAll(s, tolerance).end) <==> LatestInLastBlock(s, ToleranceMs(tolerance))
  {
    var tol, w := ToleranceMs(tolerance), SweepAll(s, tolerance);
    var p := SweepOpens(s, |s|, tolerance);
    assert s[..|s|] == s;
    if IsLatestLeave(Elements(s), w.end) { EndIsInLastBlock(w, s, p, tol); }
    if m :| IsLastLatest(s, m, tol) { LatestEnds(w, s, p, tol, m); }
  }

  /** It does if no segment leaves before it joins and the tolerance is at least minus a millisecond. */
  lemma WellFormedEndsLast(s: seq<Segment>, tol: int)
    requires s != [] && SortedByJoin(s) && WellFormed(Elements(s)) && tol >= -1
    ensures LatestInLastBlock(s, tol)
  {
    var m := LatestLeaver(s, |s|);
    forall i | m < i < |s|
      ensures !StartsAt(s, i, tol) || s[i].leave == s[m].leave
    {
      assert s[i] in Elements(s);
    }
    var last := LastWithLeave(s, m);
    forall i | last < i < |s|
      ensures !StartsAt(s, i, tol)
    {
      assert s[i] in Elements(s);
    }
    assert IsLastLatest(s, last, tol);
  }

  lemma {:induction false} LatestLeaver(s: seq<Segment>, n: nat) returns (m: nat)
    requires 0 < n <= |s|
    ensures m < n && forall k :: 0 <= k < n ==> s[k].leave <= s[m].leave
  {
    m := 0;
    if n > 1 {
      m := LatestLeaver(s, n - 1);
      if s[m].leave < s[n - 1].leave { m := n - 1; }
    }
  }

  lemma {:induction false} LastWithLeave(s: seq<Segment>, m: nat) returns (last: nat)
    requires m < |s|
    ensures m <= last < |s| && s[last].leave == s[m].leave
    ensures forall i :: last < i < |s| ==> s[i].leave != s[m].leave
    decreases |s| - m
  {
    last := m;
    if i :| m < i < |s| && s[i].leave == s[m].leave {
      last := LastWithLeave(s, i);
    }
  }

  lemma SortedMeaning(s: seq<Segment>, tolerance: real, duration: real, threshold: real, a: Attendance)
    requires s != [] && SortedByJoin(s)
    requires a.joinTime == s[0].join && a.leaveTime == SweepAll(s, tolerance).end
    requires a.reconnections == SweepAll(s, tolerance).reconnections
    requires a.presence == Classify(a.totalSeconds, duration, threshold)
    ensures Frames(a, Elements(s), StartCount(s, ToleranceMs(tolerance)), |s|, ToleranceMs(tolerance),
      duration, threshold)
  {
    ReconnectionsExactly(s, tolerance);
    EndIsLastLeave(s, tolerance);
    FirstIsEarliestJoin(s);
  }

  /**
   * The result in terms of the segments, for any segments and tolerance: when there is one, its times,
   * when its leave is the latest of all, its reconnections and its class; and its total, for a tolerance
   * of at least minus a millisecond.
   */
  lemma AttendanceMeaning(input: Input)
    ensures var S, tol, sorted, r := Segments(input), ToleranceMs(Tolerance(input)), Sorted(input), AttendanceOf(input);
      && (r.None? <==> UsableSegments(input.segments) == [])
      && (r.Some? ==>
            && Frames(r.value, S, StartCount(sorted, tol), |sorted|, tol, input.duration, Threshold(input))
            && (IsLatestLeave(S, r.value.leaveTime) <==> LatestInLastBlock(sorted, tol))
            && (Tolerance(input) >= -0.001 ==> Measures(r.value, S, tol)))
  {
    var sorted := Sorted(input);
    SortedSegments(input);
    if sorted != [] {
      SortedMeaning(sorted, Tolerance(input), input.duration, Threshold(input), AttendanceOf(input).value);
      EndIsLatestExactly(sorted, Tolerance(input));
      if Tolerance(input) >= -0.001 { TotalIsMeasure(sorted, Tolerance(input)); }
    }
  }

  /** If no segment leaves before it joins, the leave is the latest of all, and each block has a moment of its own. */
  lemma WellFormedMeaning(input: Input)
    requires WellFormed(Segments(input)) && AttendanceOf(input).Some?
    ensures Tolerance(input) >= -0.001 ==> IsLatestLeave(Segments(input), AttendanceOf(input).value.leaveTime)
    ensures Tolerance(input) >= 0.0 ==>
      AttendanceOf(input).value.reconnections + |BlockStarts(Segments(input), ToleranceMs(Tolerance(input)))|
      == |Sorted(input)|
  {
    var sorted, tol := Sorted(input), ToleranceMs(Tolerance(input));
    SortedSegments(input);
    AttendanceMeaning(input);
    if Tolerance(input) >= -0.001 { WellFormedEndsLast(sorted, tol); }
    if Tolerance(input) >= 0.0 { StartCountIsBlocks(sorted, tol); }
  }

  lemma RoundsToZero(ms: nat)
    ensures Round(ms as real / 1000.0) == 0 <==> ms < 500
  {
  }

  lemma SmallRoundsToZero(x: real)
    requires x >= 0.0
    ensures Round(x) == 0 <==> x < 0.5
  {
  }

  /**
   * Absent is whose unrounded total is less than half a second; that is, for a tolerance of at least
   * minus a millisecond, who was present for less than that.
   */
  lemma AbsentExactly(input: Input)
    requires AttendanceOf(input).Some?
    ensures var absent := AttendanceOf(input).value.presence == Ausente;
      && (absent <==> Flush(SweepAll(Sorted(input), Tolerance(input))) < 0.5)
      && (Tolerance(input) >= -0.001 ==>
            (absent <==> |Filled(Segments(input), ToleranceMs(Tolerance(input)))| < 500))
  {
    SweepNotNegative(Sorted(input), Tolerance(input));
    SmallRoundsToZero(Flush(SweepAll(Sorted(input), Tolerance(input))));
    if Tolerance(input) >= -0.001 {
      AttendanceMeaning(input);
      RoundsToZero(|Filled(Segments(input), ToleranceMs(Tolerance(input)))|);
    }
  }

  lemma {:induction false} SweepNotNegative(s: seq<Segment>, tolerance: real)
    requires s != []
    ensures SweepAll(s, tolerance).total >= 0.0 && Flush(SweepAll(s, tolerance)) >= 0.0
  {
    if |s| > 1 { SweepNotNegative(s[..|s| - 1], tolerance); }
  }

  lemma WellFormedLasts(s: seq<Segment>, tol: int)
    requires WellFormed(Elements(s))
    ensures AllLast(s, |s|, tol)
  {
    forall i | 0 <= i < |s| && StartsAt(s, i, tol)
      ensures Lasts(s, i, tol)
    {
      assert s[i] in Elements(s);
    }
  }

  ghost function Total(input: Input): real
    requires UsableSegments(input.segments) != []
  {
    SortedSegments(input);
    Flush(SweepAll(Sorted(input), Tolerance(input)))
  }

  /**
   * The unrounded total, for segments in any order and of any kind. With a tolerance of at least zero it is
   * at least the measure of the union of all [join, leave + tolerance) less the tolerance once for each
   * block, and is equal to it exactly if there is no tolerance or every block lasts; it is if no segment
   * leaves before it joins. With a negative tolerance it is at least the measure of the union of all
   * [join, leave), and equal to it exactly if no block that is not empty begins before an earlier one leaves.
   */
  lemma TotalIsCoveredLessTolerance(input: Input)
    requires UsableSegments(input.segments) != []
    ensures Tolerance(input) >= 0.0 ==>
      var S, tol, sorted := Segments(input), ToleranceMs(Tolerance(input)), Sorted(input);
      var less := |Covered(S, tol)| - tol * StartCount(sorted, tol);
      && less as real / 1000.0 <= Total(input)
      && (less as real / 1000.0 == Total(input) <==> tol == 0 || AllLast(sorted, |sorted|, tol))
      && (WellFormed(S) ==> Total(input) == (|Covered(S, tol)| - tol * |BlockStarts(S, tol)|) as real / 1000.0)
    ensures Tolerance(input) < 0.0 ==>
      var covered, tol, sorted := |Covered(Segments(input), 0)|, ToleranceMs(Tolerance(input)), Sorted(input);
      && covered as real / 1000.0 <= Total(input)
      && (covered as real / 1000.0 == Total(input) <==> NoOverlap(sorted, |sorted|, tol))
  {
    var sorted, tol := Sorted(input), ToleranceMs(Tolerance(input));
    SortedSegments(input);
    if Tolerance(input) < 0.0 {
      OverlapExactly(sorted, Tolerance(input));
    } else {
      TotalIsMeasure(sorted, Tolerance(input));
      CoveredExactly(sorted, Tolerance(input));
      if WellFormed(Segments(input)) {
        WellFormedLasts(sorted, tol);
        StartCountIsBlocks(sorted, tol);
      }
    }
  }

  ghost predicate IsClass(p: PresenceType, seconds: int, duration: real, share: real) {
    var enough := duration > 0.0 && seconds as real >= share * duration;
    && (p == Ausente <==> seconds == 0)
    && (p == Integral <==> seconds != 0 && enough)
    && (p == Parcial <==> seconds != 0 && !enough)
  }

  lemma ClassifiesSo(seconds: int, duration: real, share: real)
    ensures IsClass(Classify(seconds, duration, share), seconds, duration, share)
  {
  }

  /** The whole seconds are those nearest to the unrounded total and, where it is that, to the measure of presence. */
  lemma SecondsExactly(input: Input)
    requires AttendanceOf(input).Some?
    ensures UsableSegments(input.segments) != []
    ensures IsNearest(AttendanceOf(input).value.totalSeconds, Total(input))
    ensures Tolerance(input) >= -0.001 ==>
      IsNearest(AttendanceOf(input).value.totalSeconds,
        |Filled(Segments(input), ToleranceMs(Tolerance(input)))| as real / 1000.0)
  {
    SortedSegments(input);
    RoundExactly(Total(input), AttendanceOf(input).value.totalSeconds);
    if Tolerance(input) >= -0.001 { TotalIsMeasure(Sorted(input), Tolerance(input)); }
  }

  /**
   * The class by the whole seconds: absent without any, integral from the given share of a meeting that
   * has a duration on, partial otherwise. Without a setting the share is four fifths, and the tolerance
   * two minutes.
   */
  lemma ClassExactly(input: Input)
    requires AttendanceOf(input).Some?
    ensures Tolerance(input) == match input.tolerance case None => 120.0 case Some(t) => t
    ensures var a := AttendanceOf(input).value;
      IsClass(a.presence, a.totalSeconds, input.duration, match input.threshold case None => 0.8 case Some(t) => t)
  {
    ClassifiesSo(AttendanceOf(input).value.totalSeconds, input.duration,
      match input.threshold case None => 0.8 case Some(t) => t);
  }
}
