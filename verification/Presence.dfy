/** Attendance computed from the times at which a participant joined and left a meeting. */
module Presence {
  import opened Collections
  import opened Options

  /** An ISO timestamp in milliseconds, or the empty string. */
  datatype Stamp = Blank | At(ms: int)

  /** leftAt: null while the participant is connected. */
  datatype Leave = Connected | LeftAt(stamp: Stamp)

  datatype RawSegment = RawSegment(joinedAt: Stamp, leftAt: Leave)

  /** A segment that passed the filter, with an open one counted as of zero length. */
  datatype Segment = Segment(join: int, leave: int)

  datatype PresenceType = Ausente | Parcial | Integral

  datatype Input = Input(segments: seq<RawSegment>, duration: real, tolerance: Option<real>, threshold: Option<real>)

  datatype Attendance = Attendance(
    joinTime: int, leaveTime: int, totalSeconds: int, presence: PresenceType, reconnections: nat)

  const PRESENCE_INTEGRAL_THRESHOLD := 0.8
  const RECONNECTION_TOLERANCE_SECONDS := 120.0

  function Max(a: int, b: int): int {
    if a < b then b else a
  }

  function Round(x: real): int {
    (x + 0.5).Floor
  }

  /** n is the whole number nearest to x, the larger one half way between two. */
  ghost predicate IsNearest(n: int, x: real) {
    n as real - 0.5 <= x < n as real + 0.5
  }

  lemma RoundExactly(x: real, n: int)
    ensures Round(x) == n <==> IsNearest(n, x)
  {
    var r := Round(x);
    assert r as real <= x + 0.5 < r as real + 1.0;
  }

  predicate Usable(r: RawSegment) {
    r.joinedAt.At? && (r.leftAt.Connected? || r.leftAt.stamp.At?)
  }

  function ToSegment(r: RawSegment): Segment
    requires Usable(r)
  {
    Segment(r.joinedAt.ms, if r.leftAt.Connected? then r.joinedAt.ms else r.leftAt.stamp.ms)
  }

  function UsableSegments(rs: seq<RawSegment>): seq<Segment> {
    if rs == [] then []
    else (if Usable(rs[0]) then [ToSegment(rs[0])] else []) + UsableSegments(rs[1..])
  }

  lemma {:induction false} UsableConcat(a: seq<RawSegment>, b: seq<RawSegment>)
    ensures UsableSegments(a + b) == UsableSegments(a) + UsableSegments(b)
  {
    if a == [] {
      assert a + b == b;
    } else {
      assert (a + b)[0] == a[0] && (a + b)[1..] == a[1..] + b;
      UsableConcat(a[1..], b);
      assert UsableSegments(a + b) == (if Usable(a[0]) then [ToSegment(a[0])] else []) + UsableSegments(a[1..] + b);
    }
  }

  /** The segment that a raw one stands for: both times known, or still connected and so of no length. */
  ghost predicate IsSegment(r: RawSegment, x: Segment) {
    && r.joinedAt == At(x.join)
    && (r.leftAt == LeftAt(At(x.leave)) || (r.leftAt == Connected && x.leave == x.join))
  }

  /** At these places the raw segments stand for the given ones, in order, and at all others for none. */
  ghost predicate Selects(rs: seq<RawSegment>, ps: seq<nat>, segs: seq<Segment>) {
    && |ps| == |segs|
    && (forall i, j :: 0 <= i < j < |ps| ==> ps[i] < ps[j])
    && (forall i :: 0 <= i < |ps| ==> ps[i] < |rs| && IsSegment(rs[ps[i]], segs[i]))
    && (forall k, x :: 0 <= k < |rs| && IsSegment(rs[k], x) ==> k in ps)
  }

  /** The filter keeps exactly the raw segments that stand for one. */
  lemma {:induction false} UsableExactly(rs: seq<RawSegment>) returns (ps: seq<nat>)
    ensures Selects(rs, ps, UsableSegments(rs))
  {
    if rs == [] {
      ps := [];
    } else {
      var n := |rs| - 1;
      var init, last := rs[..n], rs[n];
      assert rs == init + [last];
      UsableConcat(init, [last]);
      ps := UsableExactly(init);
      SelectsMore(init, ps, UsableSegments(init), last);
      if Usable(last) { ps := ps + [n]; }
    }
  }

  lemma SelectsMore(rs: seq<RawSegment>, ps: seq<nat>, segs: seq<Segment>, r: RawSegment)
    requires Selects(rs, ps, segs)
    ensures Usable(r) ==> Selects(rs + [r], ps + [|rs|], segs + [ToSegment(r)])
    ensures !Usable(r) ==> Selects(rs + [r], ps, segs)
  {
    var more := rs + [r];
    assert more[|rs|] == r;
    forall k, x | 0 <= k < |more| && IsSegment(more[k], x)
      ensures k in ps || (k == |rs| && Usable(r))
    {
      if k < |rs| { assert IsSegment(rs[k], x); }
    }
    if Usable(r) {
      var longer := ps + [|rs|];
      assert longer[|ps|] == |rs|;
      assert forall k :: k in ps ==> k in longer;
      assert IsSegment(r, ToSegment(r));
    }
  }

  // The library sort: stable, by join time.

  ghost predicate SortedByJoin(s: seq<Segment>) {
    forall i, j :: 0 <= i < j < |s| ==> s[i].join <= s[j].join
  }

  function InsertByJoin(s: seq<Segment>, x: Segment): (r: seq<Segment>)
    ensures multiset(r) == multiset(s) + multiset{x}
  {
    if s == [] || x.join < s[0].join then [x] + s
    else
      assert s == [s[0]] + s[1..];
      [s[0]] + InsertByJoin(s[1..], x)
  }

  function SortByJoin(s: seq<Segment>): (r: seq<Segment>)
    ensures multiset(r) == multiset(s)
  {
    if s == [] then []
    else
      assert s == s[..|s| - 1] + [s[|s| - 1]];
      InsertByJoin(SortByJoin(s[..|s| - 1]), s[|s| - 1])
  }

  lemma InsertedElements(s: seq<Segment>, x: Segment, y: Segment)
    ensures y in InsertByJoin(s, x) ==> y in s || y == x
  {
    if y in InsertByJoin(s, x) {
      assert y in multiset(InsertByJoin(s, x));
      assert y in multiset(s) || y == x;
    }
  }

  lemma {:induction false} InsertKeepsOrder(s: seq<Segment>, x: Segment)
    requires SortedByJoin(s)
    ensures SortedByJoin(InsertByJoin(s, x))
  {
    if s != [] && s[0].join <= x.join {
      var rest, r := s[1..], InsertByJoin(s[1..], x);
      InsertKeepsOrder(rest, x);
      forall k | 0 <= k < |r|
        ensures s[0].join <= r[k].join
      {
        InsertedElements(rest, x, r[k]);
      }
      assert InsertByJoin(s, x) == [s[0]] + r;
    }
  }

  lemma {:induction false} SortIsSorted(s: seq<Segment>)
    ensures SortedByJoin(SortByJoin(s))
  {
    if s != [] {
      SortIsSorted(s[..|s| - 1]);
      InsertKeepsOrder(SortByJoin(s[..|s| - 1]), s[|s| - 1]);
    }
  }

  /** The segments that join at j, in order. */
  function Joining(s: seq<Segment>, j: int): seq<Segment> {
    if s == [] then [] else (if s[0].join == j then [s[0]] else []) + Joining(s[1..], j)
  }

  lemma {:induction false} JoiningSnoc(s: seq<Segment>, x: Segment, j: int)
    ensures Joining(s + [x], j) == Joining(s, j) + if x.join == j then [x] else []
  {
    if s == [] {
      assert s + [x] == [x];
    } else {
      var longer, rest, first := s + [x], s[1..], if s[0].join == j then [s[0]] else [];
      assert longer[0] == s[0] && longer[1..] == rest + [x];
      JoiningSnoc(rest, x, j);
      var last := if x.join == j then [x] else [];
      assert first + (Joining(rest, j) + last) == (first + Joining(rest, j)) + last;
    }
  }

  lemma {:induction false} NoneJoining(s: seq<Segment>, j: int)
    requires forall y :: y in s ==> y.join > j
    ensures Joining(s, j) == []
  {
    if s != [] { NoneJoining(s[1..], j); }
  }

  lemma {:induction false} InsertIsStable(s: seq<Segment>, x: Segment, j: int)
    requires SortedByJoin(s)
    ensures Joining(InsertByJoin(s, x), j) == Joining(s, j) + if x.join == j then [x] else []
  {
    if s == [] || x.join < s[0].join {
      assert ([x] + s)[1..] == s;
      if x.join == j { NoneJoining(s, j); }
    } else {
      var rest, first := s[1..], if s[0].join == j then [s[0]] else [];
      InsertIsStable(rest, x, j);
      var longer, last := [s[0]] + InsertByJoin(rest, x), if x.join == j then [x] else [];
      assert longer[0] == s[0] && longer[1..] == InsertByJoin(rest, x);
      assert first + (Joining(rest, j) + last) == (first + Joining(rest, j)) + last;
    }
  }

  /** Segments with one join keep their order. */
  lemma {:induction false} SortIsStable(s: seq<Segment>, j: int)
    ensures Joining(SortByJoin(s), j) == Joining(s, j)
  {
    if s != [] {
      var init, x := s[..|s| - 1], s[|s| - 1];
      assert s == init + [x];
      SortIsStable(init, j);
      SortIsSorted(init);
      InsertIsStable(SortByJoin(init), x, j);
      JoiningSnoc(init, x, j);
    }
  }

  // The sweep over the sorted segments, as a fold.

  /** The loop's variables: time flushed so far, reconnections, and the open stretch. */
  datatype Sweep = Sweep(total: real, reconnections: nat, start: int, end: int)

  /** The seconds of a stretch, none if it ends before it starts. */
  function Stretch(start: int, end: int): real {
    if end < start then 0.0 else (end - start) as real / 1000.0
  }

  function Flush(w: Sweep): real {
    w.total + Stretch(w.start, w.end)
  }

  function SweepStep(w: Sweep, s: Segment, tolerance: real): Sweep {
    if (s.join - w.end) as real / 1000.0 <= tolerance
    then Sweep(w.total, w.reconnections + 1, w.start, Max(w.end, s.leave))
    else Sweep(Flush(w), w.reconnections, s.join, s.leave)
  }

  function SweepAll(s: seq<Segment>, tolerance: real): Sweep
    requires s != []
  {
    if |s| == 1 then Sweep(0.0, 0, s[0].join, s[0].leave)
    else SweepStep(SweepAll(s[..|s| - 1], tolerance), s[|s| - 1], tolerance)
  }

  function Classify(rounded: int, duration: real, threshold: real): PresenceType {
    if rounded == 0 then Ausente
    else if duration > 0.0 && rounded as real >= threshold * duration then Integral
    else Parcial
  }

  function Tolerance(input: Input): real {
    input.tolerance.GetOr(RECONNECTION_TOLERANCE_SECONDS)
  }

  function AttendanceOf(input: Input): Option<Attendance> {
    var sorted := SortByJoin(UsableSegments(input.segments));
    if sorted == [] then None
    else
      var w := SweepAll(sorted, Tolerance(input));
      var rounded := Round(Flush(w));
      Some(Attendance(sorted[0].join, w.end, rounded,
        Classify(rounded, input.duration, input.threshold.GetOr(PRESENCE_INTEGRAL_THRESHOLD)), w.reconnections))
  }

  /** The loop over the sorted segments, with the flush of the last stretch. */
  method SweepSegments(sorted: seq<Segment>, tolerance: real)
    returns (totalSeconds: real, reconnections: nat, segmentEnd: int)
    requires sorted != []
    ensures totalSeconds == Flush(SweepAll(sorted, tolerance))
    ensures reconnections == SweepAll(sorted, tolerance).reconnections
    ensures segmentEnd == SweepAll(sorted, tolerance).end
  {
    totalSeconds, reconnections := 0.0, 0;
    var segmentStart := sorted[0].join;
    segmentEnd := sorted[0].leave;
    for i := 1 to |sorted|
      invariant Sweep(totalSeconds, reconnections, segmentStart, segmentEnd) == SweepAll(sorted[..i], tolerance)
    {
      var current := sorted[i];
      assert sorted[..i + 1][..i] == sorted[..i];
      ghost var before := Sweep(totalSeconds, reconnections, segmentStart, segmentEnd);
      var gapSeconds := (current.join - segmentEnd) as real / 1000.0;
      if gapSeconds <= tolerance {
        reconnections := reconnections + 1;
        segmentEnd := Max(segmentEnd, current.leave);
      } else {
        totalSeconds := totalSeconds + Stretch(segmentStart, segmentEnd);
        segmentStart, segmentEnd := current.join, current.leave;
      }
      assert Sweep(totalSeconds, reconnections, segmentStart, segmentEnd) == SweepStep(before, current, tolerance);
    }
    assert sorted[..|sorted|] == sorted;
    totalSeconds := totalSeconds + Stretch(segmentStart, segmentEnd);
  }

  method ComputeAttendance(input: Input) returns (r: Option<Attendance>)
    ensures r == AttendanceOf(input)
  {
    var sorted := SortByJoin(UsableSegments(input.segments));
    if |sorted| == 0 {
      return None;
    }
    var tolerance := input.tolerance.GetOr(RECONNECTION_TOLERANCE_SECONDS);
    var threshold := input.threshold.GetOr(PRESENCE_INTEGRAL_THRESHOLD);
    var totalSeconds, reconnections, segmentEnd := SweepSegments(sorted, tolerance);
    var rounded := Round(totalSeconds);
    var presence := Classify(rounded, input.duration, threshold);
    r := Some(Attendance(sorted[0].join, segmentEnd, rounded, presence, reconnections));
  }
}
