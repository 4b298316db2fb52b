/** The two meeting reports that are computed from attendance. */
module Reports {
  import opened Options
  import opened Presence

  datatype Level = Low | Medium | High

  datatype Row = Row(presence: PresenceType, durationSeconds: real, cameraSeconds: real, focusScore: Option<real>)

  datatype Attendee = Attendee(
    presence: PresenceType, durationSeconds: int, cameraSeconds: int, focusScore: Option<real>)

  datatype Summary = Summary(
    attendees: seq<Attendee>, totalDurationMinutes: int, avgEngagementScore: Option<real>,
    totalPresent: nat, totalPartial: nat, totalAbsent: nat)

  datatype Engagement = Engagement(score: real, level: Level)

  function Clamp01(x: real): real {
    if x < 0.0 then 0.0 else if x > 1.0 then 1.0 else x
  }

  function ClassifyEngagementLevel(score: real): Level {
    if score >= 0.75 then High
    else if score >= 0.5 then Medium
    else Low
  }

  function ParticipantEngagement(durationSeconds: real, meetingSeconds: real): Option<Engagement> {
    if meetingSeconds <= 0.0 then None
    else
      var score := Round(Clamp01(durationSeconds / meetingSeconds) * 1000.0) as real / 1000.0;
      Some(Engagement(score, ClassifyEngagementLevel(score)))
  }

  function ToAttendee(r: Row): Attendee {
    Attendee(r.presence, Max(0, Round(r.durationSeconds)), Max(0, Round(r.cameraSeconds)), r.focusScore)
  }

  function RowScore(a: Attendee, meetingSeconds: real): real
    requires meetingSeconds > 0.0
  {
    0.5 * Clamp01(a.durationSeconds as real / meetingSeconds)
    + 0.25 * Clamp01(a.cameraSeconds as real / Max(a.durationSeconds, 1) as real)
    + 0.25 * Clamp01(a.focusScore.GetOr(0.5))
  }

  function CountPresence(s: seq<Attendee>, p: PresenceType): nat {
    if s == [] then 0
    else CountPresence(s[..|s| - 1], p) + if s[|s| - 1].presence == p then 1 else 0
  }

  function RowScores(s: seq<Attendee>, meetingSeconds: real): seq<real>
    requires meetingSeconds > 0.0
  {
    seq(|s|, i requires 0 <= i < |s| => RowScore(s[i], meetingSeconds))
  }

  function Sum(xs: seq<real>): real {
    if xs == [] then 0.0 else Sum(xs[..|xs| - 1]) + xs[|xs| - 1]
  }

  /** The mean, rounded to two decimals. */
  function RoundedMean(xs: seq<real>): real
    requires xs != []
  {
    Round(Sum(xs) / |xs| as real * 100.0) as real / 100.0
  }

  function Average(s: seq<Attendee>, meetingSeconds: real): real
    requires s != [] && meetingSeconds > 0.0
  {
    RoundedMean(RowScores(s, meetingSeconds))
  }

  method ComputeReportSummary(rows: seq<Row>, meetingSeconds: real) returns (r: Summary)
    ensures r.attendees == seq(|rows|, i requires 0 <= i < |rows| => ToAttendee(rows[i]))
    ensures IsNearest(r.totalDurationMinutes, meetingSeconds / 60.0)
    ensures r.totalPresent == CountPresence(r.attendees, Integral)
    ensures r.totalPartial == CountPresence(r.attendees, Parcial)
    ensures r.totalAbsent == CountPresence(r.attendees, Ausente)
    ensures r.avgEngagementScore ==
            if rows != [] && meetingSeconds > 0.0 then Some(Average(r.attendees, meetingSeconds)) else None
  {
    RoundExactly(meetingSeconds / 60.0, Round(meetingSeconds / 60.0));
    var attendees := seq(|rows|, i requires 0 <= i < |rows| => ToAttendee(rows[i]));
    var present, partial, absent := 0, 0, 0;
    for i := 0 to |attendees|
      invariant present == CountPresence(attendees[..i], Integral)
      invariant partial == CountPresence(attendees[..i], Parcial)
      invariant absent == CountPresence(attendees[..i], Ausente)
    {
      assert attendees[..i + 1][..i] == attendees[..i];
      match attendees[i].presence
      case Integral => present := present + 1;
      case Parcial => partial := partial + 1;
      case Ausente => absent := absent + 1;
    }
    assert attendees[..|attendees|] == attendees;
    var avg := None;
    if |attendees| > 0 && meetingSeconds > 0.0 {
      var sum := SumScores(attendees, meetingSeconds);
      avg := Some(Round(sum / |attendees| as real * 100.0) as real / 100.0);
    }
    r := Summary(attendees, Round(meetingSeconds / 60.0), avg, present, partial, absent);
  }

  /** The loop that adds up the row scores. */
  method SumScores(s: seq<Attendee>, meetingSeconds: real) returns (sum: real)
    requires meetingSeconds > 0.0
    ensures sum == Sum(RowScores(s, meetingSeconds))
  {
    sum := 0.0;
    ghost var scores := RowScores(s, meetingSeconds);
    for i := 0 to |s|
      invariant sum == Sum(scores[..i])
    {
      assert scores[..i + 1][..i] == scores[..i];
      sum := sum + RowScore(s[i], meetingSeconds);
    }
    assert scores[..|s|] == scores;
  }

  // ----- what the numbers are -----

  /** The value, cut off at zero and one. */
  ghost predicate IsShare(y: real, x: real) {
    && (x <= 0.0 ==> y == 0.0)
    && (0.0 <= x <= 1.0 ==> y == x)
    && (x >= 1.0 ==> y == 1.0)
  }

  /** Whole seconds, none of them below zero. */
  ghost predicate IsWhole(n: int, seconds: real) {
    if seconds < 0.5 then n == 0 else IsNearest(n, seconds)
  }

  lemma WholeSeconds(seconds: real)
    ensures IsWhole(Max(0, Round(seconds)), seconds)
  {
    RoundExactly(seconds, Round(seconds));
  }

  /** An attendee has the presence and the focus of the row, and its times in whole seconds. */
  lemma AttendeeExactly(r: Row)
    ensures var a := ToAttendee(r);
      && a.presence == r.presence && a.focusScore == r.focusScore
      && IsWhole(a.durationSeconds, r.durationSeconds) && IsWhole(a.cameraSeconds, r.cameraSeconds)
  {
    WholeSeconds(r.durationSeconds);
    WholeSeconds(r.cameraSeconds);
  }

  /** Half of the first share, and a quarter of either other. */
  ghost predicate Blends(score: real, x: real, y: real, z: real) {
    exists p, c, f {:trigger IsShare(p, x), IsShare(c, y), IsShare(f, z)} ::
      IsShare(p, x) && IsShare(c, y) && IsShare(f, z) && score == 0.5 * p + 0.25 * c + 0.25 * f
  }

  /** Half for presence, a quarter for the camera while present, and a quarter for focus, neutral if unknown. */
  ghost predicate IsScore(score: real, a: Attendee, meetingSeconds: real)
    requires meetingSeconds > 0.0
  {
    var present := if a.durationSeconds >= 1 then a.durationSeconds else 1;
    var focus := match a.focusScore case Some(f) => f case None => 0.5;
    Blends(score, a.durationSeconds as real / meetingSeconds, a.cameraSeconds as real / present as real, focus)
  }

  lemma BlendExactly(score: real, x: real, y: real, z: real)
    ensures Blends(score, x, y, z) <==> score == 0.5 * Clamp01(x) + 0.25 * Clamp01(y) + 0.25 * Clamp01(z)
  {
    assert IsShare(Clamp01(x), x) && IsShare(Clamp01(y), y) && IsShare(Clamp01(z), z);
  }

  lemma RowScoreExactly(a: Attendee, meetingSeconds: real, score: real)
    requires meetingSeconds > 0.0
    ensures IsScore(score, a, meetingSeconds) <==> score == RowScore(a, meetingSeconds)
  {
    var x := a.durationSeconds as real / meetingSeconds;
    var y := a.cameraSeconds as real / Max(a.durationSeconds, 1) as real;
    BlendExactly(score, x, y, a.focusScore.GetOr(0.5));
  }

  /** Changing one summand changes the sum by as much. */
  lemma {:induction false} SumShifts(xs: seq<real>, i: nat, d: real)
    requires i < |xs|
    ensures Sum(xs[i := xs[i] + d]) == Sum(xs) + d
  {
    var n := |xs| - 1;
    var ys := xs[i := xs[i] + d];
    if i < n {
      SumShifts(xs[..n], i, d);
      assert ys[..n] == xs[..n][i := xs[i] + d];
    } else {
      assert ys[..n] == xs[..n];
    }
  }

  lemma {:induction false} SumOfZeros(n: nat)
    ensures Sum(seq(n, _ => 0.0)) == 0.0
  {
    if n > 0 {
      SumOfZeros(n - 1);
      assert seq(n, _ => 0.0)[..n - 1] == seq(n - 1, _ => 0.0);
    }
  }

  /** The average is the mean of the scores, to the nearest hundredth. */
  lemma AverageExactly(s: seq<Attendee>, meetingSeconds: real, scores: seq<real>, n: int)
    requires s != [] && meetingSeconds > 0.0 && |scores| == |s|
    requires forall i :: 0 <= i < |s| ==> IsScore(scores[i], s[i], meetingSeconds)
    requires IsNearest(n, Sum(scores) / |s| as real * 100.0)
    ensures Average(s, meetingSeconds) == n as real / 100.0
  {
    forall i | 0 <= i < |s|
      ensures scores[i] == RowScores(s, meetingSeconds)[i]
    {
      RowScoreExactly(s[i], meetingSeconds, scores[i]);
    }
    assert scores == RowScores(s, meetingSeconds);
    RoundExactly(Sum(scores) / |s| as real * 100.0, n);
  }

  /** Where the attendees with that presence stand. */
  ghost function Having(s: seq<Attendee>, p: PresenceType): set<int> {
    set i | 0 <= i < |s| && s[i].presence == p
  }

  lemma HavingLast(s: seq<Attendee>, p: PresenceType)
    requires s != []
    ensures var n := |s| - 1;
      Having(s, p) == Having(s[..n], p) + if s[n].presence == p then {n} else {}
  {
    var n := |s| - 1;
    var some := Having(s[..n], p) + if s[n].presence == p then {n} else {};
    forall i
      ensures i in Having(s, p) <==> i in some
    {
      assert 0 <= i < n ==> s[..n][i] == s[i];
    }
  }

  /** A total counts the attendees with that presence. */
  lemma {:induction false} CountExactly(s: seq<Attendee>, p: PresenceType)
    ensures CountPresence(s, p) == |Having(s, p)|
  {
    if s != [] {
      CountExactly(s[..|s| - 1], p);
      HavingLast(s, p);
    }
  }

  /**
   * The leader's view: the share of the meeting to the nearest thousandth, high from 0.750 on and medium
   * from 0.500 on; nothing for a meeting without length.
   */
  lemma EngagementExactly(durationSeconds: real, meetingSeconds: real, share: real, n: int)
    requires meetingSeconds > 0.0 ==> IsShare(share, durationSeconds / meetingSeconds)
    requires IsNearest(n, share * 1000.0)
    ensures var e := ParticipantEngagement(durationSeconds, meetingSeconds);
      && (e.None? <==> meetingSeconds <= 0.0)
      && (e.Some? ==>
            && e.value.score == n as real / 1000.0
            && e.value.level == if n >= 750 then High else if n >= 500 then Medium else Low)
  {
    RoundExactly(share * 1000.0, n);
  }

  /** The three totals account for every row. */
  lemma {:induction false} TotalsAddUp(s: seq<Attendee>)
    ensures CountPresence(s, Integral) + CountPresence(s, Parcial) + CountPresence(s, Ausente) == |s|
  {
    if s != [] {
      TotalsAddUp(s[..|s| - 1]);
    }
  }

  lemma RowScoreInUnit(a: Attendee, meetingSeconds: real)
    requires meetingSeconds > 0.0
    ensures 0.0 <= RowScore(a, meetingSeconds) <= 1.0
  {
  }

  /** Summands within bounds keep the sum within as many times the bounds. */
  lemma {:induction false} SumBounds(xs: seq<real>, lo: real, hi: real)
    requires forall i :: 0 <= i < |xs| ==> lo <= xs[i] <= hi
    ensures lo * |xs| as real <= Sum(xs) <= hi * |xs| as real
  {
    if xs != [] {
      var n := |xs| - 1;
      SumBounds(xs[..n], lo, hi);
      assert lo * (n + 1) as real == lo * n as real + lo;
      assert hi * (n + 1) as real == hi * n as real + hi;
    }
  }

  lemma MeanBounds(sum: real, n: nat, lo: real, hi: real)
    requires n > 0 && lo * n as real <= sum <= hi * n as real
    ensures lo <= sum / n as real <= hi
  {
  }

  lemma RoundInt(y: real, lo: int, hi: int)
    requires lo as real <= y <= hi as real
    ensures lo <= Round(y) <= hi
  {
  }

  lemma Hundredths(a: int, b: int)
    requires a <= b
    ensures a as real / 100.0 <= b as real / 100.0
  {
  }

  /** Bounds in whole hundredths survive the rounding. */
  lemma RoundBounds(mean: real, lo: int, hi: int)
    requires lo as real / 100.0 <= mean <= hi as real / 100.0
    ensures lo as real / 100.0 <= Round(mean * 100.0) as real / 100.0 <= hi as real / 100.0
  {
    RoundInt(mean * 100.0, lo, hi);
    Hundredths(lo, Round(mean * 100.0));
    Hundredths(Round(mean * 100.0), hi);
  }

  lemma RoundedMeanBounds(xs: seq<real>, lo: int, hi: int)
    requires xs != [] && forall i :: 0 <= i < |xs| ==> lo as real / 100.0 <= xs[i] <= hi as real / 100.0
    ensures lo as real / 100.0 <= RoundedMean(xs) <= hi as real / 100.0
  {
    SumBounds(xs, lo as real / 100.0, hi as real / 100.0);
    MeanBounds(Sum(xs), |xs|, lo as real / 100.0, hi as real / 100.0);
    RoundBounds(Sum(xs) / |xs| as real, lo, hi);
  }

  lemma AverageBounds(s: seq<Attendee>, meetingSeconds: real, lo: int, hi: int)
    requires s != [] && meetingSeconds > 0.0
    requires forall i :: 0 <= i < |s| ==> lo as real / 100.0 <= RowScore(s[i], meetingSeconds) <= hi as real / 100.0
    ensures lo as real / 100.0 <= Average(s, meetingSeconds) <= hi as real / 100.0
  {
    RoundedMeanBounds(RowScores(s, meetingSeconds), lo, hi);
  }

  lemma AverageInUnit(s: seq<Attendee>, meetingSeconds: real)
    requires s != [] && meetingSeconds > 0.0
    ensures 0.0 <= Average(s, meetingSeconds) <= 1.0
  {
    forall i | 0 <= i < |s|
      ensures 0.0 <= RowScore(s[i], meetingSeconds) <= 1.0
    {
      RowScoreInUnit(s[i], meetingSeconds);
    }
    AverageBounds(s, meetingSeconds, 0, 100);
  }

  lemma RatioAtLeast(d: real, m: real, r: real)
    requires m > 0.0 && d >= r * m
    ensures d / m >= r
  {
  }

  /** Attendance that was classified integral for this meeting with the default threshold. */
  ghost predicate IntegralFor(a: Attendance, input: Input) {
    && AttendanceOf(input) == Some(a) && a.presence == Integral
    && input.threshold == None && input.duration > 0.0
  }

  lemma IntegralDuration(a: Attendance, input: Input)
    requires IntegralFor(a, input)
    ensures a.totalSeconds as real >= 0.8 * input.duration
    ensures a.totalSeconds as real / input.duration >= 0.8
  {
    RatioAtLeast(a.totalSeconds as real, input.duration, 0.8);
  }

  /** In the leader report, integral attendance always shows as high engagement. */
  lemma IntegralIsHigh(a: Attendance, input: Input)
    requires IntegralFor(a, input)
    ensures ParticipantEngagement(a.totalSeconds as real, input.duration).Some?
    ensures ParticipantEngagement(a.totalSeconds as real, input.duration).value.level == High
  {
    IntegralDuration(a, input);
  }

  /** A row of the summary that carries the attendance over. */
  ghost predicate Carries(r: Row, a: Attendance) {
    r.presence == a.presence && r.durationSeconds == a.totalSeconds as real
  }

  lemma IntegralRowScore(r: Row, a: Attendance, input: Input)
    requires IntegralFor(a, input) && Carries(r, a)
    ensures RowScore(ToAttendee(r), input.duration) >= 0.4
  {
    IntegralDuration(a, input);
    assert Round(r.durationSeconds) == a.totalSeconds;
    assert 0.8 * input.duration > 0.0;
  }

  ghost predicate IntegralRow(r: Row, duration: real) {
    exists a, input: Input :: IntegralFor(a, input) && input.duration == duration && Carries(r, a)
  }

  /** A meeting that everyone attended integrally averages at least 0.40, whatever cameras and focus did. */
  lemma AllIntegralAverage(rows: seq<Row>, attendees: seq<Attendee>, duration: real)
    requires rows != [] && duration > 0.0 && forall r :: r in rows ==> IntegralRow(r, duration)
    requires attendees == seq(|rows|, i requires 0 <= i < |rows| => ToAttendee(rows[i]))
    ensures Average(attendees, duration) >= 0.4
    ensures CountPresence(attendees, Integral) == |rows|
  {
    forall i | 0 <= i < |rows|
      ensures attendees[i].presence == Integral && 0.4 <= RowScore(attendees[i], duration) <= 1.0
    {
      assert IntegralRow(rows[i], duration);
      var a, input: Input :| IntegralFor(a, input) && input.duration == duration && Carries(rows[i], a);
      IntegralRowScore(rows[i], a, input);
      RowScoreInUnit(attendees[i], duration);
    }
    AverageBounds(attendees, duration, 40, 100);
    AllCounted(attendees);
  }

  lemma {:induction false} AllCounted(s: seq<Attendee>)
    requires forall a :: a in s ==> a.presence == Integral
    ensures CountPresence(s, Integral) == |s|
  {
    if s != [] {
      assert s[|s| - 1] in s;
      AllCounted(s[..|s| - 1]);
    }
  }
}
