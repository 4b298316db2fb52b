/** The request limit over whole runs: how many tokens any stretch of time can see. */
module RateLimit {
  import opened AuthTokens
  import opened TokenRuns
  import opened Collections
  import opened Options

  // ----- what the limiter keeps for one key -----

  /** The first request of a window opens it. */
  ghost predicate InWindow(g: Grant) {
    && g.windowEnd - 3_600_000 <= g.time < g.windowEnd && 1 <= g.ordinal <= 3
    && (g.ordinal == 1 ==> g.time == g.windowEnd - 3_600_000)
  }

  /** The later of two grants is further on in the same window, or in a window after it. */
  ghost predicate Before(g: Grant, h: Grant) {
    || (g.windowEnd == h.windowEnd && g.ordinal < h.ordinal)
    || g.windowEnd + 3_600_000 <= h.windowEnd
  }

  ghost predicate GrantsSpaced(gs: seq<Grant>) {
    && (forall i :: 0 <= i < |gs| ==> InWindow(gs[i]))
    && (forall i, j :: 0 <= i < j < |gs| ==> Before(gs[i], gs[j]))
  }

  /** The grant was counted by the counter as it stands, or its window ended before this one began. */
  ghost predicate CountedBy(g: Grant, count: nat, expiresAt: int) {
    || (g.windowEnd == expiresAt && g.ordinal <= count)
    || g.windowEnd + 3_600_000 <= expiresAt
  }

  ghost predicate LimiterOk(gs: seq<Grant>, e: Option<Entry>, clock: int) {
    && GrantsSpaced(gs)
    && (e.None? ==> gs == [])
    && (e.Some? ==>
          && e.value.Counter? && e.value.count >= 1 && e.value.expiresAt <= clock + WINDOW
          && forall i :: 0 <= i < |gs| ==> CountedBy(gs[i], e.value.count, e.value.expiresAt))
  }

  ghost predicate WithinLimits(s: State, clock: int) {
    forall k: Key {:trigger GrantsOf(s, k)} :: k.Rate? ==> LimiterOk(GrantsOf(s, k), Lookup(s.redis, k), clock)
  }

  /** One more request at a time not before the last. */
  lemma CountingKeepsLimiter(gs: seq<Grant>, redis: map<Key, Entry>, k: Key, clock: int, now: int)
    requires LimiterOk(gs, Lookup(redis, k), clock) && clock <= now
    ensures var e := Incremented(redis, k, now)[k];
      && LimiterOk(gs, Some(e), now)
      && now < e.expiresAt
      && (e.count <= RATE_LIMIT_MAX ==> LimiterOk(gs + [Grant(now, e.expiresAt, e.count)], Some(e), now))
  {
    var e := Incremented(redis, k, now)[k];
    forall i | 0 <= i < |gs|
      ensures CountedBy(gs[i], e.count, e.expiresAt) && Before(gs[i], Grant(now, e.expiresAt, e.count))
    {
      assert CountedBy(gs[i], redis[k].count, redis[k].expiresAt);
    }
  }

  lemma RequestCounts(s: State, service: Service, email: Email, token: Token, now: int)
    ensures var k, s' := Rate(service, email), Requested(s, service, email, token, now).0;
      var e := Incremented(s.redis, k, now)[k];
      Lookup(s'.redis, k) == Some(e)
      && (GrantsOf(s', k) == GrantsOf(s, k)
          || (e.count <= RATE_LIMIT_MAX && GrantsOf(s', k) == GrantsOf(s, k) + [Grant(now, e.expiresAt, e.count)]))
  {
  }

  lemma RequestLeavesOthers(s: State, service: Service, email: Email, token: Token, now: int, k: Key)
    requires k.Rate? && k != Rate(service, email)
    ensures var s' := Requested(s, service, email, token, now).0;
      Lookup(s'.redis, k) == Lookup(s.redis, k) && GrantsOf(s', k) == GrantsOf(s, k)
  {
  }

  lemma RequestKeepsLimits(s: State, service: Service, email: Email, token: Token, clock: int, now: int)
    requires WithinLimits(s, clock) && clock <= now
    ensures WithinLimits(Requested(s, service, email, token, now).0, now)
  {
    var k0, s' := Rate(service, email), Requested(s, service, email, token, now).0;
    forall k: Key | k.Rate?
      ensures LimiterOk(GrantsOf(s', k), Lookup(s'.redis, k), now)
    {
      assert LimiterOk(GrantsOf(s, k), Lookup(s.redis, k), clock);
      if k == k0 {
        CountingKeepsLimiter(GrantsOf(s, k), s.redis, k, clock, now);
        RequestCounts(s, service, email, token, now);
      } else {
        RequestLeavesOthers(s, service, email, token, now, k);
      }
    }
  }

  lemma OtherStepLeavesCounter(s: State, t: Timed, k: Key)
    requires !t.op.Request? && k.Rate?
    ensures GrantsOf(Step(s, t).0, k) == GrantsOf(s, k)
    ensures Lookup(Step(s, t).0.redis, k) == Lookup(s.redis, k)
  {
    if t.op.Redeem? {
      RedeemRemovesAtMostToken(s, t.op.service, t.op.token, t.op.password, t.now);
    }
  }

  lemma StepKeepsLimits(s: State, t: Timed, clock: int)
    requires WithinLimits(s, clock) && clock <= t.now
    ensures WithinLimits(Step(s, t).0, t.now)
  {
    if t.op.Request? {
      RequestKeepsLimits(s, t.op.service, t.op.email, t.op.token, clock, t.now);
    } else {
      var s' := Step(s, t).0;
      forall k: Key | k.Rate?
        ensures LimiterOk(GrantsOf(s', k), Lookup(s'.redis, k), t.now)
      {
        assert LimiterOk(GrantsOf(s, k), Lookup(s.redis, k), clock);
        OtherStepLeavesCounter(s, t, k);
      }
    }
  }

  function Clock(ops: seq<Timed>): int {
    if ops == [] then 0 else ops[|ops| - 1].now
  }

  lemma {:induction false} RunKeepsLimits(ops: seq<Timed>)
    requires IsRun(ops)
    ensures WithinLimits(After(ops), Clock(ops))
  {
    if ops != [] {
      var init := ops[..|ops| - 1];
      RunKeepsLimits(init);
      if init == [] {
        assert WithinLimits(EMPTY, ops[0].now);
        StepKeepsLimits(EMPTY, ops[0], ops[0].now);
      } else {
        StepKeepsLimits(After(init), ops[|ops| - 1], Clock(init));
      }
    }
  }

  // ----- nobody is refused too early -----

  /** How often the address has asked the service from a time on, whatever the answer was. */
  function RequestsSince(ops: seq<Timed>, service: Service, email: Email, from: int): nat {
    if ops == [] then 0
    else
      var last := ops[|ops| - 1];
      RequestsSince(ops[..|ops| - 1], service, email, from)
      + if last.op.Request? && last.op.service == service && last.op.email == email && from <= last.now then 1 else 0
  }

  lemma {:induction false} FewerSinceLater(ops: seq<Timed>, service: Service, email: Email, from: int, later: int)
    requires from <= later
    ensures RequestsSince(ops, service, email, later) <= RequestsSince(ops, service, email, from)
  {
    if ops != [] {
      FewerSinceLater(ops[..|ops| - 1], service, email, from, later);
    }
  }

  /** The counter holds the number of requests of its window, and no request came after the window. */
  ghost predicate CountsRequests(ops: seq<Timed>, service: Service, email: Email, e: Option<Entry>) {
    match e
    case None => forall from :: RequestsSince(ops, service, email, from) == 0
    case Some(Counter(count, expiresAt)) =>
      && RequestsSince(ops, service, email, expiresAt - 3_600_000) == count
      && RequestsSince(ops, service, email, expiresAt) == 0
    case Some(Payload(_, _)) => false
  }

  lemma OneMoreRequest(ops: seq<Timed>, service: Service, email: Email, t: Timed, redis: map<Key, Entry>)
    requires var k := Rate(service, email);
      && CountsRequests(ops, service, email, Lookup(redis, k))
      && (k in redis ==> redis[k].expiresAt <= t.now + WINDOW)
    requires t.op.Request? && t.op.service == service && t.op.email == email
    ensures var k := Rate(service, email);
      CountsRequests(ops + [t], service, email, Some(Incremented(redis, k, t.now)[k]))
  {
    var k := Rate(service, email);
    assert (ops + [t])[..|ops|] == ops;
    if k in redis && redis[k].expiresAt <= t.now {
      FewerSinceLater(ops, service, email, redis[k].expiresAt, t.now);
      FewerSinceLater(ops, service, email, redis[k].expiresAt, t.now + WINDOW);
    }
  }

  lemma {:induction false} CounterIsRequests(ops: seq<Timed>, service: Service, email: Email)
    requires IsRun(ops)
    ensures CountsRequests(ops, service, email, Lookup(After(ops).redis, Rate(service, email)))
  {
    if ops != [] {
      var init, t, k := ops[..|ops| - 1], ops[|ops| - 1], Rate(service, email);
      var s := After(init);
      CounterIsRequests(init, service, email);
      assert ops == init + [t];
      if t.op.Request? && t.op.service == service && t.op.email == email {
        RunKeepsLimits(init);
        assert LimiterOk(GrantsOf(s, k), Lookup(s.redis, k), Clock(init));
        OneMoreRequest(init, service, email, t, s.redis);
        RequestCounts(s, service, email, t.op.token, t.now);
      } else {
        OtherStepCountsOn(init, t, service, email);
      }
    }
  }

  lemma OtherStepCountsOn(init: seq<Timed>, t: Timed, service: Service, email: Email)
    requires !(t.op.Request? && t.op.service == service && t.op.email == email)
    requires CountsRequests(init, service, email, Lookup(After(init).redis, Rate(service, email)))
    ensures CountsRequests(init + [t], service, email, Lookup(Step(After(init), t).0.redis, Rate(service, email)))
  {
    var s, k := After(init), Rate(service, email);
    assert (init + [t])[..|init|] == init;
    if t.op.Request? {
      RequestLeavesOthers(s, t.op.service, t.op.email, t.op.token, t.now, k);
    } else {
      OtherStepLeavesCounter(s, t, k);
    }
  }

  lemma RefusedByCounter(s: State, service: Service, email: Email, token: Token, now: int)
    requires Rate(service, email) in s.redis ==> s.redis[Rate(service, email)].Counter?
    ensures Requested(s, service, email, token, now).1 ==
            if WindowIsFull(s.redis, Rate(service, email), now) then Limited
            else if Eligible(s, service, email) then Sent else Silent
  {
  }

  /** The window of the key is still open and has counted three requests or more. */
  predicate WindowIsFull(redis: map<Key, Entry>, k: Key, now: int) {
    k in redis && redis[k].Counter? && now < redis[k].expiresAt && redis[k].count >= RATE_LIMIT_MAX
  }

  /** The answer, from the number of requests the address has made in its window. */
  function Answer(ops: seq<Timed>, s: State, service: Service, email: Email, now: int): Outcome {
    var k := Rate(service, email);
    if k in s.redis && now < s.redis[k].expiresAt
       && RequestsSince(ops, service, email, s.redis[k].expiresAt - 3_600_000) >= 3 then Limited
    else if email in s.keycloak && (service.Recovery? || !s.keycloak[email].verified) then Sent else Silent
  }

  lemma AnswerByCounts(ops: seq<Timed>, s: State, service: Service, email: Email, token: Token, now: int)
    requires CountsRequests(ops, service, email, Lookup(s.redis, Rate(service, email)))
    ensures Requested(s, service, email, token, now).1 == Answer(ops, s, service, email, now)
  {
    RefusedByCounter(s, service, email, token, now);
  }

  /** A request is answered with a refusal exactly if its window is open and has seen three requests or more. */
  lemma AnswerExact(ops: seq<Timed>, service: Service, email: Email, token: Token, now: int)
    requires IsRun(ops)
    ensures Requested(After(ops), service, email, token, now).1 == Answer(ops, After(ops), service, email, now)
  {
    CounterIsRequests(ops, service, email);
    AnswerByCounts(ops, After(ops), service, email, token, now);
  }

  /** An address that has asked less than three times in the last hour is not refused. */
  lemma SparingIsServed(ops: seq<Timed>, service: Service, email: Email, token: Token, now: int)
    requires IsRun(ops) && RequestsSince(ops, service, email, now - 3_600_000 + 1) < 3
    ensures var s := After(ops);
      Requested(s, service, email, token, now).1
      == if email in s.keycloak && (service.Recovery? || !s.keycloak[email].verified) then Sent else Silent
  {
    AnswerExact(ops, service, email, token, now);
    SparingWindow(ops, service, email, now);
  }

  lemma SparingWindow(ops: seq<Timed>, service: Service, email: Email, now: int)
    requires RequestsSince(ops, service, email, now - WINDOW + 1) < RATE_LIMIT_MAX
    ensures forall start :: now - WINDOW < start ==> RequestsSince(ops, service, email, start) < RATE_LIMIT_MAX
  {
    forall start | now - WINDOW < start
      ensures RequestsSince(ops, service, email, start) < RATE_LIMIT_MAX
    {
      FewerSinceLater(ops, service, email, now - WINDOW + 1, start);
    }
  }

  // ----- counting -----

  /**
   * The most tokens a stretch of time can see: three for each window that begins in it, and two of
   * a window that was open before, unless the stretch is a whole number of hours.
   */
  function MostSent(span: nat): nat {
    3 * (span / 3_600_000 + 1) + if span % 3_600_000 == 0 then 0 else 2
  }

  function CeilDiv(t: nat, d: nat): nat
    requires d > 0
  {
    (t + d - 1) / d
  }

  lemma MostSentPerHourBegun(span: nat)
    ensures MostSent(span) <= RATE_LIMIT_MAX * (CeilDiv(span, WINDOW) + 1)
  {
  }

  /** Three grants further on, the window is at least one later. */
  lemma ThreeOnIsLaterWindow(gs: seq<Grant>, i: nat)
    requires GrantsSpaced(gs) && i + 3 < |gs|
    ensures gs[i].windowEnd + WINDOW <= gs[i + 3].windowEnd
  {
    assert Before(gs[i], gs[i + 1]) && Before(gs[i + 1], gs[i + 2]) && Before(gs[i + 2], gs[i + 3]);
    assert InWindow(gs[i]) && InWindow(gs[i + 3]);
  }

  lemma {:induction false} WindowsAdvance(gs: seq<Grant>, i: nat, m: nat)
    requires GrantsSpaced(gs) && i + 3 * m < |gs|
    ensures gs[i].windowEnd + m * WINDOW <= gs[i + 3 * m].windowEnd
  {
    if m > 0 {
      WindowsAdvance(gs, i, m - 1);
      ThreeOnIsLaterWindow(gs, i + 3 * (m - 1));
    }
  }

  ghost function GrantsWithin(gs: seq<Grant>, from: int, span: nat): set<int> {
    set i | 0 <= i < |gs| && from <= gs[i].time <= from + span
  }

  predicate Between(t: int, from: int, span: nat) {
    from <= t <= from + span
  }

  /** The request at the end of the run is for this address, falls in the stretch, and is sent a token. */
  predicate LastIsSent(ops: seq<Timed>, service: Service, email: Email, from: int, span: nat)
    requires ops != []
  {
    var n := |ops| - 1;
    && ops[n].op.Request? && ops[n].op.service == service && ops[n].op.email == email
    && Between(ops[n].now, from, span)
    && Step(After(ops[..n]), ops[n]).1 == Sent
  }

  /** How many tokens the address is sent on request in the stretch of time. */
  function SentCount(ops: seq<Timed>, service: Service, email: Email, from: int, span: nat): nat {
    if ops == [] then 0
    else SentCount(ops[..|ops| - 1], service, email, from, span)
         + if LastIsSent(ops, service, email, from, span) then 1 else 0
  }

  lemma GrantsWithinGrow(gs: seq<Grant>, g: Grant, from: int, span: nat)
    ensures |GrantsWithin(gs + [g], from, span)|
            == |GrantsWithin(gs, from, span)| + if Between(g.time, from, span) then 1 else 0
  {
    var before, after := GrantsWithin(gs, from, span), GrantsWithin(gs + [g], from, span);
    assert after == if Between(g.time, from, span) then before + {|gs|} else before;
  }

  lemma RequestRecordsGrant(s: State, service: Service, email: Email, token: Token, now: int)
    ensures var k, (s', outcome) := Rate(service, email), Requested(s, service, email, token, now);
      if outcome == Sent then exists end, n :: GrantsOf(s', k) == GrantsOf(s, k) + [Grant(now, end, n)]
      else GrantsOf(s', k) == GrantsOf(s, k)
  {
  }

  /** A step that is not sent a token on request leaves the record of the address alone. */
  lemma StepRecordsGrant(s: State, t: Timed, service: Service, email: Email)
    ensures var k, s' := Rate(service, email), Step(s, t).0;
      if t.op.Request? && t.op.service == service && t.op.email == email && Step(s, t).1 == Sent
      then exists end, n :: GrantsOf(s', k) == GrantsOf(s, k) + [Grant(t.now, end, n)]
      else GrantsOf(s', k) == GrantsOf(s, k)
  {
    if !t.op.Request? {
      OtherStepLeavesCounter(s, t, Rate(service, email));
    } else if t.op.service == service && t.op.email == email {
      RequestRecordsGrant(s, service, email, t.op.token, t.now);
    } else {
      RequestLeavesOthers(s, t.op.service, t.op.email, t.op.token, t.now, Rate(service, email));
    }
  }

  lemma {:induction false} SentCountIsGrants(ops: seq<Timed>, service: Service, email: Email, from: int, span: nat)
    ensures SentCount(ops, service, email, from, span)
            == |GrantsWithin(GrantsOf(After(ops), Rate(service, email)), from, span)|
  {
    if ops != [] {
      var n := |ops| - 1;
      var s, t := After(ops[..n]), ops[n];
      SentCountIsGrants(ops[..n], service, email, from, span);
      StepRecordsGrant(s, t, service, email);
      if t.op.Request? && t.op.service == service && t.op.email == email && Step(s, t).1 == Sent {
        var k := Rate(service, email);
        var end, m :| GrantsOf(After(ops), k) == GrantsOf(s, k) + [Grant(t.now, end, m)];
        GrantsWithinGrow(GrantsOf(s, k), Grant(t.now, end, m), from, span);
      }
    }
  }

  /** In any stretch of time at most that many are sent to one address on request, whatever else happens. */
  lemma RequestsAreLimited(ops: seq<Timed>, service: Service, email: Email, from: int, span: nat)
    requires IsRun(ops)
    ensures SentCount(ops, service, email, from, span) <= MostSent(span)
    ensures SentCount(ops, service, email, from, span) <= 3 * (CeilDiv(span, 3_600_000) + 1)
  {
    MostSentPerHourBegun(span);
    RunKeepsLimits(ops);
    var k := Rate(service, email);
    assert LimiterOk(GrantsOf(After(ops), k), Lookup(After(ops).redis, k), Clock(ops));
    SpacedAreLimited(GrantsOf(After(ops), k), from, span);
    SentCountIsGrants(ops, service, email, from, span);
  }

  lemma SpacedAreLimited(gs: seq<Grant>, from: int, span: nat)
    requires GrantsSpaced(gs)
    ensures |GrantsWithin(gs, from, span)| <= MostSent(span)
  {
    var within := GrantsWithin(gs, from, span);
    var p, q := 0, |gs| - 1;
    while p < |gs| && p !in within
      invariant 0 <= p <= |gs| && forall i :: i in within ==> p <= i
    {
      p := p + 1;
    }
    while q >= 0 && q !in within
      invariant -1 <= q < |gs| && forall i :: i in within ==> i <= q
    {
      q := q - 1;
    }
    SubsetCardinality(within, Interval(p, q + 1));
    if p <= q {
      EndsInARow(gs, p, q, span);
    }
  }

  /** If the first grant was not the first of its window, the grant after next is in a later window. */
  lemma TwoOnIsLaterWindow(gs: seq<Grant>, i: nat)
    requires GrantsSpaced(gs) && i + 2 < |gs| && gs[i].ordinal > 1
    ensures gs[i].windowEnd + WINDOW <= gs[i + 2].windowEnd
  {
    assert Before(gs[i], gs[i + 1]) && Before(gs[i + 1], gs[i + 2]);
    assert InWindow(gs[i + 2]);
  }

  /** A row of grants takes longer than the windows it must cross. */
  lemma EndsInARow(gs: seq<Grant>, p: nat, q: nat, span: nat)
    requires GrantsSpaced(gs) && p <= q < |gs| && gs[q].time <= gs[p].time + span
    ensures q + 1 - p <= MostSent(span)
  {
    assert InWindow(gs[p]) && InWindow(gs[q]);
    var r := if gs[p].ordinal == 1 then p else p + 2;
    if r <= q {
      var m := (q - r) / 3;
      WindowsAdvance(gs, r, m);
      assert r + 3 * m == q || Before(gs[r + 3 * m], gs[q]);
      if r != p { TwoOnIsLaterWindow(gs, p); }
      WindowsFit(m, span);
    }
  }

  lemma WindowsFit(m: nat, span: nat)
    ensures m * WINDOW <= span ==> m <= span / WINDOW
    ensures m * WINDOW < span ==> m < span / WINDOW || (m == span / WINDOW && span % WINDOW != 0)
  {
  }

  // ----- the bound is sharp -----

  /** A run in which the address can be sent tokens, and none so far is as long as the run. */
  ghost predicate Primed(ops: seq<Timed>, service: Service, email: Email) {
    && IsRun(ops) && Eligible(After(ops), service, email)
    && forall k :: k in After(ops).issued ==> k.TokenOf? && |k.token| < |ops|
  }

  function Letters(n: nat): string {
    seq(n, _ => 'x')
  }

  function Asks(ops: seq<Timed>, service: Service, email: Email, now: int): Timed {
    Timed(Request(service, email, Letters(|ops|)), now)
  }

  lemma SentAlters(s: State, service: Service, email: Email, token: Token, now: int)
    requires Eligible(s, service, email)
    requires Requested(s, service, email, token, now).1 == Sent
    ensures var s' := Requested(s, service, email, token, now).0;
      && Eligible(s', service, email)
      && s'.issued == s.issued[TokenOf(service, token) := now]
      && Lookup(s'.redis, Rate(service, email))
         == Some(Incremented(s.redis, Rate(service, email), now)[Rate(service, email)])
  {
    RequestCounts(s, service, email, token, now);
  }

  lemma AskOnce(ops: seq<Timed>, service: Service, email: Email, now: int, from: int, span: nat)
    requires Primed(ops, service, email) && (ops == [] || Clock(ops) <= now)
    requires !WindowIsFull(After(ops).redis, Rate(service, email), now)
    ensures var ops' := ops + [Asks(ops, service, email, now)];
      && Primed(ops', service, email) && Clock(ops') == now
      && Lookup(After(ops').redis, Rate(service, email))
         == Some(Incremented(After(ops).redis, Rate(service, email), now)[Rate(service, email)])
      && SentCount(ops', service, email, from, span)
         == SentCount(ops, service, email, from, span) + if Between(now, from, span) then 1 else 0
  {
    var t := Asks(ops, service, email, now);
    var ops' := ops + [t];
    assert ops'[..|ops|] == ops;
    RunKeepsLimits(ops);
    var k := Rate(service, email);
    assert LimiterOk(GrantsOf(After(ops), k), Lookup(After(ops).redis, k), Clock(ops));
    RefusedByCounter(After(ops), service, email, t.op.token, now);
    SentAlters(After(ops), service, email, t.op.token, now);
  }

  /** The window of the address is over or was never opened, so a burst of three is answered. */
  ghost predicate Rested(ops: seq<Timed>, service: Service, email: Email, now: int) {
    var k, redis := Rate(service, email), After(ops).redis;
    k in redis ==> redis[k].expiresAt <= now
  }

  ghost predicate Counted(ops: seq<Timed>, service: Service, email: Email, count: nat, end: int) {
    Lookup(After(ops).redis, Rate(service, email)) == Some(Counter(count, end))
  }

  /** The request that opens a window. */
  lemma AskFirst(ops: seq<Timed>, service: Service, email: Email, now: int, from: int, span: nat)
    returns (ops': seq<Timed>)
    requires Primed(ops, service, email) && (ops == [] || Clock(ops) <= now) && Rested(ops, service, email, now)
    ensures Primed(ops', service, email) && ops' != [] && Clock(ops') == now
    ensures Counted(ops', service, email, 1, now + WINDOW)
    ensures SentCount(ops', service, email, from, span)
            == SentCount(ops, service, email, from, span) + if Between(now, from, span) then 1 else 0
  {
    AskOnce(ops, service, email, now, from, span);
    ops' := ops + [Asks(ops, service, email, now)];
  }

  /** The second or the third of the window. */
  lemma AskAgain(ops: seq<Timed>, service: Service, email: Email, count: nat, end: int, now: int, from: int, span: nat)
    returns (ops': seq<Timed>)
    requires Primed(ops, service, email) && ops != [] && Clock(ops) <= now
    requires Counted(ops, service, email, count, end) && count < RATE_LIMIT_MAX && now < end
    ensures Primed(ops', service, email) && ops' != [] && Clock(ops') == now
    ensures Counted(ops', service, email, count + 1, end)
    ensures SentCount(ops', service, email, from, span)
            == SentCount(ops, service, email, from, span) + if Between(now, from, span) then 1 else 0
  {
    AskOnce(ops, service, email, now, from, span);
    ops' := ops + [Asks(ops, service, email, now)];
  }

  lemma CountedRests(ops: seq<Timed>, service: Service, email: Email, count: nat, end: int)
    requires Counted(ops, service, email, count, end)
    ensures Rested(ops, service, email, end)
  {
  }

  lemma AskThreeTimes(ops: seq<Timed>, service: Service, email: Email, now: int, from: int, span: nat)
    returns (ops': seq<Timed>)
    requires Primed(ops, service, email) && (ops == [] || Clock(ops) <= now)
    requires Rested(ops, service, email, now) && Between(now, from, span)
    ensures Primed(ops', service, email) && Clock(ops') == now && Rested(ops', service, email, now + WINDOW)
    ensures SentCount(ops', service, email, from, span) == SentCount(ops, service, email, from, span) + 3
  {
    ops' := AskFirst(ops, service, email, now, from, span);
    ops' := AskAgain(ops', service, email, 1, now + WINDOW, now, from, span);
    ops' := AskAgain(ops', service, email, 2, now + WINDOW, now, from, span);
    CountedRests(ops', service, email, 3, now + WINDOW);
  }

  /** One request long before the stretch, and two in it before its window ends. */
  lemma AskAround(ops: seq<Timed>, service: Service, email: Email, from: int, span: nat) returns (ops': seq<Timed>)
    requires Primed(ops, service, email) && (ops == [] || Clock(ops) <= 0) && Rested(ops, service, email, 0)
    requires from == WINDOW - 1
    ensures Primed(ops', service, email) && ops' != [] && Clock(ops') == from && Rested(ops', service, email, WINDOW)
    ensures SentCount(ops', service, email, from, span) == SentCount(ops, service, email, from, span) + 2
  {
    ops' := AskFirst(ops, service, email, 0, from, span);
    ops' := AskAgain(ops', service, email, 1, WINDOW, from, from, span);
    ops' := AskAgain(ops', service, email, 2, WINDOW, from, from, span);
    CountedRests(ops', service, email, 3, WINDOW);
  }

  /** Bursts of three, an hour apart. */
  lemma {:induction false} AskHourly(ops: seq<Timed>, service: Service, email: Email, now: int, m: nat,
                                     from: int, span: nat)
    returns (ops': seq<Timed>)
    requires Primed(ops, service, email) && (ops == [] || Clock(ops) <= now)
    requires Rested(ops, service, email, now) && from <= now && now + m * WINDOW <= from + span
    ensures IsRun(ops')
    ensures SentCount(ops', service, email, from, span) == SentCount(ops, service, email, from, span) + 3 * (m + 1)
    decreases m
  {
    ops' := AskThreeTimes(ops, service, email, now, from, span);
    if m > 0 {
      assert now + WINDOW + (m - 1) * WINDOW == now + m * WINDOW;
      ops' := AskHourly(ops', service, email, now + WINDOW, m - 1, from, span);
    }
  }

  /** The run so far: the address has become that of an unverified user. */
  function Arrival(email: Email): seq<Timed> {
    [Timed(Elsewhere(map[email := Identity(false, "")], map[]), 0)]
  }

  lemma ArrivalIsPrimed(service: Service, email: Email, from: int, span: nat)
    ensures Primed(Arrival(email), service, email) && Clock(Arrival(email)) == 0
    ensures Rested(Arrival(email), service, email, 0)
    ensures SentCount(Arrival(email), service, email, from, span) == 0
  {
    assert Arrival(email)[..0] == [];
  }

  /** For every length of time and either service there is a run that sends as many as the bound allows. */
  lemma BoundIsAttained(service: Service, email: Email, span: nat) returns (ops: seq<Timed>, from: int)
    ensures IsRun(ops) && SentCount(ops, service, email, from, span) == MostSent(span)
  {
    var m := span / WINDOW;
    ops := Arrival(email);
    if span % WINDOW == 0 {
      from := 0;
      ArrivalIsPrimed(service, email, from, span);
      ops := AskHourly(ops, service, email, 0, m, from, span);
    } else {
      from := WINDOW - 1;
      ArrivalIsPrimed(service, email, from, span);
      ops := AskAround(ops, service, email, from, span);
      ops := AskHourly(ops, service, email, WINDOW, m, from, span);
    }
  }
}
