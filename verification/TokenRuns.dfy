/** Tokens over whole runs: for whom they succeed, how often, and until when. */
module TokenRuns {
  import opened AuthTokens
  import opened Options

  // ----- tokens succeed at most once, and in time -----

  /** A stored token was issued, expires a lifetime later and has been neither used nor burnt. */
  ghost predicate TokenEntry(k: Key, e: Entry, issued: map<Key, int>, gone: set<Key>) {
    && (e.Payload? <==> k.TokenOf?)
    && (k.TokenOf? ==> k in issued && k !in gone && e.expiresAt == issued[k] + Lifetime(k.service))
  }

  ghost predicate Tracked(redis: map<Key, Entry>, issued: map<Key, int>, gone: set<Key>) {
    && (forall k :: k in redis ==> TokenEntry(k, redis[k], issued, gone))
    && gone <= issued.Keys
  }

  ghost predicate TokensTracked(s: State) {
    Tracked(s.redis, s.issued, s.used.Keys + s.burnt)
  }

  lemma CountingTracks(redis: map<Key, Entry>, issued: map<Key, int>, gone: set<Key>, k: Key, now: int)
    requires Tracked(redis, issued, gone) && k.Rate?
    ensures Tracked(Incremented(redis, k, now), issued, gone)
  {
    assert Incremented(redis, k, now).Keys == redis.Keys + {k};
  }

  lemma IssuingTracks(redis: map<Key, Entry>, issued: map<Key, int>, gone: set<Key>, k: Key, email: Email, now: int)
    requires Tracked(redis, issued, gone) && k.TokenOf? && k !in issued
    ensures Tracked(redis[k := Payload(email, now + Lifetime(k.service))], issued[k := now], gone)
  {
  }

  lemma SpendingTracks(redis: map<Key, Entry>, issued: map<Key, int>, gone: set<Key>, k: Key)
    requires Tracked(redis, issued, gone) && k in redis && k.TokenOf?
    ensures Tracked(redis - {k}, issued, gone + {k})
  {
  }

  lemma RequestTracks(s: State, service: Service, email: Email, token: Token, now: int)
    requires TokensTracked(s) && TokenOf(service, token) !in s.issued
    ensures TokensTracked(Requested(s, service, email, token, now).0)
  {
    var k, gone := Rate(service, email), s.used.Keys + s.burnt;
    CountingTracks(s.redis, s.issued, gone, k, now);
    IssuingTracks(Incremented(s.redis, k, now), s.issued, gone, TokenOf(service, token), email, now);
  }

  /** Either nothing of the tokens changes, or the token is removed and recorded as used or burnt. */
  ghost predicate RemovesAtMost(s: State, s': State, k: Key) {
    && s'.issued == s.issued
    && ((s'.redis == s.redis && s'.used == s.used && s'.burnt == s.burnt)
        || (k in s.redis && s'.redis == s.redis - {k} && s'.used.Keys + s'.burnt == s.used.Keys + s.burnt + {k}))
  }

  lemma ConfirmTracks(s: State, token: Token, now: int)
    ensures RemovesAtMost(s, Confirmed(s, token, now).0, TokenOf(Verification, token))
  {
  }

  lemma ResetTracks(s: State, token: Token, password: string, now: int)
    ensures RemovesAtMost(s, PasswordReset(s, token, password, now).0, TokenOf(Recovery, token))
  {
  }

  lemma RedeemTracks(s: State, service: Service, token: Token, password: string, now: int)
    ensures RemovesAtMost(s, Step(s, Timed(Redeem(service, token, password), now)).0, TokenOf(service, token))
  {
    match service
    case Verification => ConfirmTracks(s, token, now);
    case Recovery => ResetTracks(s, token, password, now);
  }

  lemma StepTracksTokens(s: State, t: Timed)
    requires TokensTracked(s) && FreshToken(s, t.op)
    ensures TokensTracked(Step(s, t).0)
  {
    var gone := s.used.Keys + s.burnt;
    match t.op
    case Registration(email, _, token) =>
      IssuingTracks(s.redis, s.issued, gone, TokenOf(Verification, token), email, t.now);
    case Request(service, email, token) =>
      RequestTracks(s, service, email, token, t.now);
    case Redeem(service, token, password) =>
      RedeemTracks(s, service, token, password, t.now);
      var k := TokenOf(service, token);
      if k in s.redis { SpendingTracks(s.redis, s.issued, gone, k); }
    case Elsewhere(_, _) =>
  }

  ghost predicate RecordsGrow(s: State, s': State) {
    && s.used.Keys <= s'.used.Keys
    && forall k :: k in s.issued ==> k in s'.issued && s'.issued[k] == s.issued[k]
  }

  /** Redeeming a token touches no other key of Redis. */
  lemma RedeemRemovesAtMostToken(s: State, service: Service, token: Token, password: string, now: int)
    ensures var s' := Step(s, Timed(Redeem(service, token, password), now)).0;
      && (s'.redis == s.redis || s'.redis == s.redis - {TokenOf(service, token)})
      && s'.grants == s.grants && s'.issued == s.issued
      && (s'.used == s.used || s'.used == s.used[TokenOf(service, token) := now])
  {
  }

  lemma StepKeepsRecords(s: State, t: Timed)
    requires FreshToken(s, t.op)
    ensures RecordsGrow(s, Step(s, t).0)
  {
    if t.op.Redeem? {
      RedeemRemovesAtMostToken(s, t.op.service, t.op.token, t.op.password, t.now);
    }
  }

  lemma {:induction false} RunTracksTokens(ops: seq<Timed>)
    requires IsRun(ops)
    ensures TokensTracked(After(ops))
  {
    if ops != [] {
      RunTracksTokens(ops[..|ops| - 1]);
      StepTracksTokens(After(ops[..|ops| - 1]), ops[|ops| - 1]);
    }
  }

  ghost predicate SucceedsAt(ops: seq<Timed>, i: nat, service: Service, token: Token) {
    && i < |ops| && ops[i].op.Redeem? && ops[i].op.service == service && ops[i].op.token == token
    && Step(After(ops[..i]), ops[i]).1.Succeeded?
  }

  lemma {:induction false} PrefixIsRun(ops: seq<Timed>, i: nat)
    requires IsRun(ops) && i <= |ops|
    ensures IsRun(ops[..i])
  {
    if i < |ops| {
      PrefixIsRun(ops[..|ops| - 1], i);
      assert ops[..|ops| - 1][..i] == ops[..i];
    } else {
      assert ops[..i] == ops;
    }
  }

  /** What has been issued and used is still recorded later, with the same times. */
  lemma {:induction false} RecordsStay(ops: seq<Timed>, i: nat)
    requires IsRun(ops) && i <= |ops|
    ensures RecordsGrow(After(ops[..i]), After(ops))
  {
    if i < |ops| {
      var init := ops[..|ops| - 1];
      assert init[..i] == ops[..i];
      RecordsStay(init, i);
      StepKeepsRecords(After(init), ops[|ops| - 1]);
    } else {
      assert ops[..i] == ops;
    }
  }

  /** The step issues the token: a registration, or a request that is answered with one. */
  ghost predicate IssuesAt(ops: seq<Timed>, i: nat, service: Service, token: Token) {
    && i < |ops| && Step(After(ops[..i]), ops[i]).1 == Sent
    && match ops[i].op
       case Registration(_, _, t) => service == Verification && t == token
       case Request(s, _, t) => s == service && t == token
       case _ => false
  }

  /** Whom a step may send a token to. */
  function Recipient(t: Timed): Option<Email> {
    match t.op
    case Registration(email, _, _) => Some(email)
    case Request(_, email, _) => Some(email)
    case _ => None
  }

  ghost predicate IssuesTo(ops: seq<Timed>, i: nat, service: Service, token: Token, email: Email) {
    IssuesAt(ops, i, service, token) && Recipient(ops[i]) == Some(email)
  }

  /** Only an issue stores a token, for whom it is sent to and for its lifetime. */
  lemma StoredByStep(s: State, t: Timed, k: Key)
    requires k.TokenOf? && k in Step(s, t).0.redis && !(k in s.redis && s.redis[k] == Step(s, t).0.redis[k])
    ensures Step(s, t).1 == Sent && Recipient(t).Some?
    ensures Step(s, t).0.redis[k] == Payload(Recipient(t).value, t.now + Lifetime(k.service))
    ensures match t.op
      case Registration(_, _, token) => k == TokenOf(Verification, token)
      case Request(service, _, token) => k == TokenOf(service, token)
      case _ => false
  {
    if t.op.Redeem? {
      RedeemRemovesAtMostToken(s, t.op.service, t.op.token, t.op.password, t.now);
    }
  }

  lemma {:induction false} StoredIsIssued(ops: seq<Timed>, service: Service, token: Token) returns (j: nat)
    requires TokenOf(service, token) in After(ops).redis
    ensures var e := After(ops).redis[TokenOf(service, token)];
      e.Payload? && IssuesTo(ops, j, service, token, e.email) && e.expiresAt == ops[j].now + Lifetime(service)
  {
    var n, k := |ops| - 1, TokenOf(service, token);
    if k in After(ops[..n]).redis && After(ops[..n]).redis[k] == After(ops).redis[k] {
      j := StoredIsIssued(ops[..n], service, token);
      assert ops[..n][..j] == ops[..j];
    } else {
      StoredByStep(After(ops[..n]), ops[n], k);
      j := n;
    }
  }

  /** The answer to a token, by what is stored for it. */
  lemma RedeemedFor(s: State, service: Service, token: Token, password: string, now: int, email: Email)
    ensures var k := TokenOf(service, token);
      Step(s, Timed(Redeem(service, token, password), now)).1 == Succeeded(email) <==>
      && k in s.redis && s.redis[k].Payload? && s.redis[k].email == email
      && now < s.redis[k].expiresAt && email in s.keycloak
  {
  }

  /** A token that succeeds does so for the address it was issued to, less than its lifetime ago. */
  lemma SuccessIsTimely(ops: seq<Timed>, i: nat, service: Service, token: Token)
    requires IsRun(ops) && SucceedsAt(ops, i, service, token)
    ensures exists j: nat ::
      && j < i && IssuesTo(ops, j, service, token, Step(After(ops[..i]), ops[i]).1.email)
      && ops[i].now < ops[j].now + if service.Verification? then 86_400_000 else 900_000
  {
    var email := Step(After(ops[..i]), ops[i]).1.email;
    RedeemedFor(After(ops[..i]), service, token, ops[i].op.password, ops[i].now, email);
    var j := StoredIsIssued(ops[..i], service, token);
    assert ops[..i][..j] == ops[..j];
    assert IssuesTo(ops, j, service, token, email);
  }

  lemma SuccessIsRecorded(ops: seq<Timed>, i: nat, service: Service, token: Token)
    requires IsRun(ops) && SucceedsAt(ops, i, service, token)
    ensures TokenOf(service, token) !in After(ops[..i]).used && TokenOf(service, token) in After(ops[..i + 1]).used
  {
    PrefixIsRun(ops, i);
    RunTracksTokens(ops[..i]);
    assert ops[..i + 1][..i] == ops[..i];
  }

  lemma SuccessAtMostOnce(ops: seq<Timed>, i: nat, j: nat, service: Service, token: Token)
    requires IsRun(ops) && SucceedsAt(ops, i, service, token) && SucceedsAt(ops, j, service, token)
    ensures i == j
  {
    if i < j {
      UsedBefore(ops, i, j, service, token);
    } else if j < i {
      UsedBefore(ops, j, i, service, token);
    }
  }

  lemma UsedBefore(ops: seq<Timed>, i: nat, j: nat, service: Service, token: Token)
    requires IsRun(ops) && i < j && SucceedsAt(ops, i, service, token)
    ensures !SucceedsAt(ops, j, service, token)
  {
    SuccessIsRecorded(ops, i, service, token);
    if j < |ops| {
      StaysUsed(ops, i + 1, j, TokenOf(service, token));
      if SucceedsAt(ops, j, service, token) {
        SuccessIsRecorded(ops, j, service, token);
        assert false;
      }
    }
  }

  lemma StaysUsed(ops: seq<Timed>, i: nat, j: nat, k: Key)
    requires IsRun(ops) && i <= j <= |ops| && k in After(ops[..i]).used
    ensures k in After(ops[..j]).used
  {
    PrefixIsRun(ops, j);
    assert ops[..j][..i] == ops[..i];
    RecordsStay(ops[..j], i);
  }

  // ----- a token that is neither used nor burnt keeps working until it expires -----

  ghost predicate Open(s: State, k: Key) {
    k in s.issued && k !in s.used && k !in s.burnt
  }

  ghost predicate OpenAreStored(s: State) {
    && (forall k: Key {:trigger Open(s, k)} :: k.TokenOf? && Open(s, k) ==> k in s.redis)
    && (forall k :: k in s.burnt ==> k.TokenOf? && k.service == Verification)
  }

  lemma StepKeepsStored(s: State, t: Timed, k: Key)
    requires k.TokenOf? && (Open(s, k) ==> k in s.redis)
    requires FreshToken(s, t.op)
    ensures Open(Step(s, t).0, k) ==> k in Step(s, t).0.redis
  {
    if t.op.Redeem? {
      RedeemTracks(s, t.op.service, t.op.token, t.op.password, t.now);
      RedeemRemovesAtMostToken(s, t.op.service, t.op.token, t.op.password, t.now);
    }
  }

  /** Only confirm burns. */
  lemma StepBurns(s: State, t: Timed)
    ensures var burnt' := Step(s, t).0.burnt;
      burnt' == s.burnt
      || (t.op.Redeem? && t.op.service == Verification && Step(s, t).1 == UserMissing
          && burnt' == s.burnt + {TokenOf(Verification, t.op.token)})
  {
  }

  lemma {:induction false} RunKeepsStored(ops: seq<Timed>)
    requires IsRun(ops)
    ensures OpenAreStored(After(ops))
  {
    if ops != [] {
      var s, t := After(ops[..|ops| - 1]), ops[|ops| - 1];
      RunKeepsStored(ops[..|ops| - 1]);
      StepBurns(s, t);
      forall k: Key | k.TokenOf? && Open(Step(s, t).0, k)
        ensures k in Step(s, t).0.redis
      {
        assert Open(s, k) ==> k in s.redis;
        StepKeepsStored(s, t, k);
      }
    }
  }

  lemma RedeemedWhenStored(s: State, service: Service, token: Token, password: string, now: int)
    ensures var k := TokenOf(service, token);
      Step(s, Timed(Redeem(service, token, password), now)).1.Succeeded? <==>
      k in s.redis && now < s.redis[k].expiresAt && s.redis[k].Payload? && s.redis[k].email in s.keycloak
  {
  }

  /**
   * Redeeming a token succeeds exactly while it is issued, neither used nor burnt, and in time, and
   * its user exists. While it is open, the store knows its user.
   */
  lemma RedeemSucceedsExactly(ops: seq<Timed>, service: Service, token: Token, password: string, now: int)
    requires IsRun(ops)
    ensures var s, k := After(ops), TokenOf(service, token);
      Step(s, Timed(Redeem(service, token, password), now)).1.Succeeded? <==>
      && Open(s, k) && now < s.issued[k] + Lifetime(service)
      && k in s.redis && s.redis[k].Payload? && s.redis[k].email in s.keycloak
    ensures var s, k := After(ops), TokenOf(service, token);
      Open(s, k) ==> k in s.redis && s.redis[k].Payload?
  {
    RunKeepsStored(ops);
    RunTracksTokens(ops);
    var s, k := After(ops), TokenOf(service, token);
    assert Open(s, k) ==> k in s.redis;
    assert k in s.redis ==> TokenEntry(k, s.redis[k], s.issued, s.used.Keys + s.burnt);
    RedeemedWhenStored(s, service, token, password, now);
  }

  /** A password reset: recovery tokens are never burnt. */
  lemma RecoverySucceedsExactly(ops: seq<Timed>, token: Token, password: string, now: int)
    requires IsRun(ops)
    ensures var s, k := After(ops), TokenOf(Recovery, token);
      PasswordReset(s, token, password, now).1.Succeeded? <==>
      && k in s.issued && k !in s.used && now < s.issued[k] + 900_000
      && k in s.redis && s.redis[k].Payload? && s.redis[k].email in s.keycloak
    ensures var s, k := After(ops), TokenOf(Recovery, token);
      k in s.issued && k !in s.used ==> k in s.redis && s.redis[k].Payload?
    ensures forall email {:trigger Succeeded(email)} ::
      PasswordReset(After(ops), token, password, now).1 == Succeeded(email)
      <==> Redeemable(ops, Recovery, token, now, email)
  {
    RunKeepsStored(ops);
    RedeemSucceedsExactly(ops, Recovery, token, password, now);
    forall email
      ensures PasswordReset(After(ops), token, password, now).1 == Succeeded(email)
              <==> Redeemable(ops, Recovery, token, now, email)
    {
      RedeemSucceedsFor(ops, Recovery, token, password, now, email);
    }
  }

  /** A confirmation: a token that was burnt, because its user was missing when it was tried, is lost. */
  lemma ConfirmSucceedsExactly(ops: seq<Timed>, token: Token, now: int)
    requires IsRun(ops)
    ensures var s, k := After(ops), TokenOf(Verification, token);
      Confirmed(s, token, now).1.Succeeded? <==>
      && k in s.issued && k !in s.used && k !in s.burnt && now < s.issued[k] + 86_400_000
      && k in s.redis && s.redis[k].Payload? && s.redis[k].email in s.keycloak
    ensures var s, k := After(ops), TokenOf(Verification, token);
      k in s.issued && k !in s.used && k !in s.burnt ==> k in s.redis && s.redis[k].Payload?
    ensures forall email {:trigger Succeeded(email)} ::
      Confirmed(After(ops), token, now).1 == Succeeded(email) <==> Redeemable(ops, Verification, token, now, email)
  {
    RedeemSucceedsExactly(ops, Verification, token, "", now);
    forall email
      ensures Confirmed(After(ops), token, now).1 == Succeeded(email)
              <==> Redeemable(ops, Verification, token, now, email)
    {
      RedeemSucceedsFor(ops, Verification, token, "", now, email);
    }
  }

  /** The token was issued to the address, is neither used nor burnt, and in time, and the user exists. */
  ghost predicate Redeemable(ops: seq<Timed>, service: Service, token: Token, now: int, email: Email) {
    && Open(After(ops), TokenOf(service, token)) && email in After(ops).keycloak
    && exists j: nat ::
         && IssuesTo(ops, j, service, token, email)
         && now < ops[j].now + if service.Verification? then 86_400_000 else 900_000
  }

  lemma IssueRecords(s: State, t: Timed, k: Key)
    requires Step(s, t).1 == Sent
    requires match t.op
      case Registration(_, _, token) => k == TokenOf(Verification, token)
      case Request(service, _, token) => k == TokenOf(service, token)
      case _ => false
    ensures k in Step(s, t).0.issued
  {
  }

  lemma StaysIssued(ops: seq<Timed>, i: nat, j: nat, k: Key)
    requires IsRun(ops) && i <= j <= |ops| && k in After(ops[..i]).issued
    ensures k in After(ops[..j]).issued
  {
    PrefixIsRun(ops, j);
    assert ops[..j][..i] == ops[..i];
    RecordsStay(ops[..j], i);
  }

  /** No token is issued again. */
  lemma NotIssuedAgain(ops: seq<Timed>, i: nat, j: nat, service: Service, token: Token)
    requires IsRun(ops) && i < j && IssuesAt(ops, i, service, token)
    ensures !IssuesAt(ops, j, service, token)
  {
    if IssuesAt(ops, j, service, token) {
      var k := TokenOf(service, token);
      IssueRecords(After(ops[..i]), ops[i], k);
      AfterOneMore(ops, i);
      StaysIssued(ops, i + 1, j, k);
      FreshAt(ops, j);
      assert false;
    }
  }

  lemma FreshAt(ops: seq<Timed>, j: nat)
    requires IsRun(ops) && j < |ops|
    ensures FreshToken(After(ops[..j]), ops[j].op)
  {
    PrefixIsRun(ops, j + 1);
    assert ops[..j + 1][..j] == ops[..j];
  }

  lemma IssuedOnce(ops: seq<Timed>, i: nat, j: nat, service: Service, token: Token)
    requires IsRun(ops) && IssuesAt(ops, i, service, token) && IssuesAt(ops, j, service, token)
    ensures i == j
  {
    if i < j { NotIssuedAgain(ops, i, j, service, token); }
    if j < i { NotIssuedAgain(ops, j, i, service, token); }
  }

  /** The token was issued only once, so only for the address it is stored for. */
  lemma IssuedOnlyTo(ops: seq<Timed>, i: nat, j: nat, service: Service, token: Token, email: Email, other: Email)
    requires IsRun(ops) && IssuesTo(ops, i, service, token, email) && IssuesTo(ops, j, service, token, other)
    ensures i == j && email == other
  {
    IssuedOnce(ops, i, j, service, token);
  }

  /** What is stored for an open token is the address it was issued to, until its lifetime is over. */
  lemma StoredFor(ops: seq<Timed>, service: Service, token: Token, now: int, email: Email, e: Entry)
    requires IsRun(ops) && Open(After(ops), TokenOf(service, token))
    requires Lookup(After(ops).redis, TokenOf(service, token)) == Some(e)
    ensures e.Payload?
    ensures Redeemable(ops, service, token, now, email) <==>
            e.email == email && now < e.expiresAt && email in After(ops).keycloak
  {
    var j := StoredIsIssued(ops, service, token);
    if i: nat :| IssuesTo(ops, i, service, token, email) && now < ops[i].now + Lifetime(service) {
      IssuedOnlyTo(ops, i, j, service, token, email, e.email);
    }
  }

  /** Redeeming a token succeeds for an address exactly if the token can be redeemed for it. */
  lemma RedeemSucceedsFor(ops: seq<Timed>, service: Service, token: Token, password: string, now: int, email: Email)
    requires IsRun(ops)
    ensures Step(After(ops), Timed(Redeem(service, token, password), now)).1 == Succeeded(email)
            <==> Redeemable(ops, service, token, now, email)
  {
    RedeemedFor(After(ops), service, token, password, now, email);
    RedeemSucceedsExactly(ops, service, token, password, now);
    if Open(After(ops), TokenOf(service, token)) {
      StoredFor(ops, service, token, now, email, After(ops).redis[TokenOf(service, token)]);
    }
  }

  lemma AfterOneMore(ops: seq<Timed>, i: nat)
    requires i < |ops|
    ensures After(ops[..i + 1]) == Step(After(ops[..i]), ops[i]).0
  {
    assert ops[..i + 1][..i] == ops[..i];
  }
}
