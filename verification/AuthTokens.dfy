/** E-mail verification and password recovery: single-use tokens with a lifetime, behind a request limit. */
module AuthTokens {
  import opened Options

  type Email = string
  type Token = string

  /** The two services keep the same two kinds of key each. */
  datatype Service = Verification | Recovery

  datatype Key = Rate(service: Service, email: Email) | TokenOf(service: Service, token: Token)

  /** The Redis key. */
  function KeyText(k: Key): string {
    match k
    case Rate(Verification, email) => "rate:verify:" + email
    case Rate(Recovery, email) => "rate:recovery:" + email
    case TokenOf(Verification, token) => "verify-email:" + token
    case TokenOf(Recovery, token) => "recovery:" + token
  }

  /** No two keys share their text, so a key can stand for its text. */
  lemma KeysNeverClash(a: Key, b: Key)
    ensures KeyText(a) == KeyText(b) <==> a == b
  {
    var ta, tb := KeyText(a), KeyText(b);
    assert ta[0] != tb[0] || ta[1] != tb[1] || ta[5] != tb[5]
      || ((a.Rate? <==> b.Rate?) && a.service == b.service);
    if ta == tb {
      var n := match a case Rate(Verification, _) => 12 case Rate(Recovery, _) => 14
                       case TokenOf(Verification, _) => 13 case TokenOf(Recovery, _) => 9;
      assert ta[n..] == tb[n..];
      assert ta[n..] == if a.Rate? then a.email else a.token;
      assert tb[n..] == if b.Rate? then b.email else b.token;
    }
  }

  // Times are in milliseconds.

  const RATE_LIMIT_MAX := 3
  const WINDOW := 3_600_000

  function Lifetime(service: Service): int {
    match service
    case Verification => 86_400_000
    case Recovery => 900_000
  }

  /** A value with its expiry: a request counter, or the e-mail a token was issued to. */
  datatype Entry = Counter(count: nat, expiresAt: int) | Payload(email: Email, expiresAt: int)

  datatype Identity = Identity(verified: bool, password: string)

  datatype Status = PendingVerification | Active | OtherStatus

  /** A token sent on request: when, in which window of the limiter, and as which request of it. */
  datatype Grant = Grant(time: int, windowEnd: int, ordinal: nat)

  /** The stores, and a record of what was granted, issued, used and burnt. */
  datatype State = State(
    redis: map<Key, Entry>, keycloak: map<Email, Identity>, platform: map<Email, Status>,
    grants: map<Key, seq<Grant>>, issued: map<Key, int>, used: map<Key, int>, burnt: set<Key>)

  datatype Outcome = Limited | Silent | Sent | Taken | NotStored | Gone | UserMissing | Succeeded(email: Email)

  // ----- what each request does -----

  function Get(redis: map<Key, Entry>, k: Key, now: int): Option<Entry> {
    if k in redis && now < redis[k].expiresAt then Some(redis[k]) else None
  }

  function Lookup(redis: map<Key, Entry>, k: Key): Option<Entry> {
    if k in redis then Some(redis[k]) else None
  }

  /** INCR, and EXPIRE when the counter is new. */
  function Incremented(redis: map<Key, Entry>, k: Key, now: int): map<Key, Entry> {
    match Get(redis, k, now)
    case Some(Counter(n, expiresAt)) => redis[k := Counter(n + 1, expiresAt)]
    case _ => redis[k := Counter(1, now + WINDOW)]
  }

  function Issued(s: State, service: Service, email: Email, token: Token, now: int): State {
    var k := TokenOf(service, token);
    s.(redis := s.redis[k := Payload(email, now + Lifetime(service))], issued := s.issued[k := now])
  }

  function GrantsOf(s: State, k: Key): seq<Grant> {
    if k in s.grants then s.grants[k] else []
  }

  predicate Eligible(s: State, service: Service, email: Email) {
    email in s.keycloak && (service == Verification ==> !s.keycloak[email].verified)
  }

  /** resend and requestRecovery: count the request, and send a token if the limit and the user allow. */
  function Requested(s: State, service: Service, email: Email, token: Token, now: int): (State, Outcome) {
    var k := Rate(service, email);
    var s1 := s.(redis := Incremented(s.redis, k, now));
    var entry := s1.redis[k];
    if entry.count > RATE_LIMIT_MAX then (s1, Limited)
    else if !Eligible(s, service, email) then (s1, Silent)
    else
      var grant := Grant(now, entry.expiresAt, entry.count);
      (Issued(s1.(grants := s1.grants[k := GrantsOf(s, k) + [grant]]), service, email, token, now), Sent)
  }

  /** register: a new identity and a new user, who is sent a token; a known platform address is not stored twice. */
  function Registered(s: State, email: Email, password: string, token: Token, now: int): (State, Outcome) {
    if email in s.keycloak then (s, Taken)
    else
      var s1 := s.(keycloak := s.keycloak[email := Identity(false, password)]);
      if email in s.platform then (s1, NotStored)
      else
        var s2 := s1.(platform := s.platform[email := PendingVerification]);
        (Issued(s2, Verification, email, token, now), Sent)
  }

  /**
   * A registration leaves an identity without a user's row exactly if only the platform knows the address;
   * then no token is stored or issued, and the address cannot be registered again.
   */
  lemma NotStoredExactly(s: State, email: Email, password: string, token: Token, now: int)
    ensures var (s', outcome) := Registered(s, email, password, token, now);
      && (outcome == NotStored <==> email !in s.keycloak && email in s.platform)
      && (outcome == NotStored ==>
            && s'.redis == s.redis && s'.issued == s.issued && s'.platform == s.platform
            && s'.keycloak == s.keycloak[email := Identity(false, password)]
            && forall p, t, later :: Registered(s', email, p, t, later) == (s', Taken))
  {
  }

  function Spent(s: State, k: Key, now: int): State {
    s.(redis := s.redis - {k}, used := s.used[k := now])
  }

  /** confirm: a token of a vanished user is burnt. */
  function Confirmed(s: State, token: Token, now: int): (State, Outcome) {
    var k := TokenOf(Verification, token);
    match Get(s.redis, k, now)
    case Some(Payload(email, _)) =>
      if email !in s.keycloak then (s.(redis := s.redis - {k}, burnt := s.burnt + {k}), UserMissing)
      else
        var s1 := s.(
          keycloak := s.keycloak[email := s.keycloak[email].(verified := true)],
          platform := if email in s.platform && s.platform[email] == PendingVerification
                      then s.platform[email := Active] else s.platform);
        (Spent(s1, k, now), Succeeded(email))
    case _ => (s, Gone)
  }

  /** resetPassword: a token of a vanished user is kept. */
  function PasswordReset(s: State, token: Token, password: string, now: int): (State, Outcome) {
    var k := TokenOf(Recovery, token);
    match Get(s.redis, k, now)
    case Some(Payload(email, _)) =>
      if email !in s.keycloak then (s, UserMissing)
      else
        var s1 := s.(keycloak := s.keycloak[email := s.keycloak[email].(password := password)]);
        (Spent(s1, k, now), Succeeded(email))
    case _ => (s, Gone)
  }

  // ----- the services -----

  class AuthServices {
    var redis: map<Key, Entry>
    var keycloak: map<Email, Identity>
    var platform: map<Email, Status>
    ghost var grants: map<Key, seq<Grant>>
    ghost var issued: map<Key, int>
    ghost var used: map<Key, int>
    ghost var burnt: set<Key>

    ghost function Now(): State
      reads this
    {
      State(redis, keycloak, platform, grants, issued, used, burnt)
    }

    method Incr(k: Key, now: int) returns (count: nat)
      modifies this`redis
      ensures redis == Incremented(old(redis), k, now)
      ensures redis[k].Counter? && count == redis[k].count
    {
      var found := Get(redis, k, now);
      if found.Some? && found.value.Counter? {
        count := found.value.count + 1;
        redis := redis[k := Counter(count, found.value.expiresAt)];
      } else {
        count := 1;
        redis := redis[k := Counter(1, now + WINDOW)];
      }
    }

    method Issue(service: Service, email: Email, token: Token, now: int)
      modifies this`redis, this`issued
      ensures Now() == Issued(old(Now()), service, email, token, now)
    {
      redis := redis[TokenOf(service, token) := Payload(email, now + Lifetime(service))];
      issued := issued[TokenOf(service, token) := now];
    }

    method Register(email: Email, password: string, token: Token, now: int) returns (outcome: Outcome)
      modifies this
      ensures (Now(), outcome) == Registered(old(Now()), email, password, token, now)
    {
      if email in keycloak {
        return Taken;
      }
      keycloak := keycloak[email := Identity(false, password)];
      if email in platform {
        return NotStored;
      }
      platform := platform[email := PendingVerification];
      Issue(Verification, email, token, now);
      outcome := Sent;
    }

    method Resend(email: Email, token: Token, now: int) returns (outcome: Outcome)
      modifies this
      ensures (Now(), outcome) == Requested(old(Now()), Verification, email, token, now)
    {
      var k := Rate(Verification, email);
      var count := Incr(k, now);
      if count > RATE_LIMIT_MAX {
        return Limited;
      }
      if email !in keycloak || keycloak[email].verified {
        return Silent;
      }
      grants := grants[k := GrantsOf(Now(), k) + [Grant(now, redis[k].expiresAt, count)]];
      Issue(Verification, email, token, now);
      outcome := Sent;
    }

    method RequestRecovery(email: Email, token: Token, now: int) returns (outcome: Outcome)
      modifies this
      ensures (Now(), outcome) == Requested(old(Now()), Recovery, email, token, now)
    {
      var k := Rate(Recovery, email);
      var count := Incr(k, now);
      if count > RATE_LIMIT_MAX {
        return Limited;
      }
      if email !in keycloak {
        return Silent;
      }
      grants := grants[k := GrantsOf(Now(), k) + [Grant(now, redis[k].expiresAt, count)]];
      Issue(Recovery, email, token, now);
      outcome := Sent;
    }

    method Confirm(token: Token, now: int) returns (outcome: Outcome)
      modifies this
      ensures (Now(), outcome) == Confirmed(old(Now()), token, now)
    {
      var k := TokenOf(Verification, token);
      var raw := Get(redis, k, now);
      if raw.None? || raw.value.Counter? {
        return Gone;
      }
      var email := raw.value.email;
      if email !in keycloak {
        redis := redis - {k};
        burnt := burnt + {k};
        return UserMissing;
      }
      keycloak := keycloak[email := keycloak[email].(verified := true)];
      if email in platform && platform[email] == PendingVerification {
        platform := platform[email := Active];
      }
      redis := redis - {k};
      used := used[k := now];
      outcome := Succeeded(email);
    }

    method ResetPassword(token: Token, password: string, now: int) returns (outcome: Outcome)
      modifies this
      ensures (Now(), outcome) == PasswordReset(old(Now()), token, password, now)
    {
      var k := TokenOf(Recovery, token);
      var raw := Get(redis, k, now);
      if raw.None? || raw.value.Counter? {
        return Gone;
      }
      var email := raw.value.email;
      if email !in keycloak {
        return UserMissing;
      }
      keycloak := keycloak[email := keycloak[email].(password := password)];
      redis := redis - {k};
      used := used[k := now];
      outcome := Succeeded(email);
    }
  }

  // ----- runs -----

  /** Any other activity may change the users in any way. */
  datatype Op =
    | Registration(email: Email, password: string, token: Token)
    | Request(service: Service, email: Email, token: Token)
    | Redeem(service: Service, token: Token, password: string)
    | Elsewhere(keycloak: map<Email, Identity>, platform: map<Email, Status>)

  datatype Timed = Timed(op: Op, now: int)

  function Step(s: State, t: Timed): (State, Outcome) {
    match t.op
    case Registration(email, password, token) => Registered(s, email, password, token, t.now)
    case Request(service, email, token) => Requested(s, service, email, token, t.now)
    case Redeem(Verification, token, _) => Confirmed(s, token, t.now)
    case Redeem(Recovery, token, password) => PasswordReset(s, token, password, t.now)
    case Elsewhere(keycloak, platform) => (s.(keycloak := keycloak, platform := platform), Silent)
  }

  /** A token that is about to be issued has never been issued before. */
  predicate FreshToken(s: State, op: Op) {
    match op
    case Registration(_, _, token) => TokenOf(Verification, token) !in s.issued
    case Request(service, _, token) => TokenOf(service, token) !in s.issued
    case _ => true
  }

  const EMPTY := State(map[], map[], map[], map[], map[], map[], {})

  function After(ops: seq<Timed>): State {
    if ops == [] then EMPTY else Step(After(ops[..|ops| - 1]), ops[|ops| - 1]).0
  }

  /** Requests one after another, in time order, with fresh tokens. */
  ghost predicate IsRun(ops: seq<Timed>) {
    ops == [] ||
    var n := |ops| - 1;
    IsRun(ops[..n]) && FreshToken(After(ops[..n]), ops[n].op) && (n > 0 ==> ops[n - 1].now <= ops[n].now)
  }
}
