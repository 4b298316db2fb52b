/** What each request to the token services changes, key by key and user by user, and what it leaves alone. */
module TokenEffects {
  import opened AuthTokens
  import opened Options

  /** The key holds an address and its time has not come. */
  predicate Alive(s: State, k: Key, now: int) {
    k in s.redis && s.redis[k].Payload? && now < s.redis[k].expiresAt
  }

  /** The key is gone, and every other key holds what it held. */
  ghost predicate OnlyRemoved(redis: map<Key, Entry>, redis': map<Key, Entry>, k: Key) {
    && redis'.Keys == redis.Keys - {k}
    && forall x :: x in redis' ==> redis'[x] == redis[x]
  }

  /** The records of what was granted, issued and burnt are as they were. */
  predicate SameRecords(s: State, s': State) {
    s'.grants == s.grants && s'.issued == s.issued && s'.burnt == s.burnt
  }

  /** The address is verified, with the password it had; every other identity is as it was. */
  ghost predicate OnlyVerifies(keycloak: map<Email, Identity>, keycloak': map<Email, Identity>, email: Email) {
    && keycloak'.Keys == keycloak.Keys
    && forall x :: x in keycloak ==>
         keycloak'[x] == if x == email then Identity(true, keycloak[x].password) else keycloak[x]
  }

  /** The address becomes active if it was pending; every other status is as it was. */
  ghost predicate OnlyActivates(platform: map<Email, Status>, platform': map<Email, Status>, email: Email) {
    && platform'.Keys == platform.Keys
    && forall x :: x in platform ==>
         platform'[x] == if x == email && platform[x] == PendingVerification then Active else platform[x]
  }

  /** A confirmation verifies the identity and activates a pending user, and nobody else. */
  lemma ConfirmEffect(s: State, token: Token, now: int)
    ensures var k, (s', outcome) := TokenOf(Verification, token), Confirmed(s, token, now);
      if !Alive(s, k, now) then outcome == Gone && s' == s
      else if s.redis[k].email !in s.keycloak then
        && outcome == UserMissing && OnlyRemoved(s.redis, s'.redis, k) && s'.burnt == s.burnt + {k}
        && s'.keycloak == s.keycloak && s'.platform == s.platform
        && s'.grants == s.grants && s'.issued == s.issued && s'.used == s.used
      else
        && outcome == Succeeded(s.redis[k].email) && OnlyRemoved(s.redis, s'.redis, k)
        && OnlyVerifies(s.keycloak, s'.keycloak, s.redis[k].email)
        && OnlyActivates(s.platform, s'.platform, s.redis[k].email)
        && SameRecords(s, s') && s'.used == s.used[k := now]
  {
  }

  /** The address has the password, and is verified as it was; every other identity is as it was. */
  ghost predicate OnlyRenews(keycloak: map<Email, Identity>, keycloak': map<Email, Identity>, email: Email,
                             password: string)
  {
    && keycloak'.Keys == keycloak.Keys
    && forall x :: x in keycloak ==>
         keycloak'[x] == if x == email then Identity(keycloak[x].verified, password) else keycloak[x]
  }

  /** A reset changes the password of the address the token was stored for, and nothing else of any user. */
  lemma ResetEffect(s: State, token: Token, password: string, now: int)
    ensures var k, (s', outcome) := TokenOf(Recovery, token), PasswordReset(s, token, password, now);
      if !Alive(s, k, now) then outcome == Gone && s' == s
      else if s.redis[k].email !in s.keycloak then outcome == UserMissing && s' == s
      else
        && outcome == Succeeded(s.redis[k].email) && OnlyRemoved(s.redis, s'.redis, k)
        && OnlyRenews(s.keycloak, s'.keycloak, s.redis[k].email, password) && s'.platform == s.platform
        && SameRecords(s, s') && s'.used == s.used[k := now]
  {
  }

  /** The key holds the entry, and every other key holds what it held. */
  ghost predicate OnlyStored(redis: map<Key, Entry>, redis': map<Key, Entry>, k: Key, e: Entry) {
    && redis'.Keys == redis.Keys + {k}
    && forall x :: x in redis' ==> redis'[x] == if x == k then e else redis[x]
  }

  /**
   * A registration refuses a known identity. Otherwise the identity is new, unverified and with the password
   * given, and unless the platform knows the address, its user is pending and a token for it holds for a day.
   */
  lemma RegisterEffect(s: State, email: Email, password: string, token: Token, now: int)
    ensures var k, (s', outcome) := TokenOf(Verification, token), Registered(s, email, password, token, now);
      if email in s.keycloak then outcome == Taken && s' == s
      else
        && s'.keycloak.Keys == s.keycloak.Keys + {email} && s'.keycloak[email] == Identity(false, password)
        && (forall x :: x in s.keycloak ==> s'.keycloak[x] == s.keycloak[x])
        && s'.grants == s.grants && s'.used == s.used && s'.burnt == s.burnt
        && if email in s.platform then
             outcome == NotStored && s'.redis == s.redis && s'.platform == s.platform && s'.issued == s.issued
           else
             && outcome == Sent && OnlyStored(s.redis, s'.redis, k, Payload(email, now + 86_400_000))
             && s'.platform == s.platform[email := PendingVerification] && s'.issued == s.issued[k := now]
  {
  }

  /** The counter of the address after one more request at the time. */
  predicate CountsOneMore(s: State, k: Key, now: int, e: Entry) {
    if k in s.redis && s.redis[k].Counter? && now < s.redis[k].expiresAt
    then e == Counter(s.redis[k].count + 1, s.redis[k].expiresAt)
    else e == Counter(1, now + 3_600_000)
  }

  lemma CountedOneMore(s: State, k: Key, now: int) returns (e: Entry)
    ensures CountsOneMore(s, k, now, e) && Incremented(s.redis, k, now) == s.redis[k := e]
  {
    e := Incremented(s.redis, k, now)[k];
  }

  /** The lifetime of a token: a day for a verification, a quarter of an hour for a recovery. */
  lemma LifetimeExactly(service: Service)
    ensures Lifetime(service) == if service.Verification? then 86_400_000 else 900_000
  {
  }

  /** The identity is known, and a verification still has something to verify. */
  lemma EligibleExactly(s: State, service: Service, email: Email)
    ensures Eligible(s, service, email) <==>
            email in s.keycloak && (service.Recovery? || !s.keycloak[email].verified)
  {
  }

  lemma StoredOnly(redis: map<Key, Entry>, k: Key, e: Entry)
    ensures OnlyStored(redis, redis[k := e], k, e)
  {
  }

  /**
   * A request counts, whatever its answer. More than three in the hour of the counter are refused. A token goes
   * to an identity that is known, for a verification one that is not verified; it holds for a day, or for a
   * quarter of an hour. No user is changed.
   */
  lemma RequestEffect(s: State, service: Service, email: Email, token: Token, now: int) returns (e: Entry)
    ensures CountsOneMore(s, Rate(service, email), now, e) && e.Counter?
    ensures var (s', outcome) := Requested(s, service, email, token, now);
      && s'.keycloak == s.keycloak && s'.platform == s.platform && s'.used == s.used && s'.burnt == s.burnt
      && outcome == if e.count > 3 then Limited
                    else if email in s.keycloak && (service.Recovery? || !s.keycloak[email].verified) then Sent
                    else Silent
    ensures var k, (s', outcome) := TokenOf(service, token), Requested(s, service, email, token, now);
      var counted := s.redis[Rate(service, email) := e];
      if outcome == Sent then
        && OnlyStored(counted, s'.redis, k, Payload(email, now + if service.Verification? then 86_400_000 else 900_000))
        && s'.issued == s.issued[k := now]
      else s'.redis == counted && s'.issued == s.issued && s'.grants == s.grants
  {
    var k := Rate(service, email);
    e := CountedOneMore(s, k, now);
    EligibleExactly(s, service, email);
    LifetimeExactly(service);
    StoredOnly(s.redis[k := e], TokenOf(service, token), Payload(email, now + Lifetime(service)));
  }
}
