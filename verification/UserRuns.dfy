/** Users over whole runs: what a redeemed token is good for, until somebody changes the user elsewhere. */
module UserRuns {
  import opened AuthTokens
  import opened TokenEffects
  import opened TokenRuns
  import opened Options

  /** The identity is verified and the platform no longer waits for it. */
  predicate Verified(s: State, email: Email) {
    && email in s.keycloak && s.keycloak[email].verified
    && (email in s.platform ==> s.platform[email] != PendingVerification)
  }

  ghost predicate UndisturbedFrom(ops: seq<Timed>, i: nat) {
    forall k :: i <= k < |ops| ==> !ops[k].op.Elsewhere?
  }

  lemma ConfirmKeepsVerified(s: State, token: Token, now: int, email: Email)
    requires Verified(s, email)
    ensures Verified(Confirmed(s, token, now).0, email)
  {
  }

  lemma ResetKeepsVerified(s: State, token: Token, password: string, now: int, email: Email)
    requires Verified(s, email)
    ensures Verified(PasswordReset(s, token, password, now).0, email)
  {
  }

  lemma RequestKeepsUsers(s: State, service: Service, email: Email, token: Token, now: int)
    ensures var s' := Requested(s, service, email, token, now).0;
      s'.keycloak == s.keycloak && s'.platform == s.platform
  {
  }

  /** Registrations, requests and redemptions of any token leave a verified user verified. */
  lemma StepKeepsVerified(s: State, t: Timed, email: Email)
    requires Verified(s, email) && !t.op.Elsewhere?
    ensures Verified(Step(s, t).0, email)
  {
    match t.op
    case Registration(_, _, _) =>
    case Request(service, e, token) => RequestKeepsUsers(s, service, e, token, t.now);
    case Redeem(Verification, token, _) => ConfirmKeepsVerified(s, token, t.now, email);
    case Redeem(Recovery, token, password) => ResetKeepsVerified(s, token, password, t.now, email);
  }

  lemma {:induction false} StaysVerified(ops: seq<Timed>, i: nat, email: Email)
    requires i <= |ops| && Verified(After(ops[..i]), email) && UndisturbedFrom(ops, i)
    ensures Verified(After(ops), email)
  {
    if i < |ops| {
      var init := ops[..|ops| - 1];
      assert init[..i] == ops[..i];
      StaysVerified(init, i, email);
      StepKeepsVerified(After(init), ops[|ops| - 1], email);
    } else {
      assert ops[..i] == ops;
    }
  }

  ghost predicate SucceedsFor(ops: seq<Timed>, i: nat, service: Service, email: Email) {
    && i < |ops| && ops[i].op.Redeem? && ops[i].op.service == service
    && Step(After(ops[..i]), ops[i]).1 == Succeeded(email)
  }

  lemma ConfirmVerifies(s: State, token: Token, now: int)
    ensures Confirmed(s, token, now).1.Succeeded? ==>
      Verified(Confirmed(s, token, now).0, Confirmed(s, token, now).1.email)
  {
  }

  /** The step sends a token of the service to the address. */
  ghost predicate SendsAt(ops: seq<Timed>, i: nat, service: Service, email: Email) {
    && i < |ops| && Step(After(ops[..i]), ops[i]).1 == Sent
    && match ops[i].op
       case Registration(e, _, _) => service == Verification && e == email
       case Request(s, e, _) => s == service && e == email
       case _ => false
  }

  lemma NotSentToVerified(s: State, t: Timed, email: Email)
    requires Verified(s, email)
    requires t.op.Registration? || (t.op.Request? && t.op.service == Verification)
    requires t.op.email == email
    ensures Step(s, t).1 != Sent
  {
  }

  lemma StaysVerifiedUntil(ops: seq<Timed>, i: nat, j: nat, email: Email)
    requires i <= j <= |ops| && Verified(After(ops[..i]), email) && UndisturbedFrom(ops, i)
    ensures Verified(After(ops[..j]), email)
  {
    assert ops[..j][..i] == ops[..i];
    StaysVerified(ops[..j], i, email);
  }

  lemma VerifiedIsNotSent(ops: seq<Timed>, j: nat, email: Email)
    requires j < |ops| && Verified(After(ops[..j]), email)
    ensures !SendsAt(ops, j, Verification, email)
  {
    var t := ops[j];
    if (t.op.Registration? || (t.op.Request? && t.op.service == Verification)) && t.op.email == email {
      NotSentToVerified(After(ops[..j]), t, email);
    }
  }

  /** No request changes the status of a verified user, or gives it one. */
  lemma StepKeepsStatus(s: State, t: Timed, email: Email)
    requires Verified(s, email) && !t.op.Elsewhere?
    ensures var s' := Step(s, t).0;
      (email in s.platform <==> email in s'.platform)
      && (email in s.platform ==> s'.platform[email] == s.platform[email])
  {
    match t.op
    case Registration(_, _, _) =>
    case Request(service, e, token) => RequestKeepsUsers(s, service, e, token, t.now);
    case Redeem(Verification, token, _) => ConfirmEffect(s, token, t.now);
    case Redeem(Recovery, token, password) => ResetEffect(s, token, password, t.now);
  }

  lemma {:induction false} StatusStays(ops: seq<Timed>, i: nat, email: Email)
    requires i <= |ops| && Verified(After(ops[..i]), email) && UndisturbedFrom(ops, i)
    ensures var s, s' := After(ops[..i]), After(ops);
      (email in s.platform <==> email in s'.platform)
      && (email in s.platform ==> s'.platform[email] == s.platform[email])
  {
    if i < |ops| {
      var init := ops[..|ops| - 1];
      assert init[..i] == ops[..i];
      StatusStays(init, i, email);
      StaysVerified(init, i, email);
      StepKeepsStatus(After(init), ops[|ops| - 1], email);
    } else {
      assert ops[..i] == ops;
    }
  }

  /**
   * From its confirmation on a pending user is active, a user with another status keeps that one, and a
   * user unknown to the platform stays unknown.
   */
  lemma ConfirmedIsActive(ops: seq<Timed>, i: nat, email: Email)
    requires SucceedsFor(ops, i, Verification, email) && UndisturbedFrom(ops, i)
    ensures var s, s' := After(ops[..i]), After(ops);
      && email in s'.keycloak && s'.keycloak[email].verified
      && (email in s.platform <==> email in s'.platform)
      && (email in s.platform ==>
            s'.platform[email] == if s.platform[email] == PendingVerification then Active else s.platform[email])
  {
    AfterOneMore(ops, i);
    ConfirmEffect(After(ops[..i]), ops[i].op.token, ops[i].now);
    ConfirmedAt(ops, i, email);
    StaysVerified(ops, i + 1, email);
    StatusStays(ops, i + 1, email);
  }

  /**
   * Once an address is confirmed it stays verified, and neither a request nor a registration sends a
   * verification token to it again.
   */
  lemma ConfirmedIsLeftAlone(ops: seq<Timed>, i: nat, email: Email)
    requires SucceedsFor(ops, i, Verification, email) && UndisturbedFrom(ops, i)
    ensures Verified(After(ops), email)
    ensures forall j :: i < j < |ops| ==> !SendsAt(ops, j, Verification, email)
  {
    ConfirmedAt(ops, i, email);
    StaysVerified(ops, i + 1, email);
    forall j | i < j < |ops|
      ensures !SendsAt(ops, j, Verification, email)
    {
      StaysVerifiedUntil(ops, i + 1, j, email);
      VerifiedIsNotSent(ops, j, email);
    }
  }

  lemma ConfirmedAt(ops: seq<Timed>, i: nat, email: Email)
    requires SucceedsFor(ops, i, Verification, email)
    ensures Verified(After(ops[..i + 1]), email)
  {
    AfterOneMore(ops, i);
    ConfirmVerifies(After(ops[..i]), ops[i].op.token, ops[i].now);
  }

  predicate HasPassword(s: State, email: Email, password: string) {
    email in s.keycloak && s.keycloak[email].password == password
  }

  /** Only a reset for the address itself changes its password. */
  lemma StepKeepsPassword(s: State, t: Timed, email: Email, password: string)
    requires HasPassword(s, email, password) && !t.op.Elsewhere?
    requires !(t.op.Redeem? && t.op.service == Recovery && Step(s, t).1 == Succeeded(email))
    ensures HasPassword(Step(s, t).0, email, password)
  {
  }

  lemma ResetSetsPassword(s: State, token: Token, password: string, now: int)
    ensures var (s', outcome) := PasswordReset(s, token, password, now);
      outcome.Succeeded? ==> HasPassword(s', outcome.email, password)
  {
  }

  /** The password of an address is the one of the latest reset that succeeded for it. */
  lemma {:induction false} LatestResetHolds(ops: seq<Timed>, i: nat, email: Email)
    requires SucceedsFor(ops, i, Recovery, email) && UndisturbedFrom(ops, i)
    requires forall k :: i < k < |ops| ==> !SucceedsFor(ops, k, Recovery, email)
    ensures HasPassword(After(ops), email, ops[i].op.password)
  {
    var n := |ops| - 1;
    var init := ops[..n];
    AfterOneMore(ops, n);
    assert ops[..n + 1] == ops;
    if i == n {
      ResetSetsPassword(After(init), ops[n].op.token, ops[n].op.password, ops[n].now);
    } else {
      assert forall k :: 0 <= k < n ==> init[..k] == ops[..k];
      assert forall k :: 0 <= k < n ==>
        (SucceedsFor(init, k, Recovery, email) <==> SucceedsFor(ops, k, Recovery, email));
      LatestResetHolds(init, i, email);
      assert !SucceedsFor(ops, n, Recovery, email);
      StepKeepsPassword(After(init), ops[n], email, ops[i].op.password);
    }
  }
}
