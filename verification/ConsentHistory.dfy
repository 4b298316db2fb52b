/** The consent history of one user, and the log it is read from. */
module ConsentHistory {
  import opened Options

  datatype ConsentType = TermsOfService | PrivacyPolicy | FocusMonitoring

  datatype DocumentType = Terms | Privacy

  datatype Status = Pending | Accepted | Withdrawn

  datatype Acceptance = Acceptance(document: DocumentType, version: string, at: int)

  datatype Withdrawal = Withdrawal(consent: ConsentType, at: int)

  datatype Item = Item(
    consent: ConsentType, status: Status, isMandatory: bool,
    acceptedAt: Option<int>, acceptedVersion: Option<string>, withdrawnAt: Option<int>)

  /** Focus monitoring has no document, so it is never accepted in the history. */
  function DocumentOf(c: ConsentType): Option<DocumentType> {
    match c
    case TermsOfService => Some(Terms)
    case PrivacyPolicy => Some(Privacy)
    case FocusMonitoring => None
  }

  predicate IsMandatory(c: ConsentType) {
    c == TermsOfService || c == PrivacyPolicy
  }

  const ALL_CONSENT_TYPES := [TermsOfService, PrivacyPolicy, FocusMonitoring]

  // ----- the history as the service computes it -----

  /** The first row among those with the latest time. */
  ghost predicate IsLatestAcceptance(rows: seq<Acceptance>, d: DocumentType, a: Option<Acceptance>) {
    match a
    case None => forall r :: r in rows ==> r.document != d
    case Some(x) =>
      exists k :: 0 <= k < |rows| && rows[k] == x && x.document == d
        && (forall i :: 0 <= i < |rows| && rows[i].document == d ==> rows[i].at <= x.at)
        && (forall i :: 0 <= i < k && rows[i].document == d ==> rows[i].at < x.at)
  }

  ghost predicate IsLatestWithdrawal(rows: seq<Withdrawal>, c: ConsentType, t: Option<int>) {
    match t
    case None => forall r :: r in rows ==> r.consent != c
    case Some(x) =>
      && Withdrawal(c, x) in rows
      && forall r :: r in rows && r.consent == c ==> r.at <= x
  }

  function Shown(latest: map<DocumentType, Acceptance>, d: DocumentType): Option<Acceptance> {
    if d in latest then Some(latest[d]) else None
  }

  /** One more row replaces the latest only if it is later. */
  lemma LatestOneMore(rows: seq<Acceptance>, a: Acceptance, d: DocumentType, x: Option<Acceptance>)
    requires IsLatestAcceptance(rows, d, x)
    ensures IsLatestAcceptance(rows + [a], d,
      if a.document == d && (x.None? || a.at > x.value.at) then Some(a) else x)
  {
    var rows' := rows + [a];
    if a.document == d && (x.None? || a.at > x.value.at) {
      assert rows'[|rows|] == a;
      assert forall i :: 0 <= i < |rows| ==> rows'[i] == rows[i] && rows[i] in rows;
    } else if x.Some? {
      var k :| 0 <= k < |rows| && rows[k] == x.value
        && (forall i :: 0 <= i < k && rows[i].document == d ==> rows[i].at < x.value.at);
      assert rows'[k] == x.value;
    }
  }

  method IndexAcceptances(rows: seq<Acceptance>) returns (latest: map<DocumentType, Acceptance>)
    ensures forall d :: IsLatestAcceptance(rows, d, Shown(latest, d))
  {
    latest := map[];
    for i := 0 to |rows|
      invariant forall d :: IsLatestAcceptance(rows[..i], d, Shown(latest, d))
      invariant forall d :: d in latest ==> latest[d].document == d
    {
      var a := rows[i];
      forall d
        ensures IsLatestAcceptance(rows[..i + 1], d,
          if a.document == d && (d !in latest || a.at > latest[d].at) then Some(a) else Shown(latest, d))
      {
        assert rows[..i + 1] == rows[..i] + [a];
        LatestOneMore(rows[..i], a, d, Shown(latest, d));
      }
      if a.document !in latest || a.at > latest[a.document].at {
        latest := latest[a.document := a];
      }
    }
    assert rows[..|rows|] == rows;
  }

  method IndexWithdrawals(rows: seq<Withdrawal>) returns (latest: map<ConsentType, int>)
    ensures forall c :: IsLatestWithdrawal(rows, c, if c in latest then Some(latest[c]) else None)
  {
    latest := map[];
    for i := 0 to |rows|
      invariant forall j :: 0 <= j < i ==> rows[j].consent in latest && rows[j].at <= latest[rows[j].consent]
      invariant forall c :: c in latest ==> Withdrawal(c, latest[c]) in rows[..i]
    {
      var w := rows[i];
      assert rows[..i + 1] == rows[..i] + [w];
      if w.consent !in latest || w.at > latest[w.consent] {
        latest := latest[w.consent := w.at];
      }
    }
    assert rows[..|rows|] == rows;
  }

  function StatusOf(acceptedAt: Option<int>, withdrawnAt: Option<int>): Status {
    if acceptedAt.None? && withdrawnAt.None? then Pending
    else if acceptedAt.None? then Withdrawn
    else if withdrawnAt.None? then Accepted
    else if withdrawnAt.value > acceptedAt.value then Withdrawn
    else Accepted
  }

  /** What an item of the history says, given the rows in the order they were read. */
  ghost predicate IsItem(item: Item, c: ConsentType, accepted: seq<Acceptance>, withdrawn: seq<Withdrawal>) {
    && item.consent == c && item.isMandatory == IsMandatory(c)
    && IsLatestWithdrawal(withdrawn, c, item.withdrawnAt)
    && item.status == StatusOf(item.acceptedAt, item.withdrawnAt)
    && (item.acceptedAt.Some? <==> item.acceptedVersion.Some?)
    && match DocumentOf(c)
       case None => item.acceptedAt == None
       case Some(d) =>
         IsLatestAcceptance(accepted, d,
           if item.acceptedAt.None? then None
           else Some(Acceptance(d, item.acceptedVersion.GetOr(""), item.acceptedAt.value)))
  }

  method GetHistory(accepted: seq<Acceptance>, withdrawn: seq<Withdrawal>) returns (items: seq<Item>)
    ensures |items| == 3 && items[0].consent == TermsOfService && items[1].consent == PrivacyPolicy
    ensures items[2].consent == FocusMonitoring
    ensures forall item :: item in items ==> IsItem(item, item.consent, accepted, withdrawn)
  {
    var latestAcceptance := IndexAcceptances(accepted);
    var latestWithdrawal := IndexWithdrawals(withdrawn);
    items := [];
    for i := 0 to |ALL_CONSENT_TYPES|
      invariant |items| == i
      invariant forall j :: 0 <= j < i ==> IsItem(items[j], ALL_CONSENT_TYPES[j], accepted, withdrawn)
    {
      var c := ALL_CONSENT_TYPES[i];
      var document := DocumentOf(c);
      var acceptance := if document.Some? then Shown(latestAcceptance, document.value) else None;
      var withdrawnAt := if c in latestWithdrawal then Some(latestWithdrawal[c]) else None;
      var acceptedAt := if acceptance.Some? then Some(acceptance.value.at) else None;
      var version := if acceptance.Some? then Some(acceptance.value.version) else None;
      items := items + [Item(c, StatusOf(acceptedAt, withdrawnAt), IsMandatory(c), acceptedAt, version, withdrawnAt)];
    }
  }

  /** The row that was accepted at that time: none of its document is later, and none as late comes before it. */
  ghost predicate ShowsRow(item: Item, accepted: seq<Acceptance>, d: DocumentType, k: nat) {
    && k < |accepted| && accepted[k].document == d
    && item.acceptedAt == Some(accepted[k].at) && item.acceptedVersion == Some(accepted[k].version)
    && forall i :: 0 <= i < |accepted| && accepted[i].document == d ==>
         accepted[i].at <= accepted[k].at && (i < k ==> accepted[i].at < accepted[k].at)
  }

  /** What an item shows, type by type: terms and privacy policy are mandatory, and only they have acceptances. */
  lemma ItemExactly(item: Item, c: ConsentType, accepted: seq<Acceptance>, withdrawn: seq<Withdrawal>)
    requires IsItem(item, c, accepted, withdrawn)
    ensures item.consent == c && (item.isMandatory <==> c == TermsOfService || c == PrivacyPolicy)
    ensures c == FocusMonitoring ==> item.acceptedAt == None && item.acceptedVersion == None
    ensures c != FocusMonitoring ==>
      var d := if c == TermsOfService then Terms else Privacy;
      if exists r :: r in accepted && r.document == d then exists k: nat :: ShowsRow(item, accepted, d, k)
      else item.acceptedAt == None && item.acceptedVersion == None
    ensures match item.withdrawnAt
      case None => forall w :: w in withdrawn ==> w.consent != c
      case Some(t) => Withdrawal(c, t) in withdrawn && forall w :: w in withdrawn && w.consent == c ==> w.at <= t
    ensures item.status == Pending <==> item.acceptedAt.None? && item.withdrawnAt.None?
    ensures item.status == Withdrawn <==>
      item.withdrawnAt.Some? && (item.acceptedAt.Some? ==> item.withdrawnAt.value > item.acceptedAt.value)
  {
    if item.acceptedAt.Some? {
      var d := if c == TermsOfService then Terms else Privacy;
      var a := Acceptance(d, item.acceptedVersion.value, item.acceptedAt.value);
      var k :| 0 <= k < |accepted| && accepted[k] == a
        && forall i :: 0 <= i < k && accepted[i].document == d ==> accepted[i].at < a.at;
      assert ShowsRow(item, accepted, d, k);
    }
  }

  // ----- the history as the replay of a log -----

  datatype Event = Accept(at: int) | Withdraw(at: int)

  function Replay(log: seq<Event>): Status {
    if log == [] then Pending
    else
      match log[|log| - 1]
      case Accept(_) => Accepted
      case Withdraw(_) => Withdrawn
  }

  ghost predicate Concerns(e: Event, c: ConsentType, accepted: seq<Acceptance>, withdrawn: seq<Withdrawal>) {
    match e
    case Accept(t) => exists a :: a in accepted && DocumentOf(c) == Some(a.document) && a.at == t
    case Withdraw(t) => Withdrawal(c, t) in withdrawn
  }

  ghost predicate InOrder(e: Event, f: Event) {
    e.at < f.at || (e.at == f.at && (e.Accept? ==> f.Accept?))
  }

  /** A log of one consent type: its events in time order, acceptances last among those at the same time. */
  ghost predicate IsLog(log: seq<Event>, c: ConsentType, accepted: seq<Acceptance>, withdrawn: seq<Withdrawal>) {
    && (forall e :: e in log <==> Concerns(e, c, accepted, withdrawn))
    && forall i, j :: 0 <= i < j < |log| ==> InOrder(log[i], log[j])
  }

  ghost predicate Ordered(log: seq<Event>) {
    forall i, j :: 0 <= i < j < |log| ==> InOrder(log[i], log[j])
  }

  lemma AppendOrdered(log: seq<Event>, last: Event)
    requires Ordered(log) && forall f :: f in log ==> InOrder(f, last)
    ensures Ordered(log + [last])
  {
  }

  /** One more event finds its place in the log. */
  lemma {:induction false} InsertEvent(log: seq<Event>, e: Event) returns (log': seq<Event>)
    requires Ordered(log)
    ensures Ordered(log') && forall f :: f in log' <==> f in log || f == e
  {
    if log == [] {
      log' := [e];
    } else {
      var init, last := log[..|log| - 1], log[|log| - 1];
      assert log == init + [last];
      forall f | f in init
        ensures InOrder(f, last)
      {
        var i :| 0 <= i < |init| && init[i] == f;
        assert log[i] == f;
      }
      if InOrder(last, e) {
        AppendOrdered(log, e);
        log' := log + [e];
      } else {
        var rest := InsertEvent(init, e);
        AppendOrdered(rest, last);
        log' := rest + [last];
      }
    }
  }

  /** Every pair of tables has a log, so the replay below speaks of all of them. */
  lemma {:induction false} LogExists(c: ConsentType, accepted: seq<Acceptance>, withdrawn: seq<Withdrawal>)
    returns (log: seq<Event>)
    ensures IsLog(log, c, accepted, withdrawn)
    decreases |accepted| + |withdrawn|
  {
    log := [];
    if accepted != [] {
      var init, a := accepted[..|accepted| - 1], accepted[|accepted| - 1];
      assert accepted == init + [a];
      log := LogExists(c, init, withdrawn);
      if DocumentOf(c) == Some(a.document) { log := InsertEvent(log, Accept(a.at)); }
    } else if withdrawn != [] {
      var init, w := withdrawn[..|withdrawn| - 1], withdrawn[|withdrawn| - 1];
      assert withdrawn == init + [w];
      log := LogExists(c, accepted, init);
      if w.consent == c { log := InsertEvent(log, Withdraw(w.at)); }
    }
  }

  /** The last event of the log decides. */
  lemma HistoryIsReplay(item: Item, c: ConsentType, accepted: seq<Acceptance>, withdrawn: seq<Withdrawal>,
                        log: seq<Event>)
    requires IsItem(item, c, accepted, withdrawn) && IsLog(log, c, accepted, withdrawn)
    ensures item.status == Replay(log)
  {
    AcceptedIsLatest(item, c, accepted, withdrawn);
    if item.acceptedAt.Some? { assert Accept(item.acceptedAt.value) in log; }
    if item.withdrawnAt.Some? { assert Withdraw(item.withdrawnAt.value) in log; }
    if log != [] {
      var last := log[|log| - 1];
      assert last in log;
      assert forall e :: e in log ==> e == last || InOrder(e, last);
    }
  }

  /** The acceptance of an item is an event of the log, and none is later. */
  lemma AcceptedIsLatest(item: Item, c: ConsentType, accepted: seq<Acceptance>, withdrawn: seq<Withdrawal>)
    requires IsItem(item, c, accepted, withdrawn)
    ensures item.acceptedAt.Some? ==> Concerns(Accept(item.acceptedAt.value), c, accepted, withdrawn)
    ensures forall t ::
      Concerns(Accept(t), c, accepted, withdrawn) ==> item.acceptedAt.Some? && t <= item.acceptedAt.value
  {
  }

  ghost predicate SameRows<T(!new)>(a: seq<T>, b: seq<T>) {
    forall x :: x in a <==> x in b
  }

  /** Status and times do not depend on the order in which the rows are read. */
  lemma RowOrderIrrelevant(item: Item, item': Item, c: ConsentType,
                           accepted: seq<Acceptance>, withdrawn: seq<Withdrawal>,
                           accepted': seq<Acceptance>, withdrawn': seq<Withdrawal>)
    requires IsItem(item, c, accepted, withdrawn) && IsItem(item', c, accepted', withdrawn')
    requires SameRows(accepted, accepted') && SameRows(withdrawn, withdrawn')
    ensures item'.status == item.status
    ensures item'.acceptedAt == item.acceptedAt && item'.withdrawnAt == item.withdrawnAt
  {
    AcceptedIsLatest(item, c, accepted, withdrawn);
    AcceptedIsLatest(item', c, accepted', withdrawn');
    assert forall e :: Concerns(e, c, accepted, withdrawn) <==> Concerns(e, c, accepted', withdrawn');
  }

  /** An acceptance of the type's document than which none is later. */
  ghost predicate IsLatest(a: Acceptance, c: ConsentType, accepted: seq<Acceptance>) {
    && a in accepted && DocumentOf(c) == Some(a.document)
    && forall r :: r in accepted && r.document == a.document ==> r.at <= a.at
  }

  ghost predicate LatestAgree(c: ConsentType, accepted: seq<Acceptance>) {
    forall a, b :: IsLatest(a, c, accepted) && IsLatest(b, c, accepted) ==> a.version == b.version
  }

  /** However the two tables are ordered, the item shows this version. */
  ghost predicate VersionIs(version: Option<string>, c: ConsentType,
                            accepted: seq<Acceptance>, withdrawn: seq<Withdrawal>) {
    forall item, accepted', withdrawn' ::
      IsItem(item, c, accepted', withdrawn') && multiset(accepted') == multiset(accepted)
      && multiset(withdrawn') == multiset(withdrawn)
      ==> item.acceptedVersion == version
  }

  lemma SameMultisetSameRows<T(!new)>(a: seq<T>, b: seq<T>)
    requires multiset(a) == multiset(b)
    ensures SameRows(a, b)
  {
    forall x
      ensures x in a <==> x in b
    {
      assert x in a <==> x in multiset(a);
      assert x in b <==> x in multiset(b);
    }
  }

  /** The version an item shows is that of one of the latest acceptances. */
  lemma VersionIsOfLatest(item: Item, c: ConsentType, accepted: seq<Acceptance>, withdrawn: seq<Withdrawal>)
    requires IsItem(item, c, accepted, withdrawn)
    ensures item.acceptedVersion.Some? ==>
      exists a :: IsLatest(a, c, accepted) && a.version == item.acceptedVersion.value
  {
    if item.acceptedVersion.Some? {
      var a := Acceptance(DocumentOf(c).value, item.acceptedVersion.value, item.acceptedAt.value);
      assert IsLatest(a, c, accepted);
    }
  }

  lemma HeadIsShown(x: Acceptance, rest: seq<Acceptance>)
    requires forall r :: r in rest && r.document == x.document ==> r.at <= x.at
    ensures IsLatestAcceptance([x] + rest, x.document, Some(x))
  {
    var rows := [x] + rest;
    assert rows[0] == x;
    forall i | 0 <= i < |rows| && rows[i].document == x.document
      ensures rows[i].at <= x.at
    {
      if i > 0 { assert rows[i] == rest[i - 1] && rest[i - 1] in rest; }
    }
  }

  lemma MoveToFront(x: Acceptance, rows: seq<Acceptance>) returns (rest: seq<Acceptance>)
    requires x in rows
    ensures multiset([x] + rest) == multiset(rows) && forall r :: r in rest ==> r in rows
  {
    var k :| 0 <= k < |rows| && rows[k] == x;
    rest := rows[..k] + rows[k + 1..];
    assert rows == rows[..k] + [x] + rows[k + 1..];
  }

  /** Any of the latest acceptances is the one shown if its row is read first. */
  lemma FirstReadIsShown(x: Acceptance, item: Item, c: ConsentType,
                         accepted: seq<Acceptance>, withdrawn: seq<Withdrawal>)
    returns (accepted': seq<Acceptance>)
    requires IsItem(item, c, accepted, withdrawn) && IsLatest(x, c, accepted)
    ensures multiset(accepted') == multiset(accepted)
    ensures IsItem(item.(acceptedVersion := Some(x.version)), c, accepted', withdrawn)
  {
    var rest := MoveToFront(x, accepted);
    accepted' := [x] + rest;
    HeadIsShown(x, rest);
    LatestTime(x, item, c, accepted, withdrawn);
  }

  lemma LatestTime(x: Acceptance, item: Item, c: ConsentType, accepted: seq<Acceptance>, withdrawn: seq<Withdrawal>)
    requires IsItem(item, c, accepted, withdrawn) && IsLatest(x, c, accepted)
    ensures item.acceptedAt == Some(x.at)
  {
    AcceptedIsLatest(item, c, accepted, withdrawn);
    assert Concerns(Event.Accept(x.at), c, accepted, withdrawn);
  }

  /**
   * The version shown is the same for every order of the rows exactly if the latest acceptances,
   * those at the latest time, carry one version.
   */
  lemma VersionOrderExactly(item: Item, c: ConsentType, accepted: seq<Acceptance>, withdrawn: seq<Withdrawal>)
    requires IsItem(item, c, accepted, withdrawn)
    ensures VersionIs(item.acceptedVersion, c, accepted, withdrawn) <==> LatestAgree(c, accepted)
  {
    if LatestAgree(c, accepted) {
      forall item', accepted', withdrawn' | IsItem(item', c, accepted', withdrawn')
        && multiset(accepted') == multiset(accepted) && multiset(withdrawn') == multiset(withdrawn)
        ensures item'.acceptedVersion == item.acceptedVersion
      {
        SameMultisetSameRows(accepted, accepted');
        SameMultisetSameRows(withdrawn, withdrawn');
        RowOrderIrrelevant(item, item', c, accepted, withdrawn, accepted', withdrawn');
        VersionIsOfLatest(item, c, accepted, withdrawn);
        VersionIsOfLatest(item', c, accepted', withdrawn');
        assert forall a :: IsLatest(a, c, accepted') <==> IsLatest(a, c, accepted);
      }
    } else {
      var a, b :| IsLatest(a, c, accepted) && IsLatest(b, c, accepted) && a.version != b.version;
      var x := if item.acceptedVersion == Some(a.version) then b else a;
      var accepted' := FirstReadIsShown(x, item, c, accepted, withdrawn);
      assert IsItem(item.(acceptedVersion := Some(x.version)), c, accepted', withdrawn);
    }
  }

  /** For instance, of two acceptances at the same time the one read first is shown. */
  lemma VersionDependsOnOrder(first: Acceptance, second: Acceptance, item: Item, c: ConsentType)
    requires DocumentOf(c) == Some(first.document) && second == first.(version := second.version)
    requires first.version != second.version
    requires IsItem(item, c, [first, second], [])
    ensures item.acceptedVersion == Some(first.version)
    ensures !VersionIs(item.acceptedVersion, c, [first, second], [])
  {
    assert first in [first, second];
    assert IsLatest(first, c, [first, second]) && IsLatest(second, c, [first, second]);
    VersionOrderExactly(item, c, [first, second], []);
  }

  // ----- runs of the service -----

  datatype Op = AcceptOp(document: DocumentType, version: string) | WithdrawOp(consent: ConsentType)

  datatype Rows = Rows(accepted: seq<Acceptance>, withdrawn: seq<Withdrawal>)

  /** withdrawConsent refuses mandatory types; accept records whatever version it is given. */
  function Apply(s: Rows, op: Op, now: int): Rows {
    match op
    case AcceptOp(d, version) => s.(accepted := s.accepted + [Acceptance(d, version, now)])
    case WithdrawOp(c) => if IsMandatory(c) then s else s.(withdrawn := s.withdrawn + [Withdrawal(c, now)])
  }

  class ConsentService {
    var accepted: seq<Acceptance>
    var withdrawn: seq<Withdrawal>

    ghost function State(): Rows
      reads this
    {
      Rows(accepted, withdrawn)
    }

    method Accept(document: DocumentType, version: string, now: int)
      modifies this
      ensures accepted == old(accepted) + [Acceptance(document, version, now)] && withdrawn == old(withdrawn)
      ensures State() == Apply(old(State()), AcceptOp(document, version), now)
    {
      accepted := accepted + [Acceptance(document, version, now)];
    }

    method WithdrawConsent(consent: ConsentType, now: int) returns (recorded: bool)
      modifies this
      ensures recorded == (consent == FocusMonitoring) && accepted == old(accepted)
      ensures withdrawn == if recorded then old(withdrawn) + [Withdrawal(consent, now)] else old(withdrawn)
      ensures State() == Apply(old(State()), WithdrawOp(consent), now)
    {
      if IsMandatory(consent) {
        return false;
      }
      withdrawn := withdrawn + [Withdrawal(consent, now)];
      recorded := true;
    }
  }

  function Run(ops: seq<(Op, int)>): Rows {
    if ops == [] then Rows([], [])
    else Apply(Run(ops[..|ops| - 1]), ops[|ops| - 1].0, ops[|ops| - 1].1)
  }

  lemma {:induction false} NoMandatoryWithdrawal(ops: seq<(Op, int)>)
    ensures forall w :: w in Run(ops).withdrawn ==> !IsMandatory(w.consent)
  {
    if ops != [] { NoMandatoryWithdrawal(ops[..|ops| - 1]); }
  }

  lemma {:induction false} AcceptanceStays(ops: seq<(Op, int)>, i: nat, a: Acceptance)
    requires i <= |ops| && a in Run(ops[..i]).accepted
    ensures a in Run(ops).accepted
  {
    if i < |ops| {
      var init := ops[..|ops| - 1];
      assert init[..i] == ops[..i];
      AcceptanceStays(init, i, a);
    } else {
      assert ops[..i] == ops;
    }
  }

  /** In every run a mandatory consent is never shown as withdrawn, and once accepted it stays so. */
  lemma MandatoryNeverWithdrawn(ops: seq<(Op, int)>, i: nat, c: ConsentType, before: Item, item: Item)
    requires c != FocusMonitoring && i <= |ops|
    requires IsItem(before, c, Run(ops[..i]).accepted, Run(ops[..i]).withdrawn)
    requires IsItem(item, c, Run(ops).accepted, Run(ops).withdrawn)
    ensures item.status != Withdrawn
    ensures before.status == Accepted ==> item.status == Accepted
  {
    NoMandatoryWithdrawal(ops);
    NoMandatoryWithdrawal(ops[..i]);
    AcceptedIsLatest(before, c, Run(ops[..i]).accepted, Run(ops[..i]).withdrawn);
    AcceptedIsLatest(item, c, Run(ops).accepted, Run(ops).withdrawn);
    if before.status == Accepted {
      var t := before.acceptedAt.value;
      var a :| a in Run(ops[..i]).accepted && DocumentOf(c) == Some(a.document) && a.at == t;
      AcceptanceStays(ops, i, a);
      assert Concerns(Event.Accept(t), c, Run(ops).accepted, Run(ops).withdrawn);
    }
  }
}
