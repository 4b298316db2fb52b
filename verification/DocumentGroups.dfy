/** Grouping source documents with the documents they accompany, by file name. */
module DocumentGroups {
  import opened Collections
  import opened Options

  datatype File = File(path: string, name: string)

  datatype Role = Primary | Companion | Standalone

  datatype Member = Member(path: string, name: string, role: Role)

  datatype Group = Group(key: string, files: seq<Member>)

  /** A naming pattern: the base name of a companion, if the name is one. */
  type Pattern = string -> Option<string>

  /** Taking a suffix off a name makes it shorter. */
  ghost predicate Shortening(patterns: seq<Pattern>) {
    forall p, n :: p in patterns && p(n).Some? ==> |p(n).value| < |n|
  }

  /** The base name by the first pattern that matches. */
  function BaseOf(patterns: seq<Pattern>, name: string): (r: Option<string>)
    ensures Shortening(patterns) && r.Some? ==> |r.value| < |name|
  {
    if patterns == [] then None
    else if patterns[0](name).Some? then patterns[0](name)
    else BaseOf(patterns[1..], name)
  }

  /** The first pattern that matches names the base; without one there is none. */
  lemma {:induction false} BaseExactly(patterns: seq<Pattern>, name: string, base: string)
    ensures BaseOf(patterns, name) == Some(base) <==>
      exists i :: 0 <= i < |patterns| && patterns[i](name) == Some(base)
                  && forall j :: 0 <= j < i ==> patterns[j](name) == None
    ensures BaseOf(patterns, name) == None <==> forall i :: 0 <= i < |patterns| ==> patterns[i](name) == None
  {
    if patterns != [] {
      var rest := patterns[1..];
      BaseExactly(rest, name, base);
      if patterns[0](name).None? && BaseOf(patterns, name) == Some(base) {
        var i :| 0 <= i < |rest| && rest[i](name) == Some(base) && forall j :: 0 <= j < i ==> rest[j](name) == None;
        assert patterns[i + 1](name) == Some(base);
        assert forall j :: 0 < j < i + 1 ==> patterns[j] == rest[j - 1];
      }
      assert forall i :: 0 < i < |patterns| ==> patterns[i] == rest[i - 1];
    }
  }

  function Names(files: seq<File>): (r: seq<string>)
    ensures |r| == |files| && forall i :: 0 <= i < |files| ==> r[i] == files[i].name
  {
    seq(|files|, i requires 0 <= i < |files| => files[i].name)
  }

  /** { f.name: f for f in files }[name]: the last file of that name. */
  function FileNamed(files: seq<File>, name: string): (f: File)
    requires name in Names(files)
    ensures f in files && f.name == name
    ensures exists k :: 0 <= k < |files| && files[k] == f && forall j :: k < j < |files| ==> files[j].name != name
  {
    if files[|files| - 1].name == name then files[|files| - 1]
    else
      assert name in Names(files[..|files| - 1]) by {
        var i :| 0 <= i < |files| && Names(files)[i] == name;
        assert Names(files[..|files| - 1])[i] == name;
      }
      FileNamed(files[..|files| - 1], name)
  }

  // ----- the groups as an insertion-ordered dict -----

  predicate HasKey(groups: seq<Group>, key: string) {
    exists i :: 0 <= i < |groups| && groups[i].key == key
  }

  function KeyIndex(groups: seq<Group>, key: string): (k: nat)
    requires HasKey(groups, key)
    ensures k < |groups| && groups[k].key == key
  {
    if groups[0].key == key then 0 else 1 + KeyIndex(groups[1..], key)
  }

  function MemberCount(members: seq<Member>, name: string): nat {
    if members == [] then 0
    else MemberCount(members[..|members| - 1], name) + if members[|members| - 1].name == name then 1 else 0
  }

  /** How many members of all groups together carry the name. */
  function Occurrences(groups: seq<Group>, name: string): nat {
    if groups == [] then 0
    else Occurrences(groups[..|groups| - 1], name) + MemberCount(groups[|groups| - 1].files, name)
  }

  function AddTo(groups: seq<Group>, k: nat, m: Member): seq<Group>
    requires k < |groups|
  {
    groups[k := Group(groups[k].key, groups[k].files + [m])]
  }

  lemma {:induction false} OccurrencesAddTo(groups: seq<Group>, k: nat, m: Member, name: string)
    requires k < |groups|
    ensures Occurrences(AddTo(groups, k, m), name) == Occurrences(groups, name) + if m.name == name then 1 else 0
  {
    var n := |groups| - 1;
    var groups' := AddTo(groups, k, m);
    if k == n {
      assert groups'[..n] == groups[..n];
      assert (groups[n].files + [m])[..|groups[n].files|] == groups[n].files;
    } else {
      assert groups'[..n] == AddTo(groups[..n], k, m);
      OccurrencesAddTo(groups[..n], k, m, name);
    }
  }

  /** A primary carries the key, a companion has it as base name, and every member is one of the files. */
  ghost predicate MemberOk(m: Member, key: string, files: seq<File>, patterns: seq<Pattern>) {
    && File(m.path, m.name) in files
    && (m.role == Companion ==> BaseOf(patterns, m.name) == Some(key))
    && (m.role != Companion ==> m.name == key)
    && (m.role == Standalone ==> BaseOf(patterns, m.name) == None)
  }

  ghost predicate GroupOk(g: Group, files: seq<File>, patterns: seq<Pattern>) {
    forall m :: m in g.files ==> MemberOk(m, g.key, files, patterns)
  }

  ghost predicate GroupsOk(groups: seq<Group>, files: seq<File>, patterns: seq<Pattern>) {
    forall g {:trigger GroupOk(g, files, patterns)} :: g in groups ==> GroupOk(g, files, patterns)
  }

  /** A key that names a file has that file in some group already. */
  ghost predicate KeyPlaced(key: string, files: seq<File>, placed: set<string>) {
    key in Names(files) ==> key in placed
  }

  ghost predicate KeysPlaced(groups: seq<Group>, files: seq<File>, placed: set<string>) {
    forall g {:trigger KeyPlaced(g.key, files, placed)} :: g in groups ==> KeyPlaced(g.key, files, placed)
  }

  /** A group that is being filled: a primary at most at its head, then companions. */
  ghost predicate Started(g: Group) {
    && (forall i :: 0 < i < |g.files| ==> g.files[i].role == Companion)
    && (g.files != [] ==> g.files[0].role != Standalone)
  }

  ghost predicate AllStarted(groups: seq<Group>) {
    forall g {:trigger Started(g)} :: g in groups ==> Started(g)
  }

  ghost predicate DistinctKeys(groups: seq<Group>) {
    forall i, j :: 0 <= i < j < |groups| ==> groups[i].key != groups[j].key
  }

  /** A finished group has a companion. */
  ghost predicate Accompanied(g: Group) {
    Started(g) && g.files != [] && g.files[|g.files| - 1].role == Companion
  }

  ghost predicate AllAccompanied(groups: seq<Group>) {
    forall g {:trigger Accompanied(g)} :: g in groups ==> Accompanied(g)
  }

  ghost predicate EachOnce(groups: seq<Group>, placed: set<string>) {
    forall name {:trigger Occurrences(groups, name)} :: Occurrences(groups, name) == if name in placed then 1 else 0
  }

  ghost predicate Consistent(groups: seq<Group>, placed: set<string>, files: seq<File>, patterns: seq<Pattern>) {
    && EachOnce(groups, placed)
    && placed <= Elements(Names(files))
    && GroupsOk(groups, files, patterns)
    && KeysPlaced(groups, files, placed)
    && AllStarted(groups) && DistinctKeys(groups)
  }

  /** The inner loop: the first pattern that matches. */
  method FindBase(patterns: seq<Pattern>, name: string) returns (base: Option<string>)
    ensures base == BaseOf(patterns, name)
  {
    base := None;
    for i := 0 to |patterns|
      invariant base == None && BaseOf(patterns, name) == BaseOf(patterns[i..], name)
    {
      if patterns[i](name).Some? {
        base := patterns[i](name);
        break;
      }
    }
  }

  lemma AppendOccurrences(groups: seq<Group>, g: Group, name: string)
    ensures Occurrences(groups + [g], name) == Occurrences(groups, name) + MemberCount(g.files, name)
  {
    assert (groups + [g])[..|groups|] == groups;
  }

  lemma AppendGroupOk(groups: seq<Group>, g: Group, files: seq<File>, patterns: seq<Pattern>)
    requires GroupsOk(groups, files, patterns) && GroupOk(g, files, patterns)
    ensures GroupsOk(groups + [g], files, patterns)
  {
  }

  lemma AppendKeyPlaced(groups: seq<Group>, g: Group, files: seq<File>, placed: set<string>, placed': set<string>)
    requires KeysPlaced(groups, files, placed) && placed <= placed' && KeyPlaced(g.key, files, placed')
    ensures KeysPlaced(groups + [g], files, placed')
  {
    forall h | h in groups
      ensures KeyPlaced(h.key, files, placed')
    {
      assert KeyPlaced(h.key, files, placed);
    }
  }

  lemma AppendEmpty(groups: seq<Group>, placed: set<string>, files: seq<File>, patterns: seq<Pattern>, key: string)
    requires Consistent(groups, placed, files, patterns) && KeyPlaced(key, files, placed) && !HasKey(groups, key)
    ensures Consistent(groups + [Group(key, [])], placed, files, patterns)
  {
    var g := Group(key, []);
    forall name
      ensures Occurrences(groups + [g], name) == Occurrences(groups, name)
    {
      AppendOccurrences(groups, g, name);
    }
    AppendGroupOk(groups, g, files, patterns);
    AppendKeyPlaced(groups, g, files, placed, placed);
    AppendStarted(groups, g);
  }

  lemma AppendOnce(groups: seq<Group>, placed: set<string>, m: Member)
    requires EachOnce(groups, placed) && m.name !in placed
    ensures EachOnce(groups + [Group(m.name, [m])], placed + {m.name})
  {
    var g := Group(m.name, [m]);
    forall name
      ensures Occurrences(groups + [g], name) == if name in placed + {m.name} then 1 else 0
    {
      AppendOccurrences(groups, g, name);
      CountOfOne(m, name);
    }
  }

  lemma AppendPrimary(groups: seq<Group>, placed: set<string>, files: seq<File>, patterns: seq<Pattern>, m: Member)
    requires Consistent(groups, placed, files, patterns) && MemberOk(m, m.name, files, patterns)
    requires m.name !in placed && m.name in Names(files) && m.role == Primary && !HasKey(groups, m.name)
    ensures Consistent(groups + [Group(m.name, [m])], placed + {m.name}, files, patterns)
  {
    var g := Group(m.name, [m]);
    AppendOnce(groups, placed, m);
    assert GroupOk(g, files, patterns);
    AppendGroupOk(groups, g, files, patterns);
    AppendKeyPlaced(groups, g, files, placed, placed + {m.name});
    AppendStarted(groups, g);
  }

  lemma CountOfOne(m: Member, name: string)
    ensures MemberCount([m], name) == if m.name == name then 1 else 0
  {
    assert [m][..0] == [];
  }

  lemma AppendStarted(groups: seq<Group>, g: Group)
    requires AllStarted(groups) && DistinctKeys(groups) && Started(g) && !HasKey(groups, g.key)
    ensures AllStarted(groups + [g]) && DistinctKeys(groups + [g])
  {
  }

  lemma AddMember(groups: seq<Group>, placed: set<string>, files: seq<File>, patterns: seq<Pattern>, k: nat, m: Member)
    requires Consistent(groups, placed, files, patterns) && k < |groups| && MemberOk(m, groups[k].key, files, patterns)
    requires m.name !in placed && m.name in Names(files) && m.role == Companion
    ensures Consistent(AddTo(groups, k, m), placed + {m.name}, files, patterns)
  {
    var groups' := AddTo(groups, k, m);
    forall name
      ensures Occurrences(groups', name) == if name in placed + {m.name} then 1 else 0
    {
      OccurrencesAddTo(groups, k, m, name);
    }
    forall g | g in groups'
      ensures GroupOk(g, files, patterns) && KeyPlaced(g.key, files, placed + {m.name})
    {
      var i :| 0 <= i < |groups| && groups'[i] == g;
      assert GroupOk(groups[i], files, patterns) && KeyPlaced(groups[i].key, files, placed);
    }
    AddStarted(groups, k, m);
  }

  lemma AddStarted(groups: seq<Group>, k: nat, m: Member)
    requires AllStarted(groups) && DistinctKeys(groups) && k < |groups| && m.role == Companion
    ensures AllStarted(AddTo(groups, k, m)) && DistinctKeys(AddTo(groups, k, m))
    ensures Accompanied(AddTo(groups, k, m)[k])
  {
    var groups' := AddTo(groups, k, m);
    forall g | g in groups'
      ensures Started(g)
    {
      var i :| 0 <= i < |groups| && groups'[i] == g;
      assert Started(groups[i]);
    }
    assert groups'[k] in groups';
  }

  /** Adding a companion finishes the one group that may still be waiting for it. */
  lemma AddAccompanied(before: seq<Group>, groups: seq<Group>, k: nat, m: Member)
    requires AllAccompanied(before) && before <= groups && |groups| <= |before| + 1 && k < |groups|
    requires |groups| > |before| ==> k == |before|
    requires AllStarted(groups) && m.role == Companion && DistinctKeys(groups)
    ensures AllAccompanied(AddTo(groups, k, m))
  {
    var groups' := AddTo(groups, k, m);
    AddStarted(groups, k, m);
    forall g | g in groups'
      ensures Accompanied(g)
    {
      var i :| 0 <= i < |groups| && groups'[i] == g;
      if i != k {
        assert before[i] == g && before[i] in before;
      }
    }
  }

  // ----- the pass as a function -----

  /** What the pass has collected so far. */
  datatype Placement = Placement(groups: seq<Group>, ungrouped: seq<File>, placed: set<string>)

  /** A new group, with the base file as its primary if there is one still free. */
  function Opened(files: seq<File>, base: string, groups: seq<Group>, placed: set<string>)
    : (r: (seq<Group>, set<string>))
    ensures HasKey(r.0, base)
  {
    var r: (seq<Group>, set<string>) := if base in Names(files) && base !in placed
             then (groups + [Group(base, [Member(FileNamed(files, base).path, base, Primary)])], placed + {base})
             else (groups + [Group(base, [])], placed);
    assert r.0[|groups|].key == base;
    r
  }

  function WithCompanion(files: seq<File>, f: File, base: string, groups: seq<Group>, placed: set<string>)
    : (seq<Group>, set<string>)
  {
    var (groups', placed') := if HasKey(groups, base) then (groups, placed) else Opened(files, base, groups, placed);
    (AddTo(groups', KeyIndex(groups', base), Member(f.path, f.name, Companion)), placed' + {f.name})
  }

  function Step(files: seq<File>, patterns: seq<Pattern>, p: Placement, f: File): Placement {
    if f.name in p.placed then p
    else
      match BaseOf(patterns, f.name)
      case Some(base) =>
        var (groups, placed) := WithCompanion(files, f, base, p.groups, p.placed);
        Placement(groups, p.ungrouped, placed)
      case None =>
        if HasKey(p.groups, f.name) then p else p.(ungrouped := p.ungrouped + [f])
  }

  /** After the first i files. */
  function After(files: seq<File>, patterns: seq<Pattern>, i: nat): Placement
    requires i <= |files|
  {
    if i == 0 then Placement([], [], {}) else Step(files, patterns, After(files, patterns, i - 1), files[i - 1])
  }

  function Grouped(files: seq<File>, patterns: seq<Pattern>): seq<Group> {
    var p := After(files, patterns, |files|);
    p.groups + Standing(p.ungrouped, p.placed)
  }

  /** Place a companion, opening its group with the base file if there is one still free. */
  method AddCompanion(files: seq<File>, patterns: seq<Pattern>, f: File, base: string,
                      groups: seq<Group>, placed: set<string>)
    returns (groups': seq<Group>, placed': set<string>)
    requires Consistent(groups, placed, files, patterns)
    requires f in files && f.name !in placed && BaseOf(patterns, f.name) == Some(base) && base != f.name
    requires AllAccompanied(groups)
    ensures Consistent(groups', placed', files, patterns) && AllAccompanied(groups')
    ensures placed <= placed' && f.name in placed'
    ensures (groups', placed') == WithCompanion(files, f, base, groups, placed)
  {
    NameOf(files, f);
    groups', placed' := groups, placed;
    if !HasKey(groups, base) {
      groups', placed' := OpenGroup(files, patterns, base, groups, placed);
    }
    var k := KeyIndex(groups', base);
    var companion := Member(f.path, f.name, Companion);
    AddMember(groups', placed', files, patterns, k, companion);
    AddAccompanied(groups, groups', k, companion);
    groups' := AddTo(groups', k, companion);
    placed' := placed' + {f.name};
  }

  method OpenGroup(files: seq<File>, patterns: seq<Pattern>, base: string, groups: seq<Group>, placed: set<string>)
    returns (groups': seq<Group>, placed': set<string>)
    requires Consistent(groups, placed, files, patterns) && !HasKey(groups, base)
    ensures Consistent(groups', placed', files, patterns) && HasKey(groups', base)
    ensures groups <= groups' && |groups'| == |groups| + 1 && groups'[|groups|].key == base
    ensures placed' == placed || placed' == placed + {base}
    ensures (groups', placed') == Opened(files, base, groups, placed)
  {
    groups' := groups + [Group(base, [])];
    placed' := placed;
    if base in Names(files) && base !in placed {
      var primary := Member(FileNamed(files, base).path, base, Primary);
      assert File(primary.path, base) == FileNamed(files, base);
      AppendPrimary(groups, placed, files, patterns, primary);
      groups' := AddTo(groups', |groups|, primary);
      var none: seq<Member> := [];
      assert none + [primary] == [primary];
      assert groups' == groups + [Group(base, [primary])];
      placed' := placed' + {base};
    } else {
      AppendEmpty(groups, placed, files, patterns, base);
    }
    assert groups'[|groups|].key == base;
  }

  lemma PlacedIfKey(groups: seq<Group>, files: seq<File>, placed: set<string>, name: string)
    requires KeysPlaced(groups, files, placed) && HasKey(groups, name) && name in Names(files)
    ensures name in placed
  {
    var i :| 0 <= i < |groups| && groups[i].key == name;
    assert KeyPlaced(groups[i].key, files, placed);
  }

  /** The files set aside so far: without a pattern, each once if the names are distinct. */
  ghost predicate SetAside(files: seq<File>, i: nat, ungrouped: seq<File>, patterns: seq<Pattern>)
    requires i <= |files|
  {
    && (forall u :: u in ungrouped ==> u in files[..i] && BaseOf(patterns, u.name) == None)
    && (NoDuplicates(Names(files)) ==> NoDuplicates(Names(ungrouped)))
  }

  lemma SetAsideOneMore(files: seq<File>, i: nat, ungrouped: seq<File>, patterns: seq<Pattern>)
    requires i < |files| && SetAside(files, i, ungrouped, patterns) && BaseOf(patterns, files[i].name) == None
    ensures SetAside(files, i + 1, ungrouped + [files[i]], patterns)
    ensures SetAside(files, i + 1, ungrouped, patterns)
  {
    assert files[..i + 1] == files[..i] + [files[i]];
    if NoDuplicates(Names(files)) {
      forall k | 0 <= k < |ungrouped|
        ensures ungrouped[k].name != files[i].name
      {
        assert ungrouped[k] in files[..i];
        var j :| 0 <= j < i && files[j] == ungrouped[k];
        assert Names(files)[j] != Names(files)[i];
      }
    }
  }

  lemma SetAsideStays(files: seq<File>, i: nat, ungrouped: seq<File>, patterns: seq<Pattern>)
    requires i < |files| && SetAside(files, i, ungrouped, patterns)
    ensures SetAside(files, i + 1, ungrouped, patterns)
  {
    assert files[..i + 1] == files[..i] + [files[i]];
  }

  /** The first i files have been placed or set aside. */
  ghost predicate AllHandled(files: seq<File>, i: nat, p: Placement)
    requires i <= |files|
  {
    forall j :: 0 <= j < i ==> files[j].name in p.placed || files[j] in p.ungrouped
  }

  lemma HandledOneMore(files: seq<File>, i: nat, p: Placement, p': Placement)
    requires i < |files| && AllHandled(files, i, p) && p.placed <= p'.placed && p.ungrouped <= p'.ungrouped
    requires files[i].name in p'.placed || files[i] in p'.ungrouped
    ensures AllHandled(files, i + 1, p')
  {
    forall f | f in p.ungrouped
      ensures f in p'.ungrouped
    {
      var k :| 0 <= k < |p.ungrouped| && p.ungrouped[k] == f;
      assert p'.ungrouped[k] == f;
    }
  }

  /** One turn of the loop: a file that is placed already is passed over. */
  method PlaceFile(files: seq<File>, i: nat, patterns: seq<Pattern>, p: Placement) returns (p': Placement)
    requires Shortening(patterns) && i < |files|
    requires Consistent(p.groups, p.placed, files, patterns) && AllAccompanied(p.groups)
    requires SetAside(files, i, p.ungrouped, patterns)
    ensures p' == Step(files, patterns, p, files[i])
    ensures Consistent(p'.groups, p'.placed, files, patterns) && AllAccompanied(p'.groups)
    ensures SetAside(files, i + 1, p'.ungrouped, patterns)
    ensures p.placed <= p'.placed && p.ungrouped <= p'.ungrouped
    ensures files[i].name in p'.placed || files[i] in p'.ungrouped
  {
    var f := files[i];
    NameOf(files, f);
    SetAsideStays(files, i, p.ungrouped, patterns);
    if f.name in p.placed {
      return p;
    }
    var base := FindBase(patterns, f.name);
    if base.Some? {
      var groups, placed := AddCompanion(files, patterns, f, base.value, p.groups, p.placed);
      p' := Placement(groups, p.ungrouped, placed);
    } else {
      if HasKey(p.groups, f.name) {
        PlacedIfKey(p.groups, files, p.placed, f.name);
        assert false;
      }
      SetAsideOneMore(files, i, p.ungrouped, patterns);
      p' := p.(ungrouped := p.ungrouped + [f]);
    }
  }

  /** The pass over the files. */
  method PlaceFiles(files: seq<File>, patterns: seq<Pattern>)
    returns (groups: seq<Group>, ungrouped: seq<File>, placed: set<string>)
    requires Shortening(patterns)
    ensures Consistent(groups, placed, files, patterns) && AllAccompanied(groups)
    ensures SetAside(files, |files|, ungrouped, patterns)
    ensures forall j :: 0 <= j < |files| ==> files[j].name in placed || files[j] in ungrouped
    ensures Placement(groups, ungrouped, placed) == After(files, patterns, |files|)
  {
    var p := Placement([], [], {});
    for i := 0 to |files|
      invariant p == After(files, patterns, i)
      invariant Consistent(p.groups, p.placed, files, patterns) && AllAccompanied(p.groups)
      invariant SetAside(files, i, p.ungrouped, patterns)
      invariant AllHandled(files, i, p)
    {
      ghost var before := p;
      p := PlaceFile(files, i, patterns, p);
      HandledOneMore(files, i, before, p);
    }
    groups, ungrouped, placed := p.groups, p.ungrouped, p.placed;
  }

  method SuggestGroups(files: seq<File>, patterns: seq<Pattern>) returns (result: seq<Group>)
    requires Shortening(patterns)
    ensures GroupsOk(result, files, patterns)
    ensures forall name :: Occurrences(result, name) > 0 <==> name in Names(files)
    ensures NoDuplicates(Names(files)) ==>
      forall name :: Occurrences(result, name) == if name in Names(files) then 1 else 0
    ensures forall name :: BaseOf(patterns, name).Some? ==> Occurrences(result, name) <= 1
    ensures AllShaped(result)
    ensures NoDuplicates(Names(files)) ==> DistinctKeys(result)
    ensures OnlyLoneClash(result)
    ensures result == Grouped(files, patterns)
  {
    var groups, ungrouped, placed := PlaceFiles(files, patterns);
    assert files[..|files|] == files;
    result := AddStandalone(ungrouped, groups, placed);
    StandingOk(files, patterns, ungrouped, groups, placed);
    StandingShaped(ungrouped, groups, placed);
    forall u | u in ungrouped && HasKey(groups, u.name)
      ensures u.name in placed
    {
      NameOf(files, u);
      PlacedIfKey(groups, files, placed, u.name);
    }
    StandingClash(ungrouped, groups, placed);
    if NoDuplicates(Names(files)) { StandingKeys(ungrouped, groups, placed); }
    forall name
      ensures Occurrences(result, name) > 0 <==> name in Names(files)
      ensures NoDuplicates(Names(files)) || BaseOf(patterns, name).Some? ==> Occurrences(result, name) <= 1
    {
      EveryNameOnce(files, patterns, ungrouped, groups, placed, name);
    }
  }

  function Alone(u: File): Group {
    Group(u.name, [Member(u.path, u.name, Standalone)])
  }

  lemma AloneOk(files: seq<File>, patterns: seq<Pattern>, u: File)
    requires u in files && BaseOf(patterns, u.name) == None
    ensures GroupOk(Alone(u), files, patterns)
  {
    assert File(u.path, u.name) == u;
  }

  function Standing(ungrouped: seq<File>, placed: set<string>): seq<Group> {
    if ungrouped == [] then []
    else
      var u := ungrouped[|ungrouped| - 1];
      Standing(ungrouped[..|ungrouped| - 1], placed) + if u.name in placed then [] else [Alone(u)]
  }

  /** The last loop: what is not in a group stands alone. */
  method AddStandalone(ungrouped: seq<File>, groups: seq<Group>, placed: set<string>) returns (result: seq<Group>)
    ensures result == groups + Standing(ungrouped, placed)
  {
    result := groups;
    for i := 0 to |ungrouped|
      invariant result == groups + Standing(ungrouped[..i], placed)
    {
      assert ungrouped[..i + 1][..i] == ungrouped[..i];
      if ungrouped[i].name !in placed {
        result := result + [Alone(ungrouped[i])];
      }
    }
    assert ungrouped[..|ungrouped|] == ungrouped;
  }

  lemma {:induction false} StandingOk(files: seq<File>, patterns: seq<Pattern>, ungrouped: seq<File>,
                                      groups: seq<Group>, placed: set<string>)
    requires GroupsOk(groups, files, patterns)
    requires forall u :: u in ungrouped ==> u in files && BaseOf(patterns, u.name) == None
    ensures GroupsOk(groups + Standing(ungrouped, placed), files, patterns)
  {
    if ungrouped == [] {
      assert groups + Standing(ungrouped, placed) == groups;
    } else {
      var init, u := ungrouped[..|ungrouped| - 1], ungrouped[|ungrouped| - 1];
      StandingOk(files, patterns, init, groups, placed);
      if u.name in placed {
        assert groups + Standing(ungrouped, placed) == groups + Standing(init, placed);
      } else {
        AloneOk(files, patterns, u);
        AppendGroupOk(groups + Standing(init, placed), Alone(u), files, patterns);
        assert groups + Standing(ungrouped, placed) == groups + Standing(init, placed) + [Alone(u)];
      }
    }
  }

  /** A file on its own. */
  ghost predicate Lone(g: Group) {
    |g.files| == 1 && g.files[0].role == Standalone
  }

  ghost predicate AllShaped(result: seq<Group>) {
    forall g {:trigger Accompanied(g)} :: g in result ==> Accompanied(g) || Lone(g)
  }

  /** Two groups of one key are both lone files. */
  ghost predicate OnlyLoneClash(result: seq<Group>) {
    forall i, j :: 0 <= i < j < |result| && result[i].key == result[j].key ==> Lone(result[i]) && Lone(result[j])
  }

  lemma {:induction false} StandingClash(ungrouped: seq<File>, groups: seq<Group>, placed: set<string>)
    requires DistinctKeys(groups)
    requires forall u :: u in ungrouped && HasKey(groups, u.name) ==> u.name in placed
    ensures OnlyLoneClash(groups + Standing(ungrouped, placed))
    ensures forall g :: g in Standing(ungrouped, placed) ==> Lone(g)
  {
    if ungrouped == [] {
      assert groups + Standing(ungrouped, placed) == groups;
    } else {
      var init, u := ungrouped[..|ungrouped| - 1], ungrouped[|ungrouped| - 1];
      assert u in ungrouped;
      StandingClash(init, groups, placed);
      if u.name in placed {
        assert Standing(ungrouped, placed) == Standing(init, placed);
      } else {
        var before := groups + Standing(init, placed);
        assert groups + Standing(ungrouped, placed) == before + [Alone(u)];
        assert !HasKey(groups, u.name);
        assert forall i :: 0 <= i < |groups| ==> before[i] == groups[i];
      }
    }
  }

  lemma {:induction false} StandingShaped(ungrouped: seq<File>, groups: seq<Group>, placed: set<string>)
    requires AllAccompanied(groups)
    ensures AllShaped(groups + Standing(ungrouped, placed))
  {
    if ungrouped != [] {
      StandingShaped(ungrouped[..|ungrouped| - 1], groups, placed);
    }
  }

  lemma {:induction false} StandingKeys(ungrouped: seq<File>, groups: seq<Group>, placed: set<string>)
    requires DistinctKeys(groups) && NoDuplicates(Names(ungrouped))
    requires forall u :: u in ungrouped && HasKey(groups, u.name) ==> u.name in placed
    ensures DistinctKeys(groups + Standing(ungrouped, placed))
    ensures forall g :: g in Standing(ungrouped, placed) ==> g.key in Names(ungrouped)
  {
    if ungrouped == [] {
      assert groups + Standing(ungrouped, placed) == groups;
    } else {
      var init, u := ungrouped[..|ungrouped| - 1], ungrouped[|ungrouped| - 1];
      assert Names(ungrouped) == Names(init) + [u.name];
      StandingKeys(init, groups, placed);
      if u.name in placed {
        assert Standing(ungrouped, placed) == Standing(init, placed);
      } else {
        assert u in ungrouped && u.name !in Names(init);
        assert groups + Standing(ungrouped, placed) == groups + Standing(init, placed) + [Alone(u)];
      }
    }
  }

  function Count(files: seq<File>, name: string): nat {
    if files == [] then 0
    else Count(files[..|files| - 1], name) + if files[|files| - 1].name == name then 1 else 0
  }

  /** What stands alone adds each free name as often as it was set aside. */
  lemma {:induction false} StandingNames(ungrouped: seq<File>, groups: seq<Group>, placed: set<string>, name: string)
    ensures Occurrences(groups + Standing(ungrouped, placed), name)
            == Occurrences(groups, name) + if name in placed then 0 else Count(ungrouped, name)
  {
    if ungrouped == [] {
      assert groups + Standing(ungrouped, placed) == groups;
    } else {
      var init, u := ungrouped[..|ungrouped| - 1], ungrouped[|ungrouped| - 1];
      StandingNames(init, groups, placed, name);
      if u.name in placed {
        assert groups + Standing(ungrouped, placed) == groups + Standing(init, placed);
      } else {
        AppendOccurrences(groups + Standing(init, placed), Alone(u), name);
        CountOfOne(Alone(u).files[0], name);
        assert groups + Standing(ungrouped, placed) == groups + Standing(init, placed) + [Alone(u)];
      }
    }
  }

  lemma {:induction false} CountNames(files: seq<File>, name: string)
    ensures Count(files, name) > 0 <==> name in Names(files)
  {
    if files != [] {
      var n := |files| - 1;
      CountNames(files[..n], name);
      assert Names(files) == Names(files[..n]) + [files[n].name];
    }
  }

  lemma {:induction false} CountOnce(files: seq<File>, name: string)
    requires NoDuplicates(Names(files))
    ensures Count(files, name) <= 1
  {
    if files != [] {
      var n := |files| - 1;
      assert Names(files) == Names(files[..n]) + [files[n].name];
      CountOnce(files[..n], name);
      CountNames(files[..n], name);
    }
  }

  lemma EveryNameOnce(files: seq<File>, patterns: seq<Pattern>, ungrouped: seq<File>,
                      groups: seq<Group>, placed: set<string>, name: string)
    requires Occurrences(groups, name) == (if name in placed then 1 else 0) && placed <= Elements(Names(files))
    requires forall u :: u in ungrouped ==> u in files && BaseOf(patterns, u.name) == None
    requires forall j :: 0 <= j < |files| ==> files[j].name in placed || files[j] in ungrouped
    requires NoDuplicates(Names(files)) ==> NoDuplicates(Names(ungrouped))
    ensures var count := Occurrences(groups + Standing(ungrouped, placed), name);
      && (count > 0 <==> name in Names(files))
      && (NoDuplicates(Names(files)) || BaseOf(patterns, name).Some? ==> count <= 1)
  {
    StandingNames(ungrouped, groups, placed, name);
    CountNames(ungrouped, name);
    NamedSomewhere(files, ungrouped, placed, name);
    if NoDuplicates(Names(files)) {
      CountOnce(ungrouped, name);
    } else if name in Names(ungrouped) {
      var i :| 0 <= i < |ungrouped| && Names(ungrouped)[i] == name;
      assert ungrouped[i] in ungrouped;
    }
  }

  lemma NamedSomewhere(files: seq<File>, ungrouped: seq<File>, placed: set<string>, name: string)
    requires placed <= Elements(Names(files)) && forall u :: u in ungrouped ==> u in files
    requires forall j :: 0 <= j < |files| ==> files[j].name in placed || files[j] in ungrouped
    ensures name in Names(files) <==> name in placed || name in Names(ungrouped)
  {
    if name in Names(files) {
      var j :| 0 <= j < |files| && Names(files)[j] == name;
      NameOf(ungrouped, files[j]);
    }
    if name in Names(ungrouped) {
      var j :| 0 <= j < |ungrouped| && Names(ungrouped)[j] == name;
      assert ungrouped[j] in files;
      NameOf(files, ungrouped[j]);
    }
  }

  lemma NameOf(files: seq<File>, f: File)
    ensures f in files ==> f.name in Names(files)
  {
    if f in files {
      var i :| 0 <= i < |files| && files[i] == f;
      assert Names(files)[i] == f.name;
    }
  }
}
