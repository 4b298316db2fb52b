/** Where each file lands: the grouping in terms of its input alone, whatever names repeat or chain. */
module DocumentPlacing {
  import opened Collections
  import opened Options
  import opened DocumentGroups

  // ----- who is placed as a companion -----

  ghost function Longest(files: seq<File>): (n: nat)
    ensures forall name :: name in Names(files) ==> |name| <= n
  {
    if files == [] then 0
    else
      var init, last := files[..|files| - 1], files[|files| - 1].name;
      assert Names(files) == Names(init) + [last];
      if |last| > Longest(init) then |last| else Longest(init)
  }

  function FirstAt(files: seq<File>, name: string): (k: nat)
    requires name in Names(files)
    ensures k < |files| && files[k].name == name && forall j :: 0 <= j < k ==> files[j].name != name
  {
    var names := Names(files);
    var k := IndexOf(names, name);
    assert forall j :: 0 <= j < k ==> names[..k][j] == names[j];
    k
  }

  /**
   * The name is placed as a companion of its base: no file it is the base of comes before it and is
   * itself placed as a companion, since that would have made it a primary. Longer names decide.
   */
  ghost predicate JoinsBase(files: seq<File>, patterns: seq<Pattern>, name: string)
    requires Shortening(patterns)
    decreases if name in Names(files) then Longest(files) + 1 - |name| else 0
  {
    && name in Names(files) && BaseOf(patterns, name).Some?
    && forall j {:trigger files[j]} :: 0 <= j < FirstAt(files, name) && BaseOf(patterns, files[j].name) == Some(name)
         ==> !JoinsBase(files, patterns, Names(files)[j])
  }

  /** One of the first i files is placed as a companion of the key. */
  ghost predicate OpenedBy(files: seq<File>, patterns: seq<Pattern>, i: nat, key: string)
    requires Shortening(patterns) && i <= |files|
  {
    exists j :: 0 <= j < i && BaseOf(patterns, files[j].name) == Some(key) && JoinsBase(files, patterns, files[j].name)
  }

  lemma JoinsExactly(files: seq<File>, patterns: seq<Pattern>, name: string)
    requires Shortening(patterns)
    ensures JoinsBase(files, patterns, name) <==>
            && name in Names(files) && BaseOf(patterns, name).Some?
            && !OpenedBy(files, patterns, FirstAt(files, name), name)
  {
    if name in Names(files) {
      assert forall j :: 0 <= j < |files| ==> Names(files)[j] == files[j].name;
    }
  }

  ghost predicate PlacedBy(files: seq<File>, patterns: seq<Pattern>, i: nat, name: string)
    requires Shortening(patterns) && i <= |files|
  {
    && name in Names(files)
    && if JoinsBase(files, patterns, name) then FirstAt(files, name) < i else OpenedBy(files, patterns, i, name)
  }

  /** The name ends up in no group with others. */
  ghost predicate StandsAlone(files: seq<File>, patterns: seq<Pattern>, name: string)
    requires Shortening(patterns)
  {
    !PlacedBy(files, patterns, |files|, name)
  }

  // ----- the states the pass goes through -----

  ghost predicate IsStep(files: seq<File>, patterns: seq<Pattern>, trace: seq<Placement>, i: nat) {
    i < |files| && i + 1 < |trace| && trace[i + 1] == Step(files, patterns, trace[i], files[i])
  }

  ghost predicate IsTrace(files: seq<File>, patterns: seq<Pattern>, trace: seq<Placement>) {
    && |trace| == |files| + 1 && trace[0] == Placement([], [], {})
    && forall i {:trigger IsStep(files, patterns, trace, i)} :: 0 <= i < |files| ==> IsStep(files, patterns, trace, i)
  }

  lemma Trace(files: seq<File>, patterns: seq<Pattern>) returns (trace: seq<Placement>)
    ensures IsTrace(files, patterns, trace) && trace[|files|] == After(files, patterns, |files|)
  {
    trace := seq(|files| + 1, i requires 0 <= i <= |files| => After(files, patterns, i));
    forall i | 0 <= i < |files|
      ensures IsStep(files, patterns, trace, i)
    {
    }
  }

  // ----- what one step does -----

  /** The file is placed as a companion. */
  predicate Acts(patterns: seq<Pattern>, p: Placement, f: File) {
    f.name !in p.placed && BaseOf(patterns, f.name).Some?
  }

  /** And its base file is placed as a primary with it. */
  predicate TakesBase(files: seq<File>, patterns: seq<Pattern>, p: Placement, f: File) {
    && Acts(patterns, p, f)
    && var base := BaseOf(patterns, f.name).value;
       !HasKey(p.groups, base) && base in Names(files) && base !in p.placed
  }

  lemma AddToKeys(groups: seq<Group>, k: nat, m: Member, key: string)
    requires k < |groups|
    ensures HasKey(AddTo(groups, k, m), key) <==> HasKey(groups, key)
  {
    var groups' := AddTo(groups, k, m);
    assert forall i :: 0 <= i < |groups| ==> groups'[i].key == groups[i].key;
  }

  lemma AppendKeys(groups: seq<Group>, g: Group, key: string)
    ensures HasKey(groups + [g], key) <==> HasKey(groups, key) || g.key == key
  {
    var groups' := groups + [g];
    assert groups'[|groups|] == g;
    assert forall i :: 0 <= i < |groups| ==> groups'[i] == groups[i];
  }

  lemma StepKeys(files: seq<File>, patterns: seq<Pattern>, trace: seq<Placement>, i: nat, key: string)
    requires IsTrace(files, patterns, trace) && i < |files|
    ensures HasKey(trace[i + 1].groups, key) <==>
            || HasKey(trace[i].groups, key)
            || (Acts(patterns, trace[i], files[i]) && BaseOf(patterns, files[i].name) == Some(key))
  {
    var p, f := trace[i], files[i];
    assert IsStep(files, patterns, trace, i);
    if Acts(patterns, p, f) {
      var base, m := BaseOf(patterns, f.name).value, Member(f.path, f.name, Companion);
      if HasKey(p.groups, base) {
        AddToKeys(p.groups, KeyIndex(p.groups, base), m, key);
      } else {
        var groups' := Opened(files, base, p.groups, p.placed).0;
        AppendKeys(p.groups, groups'[|p.groups|], key);
        assert groups' == p.groups + [groups'[|p.groups|]];
        AddToKeys(groups', KeyIndex(groups', base), m, key);
      }
    }
  }

  lemma StepPlaced(files: seq<File>, patterns: seq<Pattern>, trace: seq<Placement>, i: nat)
    requires IsTrace(files, patterns, trace) && i < |files|
    ensures trace[i + 1].placed ==
            trace[i].placed + (if Acts(patterns, trace[i], files[i]) then {files[i].name} else {})
                     + (if TakesBase(files, patterns, trace[i], files[i])
                        then {BaseOf(patterns, files[i].name).value} else {})
  {
    var p, f := trace[i], files[i];
    assert IsStep(files, patterns, trace, i);
  }

  // ----- counting members -----

  function CountOf(members: seq<Member>, m: Member): nat {
    if members == [] then 0
    else CountOf(members[..|members| - 1], m) + if members[|members| - 1] == m then 1 else 0
  }

  /** How often the member stands in the groups. */
  function Tally(groups: seq<Group>, m: Member): nat {
    if groups == [] then 0 else Tally(groups[..|groups| - 1], m) + CountOf(groups[|groups| - 1].files, m)
  }

  lemma TallyAppend(groups: seq<Group>, g: Group, m: Member)
    ensures Tally(groups + [g], m) == Tally(groups, m) + CountOf(g.files, m)
  {
    assert (groups + [g])[..|groups|] == groups;
  }

  lemma {:induction false} TallyAddTo(groups: seq<Group>, k: nat, x: Member, m: Member)
    requires k < |groups|
    ensures Tally(AddTo(groups, k, x), m) == Tally(groups, m) + if x == m then 1 else 0
  {
    var n, groups' := |groups| - 1, AddTo(groups, k, x);
    if k == n {
      assert groups'[..n] == groups[..n];
      assert (groups[n].files + [x])[..|groups[n].files|] == groups[n].files;
    } else {
      assert groups'[..n] == AddTo(groups[..n], k, x);
      TallyAddTo(groups[..n], k, x, m);
    }
  }

  lemma CountOne(x: Member, m: Member)
    ensures CountOf([x], m) == if x == m then 1 else 0
  {
    assert [x][..0] == [];
  }

  lemma StepTally(files: seq<File>, patterns: seq<Pattern>, trace: seq<Placement>, i: nat, m: Member)
    requires IsTrace(files, patterns, trace) && i < |files|
    ensures Tally(trace[i + 1].groups, m) ==
            Tally(trace[i].groups, m)
            + (if Acts(patterns, trace[i], files[i])
                  && m == Member(files[i].path, files[i].name, Companion) then 1 else 0)
            + (if TakesBase(files, patterns, trace[i], files[i])
                  && m == PrimaryOf(files, BaseOf(patterns, files[i].name).value) then 1 else 0)
  {
    var p, f := trace[i], files[i];
    assert IsStep(files, patterns, trace, i);
    if Acts(patterns, p, f) {
      var base, x := BaseOf(patterns, f.name).value, Member(f.path, f.name, Companion);
      if HasKey(p.groups, base) {
        TallyAddTo(p.groups, KeyIndex(p.groups, base), x, m);
      } else {
        var groups' := Opened(files, base, p.groups, p.placed).0;
        TallyAddTo(groups', KeyIndex(groups', base), x, m);
        if TakesBase(files, patterns, p, f) {
          TallyAppend(p.groups, Group(base, [PrimaryOf(files, base)]), m);
          CountOne(PrimaryOf(files, base), m);
        } else {
          TallyAppend(p.groups, Group(base, []), m);
        }
      }
    }
  }

  function PrimaryOf(files: seq<File>, name: string): Member
    requires name in Names(files)
  {
    Member(FileNamed(files, name).path, name, Primary)
  }

  // ----- the state after i files, in terms of the input -----

  lemma ActsExactly(files: seq<File>, patterns: seq<Pattern>, trace: seq<Placement>, i: nat)
    requires IsTrace(files, patterns, trace) && Shortening(patterns) && i < |files|
    requires files[i].name in trace[i].placed <==> PlacedBy(files, patterns, i, files[i].name)
    ensures Acts(patterns, trace[i], files[i]) <==>
            JoinsBase(files, patterns, files[i].name) && FirstAt(files, files[i].name) == i
  {
    var x := files[i].name;
    NameOf(files, files[i]);
    JoinsExactly(files, patterns, x);
    assert FirstAt(files, x) <= i;
  }

  /** A companion that opens its group finds its base free exactly if that is no companion itself. */
  lemma TakesExactly(files: seq<File>, patterns: seq<Pattern>, i: nat, base: string)
    requires Shortening(patterns) && i < |files|
    requires BaseOf(patterns, files[i].name) == Some(base) && JoinsBase(files, patterns, files[i].name)
    requires !OpenedBy(files, patterns, i, base) && base in Names(files)
    ensures PlacedBy(files, patterns, i, base) <==> JoinsBase(files, patterns, base)
  {
    JoinsExactly(files, patterns, base);
    assert OpenedBy(files, patterns, FirstAt(files, base), base) || FirstAt(files, base) <= i;
  }

  /** What the state after i files says of a name. */
  ghost predicate Exact(files: seq<File>, patterns: seq<Pattern>, trace: seq<Placement>, i: nat, name: string)
    requires IsTrace(files, patterns, trace) && Shortening(patterns) && i <= |files|
  {
    && (HasKey(trace[i].groups, name) <==> OpenedBy(files, patterns, i, name))
    && (name in trace[i].placed <==> PlacedBy(files, patterns, i, name))
  }

  lemma KeysNext(files: seq<File>, patterns: seq<Pattern>, trace: seq<Placement>, i: nat, name: string)
    requires IsTrace(files, patterns, trace) && Shortening(patterns) && i < |files|
    requires Exact(files, patterns, trace, i, name) && Exact(files, patterns, trace, i, files[i].name)
    ensures HasKey(trace[i + 1].groups, name) <==> OpenedBy(files, patterns, i + 1, name)
  {
    ActsExactly(files, patterns, trace, i);
    StepKeys(files, patterns, trace, i, name);
    OpenedOneMore(files, patterns, i, name);
  }

  /** The name is the base of the file and is placed with it exactly if it then becomes a primary. */
  lemma BaseNext(files: seq<File>, patterns: seq<Pattern>, trace: seq<Placement>, i: nat, name: string)
    requires IsTrace(files, patterns, trace) && Shortening(patterns) && i < |files|
    requires Exact(files, patterns, trace, i, name) && Exact(files, patterns, trace, i, files[i].name)
    ensures TakesBase(files, patterns, trace[i], files[i]) && BaseOf(patterns, files[i].name) == Some(name)
            <==> && name in Names(files) && !JoinsBase(files, patterns, name)
                 && !OpenedBy(files, patterns, i, name) && OpenedBy(files, patterns, i + 1, name)
  {
    ActsExactly(files, patterns, trace, i);
    OpenedOneMore(files, patterns, i, name);
    if BaseOf(patterns, files[i].name) == Some(name) && JoinsBase(files, patterns, files[i].name)
       && name in Names(files) && !OpenedBy(files, patterns, i, name) {
      TakesExactly(files, patterns, i, name);
    }
  }

  lemma PlacedNext(files: seq<File>, patterns: seq<Pattern>, trace: seq<Placement>, i: nat, name: string)
    requires IsTrace(files, patterns, trace) && Shortening(patterns) && i < |files|
    requires Exact(files, patterns, trace, i, name) && Exact(files, patterns, trace, i, files[i].name)
    ensures name in trace[i + 1].placed <==> PlacedBy(files, patterns, i + 1, name)
  {
    ActsExactly(files, patterns, trace, i);
    BaseNext(files, patterns, trace, i, name);
    StepPlaced(files, patterns, trace, i);
    OpenedOneMore(files, patterns, i, name);
    NameOf(files, files[i]);
  }

  lemma {:induction false} StateExactly(files: seq<File>, patterns: seq<Pattern>, trace: seq<Placement>,
                                        i: nat, name: string)
    requires IsTrace(files, patterns, trace) && Shortening(patterns) && i <= |files|
    ensures Exact(files, patterns, trace, i, name)
  {
    if i > 0 {
      StateExactly(files, patterns, trace, i - 1, name);
      StateExactly(files, patterns, trace, i - 1, files[i - 1].name);
      KeysNext(files, patterns, trace, i - 1, name);
      PlacedNext(files, patterns, trace, i - 1, name);
    }
  }

  lemma OpenedOneMore(files: seq<File>, patterns: seq<Pattern>, i: nat, key: string)
    requires Shortening(patterns) && i < |files|
    ensures OpenedBy(files, patterns, i + 1, key) <==>
            || OpenedBy(files, patterns, i, key)
            || (&& BaseOf(patterns, files[i].name) == Some(key) && JoinsBase(files, patterns, files[i].name)
                && FirstAt(files, files[i].name) == i)
  {
    var x := files[i].name;
    NameOf(files, files[i]);
    if BaseOf(patterns, x) == Some(key) && JoinsBase(files, patterns, x) {
      assert files[FirstAt(files, x)].name == x;
    }
  }

  /** How often a member stands in the groups after i files: once if it is placed, as what it is. */
  ghost function Expected(files: seq<File>, patterns: seq<Pattern>, i: nat, m: Member): nat
    requires Shortening(patterns) && i <= |files|
  {
    if m.role == Standalone || !PlacedBy(files, patterns, i, m.name) then 0
    else if JoinsBase(files, patterns, m.name) then
      if m == Member(files[FirstAt(files, m.name)].path, m.name, Companion) then 1 else 0
    else
      if m == PrimaryOf(files, m.name) then 1 else 0
  }

  lemma TallyNext(files: seq<File>, patterns: seq<Pattern>, trace: seq<Placement>, i: nat, m: Member)
    requires IsTrace(files, patterns, trace) && Shortening(patterns) && i < |files|
    ensures Tally(trace[i + 1].groups, m) - Tally(trace[i].groups, m)
            == Expected(files, patterns, i + 1, m) - Expected(files, patterns, i, m)
  {
    var f := files[i];
    StateExactly(files, patterns, trace, i, m.name);
    StateExactly(files, patterns, trace, i, f.name);
    ActsExactly(files, patterns, trace, i);
    BaseNext(files, patterns, trace, i, m.name);
    OpenedOneMore(files, patterns, i, m.name);
    StepTally(files, patterns, trace, i, m);
    NameOf(files, f);
  }

  lemma TallyAtStart(files: seq<File>, patterns: seq<Pattern>, trace: seq<Placement>, m: Member)
    requires IsTrace(files, patterns, trace) && Shortening(patterns)
    ensures Tally(trace[0].groups, m) == Expected(files, patterns, 0, m)
  {
  }

  lemma {:induction false} TallyExactly(files: seq<File>, patterns: seq<Pattern>, trace: seq<Placement>,
                                        i: nat, m: Member)
    requires IsTrace(files, patterns, trace) && Shortening(patterns) && i <= |files|
    ensures Tally(trace[i].groups, m) == Expected(files, patterns, i, m)
  {
    if i == 0 {
      TallyAtStart(files, patterns, trace, m);
    } else {
      var j := i - 1;
      TallyExactly(files, patterns, trace, j, m);
      TallyNext(files, patterns, trace, j, m);
    }
  }

  // ----- what stands alone -----

  /** How often the file, path and name, is listed. */
  function CountFile(files: seq<File>, f: File): nat {
    if files == [] then 0
    else CountFile(files[..|files| - 1], f) + if files[|files| - 1] == f then 1 else 0
  }

  /** No pattern matches the name, and nothing is placed as its companion. */
  lemma LoneExactly(files: seq<File>, patterns: seq<Pattern>, name: string)
    requires Shortening(patterns) && name in Names(files)
    ensures StandsAlone(files, patterns, name) <==>
            BaseOf(patterns, name) == None && !OpenedBy(files, patterns, |files|, name)
  {
    JoinsExactly(files, patterns, name);
  }

  lemma SetAsideNext(files: seq<File>, patterns: seq<Pattern>, trace: seq<Placement>, i: nat, f: File)
    requires IsTrace(files, patterns, trace) && i < |files|
    requires BaseOf(patterns, f.name) == None && f.name !in trace[i].placed && !HasKey(trace[i].groups, f.name)
    ensures CountFile(trace[i + 1].ungrouped, f) == CountFile(trace[i].ungrouped, f) + if files[i] == f then 1 else 0
  {
    assert IsStep(files, patterns, trace, i);
    assert (trace[i].ungrouped + [files[i]])[..|trace[i].ungrouped|] == trace[i].ungrouped;
  }

  /** A file of a lone name is set aside each time it is listed. */
  lemma {:induction false} SetAsideExactly(files: seq<File>, patterns: seq<Pattern>, trace: seq<Placement>,
                                           i: nat, f: File)
    requires IsTrace(files, patterns, trace) && Shortening(patterns) && i <= |files|
    requires f in files && StandsAlone(files, patterns, f.name)
    ensures CountFile(trace[i].ungrouped, f) == CountFile(files[..i], f)
  {
    if i > 0 {
      SetAsideExactly(files, patterns, trace, i - 1, f);
      assert files[..i][..i - 1] == files[..i - 1];
      NameOf(files, f);
      LoneExactly(files, patterns, f.name);
      StateExactly(files, patterns, trace, i - 1, f.name);
      SetAsideNext(files, patterns, trace, i - 1, f);
    }
  }

  /** What is set aside has been listed. */
  lemma {:induction false} OnlyListedSetAside(files: seq<File>, patterns: seq<Pattern>, trace: seq<Placement>,
                                              i: nat, f: File)
    requires IsTrace(files, patterns, trace) && i <= |files| && f in trace[i].ungrouped
    ensures f in files
  {
    assert i > 0 ==> IsStep(files, patterns, trace, i - 1);
    if f in trace[i - 1].ungrouped {
      OnlyListedSetAside(files, patterns, trace, i - 1, f);
    }
  }

  lemma LoneCount(files: seq<File>, patterns: seq<Pattern>, trace: seq<Placement>, f: File)
    requires IsTrace(files, patterns, trace) && Shortening(patterns) && StandsAlone(files, patterns, f.name)
    ensures CountFile(trace[|files|].ungrouped, f) == CountFile(files, f)
  {
    var ungrouped := trace[|files|].ungrouped;
    CountsAgree(ungrouped, f);
    CountsAgree(files, f);
    if f in files {
      SetAsideExactly(files, patterns, trace, |files|, f);
      assert files[..|files|] == files;
    } else if f in ungrouped {
      OnlyListedSetAside(files, patterns, trace, |files|, f);
    }
  }

  lemma {:induction false} TallyStanding(ungrouped: seq<File>, placed: set<string>, m: Member)
    ensures Tally(Standing(ungrouped, placed), m) ==
            if m.role == Standalone && m.name !in placed then CountFile(ungrouped, File(m.path, m.name)) else 0
  {
    if ungrouped != [] {
      var init, u := ungrouped[..|ungrouped| - 1], ungrouped[|ungrouped| - 1];
      TallyStanding(init, placed, m);
      if u.name in placed {
        assert Standing(ungrouped, placed) == Standing(init, placed);
      } else {
        TallyAppend(Standing(init, placed), Alone(u), m);
        CountOne(Alone(u).files[0], m);
      }
    }
  }

  lemma {:induction false} TallyConcat(a: seq<Group>, b: seq<Group>, m: Member)
    ensures Tally(a + b, m) == Tally(a, m) + Tally(b, m)
  {
    if b == [] {
      assert a + b == a;
    } else {
      assert (a + b)[..|a + b| - 1] == a + b[..|b| - 1];
      TallyConcat(a, b[..|b| - 1], m);
    }
  }

  // ----- the theorems -----

  /** What becomes of every possible member, from the input alone. */
  lemma GroupingExactly(files: seq<File>, patterns: seq<Pattern>, m: Member)
    requires Shortening(patterns)
    ensures Tally(Grouped(files, patterns), m) ==
      if StandsAlone(files, patterns, m.name) then
        if m.role == Standalone then CountFile(files, File(m.path, m.name)) else 0
      else if JoinsBase(files, patterns, m.name) then
        if m == Member(files[FirstAt(files, m.name)].path, m.name, Companion) then 1 else 0
      else
        if m == PrimaryOf(files, m.name) then 1 else 0
  {
    var n := |files|;
    var trace := Trace(files, patterns);
    var p := trace[n];
    StateExactly(files, patterns, trace, n, m.name);
    TallyExactly(files, patterns, trace, n, m);
    TallyConcat(p.groups, Standing(p.ungrouped, p.placed), m);
    TallyStanding(p.ungrouped, p.placed, m);
    if StandsAlone(files, patterns, m.name) {
      LoneCount(files, patterns, trace, File(m.path, m.name));
    }
  }

  /** How often the file stands in the groups, in whatever role. */
  function FileTally(groups: seq<Group>, f: File): nat {
    Tally(groups, Member(f.path, f.name, Primary)) + Tally(groups, Member(f.path, f.name, Companion))
    + Tally(groups, Member(f.path, f.name, Standalone))
  }

  /** The one file of a placed name that is in the groups: the first listed if a companion, the last if a primary. */
  ghost function Chosen(files: seq<File>, patterns: seq<Pattern>, name: string): (f: File)
    requires Shortening(patterns) && name in Names(files)
    ensures f in files && f.name == name
  {
    if JoinsBase(files, patterns, name) then files[FirstAt(files, name)] else FileNamed(files, name)
  }

  lemma FileExactly(files: seq<File>, patterns: seq<Pattern>, f: File)
    requires Shortening(patterns)
    ensures FileTally(Grouped(files, patterns), f) ==
      if StandsAlone(files, patterns, f.name) then CountFile(files, f)
      else if f == Chosen(files, patterns, f.name) then 1 else 0
  {
    GroupingExactly(files, patterns, Member(f.path, f.name, Primary));
    GroupingExactly(files, patterns, Member(f.path, f.name, Companion));
    GroupingExactly(files, patterns, Member(f.path, f.name, Standalone));
  }

  lemma {:induction false} CountsAgree(files: seq<File>, f: File)
    ensures CountFile(files, f) <= Count(files, f.name)
    ensures CountFile(files, f) > 0 <==> f in files
  {
    if files != [] {
      var n := |files| - 1;
      CountsAgree(files[..n], f);
      assert files == files[..n] + [files[n]];
    }
  }

  lemma {:induction false} TwoOfOneName(files: seq<File>, e: File, f: File)
    requires e != f && e.name == f.name
    ensures CountFile(files, e) + CountFile(files, f) <= Count(files, e.name)
  {
    if files != [] { TwoOfOneName(files[..|files| - 1], e, f); }
  }

  /** Of a repeated name, some file is listed another number of times than once for e and never else. */
  lemma {:induction false} RepeatedDiffers(files: seq<File>, e: File) returns (f: File)
    requires Count(files, e.name) >= 2
    ensures f.name == e.name && CountFile(files, f) != if f == e then 1 else 0
    decreases |files|
  {
    var n := |files| - 1;
    var last := files[n];
    if last.name == e.name && last != e {
      f := last;
      CountsAgree(files, f);
      assert files[n] in files;
    } else if last == e {
      CountNames(files[..n], e.name);
      var i :| 0 <= i < n && Names(files[..n])[i] == e.name;
      f := files[i];
      CountsAgree(files, f);
      CountsAgree(files[..n], f);
      assert files[..n][i] == f && files[i] in files;
    } else {
      f := RepeatedDiffers(files[..n], e);
    }
  }

  ghost predicate RepeatedStandAlone(files: seq<File>, patterns: seq<Pattern>)
    requires Shortening(patterns)
  {
    forall name {:trigger Count(files, name)} :: Count(files, name) >= 2 ==> StandsAlone(files, patterns, name)
  }

  ghost predicate EachAsListed(files: seq<File>, patterns: seq<Pattern>) {
    forall f {:trigger CountFile(files, f)} :: FileTally(Grouped(files, patterns), f) == CountFile(files, f)
  }

  /**
   * Every file stands in the groups as often as it is listed exactly if every repeated name stands
   * alone: no pattern matches it, and it is the base of nothing that is placed as a companion.
   */
  lemma FilesKeptExactly(files: seq<File>, patterns: seq<Pattern>)
    requires Shortening(patterns)
    ensures EachAsListed(files, patterns) <==> RepeatedStandAlone(files, patterns)
  {
    if RepeatedStandAlone(files, patterns) {
      forall f
        ensures FileTally(Grouped(files, patterns), f) == CountFile(files, f)
      {
        FileExactly(files, patterns, f);
        if !StandsAlone(files, patterns, f.name) { OnceIsChosen(files, Chosen(files, patterns, f.name), f); }
      }
    } else {
      var name :| Count(files, name) >= 2 && !StandsAlone(files, patterns, name);
      var f := RepeatedDiffers(files, Chosen(files, patterns, name));
      FileExactly(files, patterns, f);
      assert FileTally(Grouped(files, patterns), f) != CountFile(files, f);
    }
  }

  lemma OnceIsChosen(files: seq<File>, e: File, f: File)
    requires e in files && f.name == e.name && Count(files, e.name) < 2
    ensures CountFile(files, f) == if f == e then 1 else 0
  {
    CountsAgree(files, e);
    CountsAgree(files, f);
    if f != e { TwoOfOneName(files, e, f); }
  }

  /** For files that are listed once each: all of them are in the groups once, under the same condition. */
  lemma FilesOnceExactly(files: seq<File>, patterns: seq<Pattern>)
    requires Shortening(patterns) && forall f :: f in files ==> CountFile(files, f) == 1
    ensures (forall f :: f in files ==> FileTally(Grouped(files, patterns), f) == 1)
            <==> RepeatedStandAlone(files, patterns)
  {
    FilesKeptExactly(files, patterns);
    if forall f :: f in files ==> FileTally(Grouped(files, patterns), f) == 1 {
      forall f
        ensures FileTally(Grouped(files, patterns), f) == CountFile(files, f)
      {
        FileExactly(files, patterns, f);
        CountsAgree(files, f);
      }
    } else {
      var f :| f in files && FileTally(Grouped(files, patterns), f) != 1;
      assert CountFile(files, f) == 1;
    }
  }

  /** No companion is the base of another. */
  ghost predicate NoChains(files: seq<File>, patterns: seq<Pattern>) {
    forall e, f ::
      e in files && f in files && BaseOf(patterns, e.name) == Some(f.name) ==> BaseOf(patterns, f.name) == None
  }

  /** Without chains a name stands alone exactly if no pattern matches it and no file has it as base. */
  lemma LoneWithoutChains(files: seq<File>, patterns: seq<Pattern>, name: string)
    requires Shortening(patterns) && NoChains(files, patterns) && name in Names(files)
    ensures StandsAlone(files, patterns, name) <==>
            BaseOf(patterns, name) == None && forall f :: f in files ==> BaseOf(patterns, f.name) != Some(name)
  {
    forall x | x in Names(files) && BaseOf(patterns, x).Some?
      ensures JoinsBase(files, patterns, x)
    {
      var k := FirstAt(files, x);
      JoinsExactly(files, patterns, x);
      assert files[k] in files;
      assert forall j :: 0 <= j < k ==> files[j] in files;
    }
    if f :| f in files && BaseOf(patterns, f.name) == Some(name) {
      NameOf(files, f);
      var j :| 0 <= j < |files| && files[j] == f;
      assert OpenedBy(files, patterns, |files|, name);
    }
  }

  // ----- groups and roles -----

  ghost predicate StandsIn(result: seq<Group>, key: string, name: string, role: Role) {
    exists g, m :: g in result && g.key == key && m in g.files && m.name == name && m.role == role
  }

  lemma {:induction false} CountedIsMember(members: seq<Member>, m: Member)
    ensures CountOf(members, m) > 0 <==> m in members
  {
    if members != [] {
      var n := |members| - 1;
      CountedIsMember(members[..n], m);
      assert members == members[..n] + [members[n]];
    }
  }

  lemma {:induction false} TalliedIsMember(groups: seq<Group>, m: Member)
    ensures Tally(groups, m) > 0 <==> exists g :: g in groups && m in g.files
  {
    if groups != [] {
      var n := |groups| - 1;
      TalliedIsMember(groups[..n], m);
      CountedIsMember(groups[n].files, m);
      assert groups == groups[..n] + [groups[n]];
      if m in groups[n].files { assert groups[n] in groups; }
    }
  }

  /** In which group and in which role a file that a pattern matches lands. */
  lemma CompanionLands(files: seq<File>, patterns: seq<Pattern>, result: seq<Group>, name: string, base: string)
    requires Shortening(patterns) && result == Grouped(files, patterns) && GroupsOk(result, files, patterns)
    requires name in Names(files) && BaseOf(patterns, name) == Some(base)
    ensures StandsIn(result, base, name, Companion) <==> JoinsBase(files, patterns, name)
    ensures StandsIn(result, name, name, Primary) <==> !JoinsBase(files, patterns, name)
    ensures forall key, role :: StandsIn(result, key, name, role) ==>
      (key, role) == if JoinsBase(files, patterns, name) then (base, Companion) else (name, Primary)
  {
    LoneExactly(files, patterns, name);
    var m := if JoinsBase(files, patterns, name)
             then Member(files[FirstAt(files, name)].path, name, Companion) else PrimaryOf(files, name);
    GroupingExactly(files, patterns, m);
    TalliedIsMember(result, m);
    var g :| g in result && m in g.files;
    assert GroupOk(g, files, patterns) && MemberOk(m, g.key, files, patterns);
    forall h, x | h in result && x in h.files && x.name == name
      ensures x == m && (m.role == Companion ==> h.key == base) && (m.role == Primary ==> h.key == name)
    {
      GroupingExactly(files, patterns, x);
      TalliedIsMember(result, x);
      assert GroupOk(h, files, patterns) && MemberOk(x, h.key, files, patterns);
    }
  }

  /** A base that no pattern matches is a primary exactly if something is placed as its companion. */
  lemma BaseLands(files: seq<File>, patterns: seq<Pattern>, result: seq<Group>, base: string)
    requires Shortening(patterns) && result == Grouped(files, patterns) && GroupsOk(result, files, patterns)
    requires base in Names(files) && !JoinsBase(files, patterns, base)
    ensures StandsIn(result, base, base, Primary) <==> OpenedBy(files, patterns, |files|, base)
  {
    var m := PrimaryOf(files, base);
    LoneExactly(files, patterns, base);
    GroupingExactly(files, patterns, m);
    TalliedIsMember(result, m);
    if OpenedBy(files, patterns, |files|, base) {
      var g :| g in result && m in g.files;
      assert GroupOk(g, files, patterns) && MemberOk(m, g.key, files, patterns);
    }
    if StandsIn(result, base, base, Primary) {
      var g, x :| g in result && x in g.files && x.name == base && x.role == Primary;
      GroupingExactly(files, patterns, x);
      TalliedIsMember(result, x);
    }
  }

  /**
   * A companion sits in the group of its base, and if the base is a file that is placed as no
   * companion itself, it heads that very group.
   */
  lemma CompanionJoinsBase(files: seq<File>, patterns: seq<Pattern>, result: seq<Group>, name: string, base: string)
    returns (g: Group)
    requires Shortening(patterns) && result == Grouped(files, patterns) && GroupsOk(result, files, patterns)
    requires AllShaped(result) && OnlyLoneClash(result)
    requires JoinsBase(files, patterns, name) && BaseOf(patterns, name) == Some(base)
    ensures g in result && g.key == base && exists m :: m in g.files && m.name == name && m.role == Companion
    ensures base in Names(files) && !JoinsBase(files, patterns, base) ==>
      g.files[0].name == base && g.files[0].role == Primary
  {
    CompanionLands(files, patterns, result, name, base);
    var m: Member;
    g, m :| g in result && g.key == base && m in g.files && m.name == name && m.role == Companion;
    if base in Names(files) && !JoinsBase(files, patterns, base) {
      assert OpenedBy(files, patterns, |files|, base) by { assert files[FirstAt(files, name)].name == name; }
      BaseLands(files, patterns, result, base);
      var h, x :| h in result && h.key == base && x in h.files && x.name == base && x.role == Primary;
      SameGroup(result, g, m, h, x);
    }
  }

  lemma SameGroup(result: seq<Group>, g: Group, m: Member, h: Group, x: Member)
    requires AllShaped(result) && OnlyLoneClash(result) && g in result && h in result && g.key == h.key
    requires m in g.files && m.role == Companion && x in h.files && x.role == Primary
    ensures g == h && g.files[0] == x
  {
    var i :| 0 <= i < |result| && result[i] == g;
    var j :| 0 <= j < |result| && result[j] == h;
    assert (Accompanied(g) || Lone(g)) && (Accompanied(h) || Lone(h));
    assert !Lone(g) && !Lone(h);
    var k :| 0 <= k < |h.files| && h.files[k] == x;
  }

  // ----- where it goes wrong -----

  /** Of two files of one name, one with a companion: the last becomes the primary, the first is in no group. */
  lemma RepeatedBaseIsLost(patterns: seq<Pattern>, d1: string, d2: string, d3: string, base: string, companion: string)
    requires Shortening(patterns) && d1 != d2
    requires BaseOf(patterns, base) == None && BaseOf(patterns, companion) == Some(base)
    ensures var files := [File(d1, base), File(d2, base), File(d3, companion)];
      FileTally(Grouped(files, patterns), File(d1, base)) == 0
  {
    var files := [File(d1, base), File(d2, base), File(d3, companion)];
    assert forall j :: 0 <= j < |files| ==> Names(files)[j] == files[j].name;
    assert companion in Names(files) && base in Names(files) by {
      assert Names(files)[2] == companion && Names(files)[0] == base;
    }
    JoinsExactly(files, patterns, companion);
    assert files[2].name == companion;
    assert OpenedBy(files, patterns, |files|, base);
    assert FileNamed(files, base) == File(d2, base) by {
      assert files[..2] == [File(d1, base), File(d2, base)];
    }
    FileExactly(files, patterns, File(d1, base));
  }

  lemma CountTwo(x: File, y: File, f: File)
    ensures CountFile([x, y], f) == (if x == f then 1 else 0) + if y == f then 1 else 0
  {
    assert [x, y][..1] == [x] && [x][..0] == [];
    assert CountFile([x], f) == if x == f then 1 else 0;
  }

  /** Two files of a name that no pattern matches stand alone twice, under one key. */
  lemma RepeatedStandsTwice(patterns: seq<Pattern>, d1: string, d2: string, name: string)
    requires Shortening(patterns) && d1 != d2 && BaseOf(patterns, name) == None
    ensures var files := [File(d1, name), File(d2, name)];
      && Tally(Grouped(files, patterns), Member(d1, name, Standalone)) == 1
      && Tally(Grouped(files, patterns), Member(d2, name, Standalone)) == 1
  {
    var files := [File(d1, name), File(d2, name)];
    assert forall j :: 0 <= j < |files| ==> Names(files)[j] == files[j].name;
    assert name in Names(files) by { assert Names(files)[0] == name; }
    LoneExactly(files, patterns, name);
    CountTwo(files[0], files[1], File(d1, name));
    CountTwo(files[0], files[1], File(d2, name));
    GroupingExactly(files, patterns, Member(d1, name, Standalone));
    GroupingExactly(files, patterns, Member(d2, name, Standalone));
  }

  /** In a chain the order decides: listed first, the middle one joins its base; listed last, it heads a group. */
  lemma OrderDecidesChain(patterns: seq<Pattern>, middle: File, end: File, base: string)
    requires Shortening(patterns)
    requires BaseOf(patterns, middle.name) == Some(base) && BaseOf(patterns, end.name) == Some(middle.name)
    ensures JoinsBase([middle, end], patterns, middle.name) && !JoinsBase([end, middle], patterns, middle.name)
  {
    var up, down := [middle, end], [end, middle];
    assert middle.name in Names(up) by { assert Names(up)[0] == middle.name; }
    assert middle.name in Names(down) by { assert Names(down)[1] == middle.name; }
    assert end.name in Names(down) by { assert Names(down)[0] == end.name; }
    JoinsExactly(up, patterns, middle.name);
    JoinsExactly(down, patterns, middle.name);
    JoinsExactly(down, patterns, end.name);
    assert down[0].name == end.name && down[1].name == middle.name && up[0].name == middle.name;
    assert FirstAt(up, middle.name) == 0 && FirstAt(down, middle.name) == 1 && FirstAt(down, end.name) == 0;
    assert OpenedBy(down, patterns, 1, middle.name);
  }
}
