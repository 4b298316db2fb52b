/** The order of the groups and of the companions in them: that in which the files are listed. */
module DocumentOrder {
  import opened Collections
  import opened Options
  import opened DocumentGroups
  import opened DocumentPlacing

  /** Where the name is first listed. */
  function At(files: seq<File>, name: string): (k: nat)
    ensures name in Names(files) ==>
      k < |files| && files[k].name == name && forall j :: 0 <= j < k ==> files[j].name != name
  {
    if name in Names(files) then FirstAt(files, name) else |files|
  }

  /** Where the first companion of the group is listed. */
  function OpenedAt(files: seq<File>, g: Group): nat
    requires g.files != []
  {
    At(files, (if g.files[0].role == Companion || |g.files| == 1 then g.files[0] else g.files[1]).name)
  }

  /** At most one primary, then companions in the order of the files, all of them among the first i. */
  ghost predicate InOrder(files: seq<File>, g: Group, i: nat) {
    && g.files != [] && g.files[|g.files| - 1].role == Companion
    && (forall a :: 0 < a < |g.files| ==> g.files[a].role == Companion)
    && (forall a :: 0 <= a < |g.files| && g.files[a].role == Companion ==> At(files, g.files[a].name) < i)
    && (forall a, b :: 0 <= a < b < |g.files| && g.files[a].role == Companion ==>
          At(files, g.files[a].name) < At(files, g.files[b].name))
  }

  ghost predicate AllInOrder(files: seq<File>, groups: seq<Group>, i: nat) {
    && (forall k {:trigger groups[k]} :: 0 <= k < |groups| ==> InOrder(files, groups[k], i))
    && forall k, l :: 0 <= k < l < |groups| ==> OpenedAt(files, groups[k]) < OpenedAt(files, groups[l])
  }

  /** A companion that is listed later goes to the end of its group. */
  lemma JoinsInOrder(files: seq<File>, g: Group, i: nat, m: Member)
    requires InOrder(files, g, i) && m.role == Companion && At(files, m.name) == i
    ensures var g' := Group(g.key, g.files + [m]);
      InOrder(files, g', i + 1) && OpenedAt(files, g') == OpenedAt(files, g)
  {
  }

  lemma InOrderLater(files: seq<File>, g: Group, i: nat)
    requires InOrder(files, g, i)
    ensures InOrder(files, g, i + 1) && OpenedAt(files, g) < i
  {
    var a := if g.files[0].role == Companion then 0 else 1;
    assert g.files[a].role == Companion;
  }

  lemma AddInOrder(files: seq<File>, groups: seq<Group>, k: nat, i: nat, m: Member)
    requires AllInOrder(files, groups, i) && k < |groups| && m.role == Companion && At(files, m.name) == i
    ensures AllInOrder(files, AddTo(groups, k, m), i + 1)
  {
    var groups' := AddTo(groups, k, m);
    forall l | 0 <= l < |groups'|
      ensures InOrder(files, groups'[l], i + 1) && OpenedAt(files, groups'[l]) == OpenedAt(files, groups[l])
    {
      assert InOrder(files, groups[l], i);
      if l == k { JoinsInOrder(files, groups[k], i, m); } else { InOrderLater(files, groups[l], i); }
    }
  }

  lemma AppendInOrder(files: seq<File>, groups: seq<Group>, g: Group, i: nat)
    requires AllInOrder(files, groups, i) && InOrder(files, g, i + 1) && OpenedAt(files, g) == i
    ensures AllInOrder(files, groups + [g], i + 1)
  {
    var groups' := groups + [g];
    forall k | 0 <= k < |groups'|
      ensures InOrder(files, groups'[k], i + 1) && (k < |groups| ==> OpenedAt(files, groups'[k]) < i)
    {
      if k < |groups| {
        assert InOrder(files, groups[k], i);
        InOrderLater(files, groups[k], i);
      }
    }
  }

  lemma LaterInOrder(files: seq<File>, groups: seq<Group>, i: nat)
    requires AllInOrder(files, groups, i)
    ensures AllInOrder(files, groups, i + 1)
  {
    forall k | 0 <= k < |groups|
      ensures InOrder(files, groups[k], i + 1)
    {
      InOrderLater(files, groups[k], i);
    }
  }

  /** The group that a companion opens stands last. */
  lemma OpensLast(files: seq<File>, f: File, base: string, groups: seq<Group>, placed: set<string>) returns (g: Group)
    requires !HasKey(groups, base)
    ensures g.files == [] || (|g.files| == 1 && g.files[0].role == Primary)
    ensures WithCompanion(files, f, base, groups, placed).0
            == groups + [Group(base, g.files + [Member(f.path, f.name, Companion)])]
  {
    var groups' := Opened(files, base, groups, placed).0;
    g := groups'[|groups|];
    assert groups' == groups + [g];
    assert forall l :: 0 <= l < |groups| ==> groups'[l].key != base;
    assert KeyIndex(groups', base) == |groups|;
  }

  lemma CompanionInOrder(files: seq<File>, f: File, base: string, groups: seq<Group>, placed: set<string>, i: nat)
    requires AllInOrder(files, groups, i) && At(files, f.name) == i
    ensures AllInOrder(files, WithCompanion(files, f, base, groups, placed).0, i + 1)
  {
    var m := Member(f.path, f.name, Companion);
    if HasKey(groups, base) {
      AddInOrder(files, groups, KeyIndex(groups, base), i, m);
    } else {
      var g := OpensLast(files, f, base, groups, placed);
      AppendInOrder(files, groups, Group(base, g.files + [m]), i);
    }
  }

  lemma StepInOrder(files: seq<File>, patterns: seq<Pattern>, trace: seq<Placement>, i: nat)
    requires IsTrace(files, patterns, trace) && Shortening(patterns) && i < |files|
    requires AllInOrder(files, trace[i].groups, i)
    ensures AllInOrder(files, trace[i + 1].groups, i + 1)
  {
    var p, f := trace[i], files[i];
    assert IsStep(files, patterns, trace, i);
    NameOf(files, f);
    if Acts(patterns, p, f) {
      StateExactly(files, patterns, trace, i, f.name);
      ActsExactly(files, patterns, trace, i);
      CompanionInOrder(files, f, BaseOf(patterns, f.name).value, p.groups, p.placed, i);
    } else {
      LaterInOrder(files, p.groups, i);
    }
  }

  lemma {:induction false} GroupsInOrder(files: seq<File>, patterns: seq<Pattern>, trace: seq<Placement>, i: nat)
    requires IsTrace(files, patterns, trace) && Shortening(patterns) && i <= |files|
    ensures AllInOrder(files, trace[i].groups, i)
  {
    if i > 0 {
      GroupsInOrder(files, patterns, trace, i - 1);
      StepInOrder(files, patterns, trace, i - 1);
    }
  }

  // ----- the files that stand alone -----

  /** The first i files that stand alone, each as a group of its own. */
  ghost function Loners(files: seq<File>, patterns: seq<Pattern>, i: nat): seq<Group>
    requires Shortening(patterns) && i <= |files|
  {
    if i == 0 then []
    else
      var f := files[i - 1];
      Loners(files, patterns, i - 1)
      + if StandsAlone(files, patterns, f.name) then [Group(f.name, [Member(f.path, f.name, Standalone)])] else []
  }

  /** A file is set aside when it comes up exactly if nothing has placed it and no pattern matches it. */
  lemma StepSetsAside(files: seq<File>, patterns: seq<Pattern>, trace: seq<Placement>, i: nat)
    requires IsTrace(files, patterns, trace) && Shortening(patterns) && i < |files|
    ensures trace[i + 1].ungrouped == trace[i].ungrouped + [files[i]] || trace[i + 1].ungrouped == trace[i].ungrouped
    ensures StandsAlone(files, patterns, files[i].name) ==>
      trace[i + 1].ungrouped == trace[i].ungrouped + [files[i]]
  {
    var f := files[i];
    assert IsStep(files, patterns, trace, i);
    NameOf(files, f);
    if StandsAlone(files, patterns, f.name) {
      LoneExactly(files, patterns, f.name);
      StateExactly(files, patterns, trace, i, f.name);
      assert !OpenedBy(files, patterns, i, f.name);
    }
  }

  lemma StandingOneMore(ungrouped: seq<File>, f: File, placed: set<string>)
    ensures Standing(ungrouped + [f], placed)
            == Standing(ungrouped, placed) + if f.name in placed then [] else [Alone(f)]
  {
    assert (ungrouped + [f])[..|ungrouped|] == ungrouped;
  }

  lemma StepStands(files: seq<File>, patterns: seq<Pattern>, trace: seq<Placement>, i: nat, placed: set<string>)
    requires IsTrace(files, patterns, trace) && Shortening(patterns) && i < |files|
    requires files[i].name in placed <==> !StandsAlone(files, patterns, files[i].name)
    ensures Standing(trace[i + 1].ungrouped, placed)
            == Standing(trace[i].ungrouped, placed) + if files[i].name in placed then [] else [Alone(files[i])]
  {
    StepSetsAside(files, patterns, trace, i);
    StandingOneMore(trace[i].ungrouped, files[i], placed);
  }

  /** The names that were placed are those of files that do not stand alone. */
  ghost predicate PlacesOthers(files: seq<File>, patterns: seq<Pattern>, placed: set<string>)
    requires Shortening(patterns)
  {
    forall j {:trigger files[j]} :: 0 <= j < |files| ==>
      (files[j].name in placed <==> !StandsAlone(files, patterns, files[j].name))
  }

  lemma {:induction false} LonersExactly(files: seq<File>, patterns: seq<Pattern>, trace: seq<Placement>,
                                         i: nat, placed: set<string>)
    requires IsTrace(files, patterns, trace) && Shortening(patterns) && i <= |files|
    requires PlacesOthers(files, patterns, placed)
    ensures Standing(trace[i].ungrouped, placed) == Loners(files, patterns, i)
  {
    if i > 0 {
      LonersExactly(files, patterns, trace, i - 1, placed);
      StepStands(files, patterns, trace, i - 1, placed);
    }
  }

  // ----- the theorem -----

  /**
   * First the groups, in the order in which their first companions are listed, each with its companions in the
   * order of the files; then what stands alone, in the order of the files.
   */
  lemma OrderExactly(files: seq<File>, patterns: seq<Pattern>) returns (groups: seq<Group>)
    requires Shortening(patterns)
    ensures Grouped(files, patterns) == groups + Loners(files, patterns, |files|)
    ensures AllInOrder(files, groups, |files|)
  {
    var n := |files|;
    var trace := Trace(files, patterns);
    groups := trace[n].groups;
    GroupsInOrder(files, patterns, trace, n);
    forall j | 0 <= j < |files|
      ensures files[j].name in trace[n].placed <==> !StandsAlone(files, patterns, files[j].name)
    {
      StateExactly(files, patterns, trace, n, files[j].name);
    }
    LonersExactly(files, patterns, trace, n, trace[n].placed);
  }
}
