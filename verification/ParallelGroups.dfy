/** The level-by-level scheduler: nodes that may run in parallel. */
module ParallelGroups {
  import opened Collections
  import opened Graphs
  import opened Sorting

  // The declarative side: how long a dependency path inside the given nodes may get.

  ghost predicate IsChain(g: Graph, all: set<Node>, p: seq<Node>, n: Node) {
    IsPath(g, p) && p[0] == n && forall x :: x in p ==> x in all
  }

  /** Some dependency path with k edges starts at n and stays inside the given nodes. */
  ghost predicate HasChain(g: Graph, all: set<Node>, n: Node, k: nat) {
    exists p :: IsChain(g, all, p, n) && |p| == k + 1
  }

  /** The longest dependency path from n inside the given nodes has exactly k edges. */
  ghost predicate AtDepth(g: Graph, all: set<Node>, n: Node, k: nat) {
    HasChain(g, all, n, k) && !HasChain(g, all, n, k + 1)
  }

  ghost function Level(g: Graph, all: set<Node>, k: nat): set<Node> {
    set n | n in all && AtDepth(g, all, n, k)
  }

  /** What is left after k rounds: the nodes with a dependency path of k edges. */
  ghost function Left(g: Graph, all: set<Node>, k: nat): set<Node> {
    set n | n in all && HasChain(g, all, n, k)
  }

  /** The first k levels, those with a single node omitted. */
  ghost function Emitted(g: Graph, all: set<Node>, k: nat): seq<set<Node>> {
    if k == 0 then []
    else
      var level := Level(g, all, k - 1);
      Emitted(g, all, k - 1) + if |level| > 1 then [level] else []
  }

  lemma ShorterChain(g: Graph, all: set<Node>, n: Node, k: nat)
    requires HasChain(g, all, n, k + 1)
    ensures HasChain(g, all, n, k)
  {
    var p :| IsChain(g, all, p, n) && |p| == k + 2;
    SubPath(g, p, 0, k + 1);
    assert IsChain(g, all, p[0..k + 1], n);
  }

  lemma {:induction false} ChainsOfAllLengths(g: Graph, all: set<Node>, n: Node, j: nat, k: nat)
    requires j <= k && HasChain(g, all, n, k)
    ensures HasChain(g, all, n, j)
    decreases k
  {
    if j < k {
      ShorterChain(g, all, n, k - 1);
      ChainsOfAllLengths(g, all, n, j, k - 1);
    }
  }

  /** A chain of k + 1 edges is a first step to a node with a chain of k edges. */
  lemma ChainStep(g: Graph, all: set<Node>, n: Node, k: nat)
    requires n in all
    ensures HasChain(g, all, n, k + 1) <==> exists d :: d in g.Deps(n) && d in Left(g, all, k)
  {
    if HasChain(g, all, n, k + 1) {
      var p :| IsChain(g, all, p, n) && |p| == k + 2;
      SubPath(g, p, 1, |p|);
      assert IsChain(g, all, p[1..], p[1]) && p[1] in g.Deps(p[0]);
      assert p[1] in Left(g, all, k);
    }
    if d :| d in g.Deps(n) && d in Left(g, all, k) {
      var q :| IsChain(g, all, q, d) && |q| == k + 1;
      JoinPaths(g, [n, d], q);
      assert [n, d] + q[1..] == [n] + q;
      assert IsChain(g, all, [n] + q, n);
    }
  }

  /** One round: the nodes without a dependency among those left are exactly the next level. */
  lemma RoundTakesLevel(g: Graph, all: set<Node>, k: nat, n: Node)
    requires n in Left(g, all, k)
    ensures Elements(g.Deps(n)) * Left(g, all, k) == {} <==> n in Level(g, all, k)
    ensures n in Left(g, all, k + 1) <==> n !in Level(g, all, k)
  {
    ChainStep(g, all, n, k);
    var common := Elements(g.Deps(n)) * Left(g, all, k);
    assert forall d :: d in common <==> d in g.Deps(n) && d in Left(g, all, k);
    if d :| d in g.Deps(n) && d in Left(g, all, k) {
      assert d in common;
    }
  }

  lemma RoundLeaves(g: Graph, all: set<Node>, k: nat)
    ensures Left(g, all, k + 1) == Left(g, all, k) - Level(g, all, k)
  {
    forall n | n in Left(g, all, k + 1)
      ensures n in Left(g, all, k)
    {
      ShorterChain(g, all, n, k);
    }
    forall n | n in Left(g, all, k)
      ensures n in Left(g, all, k + 1) <==> n !in Level(g, all, k)
    {
      RoundTakesLevel(g, all, k, n);
    }
  }

  lemma FirstRound(g: Graph, all: set<Node>)
    ensures Left(g, all, 0) == all
  {
    forall n | n in all
      ensures HasChain(g, all, n, 0)
    {
      assert IsChain(g, all, [n], n);
    }
  }

  /** Once a round takes nothing, no later round does. */
  lemma {:induction false} StuckForever(g: Graph, all: set<Node>, k: nat, j: nat)
    requires k <= j && Level(g, all, k) == {}
    ensures Level(g, all, j) == {} && Left(g, all, j) == Left(g, all, k)
    decreases j
  {
    if k < j {
      StuckForever(g, all, k, j - 1);
      RoundLeaves(g, all, j - 1);
      forall n | n in Level(g, all, j)
        ensures false
      {
        RoundTakesLevel(g, all, j, n);
        RoundTakesLevel(g, all, k, n);
      }
    }
  }

  lemma {:induction false} EmittedStops(g: Graph, all: set<Node>, k: nat, j: nat)
    requires k <= j && Level(g, all, k) == {}
    ensures Emitted(g, all, j) == Emitted(g, all, k)
    decreases j
  {
    if k < j {
      StuckForever(g, all, k, j - 1);
      EmittedStops(g, all, k, j - 1);
    }
  }

  /** The inner loop: the nodes of a set that depend on nothing in it. */
  method Ready(g: Graph, remaining: set<Node>) returns (ready: set<Node>)
    ensures ready == set n | n in remaining && Elements(g.Deps(n)) * remaining == {}
  {
    ready := {};
    var todo := remaining;
    while todo != {}
      invariant todo <= remaining
      invariant ready == set n | n in remaining - todo && Elements(g.Deps(n)) * remaining == {}
      decreases todo
    {
      var node :| node in todo;
      if Elements(g.Deps(node)) * remaining == {} {
        ready := ready + {node};
      }
      todo := todo - {node};
    }
  }

  lemma ReadyIsLevel(g: Graph, all: set<Node>, k: nat, ready: set<Node>)
    requires ready == set n | n in Left(g, all, k) && Elements(g.Deps(n)) * Left(g, all, k) == {}
    ensures ready == Level(g, all, k) && ready <= Left(g, all, k)
    ensures Left(g, all, k + 1) == Left(g, all, k) - ready
    ensures ready != {} ==> |Left(g, all, k) - ready| < |Left(g, all, k)|
  {
    forall n | n in Left(g, all, k)
      ensures n in ready <==> n in Level(g, all, k)
    {
      RoundTakesLevel(g, all, k, n);
    }
    RoundLeaves(g, all, k);
    SubsetCardinality(Left(g, all, k) - ready, Left(g, all, k));
  }

  /** Each group is the sorted listing of the level at the same place. */
  ghost predicate ListsLevels(groups: seq<seq<Node>>, levels: seq<set<Node>>) {
    && |groups| == |levels|
    && forall i :: 0 <= i < |groups| ==> IsSortedListing(groups[i], levels[i])
  }

  /** Append the round's nodes as a group if there is more than one of them. */
  method AppendGroup(g: Graph, ghost all: set<Node>, ghost k: nat, groups: seq<seq<Node>>, ready: set<Node>)
    returns (groups': seq<seq<Node>>)
    requires ListsLevels(groups, Emitted(g, all, k)) && ready == Level(g, all, k)
    ensures ListsLevels(groups', Emitted(g, all, k + 1))
  {
    groups' := groups;
    if |ready| > 1 {
      var group := Sorted(ready);
      groups' := groups + [group];
    }
  }

  /** The groups are the levels with more than one node, in order; left is what the loop gave up on. */
  method FindParallelGroups(g: Graph, all: set<Node>) returns (groups: seq<seq<Node>>, ghost left: set<Node>)
    ensures ListsLevels(groups, Emitted(g, all, |all|))
    ensures left == Left(g, all, |all|)
  {
    groups := [];
    var remaining := all;
    ghost var k := 0;
    FirstRound(g, all);
    while remaining != {}
      invariant remaining == Left(g, all, k) && k + |remaining| <= |all|
      invariant ListsLevels(groups, Emitted(g, all, k))
      decreases remaining
    {
      var ready := Ready(g, remaining);
      ReadyIsLevel(g, all, k, ready);
      if ready == {} {
        break;
      }
      groups := AppendGroup(g, all, k, groups, ready);
      remaining := remaining - ready;
      k := k + 1;
    }
    left := remaining;
    NothingMore(g, all, k);
  }

  lemma NothingMore(g: Graph, all: set<Node>, k: nat)
    requires k <= |all| && (Left(g, all, k) == {} || Level(g, all, k) == {})
    ensures Emitted(g, all, |all|) == Emitted(g, all, k)
    ensures Left(g, all, |all|) == Left(g, all, k)
  {
    assert Level(g, all, k) <= Left(g, all, k);
    EmittedStops(g, all, k, |all|);
    StuckForever(g, all, k, |all|);
  }

  // What the levels mean for whoever runs the groups.

  /** A dependency of a node at some depth lies at a smaller depth: it has run before. */
  lemma DependenciesRunEarlier(g: Graph, all: set<Node>, n: Node, k: nat, d: Node)
    requires n in Level(g, all, k) && d in g.Deps(n) && d in all
    ensures exists j :: 0 <= j < k && d in Level(g, all, j)
  {
    ChainStep(g, all, n, k);
    assert d in Left(g, all, k) <==> HasChain(g, all, d, k);
    assert HasChain(g, all, d, 0) by { FirstRound(g, all); assert d in Left(g, all, 0); }
    var j := LastChain(g, all, d, 0, k);
    assert d in Level(g, all, j);
  }

  lemma {:induction false} LastChain(g: Graph, all: set<Node>, n: Node, lo: nat, hi: nat) returns (j: nat)
    requires lo < hi && HasChain(g, all, n, lo) && !HasChain(g, all, n, hi)
    ensures lo <= j < hi && AtDepth(g, all, n, j)
    decreases hi - lo
  {
    if HasChain(g, all, n, lo + 1) {
      j := LastChain(g, all, n, lo + 1, hi);
    } else {
      j := lo;
    }
  }

  /** No dependency path inside the given nodes joins two members of a level, or a member to itself. */
  lemma LevelsAreIndependent(g: Graph, all: set<Node>, k: nat, p: seq<Node>)
    requires IsPath(g, p) && |p| >= 2 && forall x :: x in p ==> x in all
    ensures !(p[0] in Level(g, all, k) && p[|p| - 1] in Level(g, all, k))
  {
    var b := p[|p| - 1];
    if p[0] in Level(g, all, k) && b in Level(g, all, k) {
      var q :| IsChain(g, all, q, b) && |q| == k + 1;
      JoinPaths(g, p, q);
      assert IsChain(g, all, p + q[1..], p[0]);
      assert HasChain(g, all, p[0], |p| + k - 1);
      ChainsOfAllLengths(g, all, p[0], k + 1, |p| + k - 1);
      assert false;
    }
  }

  lemma LevelsAreDisjoint(g: Graph, all: set<Node>, j: nat, k: nat)
    requires j < k
    ensures Level(g, all, j) !! Level(g, all, k)
  {
    forall n | n in Level(g, all, j) && n in Level(g, all, k)
      ensures false
    {
      ChainsOfAllLengths(g, all, n, j + 1, k);
    }
  }

  /** Some dependency path inside the given nodes leads from n to a node that depends on itself there. */
  ghost predicate ReachesCycle(g: Graph, all: set<Node>, n: Node) {
    exists p, i: nat, j: nat :: IsChain(g, all, p, n) && i < j < |p| && p[i] == p[j]
  }

  /** What is left at the end is exactly what can reach a cycle, and it is never scheduled. */
  lemma LeftReachesCycle(g: Graph, all: set<Node>, n: Node)
    requires n in all
    ensures n in Left(g, all, |all|) <==> ReachesCycle(g, all, n)
    ensures n in Left(g, all, |all|) <==> forall k: nat :: n !in Level(g, all, k)
  {
    if n in Left(g, all, |all|) {
      var p :| IsChain(g, all, p, n) && |p| == |all| + 1;
      if NoDuplicates(p) {
        Pigeonhole(p, all);
      }
      var i, j :| 0 <= i < j < |p| && p[i] == p[j];
      CycleNeverScheduled(g, all, n, p, i, j);
    }
    if ReachesCycle(g, all, n) {
      var p, i: nat, j: nat :| IsChain(g, all, p, n) && i < j < |p| && p[i] == p[j];
      PumpCycle(g, all, n, p, i, j, |all|);
    }
    if n !in Left(g, all, |all|) {
      FirstRound(g, all);
      assert n in Left(g, all, 0);
      var k := LastChain(g, all, n, 0, |all|);
      assert n in Level(g, all, k);
    }
  }

  lemma CycleNeverScheduled(g: Graph, all: set<Node>, n: Node, p: seq<Node>, i: nat, j: nat)
    requires IsChain(g, all, p, n) && i < j < |p| && p[i] == p[j]
    ensures forall k: nat :: n !in Level(g, all, k)
  {
    forall k: nat
      ensures n !in Level(g, all, k)
    {
      PumpCycle(g, all, n, p, i, j, k + 1);
    }
  }

  /** Going round the cycle once more makes the path longer, so it can be made as long as one likes. */
  lemma {:induction false} PumpCycle(g: Graph, all: set<Node>, n: Node, p: seq<Node>, i: nat, j: nat, k: nat)
    requires IsChain(g, all, p, n) && i < j < |p| && p[i] == p[j]
    ensures HasChain(g, all, n, k)
    decreases if |p| > k then 0 else k + 1 - |p|
  {
    if |p| > k {
      ChainsOfAllLengths(g, all, n, k, |p| - 1);
    } else {
      SubPath(g, p, 0, j + 1);
      SubPath(g, p, i, |p|);
      JoinPaths(g, p[0..j + 1], p[i..|p|]);
      var q := p[0..j + 1] + p[i..|p|][1..];
      assert q[i] == p[i] && q[j] == p[j];
      PumpCycle(g, all, n, q, i, j, k);
    }
  }

  // Which levels become groups.

  ghost predicate HasTwo(level: set<Node>) {
    exists m, n :: m in level && n in level && m != n
  }

  lemma TwoExactly(level: set<Node>)
    ensures |level| > 1 <==> HasTwo(level)
  {
    if |level| > 1 {
      var m :| m in level;
      assert |level - {m}| == |level| - 1;
      var n :| n in level - {m};
      assert m in level && n in level;
    }
    if m, n :| m in level && n in level && m != n {
      SubsetCardinality({m, n}, level);
    }
  }

  /** No level is as deep as there are nodes. */
  lemma NoDeepLevel(g: Graph, all: set<Node>, k: nat)
    requires |all| <= k
    ensures Level(g, all, k) == {}
  {
    if n :| n in Level(g, all, k) {
      ChainsOfAllLengths(g, all, n, |all|, k);
      LeftReachesCycle(g, all, n);
    }
  }

  /** The depths below k whose levels have two nodes, rising. */
  ghost function Depths(g: Graph, all: set<Node>, k: nat): seq<nat> {
    if k == 0 then [] else Depths(g, all, k - 1) + if HasTwo(Level(g, all, k - 1)) then [k - 1] else []
  }

  ghost predicate Rising(s: seq<nat>) {
    forall i, j :: 0 <= i < j < |s| ==> s[i] < s[j]
  }

  lemma RisingOneMore(s: seq<nat>, k: nat)
    requires Rising(s) && forall d :: d in s ==> d < k
    ensures Rising(s + [k])
  {
    assert forall i :: 0 <= i < |s| ==> s[i] in s;
  }

  lemma {:induction false} DepthsRise(g: Graph, all: set<Node>, k: nat)
    ensures forall d: nat :: d in Depths(g, all, k) <==> d < k && HasTwo(Level(g, all, d))
    ensures Rising(Depths(g, all, k))
  {
    if k > 0 {
      var before := Depths(g, all, k - 1);
      DepthsRise(g, all, k - 1);
      RisingOneMore(before, k - 1);
      assert before + [] == before;
    }
  }

  ghost predicate AreLevels(g: Graph, all: set<Node>, at: seq<nat>, levels: seq<set<Node>>) {
    |levels| == |at| && forall i :: 0 <= i < |at| ==> levels[i] == Level(g, all, at[i])
  }

  lemma {:induction false} EmittedAreLevels(g: Graph, all: set<Node>, k: nat)
    ensures AreLevels(g, all, Depths(g, all, k), Emitted(g, all, k))
  {
    if k > 0 {
      EmittedAreLevels(g, all, k - 1);
      TwoExactly(Level(g, all, k - 1));
    }
  }

  /** What FindParallelGroups lists: every level that has two nodes, once, by rising depth, and no other. */
  lemma EmittedExactly(g: Graph, all: set<Node>) returns (at: seq<nat>)
    ensures AreLevels(g, all, at, Emitted(g, all, |all|))
    ensures Rising(at) && forall d: nat :: d in at <==> HasTwo(Level(g, all, d))
  {
    at := Depths(g, all, |all|);
    DepthsRise(g, all, |all|);
    EmittedAreLevels(g, all, |all|);
    forall d: nat | HasTwo(Level(g, all, d))
      ensures d < |all|
    {
      if |all| <= d { NoDeepLevel(g, all, d); }
    }
  }
}
