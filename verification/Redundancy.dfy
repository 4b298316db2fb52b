/** The finder of dependencies that are already implied by another dependency. */
module Redundancy {
  import opened Collections
  import opened Graphs

  /** node declares dep although its dependency via already leads there. */
  datatype Finding = Finding(node: Node, dep: Node, via: Node)

  ghost predicate IsRedundant(g: Graph, f: Finding) {
    && f.node in g.keys && f.dep in g.Deps(f.node) && f.via in g.Deps(f.node)
    && f.dep != f.via && Reaches(g, f.via, f.dep)
  }

  /** A set that is passed by reference and filled by get_transitive. */
  class NodeSet {
    var elems: set<Node>
    constructor ()
      ensures elems == {}
    {
      elems := {};
    }
  }

  /** Everything s holds beyond the set before is reachable from node and closed under dependencies. */
  twostate predicate Filled(g: Graph, node: Node, s: NodeSet)
    reads s
  {
    && old(s.elems) <= s.elems <= g.Nodes()
    && (forall x :: x in s.elems - old(s.elems) ==> Reaches(g, node, x) && Elements(g.Deps(x)) <= s.elems)
  }

  method GetTransitive(g: Graph, node: Node, visited: NodeSet)
    requires visited.elems <= g.Nodes()
    modifies visited
    ensures Filled(g, node, visited)
    ensures Elements(g.Deps(node)) <= visited.elems
    decreases g.Nodes() - visited.elems
  {
    var deps := g.Deps(node);
    for i := 0 to |deps|
      invariant Filled(g, node, visited)
      invariant Elements(deps[..i]) <= visited.elems
    {
      var dep := deps[i];
      assert deps[..i + 1] == deps[..i] + [dep];
      EdgeReaches(g, node, dep);
      if dep !in visited.elems {
        visited.elems := visited.elems + {dep};
        GetTransitive(g, dep, visited);
        forall x | x in visited.elems && Reaches(g, dep, x)
          ensures Reaches(g, node, x)
        {
          ReachesTransitive(g, node, dep, x);
        }
      }
    }
    assert deps[..|deps|] == deps;
  }

  /** A set that is closed under dependencies holds everything reachable from its members. */
  lemma {:induction false} ClosedHoldsPath(g: Graph, closed: set<Node>, p: seq<Node>)
    requires forall x :: x in closed ==> Elements(g.Deps(x)) <= closed
    requires IsPath(g, p) && p[0] in closed
    ensures p[|p| - 1] in closed
  {
    if |p| > 1 {
      assert p[1] in g.Deps(p[0]);
      SubPath(g, p, 1, |p|);
      ClosedHoldsPath(g, closed, p[1..]);
    }
  }

  /** The set that get_transitive returns when it is called without one. */
  method Transitive(g: Graph, node: Node) returns (reached: set<Node>)
    ensures forall x :: x in reached <==> Reaches(g, node, x)
  {
    var visited := new NodeSet();
    GetTransitive(g, node, visited);
    reached := visited.elems;
    forall x | Reaches(g, node, x)
      ensures x in reached
    {
      var p :| IsPathBetween(g, p, node, x) && |p| >= 2;
      assert p[1] in g.Deps(p[0]);
      SubPath(g, p, 1, |p|);
      ClosedHoldsPath(g, reached, p[1..]);
    }
  }

  // The report as a value, in the order of the three loops.

  function Others(deps: seq<Node>, dep: Node): (r: seq<Node>)
    ensures forall d :: d in r <==> d in deps && d != dep
  {
    if deps == [] then []
    else Others(deps[..|deps| - 1], dep) + if deps[|deps| - 1] != dep then [deps[|deps| - 1]] else []
  }

  ghost function ViaFindings(g: Graph, node: Node, dep: Node, vias: seq<Node>): seq<Finding> {
    if vias == [] then []
    else
      var via := vias[|vias| - 1];
      ViaFindings(g, node, dep, vias[..|vias| - 1]) + if Reaches(g, via, dep) then [Finding(node, dep, via)] else []
  }

  ghost function DepFindings(g: Graph, node: Node, deps: seq<Node>): seq<Finding> {
    if deps == [] then []
    else
      var dep := deps[|deps| - 1];
      DepFindings(g, node, deps[..|deps| - 1]) + ViaFindings(g, node, dep, Others(g.Deps(node), dep))
  }

  ghost function KeyFindings(g: Graph, keys: seq<Node>): seq<Finding> {
    if keys == [] then []
    else
      var key := keys[|keys| - 1];
      KeyFindings(g, keys[..|keys| - 1]) + DepFindings(g, key, g.Deps(key))
  }

  ghost function Report(g: Graph): seq<Finding> {
    KeyFindings(g, g.keys)
  }

  method FindTransitiveRedundancy(g: Graph) returns (redundancies: seq<Finding>)
    ensures redundancies == Report(g)
  {
    redundancies := [];
    for i := 0 to |g.keys|
      invariant redundancies == KeyFindings(g, g.keys[..i])
    {
      assert g.keys[..i + 1][..i] == g.keys[..i];
      var found := FindDeps(g, g.keys[i]);
      redundancies := redundancies + found;
    }
    assert g.keys[..|g.keys|] == g.keys;
  }

  /** The loop over the direct dependencies of one node. */
  method FindDeps(g: Graph, node: Node) returns (found: seq<Finding>)
    ensures found == DepFindings(g, node, g.Deps(node))
  {
    var deps := g.Deps(node);
    found := [];
    for j := 0 to |deps|
      invariant found == DepFindings(g, node, deps[..j])
    {
      DepFindingsOneMore(g, node, deps, j);
      var others := Others(deps, deps[j]);
      var found' := FindVias(g, node, deps[j], others);
      found := found + found';
    }
    assert deps[..|deps|] == deps;
  }

  lemma DepFindingsOneMore(g: Graph, node: Node, deps: seq<Node>, j: nat)
    requires j < |deps|
    ensures DepFindings(g, node, deps[..j + 1])
            == DepFindings(g, node, deps[..j]) + ViaFindings(g, node, deps[j], Others(g.Deps(node), deps[j]))
  {
    assert deps[..j + 1][..j] == deps[..j];
  }

  /** The innermost loop. */
  method FindVias(g: Graph, node: Node, dep: Node, others: seq<Node>) returns (found: seq<Finding>)
    ensures found == ViaFindings(g, node, dep, others)
  {
    found := [];
    for k := 0 to |others|
      invariant found == ViaFindings(g, node, dep, others[..k])
    {
      assert others[..k + 1][..k] == others[..k];
      var transitive := Transitive(g, others[k]);
      if dep in transitive {
        found := found + [Finding(node, dep, others[k])];
      }
    }
    assert others[..|others|] == others;
  }

  lemma {:induction false} ViaFindingsExact(g: Graph, node: Node, dep: Node, vias: seq<Node>, f: Finding)
    ensures f in ViaFindings(g, node, dep, vias) <==>
            f.node == node && f.dep == dep && f.via in vias && Reaches(g, f.via, dep)
  {
    if vias != [] {
      ViaFindingsExact(g, node, dep, vias[..|vias| - 1], f);
    }
  }

  lemma {:induction false} DepFindingsExact(g: Graph, node: Node, deps: seq<Node>, f: Finding)
    ensures f in DepFindings(g, node, deps) <==>
            && f.node == node && f.dep in deps && f.via in g.Deps(node)
            && f.via != f.dep && Reaches(g, f.via, f.dep)
  {
    if deps != [] {
      var dep := deps[|deps| - 1];
      DepFindingsExact(g, node, deps[..|deps| - 1], f);
      ViaFindingsExact(g, node, dep, Others(g.Deps(node), dep), f);
    }
  }

  lemma {:induction false} KeyFindingsExact(g: Graph, keys: seq<Node>, f: Finding)
    ensures f in KeyFindings(g, keys) <==>
            && f.node in keys && f.dep in g.Deps(f.node) && f.via in g.Deps(f.node)
            && f.via != f.dep && Reaches(g, f.via, f.dep)
  {
    if keys != [] {
      var key := keys[|keys| - 1];
      KeyFindingsExact(g, keys[..|keys| - 1], f);
      DepFindingsExact(g, key, g.Deps(key), f);
    }
  }

  /** The report holds a triple exactly when its dependency is implied by another one of the same node. */
  lemma ReportExact(g: Graph, f: Finding)
    ensures f in Report(g) <==> IsRedundant(g, f)
  {
    KeyFindingsExact(g, g.keys, f);
  }

  // Acting on the report: every reported dependency is dropped, all at once.

  ghost predicate Dropped(g: Graph, node: Node, dep: Node) {
    exists via :: Finding(node, dep, via) in Report(g)
  }

  ghost function Keep(g: Graph, node: Node, deps: seq<Node>): (r: seq<Node>)
    ensures forall d :: d in r <==> d in deps && !Dropped(g, node, d)
  {
    if deps == [] then []
    else (if Dropped(g, node, deps[0]) then [] else [deps[0]]) + Keep(g, node, deps[1..])
  }

  ghost function Pruned(g: Graph): (r: Graph)
    ensures forall a, b :: b in r.Deps(a) <==> b in g.Deps(a) && !Dropped(g, a, b)
  {
    Graph(g.keys, map n | n in g.adj :: Keep(g, n, g.adj[n]))
  }

  // When dropping all of them at once is safe.

  ghost predicate KeepsReachability(g: Graph) {
    forall a, b {:trigger Reaches(g, a, b)} :: Reaches(Pruned(g), a, b) <==> Reaches(g, a, b)
  }

  ghost predicate OnCycle(g: Graph, n: Node) {
    Reaches(g, n, n)
  }

  /** A node on a cycle depends on one node only. */
  ghost predicate CyclesHaveNoExits(g: Graph) {
    forall n, b, c :: OnCycle(g, n) && b in g.Deps(n) && c in g.Deps(n) ==> b == c
  }

  /** A dependency of the node leads to b and cannot be reached back from there. */
  ghost predicate EnteredFromAbove(g: Graph, node: Node, b: Node) {
    exists d :: d in g.Deps(node) && Reaches(g, d, b) && !Reaches(g, b, d)
  }

  /** Two dependencies that need each other have another one of the same node above them. */
  ghost predicate MutualsAreEntered(g: Graph) {
    forall a, b, c :: b in g.Deps(a) && c in g.Deps(a) && b != c && Reaches(g, b, c) && Reaches(g, c, b)
      ==> EnteredFromAbove(g, a, b)
  }

  /** b is a itself or can be reached from it. */
  ghost predicate Leads(g: Graph, a: Node, b: Node) {
    a == b || Reaches(g, a, b)
  }

  lemma LeadsOn(g: Graph, a: Node, b: Node, c: Node)
    requires Leads(g, a, b) && Leads(g, b, c)
    ensures Leads(g, a, c)
    ensures a != b || b != c ==> Reaches(g, a, c)
  {
    if a != b && b != c { ReachesTransitive(g, a, b, c); }
  }

  /** What is reached is a dependency or lies behind one. */
  lemma FirstStep(g: Graph, a: Node, b: Node) returns (d: Node)
    requires Reaches(g, a, b)
    ensures d in g.Deps(a) && Leads(g, d, b)
  {
    var p :| IsPathBetween(g, p, a, b) && |p| >= 2;
    d := p[1];
    assert p[1] in g.Deps(p[0]);
    SubPath(g, p, 1, |p|);
    if |p| > 2 { assert IsPathBetween(g, p[1..], d, b) && |p[1..]| >= 2; }
  }

  lemma StepThenLeads(g: Graph, a: Node, d: Node, b: Node)
    requires d in g.Deps(a) && Leads(g, d, b)
    ensures Reaches(g, a, b)
  {
    EdgeReaches(g, a, d);
    if d != b { ReachesTransitive(g, a, d, b); }
  }

  lemma DroppedHasOther(g: Graph, a: Node, b: Node)
    requires Dropped(g, a, b)
    ensures exists c :: c in g.Deps(a) && c != b && Reaches(g, c, b)
  {
    var c :| Finding(a, b, c) in Report(g);
    ReportExact(g, Finding(a, b, c));
  }

  lemma OtherDrops(g: Graph, a: Node, b: Node, c: Node)
    requires g.Valid() && b in g.Deps(a) && c in g.Deps(a) && c != b && Reaches(g, c, b)
    ensures Dropped(g, a, b)
  {
    ReportExact(g, Finding(a, b, c));
  }

  lemma PrunedReachesLess(g: Graph, a: Node, b: Node)
    requires Reaches(Pruned(g), a, b)
    ensures Reaches(g, a, b)
  {
    var p :| IsPathBetween(Pruned(g), p, a, b) && |p| >= 2;
    assert IsPathBetween(g, p, a, b);
  }

  // The condition is needed.

  /** On a cycle a dependency that is kept leads back to its node. */
  lemma KeptStaysOnCycle(g: Graph, n: Node, d: Node)
    requires g.Valid() && OnCycle(g, n) && d in Pruned(g).Deps(n)
    ensures Leads(g, d, n)
  {
    var x := FirstStep(g, n, n);
    if x != d {
      EdgeReaches(g, n, d);
      LeadsOn(g, x, n, d);
      OtherDrops(g, n, d, x);
    }
  }

  /** So from a node on a cycle the pruned graph never leaves the cycles through it. */
  lemma {:induction false} PrunedStaysOnCycle(g: Graph, p: seq<Node>)
    requires g.Valid() && IsPath(Pruned(g), p) && OnCycle(g, p[0])
    ensures Leads(g, p[|p| - 1], p[0])
  {
    if |p| > 1 {
      assert p[1] in Pruned(g).Deps(p[0]);
      KeptStaysOnCycle(g, p[0], p[1]);
      EdgeReaches(g, p[0], p[1]);
      LeadsOn(g, p[1], p[0], p[1]);
      SubPath(Pruned(g), p, 1, |p|);
      PrunedStaysOnCycle(g, p[1..]);
      LeadsOn(g, p[|p| - 1], p[1], p[0]);
    }
  }

  lemma PreservedLeadsBack(g: Graph, n: Node, b: Node)
    requires g.Valid() && KeepsReachability(g) && OnCycle(g, n) && b in g.Deps(n)
    ensures Leads(g, b, n)
  {
    EdgeReaches(g, n, b);
    assert Reaches(Pruned(g), n, b);
    var p :| IsPathBetween(Pruned(g), p, n, b) && |p| >= 2;
    PrunedStaysOnCycle(g, p);
  }

  lemma PreservedHasNoExits(g: Graph, n: Node, b: Node, c: Node)
    requires g.Valid() && KeepsReachability(g) && OnCycle(g, n) && b in g.Deps(n) && c in g.Deps(n)
    ensures b == c
  {
    if b != c {
      EdgeReaches(g, n, b);
      assert Reaches(Pruned(g), n, b);
      var d := FirstStep(Pruned(g), n, b);
      var other := if d == b then c else b;
      PreservedLeadsBack(g, n, other);
      EdgeReaches(g, n, d);
      LeadsOn(g, other, n, d);
      OtherDrops(g, n, d, other);
    }
  }

  lemma PreservedIsEntered(g: Graph, a: Node, b: Node, c: Node)
    requires g.Valid() && KeepsReachability(g)
    requires b in g.Deps(a) && c in g.Deps(a) && b != c && Reaches(g, b, c) && Reaches(g, c, b)
    ensures EnteredFromAbove(g, a, b)
  {
    EdgeReaches(g, a, b);
    assert Reaches(Pruned(g), a, b);
    var d := FirstStep(Pruned(g), a, b);
    if d == b {
      OtherDrops(g, a, b, c);
    } else {
      PrunedReachesLess(g, d, b);
      if Reaches(g, b, d) { OtherDrops(g, a, d, b); }
    }
  }

  // The condition is enough.

  /** A path that starts on a cycle stays on cycles, where nothing is dropped. */
  lemma {:induction false} CyclePathSurvives(g: Graph, p: seq<Node>)
    requires CyclesHaveNoExits(g) && IsPath(g, p) && OnCycle(g, p[0])
    ensures IsPath(Pruned(g), p)
  {
    if |p| > 1 {
      assert p[1] in g.Deps(p[0]);
      var d := FirstStep(g, p[0], p[0]);
      StepThenLeads(g, p[0], p[1], p[0]);
      EdgeReaches(g, p[0], p[1]);
      LeadsOn(g, p[1], p[0], p[1]);
      if Dropped(g, p[0], p[1]) { DroppedHasOther(g, p[0], p[1]); }
      SubPath(g, p, 1, |p|);
      CyclePathSurvives(g, p[1..]);
      forall i | 0 < i < |p|
        ensures p[i] in Pruned(g).Deps(p[i - 1])
      {
        if i > 1 { assert p[1..][i - 1] in Pruned(g).Deps(p[1..][i - 2]); }
      }
    }
  }

  /** The node and everything reachable from it. */
  ghost function Onward(g: Graph, a: Node): set<Node> {
    set x | x in g.Nodes() && Leads(g, a, x)
  }

  lemma OnwardShrinks(g: Graph, a: Node, d: Node)
    requires a in g.Nodes() && d in g.Nodes() && Reaches(g, a, d) && !Leads(g, d, a)
    ensures |Onward(g, d)| < |Onward(g, a)|
  {
    forall x | x in Onward(g, d)
      ensures x in Onward(g, a)
    {
      LeadsOn(g, a, d, x);
    }
    assert a in Onward(g, a) && a !in Onward(g, d);
    SubsetCardinality(Onward(g, d), Onward(g, a));
  }

  lemma DepsAreNodes(g: Graph, a: Node, d: Node)
    requires d in g.Deps(a)
    ensures a in g.Nodes() && d in g.Nodes()
  {
  }

  /** Among the dependencies that lead to b there is one that nothing above it leads to. */
  lemma {:induction false} Topmost(g: Graph, a: Node, d: Node, b: Node) returns (top: Node)
    requires d in g.Deps(a) && Leads(g, d, b)
    ensures top in g.Deps(a) && Leads(g, top, b) && !EnteredFromAbove(g, a, top)
    decreases |g.Nodes()| - |Onward(g, d)|
  {
    DepsAreNodes(g, a, d);
    top := d;
    if e :| e in g.Deps(a) && Reaches(g, e, d) && !Reaches(g, d, e) {
      DepsAreNodes(g, a, e);
      LeadsOn(g, e, d, b);
      OnwardShrinks(g, e, d);
      SubsetCardinality(Onward(g, e), g.Nodes());
      top := Topmost(g, a, e, b);
    }
  }

  lemma TopmostIsKept(g: Graph, a: Node, top: Node)
    requires MutualsAreEntered(g) && top in g.Deps(a) && !EnteredFromAbove(g, a, top)
    ensures top in Pruned(g).Deps(a)
  {
    if Dropped(g, a, top) { DroppedHasOther(g, a, top); }
  }

  lemma {:induction false} ReachSurvives(g: Graph, a: Node, b: Node)
    requires CyclesHaveNoExits(g) && MutualsAreEntered(g) && a in g.Nodes() && Reaches(g, a, b)
    ensures Reaches(Pruned(g), a, b)
    decreases |Onward(g, a)|
  {
    if OnCycle(g, a) {
      var p :| IsPathBetween(g, p, a, b) && |p| >= 2;
      CyclePathSurvives(g, p);
      assert IsPathBetween(Pruned(g), p, a, b);
    } else {
      var d := FirstStep(g, a, b);
      var top := Topmost(g, a, d, b);
      TopmostIsKept(g, a, top);
      EdgeReaches(Pruned(g), a, top);
      if top != b {
        DepsAreNodes(g, a, top);
        if Leads(g, top, a) { StepThenLeads(g, a, top, a); }
        EdgeReaches(g, a, top);
        OnwardShrinks(g, a, top);
        ReachSurvives(g, top, b);
        ReachesTransitive(Pruned(g), a, top, b);
      }
    }
  }

  /**
   * Dropping every reported dependency at once keeps all that can be reached exactly if nodes on a
   * cycle have one dependency only, and two dependencies of a node that need each other have another
   * one of it above them.
   */
  lemma PruningKeepsExactly(g: Graph)
    requires g.Valid()
    ensures KeepsReachability(g) <==> CyclesHaveNoExits(g) && MutualsAreEntered(g)
  {
    if KeepsReachability(g) {
      forall n, b, c | OnCycle(g, n) && b in g.Deps(n) && c in g.Deps(n)
        ensures b == c
      {
        PreservedHasNoExits(g, n, b, c);
      }
      forall a, b, c | b in g.Deps(a) && c in g.Deps(a) && b != c && Reaches(g, b, c) && Reaches(g, c, b)
        ensures EnteredFromAbove(g, a, b)
      {
        PreservedIsEntered(g, a, b, c);
      }
    }
    if CyclesHaveNoExits(g) && MutualsAreEntered(g) { PruningKeeps(g); }
  }

  lemma PruningKeeps(g: Graph)
    requires CyclesHaveNoExits(g) && MutualsAreEntered(g)
    ensures KeepsReachability(g)
  {
    forall a, b
      ensures Reaches(Pruned(g), a, b) <==> Reaches(g, a, b)
    {
      if Reaches(Pruned(g), a, b) { PrunedReachesLess(g, a, b); }
      if Reaches(g, a, b) {
        var d := FirstStep(g, a, b);
        DepsAreNodes(g, a, d);
        ReachSurvives(g, a, b);
      }
    }
  }

  /** On an acyclic graph there is nothing to keep an eye on. */
  lemma PruningKeepsReachability(g: Graph, a: Node, b: Node)
    requires Acyclic(g)
    ensures Reaches(Pruned(g), a, b) <==> Reaches(g, a, b)
  {
    forall b, c | Reaches(g, b, c) && Reaches(g, c, b)
      ensures false
    {
      ReachesTransitive(g, b, c, b);
    }
    PruningKeeps(g);
  }

  /** And nothing more could be dropped: a kept dependency is the only way from its node to it. */
  lemma KeptIsEssential(g: Graph, a: Node, b: Node, p: seq<Node>)
    requires g.Valid() && Acyclic(g)
    requires b in Pruned(g).Deps(a) && IsPathBetween(g, p, a, b) && |p| >= 2
    ensures p == [a, b]
  {
    var via := p[1];
    if |p| > 2 {
      SubPath(g, p, 1, |p|);
      assert IsPathBetween(g, p[1..], via, b) && |p[1..]| >= 2;
      assert Reaches(g, via, b);
      ReportExact(g, Finding(a, b, via));
      assert false;
    }
  }

  /**
   * A node whose two dependencies need each other has both reported, each in favour of the other,
   * and loses everything it could reach.
   */
  lemma MutualDependenciesAreLost(g: Graph, a: Node, b: Node, c: Node)
    requires a in g.keys && g.Deps(a) == [b, c] && b != c && c in g.Deps(b) && b in g.Deps(c)
    ensures Reaches(g, a, b) && forall x :: !Reaches(Pruned(g), a, x)
  {
    EdgeReaches(g, a, b);
    EdgeReaches(g, b, c);
    EdgeReaches(g, c, b);
    RedundantIsDropped(g, Finding(a, b, c));
    RedundantIsDropped(g, Finding(a, c, b));
    forall x
      ensures !Reaches(Pruned(g), a, x)
    {
      if Reaches(Pruned(g), a, x) { var d := FirstStep(Pruned(g), a, x); }
    }
  }

  /** In terms of the condition: nothing else is above the two. */
  lemma MutualDependenciesAreNotEntered(g: Graph, a: Node, b: Node, c: Node)
    requires g.Valid() && g.Deps(a) == [b, c] && b != c && Reaches(g, b, c) && Reaches(g, c, b)
    ensures !MutualsAreEntered(g) && !KeepsReachability(g)
  {
    assert b in g.Deps(a) && c in g.Deps(a);
    assert !EnteredFromAbove(g, a, b);
    PruningKeepsExactly(g);
  }

  lemma RedundantIsDropped(g: Graph, f: Finding)
    requires f.dep in g.Deps(f.node) && f.via in g.Deps(f.node) && f.dep != f.via && Reaches(g, f.via, f.dep)
    requires f.node in g.keys
    ensures Dropped(g, f.node, f.dep)
  {
    ReportExact(g, f);
    assert f == Finding(f.node, f.dep, f.via);
  }

  /** A node that depends on itself loses every other dependency, for good unless it leads back. */
  lemma SelfLoopDropsExits(g: Graph, a: Node, b: Node)
    requires g.Valid() && a in g.Deps(a) && b in g.Deps(a) && b != a && !Reaches(g, b, a)
    ensures Dropped(g, a, b) && !Reaches(Pruned(g), a, b)
    ensures !CyclesHaveNoExits(g) && !KeepsReachability(g)
  {
    EdgeReaches(g, a, a);
    EdgeReaches(g, a, b);
    RedundantIsDropped(g, Finding(a, b, a));
    if p :| IsPathBetween(Pruned(g), p, a, b) && |p| >= 2 {
      PrunedStaysOnCycle(g, p);
    }
    assert OnCycle(g, a);
    PruningKeepsExactly(g);
  }
}
