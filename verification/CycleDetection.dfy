/** The depth-first cycle detector of the dependency scanners. */
module CycleDetection {
  import opened Collections
  import opened Graphs
  import opened CallOrder

  type Edge = (Node, Node)

  /** The last edge of each cycle, the one that closed it. */
  ghost function Closing(cycles: seq<seq<Node>>): set<Edge> {
    set c | c in cycles && |c| >= 2 :: (c[|c| - 2], c[|c| - 1])
  }

  /** Each listed node has all its dependencies earlier in the list, some edges excepted. */
  ghost predicate DependenciesFirst(g: Graph, order: seq<Node>, except: set<Edge>) {
    forall i, d :: 0 <= i < |order| && d in g.Deps(order[i]) ==> d in order[..i] || (order[i], d) in except
  }

  /** Every closed walk of the graph passes along one of the edges. */
  ghost predicate BreaksEveryCycle(g: Graph, edges: set<Edge>) {
    forall p :: IsPath(g, p) && |p| >= 2 && p[0] == p[|p| - 1] ==> Uses(p, edges)
  }

  ghost predicate Uses(p: seq<Node>, edges: set<Edge>) {
    exists i :: 0 < i < |p| && (p[i - 1], p[i]) in edges
  }

  /** The number of edges that leave the listed nodes. */
  ghost function OutDegrees(g: Graph, nodes: seq<Node>): nat {
    if nodes == [] then 0
    else OutDegrees(g, nodes[..|nodes| - 1]) + |g.Deps(nodes[|nodes| - 1])|
  }

  /** The part of the path from a node on it to its end, closed by the node again. */
  function CycleFrom(path: seq<Node>, node: Node): seq<Node>
    requires node in path
  {
    path[IndexOf(path, node)..] + [node]
  }

  /** A cycle for every call for a node that is being searched, in the order of the calls. */
  function Reported(log: seq<Call>): seq<seq<Node>> {
    if log == [] then []
    else
      var c := log[|log| - 1];
      Reported(log[..|log| - 1]) + if c.node in c.path then [CycleFrom(c.path, c.node)] else []
  }

  ghost function Callees(log: seq<Call>): set<Node> {
    if log == [] then {} else Callees(log[..|log| - 1]) + {log[|log| - 1].node}
  }

  lemma {:induction false} CalleesExactly(log: seq<Call>, node: Node)
    ensures node in Callees(log) <==> exists i :: 0 <= i < |log| && log[i].node == node
  {
    if log != [] {
      CalleesExactly(log[..|log| - 1], node);
    }
  }

  /** The calls have visited these nodes and reported these cycles. */
  ghost predicate Records(log: seq<Call>, visited: set<Node>, cycles: seq<seq<Node>>) {
    forall q {:trigger Asked(q, (log, visited, cycles))} ::
      Asked(q, (log, visited, cycles)) ==> visited == Callees(log) && cycles == Reported(log)
  }

  lemma RecordsNothing()
    ensures Records([], {}, [])
  {
  }

  lemma WhatIsRecorded(log: seq<Call>, visited: set<Node>, cycles: seq<seq<Node>>)
    requires Records(log, visited, cycles)
    ensures visited == Callees(log) && cycles == Reported(log)
  {
    assert Asked(0, (log, visited, cycles));
  }

  /** One more call. */
  lemma RecordsCall(g: Graph, log: seq<Call>, visited: set<Node>, cycles: seq<seq<Node>>, c: Call)
    requires Records(log, visited, cycles)
    ensures Records(log + [c], visited + {c.node},
                    cycles + if c.node in c.path then [CycleFrom(c.path, c.node)] else [])
    ensures if c.node in visited then Leads(g, log + [c], |log|, c) else LeadsSoFar(g, log + [c], |log|, c, 0)
  {
    WhatIsRecorded(log, visited, cycles);
    assert (log + [c])[..|log|] == log;
    CalleesExactly(log, c.node);
    LastCallLeads(g, log, c);
  }

  /** The state of the search. */
  datatype State = State(
    visited: set<Node>, path: seq<Node>, pathSet: set<Node>, cycles: seq<seq<Node>>,
    closing: set<Edge>, finished: seq<Node>, expanded: seq<Node>, edges: nat)

  /** What the state means for the graph. */
  ghost predicate IsSound(g: Graph, s: State) {
    && s.pathSet == Elements(s.path) && NoDuplicates(s.path) && (s.path != [] ==> IsPath(g, s.path))
    && (forall c :: c in s.cycles ==> IsSimpleCycle(g, c)) && s.closing == Closing(s.cycles)
    && NoDuplicates(s.expanded) && Elements(s.expanded) == s.visited && s.edges == OutDegrees(g, s.expanded)
    && Elements(s.finished) == s.visited - s.pathSet
    && DependenciesFirst(g, s.finished, s.closing)
  }

  /** A new node on the path. */
  ghost function Entered(g: Graph, s: State, node: Node): State {
    s.(visited := s.visited + {node}, path := s.path + [node], pathSet := s.pathSet + {node},
       expanded := s.expanded + [node], edges := s.edges + |g.Deps(node)|)
  }

  lemma EnteringIsSound(g: Graph, s: State, node: Node)
    requires IsSound(g, s) && s.pathSet <= s.visited && node !in s.visited
    requires s.path != [] ==> node in g.Deps(s.path[|s.path| - 1])
    ensures IsSound(g, Entered(g, s, node))
  {
    var s' := Entered(g, s, node);
    ExtendPath(g, s.path, node);
    assert Elements(s'.expanded) == Elements(s.expanded) + {node};
    assert s'.expanded[..|s.expanded|] == s.expanded;
    assert s'.visited - s'.pathSet == s.visited - s.pathSet;
  }

  /** The node on top of the path is finished. */
  ghost function Finished(s: State, node: Node, rest: seq<Node>, restSet: set<Node>): State {
    s.(path := rest, pathSet := restSet, finished := s.finished + [node])
  }

  lemma WithoutLast(rest: seq<Node>, node: Node)
    requires NoDuplicates(rest + [node])
    ensures NoDuplicates(rest) && node !in rest && Elements(rest + [node]) == Elements(rest) + {node}
  {
    var path := rest + [node];
    assert forall i :: 0 <= i < |rest| ==> path[i] == rest[i];
    assert path[|rest|] == node;
  }

  lemma LeavingIsSound(g: Graph, s: State, node: Node, rest: seq<Node>, restSet: set<Node>)
    requires IsSound(g, s) && s.pathSet <= s.visited
    requires s.path == rest + [node] && s.pathSet == restSet + {node} && node !in restSet
    requires forall d :: d in g.Deps(node) ==> d in s.visited - s.pathSet || (node, d) in s.closing
    ensures IsSound(g, Finished(s, node, rest, restSet))
  {
    if rest != [] {
      SubPath(g, s.path, 0, |rest|);
      assert s.path[0..|rest|] == rest;
    }
    WithoutLast(rest, node);
    assert Elements(rest) == restSet;
    FinishNode(g, s.finished, node, s.closing);
  }

  ghost predicate Sound(g: Graph, s: State) {
    forall q {:trigger Asked(q, s)} :: Asked(q, s) ==> IsSound(g, s)
  }

  /** The state that the nested function dfs closes over, with ghost records of the run. */
  class Search {
    const g: Graph
    var visited: set<Node>
    var path: seq<Node>
    var pathSet: set<Node>
    var cycles: seq<seq<Node>>
    ghost var closing: set<Edge>
    ghost var finished: seq<Node>
    ghost var expanded: seq<Node>
    ghost var calls: nat
    ghost var edges: nat
    ghost var log: seq<Call>

    constructor (graph: Graph)
      ensures g == graph
      ensures visited == {} && path == [] && pathSet == {} && cycles == []
      ensures closing == {} && finished == [] && expanded == [] && calls == 0 && log == [] && edges == 0
    {
      g, visited, path, pathSet, cycles := graph, {}, [], {}, [];
      closing, finished, expanded, calls, log, edges := {}, [], [], 0, [], 0;
    }

    ghost function Now(): State
      reads this
    {
      State(visited, path, pathSet, cycles, closing, finished, expanded, edges)
    }

    ghost predicate Valid()
      reads this
    {
      pathSet <= visited <= g.Nodes() && Sound(g, Now())
    }

    lemma Look()
      requires Valid()
      ensures IsSound(g, Now())
    {
      assert Asked(0, Now());
    }

    lemma OnPath(node: Node)
      requires Valid()
      ensures node in pathSet <==> node in path
    {
      Look();
    }

    /** A dependency that has been dealt with: searched to the end, or found to close a cycle. */
    ghost predicate Settled(node: Node, dep: Node)
      reads this
    {
      dep in visited - pathSet || (node, dep) in closing
    }

    method Dfs(node: Node, ghost c: Call)
      requires Valid() && node in g.Nodes()
      requires path != [] ==> node in g.Deps(path[|path| - 1])
      requires Records(log, visited, cycles) && c.node == node && c.path == path
      modifies this
      ensures Valid()
      ensures path == old(path) && pathSet == old(pathSet)
      ensures node in visited && old(visited) <= visited && old(closing) <= closing
      ensures path != [] ==> Settled(path[|path| - 1], node)
      ensures calls + old(edges) == old(calls) + 1 + edges
      ensures Records(log, visited, cycles) && old(log) <= log && Leads(g, log, |old(log)|, c)
      decreases g.Nodes() - visited, 1
    {
      calls := calls + 1;
      OnPath(node);
      RecordsCall(g, log, visited, cycles, c);
      log := log + [c];
      if node in pathSet {
        assert visited == visited + {node};
        Report(node);
      } else if node !in visited {
        assert cycles == cycles + [];
        Expand(node, c);
      } else {
        assert visited == visited + {node} && cycles == cycles + [];
      }
    }

    /** The rest of dfs, for a node that is new. */
    method Expand(node: Node, ghost c: Call)
      requires Valid() && node in g.Nodes() && node !in visited
      requires path != [] ==> node in g.Deps(path[|path| - 1])
      requires Records(log, visited + {node}, cycles) && c.node == node && c.path == path
      requires log != [] && LeadsSoFar(g, log, |log| - 1, c, 0)
      modifies this
      ensures Valid()
      ensures path == old(path) && pathSet == old(pathSet)
      ensures node in visited - pathSet && old(visited) <= visited && old(closing) <= closing
      ensures calls + old(edges) == old(calls) + edges
      ensures Records(log, visited, cycles) && old(log) <= log && Leads(g, log, |old(log)| - 1, c)
      decreases g.Nodes() - visited, 0
    {
      Enter(node);
      Explore(node, c);
      Leave(node, old(path), old(pathSet));
    }

    /** The loop of dfs over the dependencies of the node on top of the path. */
    method Explore(node: Node, ghost c: Call)
      requires Valid() && path != [] && path[|path| - 1] == node
      requires Records(log, visited, cycles) && log != [] && c.node == node && c.path + [node] == path
      requires LeadsSoFar(g, log, |log| - 1, c, 0)
      modifies this
      ensures Valid()
      ensures path == old(path) && pathSet == old(pathSet)
      ensures old(visited) <= visited && old(closing) <= closing
      ensures forall d :: d in g.Deps(node) ==> Settled(node, d)
      ensures calls + old(edges) == old(calls) + |g.Deps(node)| + edges
      ensures Records(log, visited, cycles) && old(log) <= log && Leads(g, log, |old(log)| - 1, c)
      decreases g.Nodes() - visited, 2
    {
      var deps := g.Deps(node);
      for i := 0 to |deps|
        invariant Valid() && path == old(path) && pathSet == old(pathSet)
        invariant old(visited) <= visited && old(closing) <= closing
        invariant forall d :: d in deps[..i] ==> Settled(node, d)
        invariant calls + old(edges) == old(calls) + i + edges
        invariant Records(log, visited, cycles) && old(log) <= log && LeadsSoFar(g, log, |old(log)| - 1, c, i)
      {
        EdgeStaysInside(g, node, deps[i]);
        assert deps[..i + 1] == deps[..i] + [deps[i]];
        ghost var before := log;
        Dfs(deps[i], ChildCall(g, c, i));
        LeadsFurther(g, before, log, |old(log)| - 1, c, i);
        assert forall d :: d in deps[..i] ==> Settled(node, d);
      }
      assert deps[..|deps|] == deps;
      LeadsToAll(g, log, |old(log)| - 1, c);
    }

    /** Record the cycle that a dependency back onto the path closes. */
    method Report(node: Node)
      requires Valid() && node in path && node in g.Deps(path[|path| - 1])
      modifies this`cycles, this`closing
      ensures Valid()
      ensures cycles == old(cycles) + [CycleFrom(path, node)]
      ensures closing == old(closing) + {(path[|path| - 1], node)}
    {
      Look();
      CloseCycle(g, path, node);
      ClosingOneMore(cycles, CycleFrom(path, node));
      cycles := cycles + [CycleFrom(path, node)];
      closing := closing + {(path[|path| - 1], node)};
      assert IsSound(g, Now());
    }

    /** Mark a node and push it. */
    method Enter(node: Node)
      requires Valid() && node in g.Nodes() && node !in visited
      requires path != [] ==> node in g.Deps(path[|path| - 1])
      modifies this`visited, this`path, this`pathSet, this`expanded, this`edges
      ensures Valid()
      ensures path == old(path) + [node] && pathSet == old(pathSet) + {node} && visited == old(visited) + {node}
      ensures edges == old(edges) + |g.Deps(node)|
    {
      Look();
      EnteringIsSound(g, Now(), node);
      visited := visited + {node};
      path := path + [node];
      pathSet := pathSet + {node};
      expanded := expanded + [node];
      edges := edges + |g.Deps(node)|;
      assert Now() == old(Entered(g, Now(), node));
    }

    /** Pop a node whose dependencies have all been searched. */
    method Leave(node: Node, ghost rest: seq<Node>, ghost restSet: set<Node>)
      requires Valid() && path == rest + [node] && pathSet == restSet + {node} && node !in restSet
      requires forall d :: d in g.Deps(node) ==> Settled(node, d)
      modifies this`path, this`pathSet, this`finished
      ensures Valid()
      ensures path == rest && pathSet == restSet && finished == old(finished) + [node]
    {
      Look();
      LeavingIsSound(g, Now(), node, rest, restSet);
      path := path[..|path| - 1];
      pathSet := pathSet - {node};
      finished := finished + [node];
      assert Now() == old(Finished(Now(), node, rest, restSet));
    }

    /** The loop over all keys. */
    method SearchKeys()
      requires g.Valid() && Valid() && Records(log, visited, cycles)
      requires path == [] && pathSet == {} && visited == {} && log == [] && edges == 0 && calls == 0
      modifies this
      ensures Valid() && path == [] && pathSet == {}
      ensures Elements(g.keys) <= visited
      ensures calls == |g.keys| + edges
      ensures Covers(g, log, |g.keys|) && Records(log, visited, cycles)
    {
      CoversNothing(g);
      for i := 0 to |g.keys|
        invariant Valid() && path == [] && pathSet == {}
        invariant forall j :: 0 <= j < i ==> g.keys[j] in visited
        invariant calls == i + edges
        invariant Records(log, visited, cycles) && Covers(g, log, i)
      {
        ghost var before := log;
        assert g.keys[i] in g.keys && g.keys[i] in g.adj;
        Dfs(g.keys[i], RootCall(g, i));
        CoversNext(g, before, log, i);
      }
    }
  }

  /** Besides the cycles it reports how the search was run. */
  method DetectCycles(g: Graph)
    returns (cycles: seq<seq<Node>>, ghost expanded: seq<Node>, ghost calls: nat, ghost log: seq<Call>)
    requires g.Valid()
    ensures IsSearch(g, log) && cycles == Reported(log)
    ensures forall c :: c in cycles ==> IsSimpleCycle(g, c)
    ensures BreaksEveryCycle(g, Closing(cycles))
    ensures cycles == [] <==> Acyclic(g)
    ensures NoDuplicates(expanded) && Elements(g.keys) <= Elements(expanded)
    ensures calls == |g.keys| + OutDegrees(g, g.keys)
  {
    var s := new Search(g);
    RecordsNothing();
    s.SearchKeys();
    s.Look();
    CoversAll(g, s.log);
    WhatIsRecorded(s.log, s.visited, s.cycles);
    cycles, expanded, calls, log := s.cycles, s.expanded, s.calls, s.log;
    SearchCompleted(g, cycles, s.finished, expanded);
  }

  lemma EdgeStaysInside(g: Graph, a: Node, b: Node)
    requires b in g.Deps(a)
    ensures b in g.Nodes()
  {
  }

  lemma ExtendPath(g: Graph, path: seq<Node>, node: Node)
    requires path != [] ==> IsPath(g, path) && node in g.Deps(path[|path| - 1])
    ensures IsPath(g, path + [node])
    ensures Elements(path + [node]) == Elements(path) + {node}
  {
    if path != [] {
      JoinPaths(g, path, [path[|path| - 1], node]);
      assert path + [path[|path| - 1], node][1..] == path + [node];
    }
  }

  lemma CloseCycle(g: Graph, path: seq<Node>, node: Node)
    requires IsPath(g, path) && NoDuplicates(path)
    requires node in path && node in g.Deps(path[|path| - 1])
    ensures var c := CycleFrom(path, node);
      IsSimpleCycle(g, c) && c[|c| - 2] == path[|path| - 1] && c[|c| - 1] == node
  {
    var start := IndexOf(path, node);
    SubPath(g, path, start, |path|);
    var arc := path[start..|path|];
    ExtendPath(g, arc, node);
    var c := CycleFrom(path, node);
    assert c == arc + [node];
    assert c[..|c| - 1] == arc;
  }

  /** The cycle begins where the node stands on the path and returns to it. */
  lemma CycleFromExactly(before: seq<Node>, node: Node, after: seq<Node>)
    requires node !in before
    ensures CycleFrom(before + [node] + after, node) == [node] + after + [node]
  {
    var path := before + [node] + after;
    var k := IndexOf(path, node);
    assert path[|before|] == node;
    assert forall i :: 0 <= i < |before| ==> path[i] == before[i] && before[i] in before;
    assert forall i :: 0 <= i < k ==> path[..k][i] == path[i];
    assert path[|before|..] == [node] + after;
  }

  lemma ClosingOneMore(cycles: seq<seq<Node>>, c: seq<Node>)
    requires |c| >= 2
    ensures Closing(cycles + [c]) == Closing(cycles) + {(c[|c| - 2], c[|c| - 1])}
  {
    assert c in cycles + [c];
    forall e | e in Closing(cycles)
      ensures e in Closing(cycles + [c])
    {
      var c' :| c' in cycles && |c'| >= 2 && e == (c'[|c'| - 2], c'[|c'| - 1]);
      assert c' in cycles + [c];
    }
  }

  lemma FinishNode(g: Graph, finished: seq<Node>, node: Node, except: set<Edge>)
    requires DependenciesFirst(g, finished, except)
    requires forall d :: d in g.Deps(node) ==> d in finished || (node, d) in except
    ensures Elements(finished + [node]) == Elements(finished) + {node}
    ensures DependenciesFirst(g, finished + [node], except)
  {
    var order := finished + [node];
    forall i, d | 0 <= i < |order| && d in g.Deps(order[i])
      ensures d in order[..i] || (order[i], d) in except
    {
      assert order[..i] == finished[..i];
    }
  }

  lemma TailUses(p: seq<Node>, edges: set<Edge>)
    requires p != []
    ensures Uses(p[1..], edges) ==> Uses(p, edges)
  {
    var tail := p[1..];
    if Uses(tail, edges) {
      var i :| 0 < i < |tail| && (tail[i - 1], tail[i]) in edges;
      assert p[i + 1] == tail[i] && p[i + 1 - 1] == tail[i - 1];
    }
  }

  /** A path from a listed node that avoids the excepted edges is listed backwards. */
  lemma {:induction false} PathDescends(g: Graph, order: seq<Node>, except: set<Edge>, p: seq<Node>, i: nat)
    requires DependenciesFirst(g, order, except) && IsPath(g, p) && |p| >= 2 && !Uses(p, except)
    requires i < |order| && order[i] == p[0]
    ensures p[|p| - 1] in order[..i]
  {
    assert p[1] in g.Deps(p[0]) && (p[1 - 1], p[1]) !in except;
    if |p| > 2 {
      var j :| 0 <= j < i && order[j] == p[1];
      SubPath(g, p, 1, |p|);
      TailUses(p, except);
      PathDescends(g, order, except, p[1..], j);
    }
  }

  /** Listing every key after its dependencies, except along some edges, shows those edges break every cycle. */
  lemma OrderBreaksCycles(g: Graph, order: seq<Node>, except: set<Edge>)
    requires g.Valid() && DependenciesFirst(g, order, except)
    requires Elements(g.keys) <= Elements(order)
    ensures BreaksEveryCycle(g, except)
  {
    forall p | IsPath(g, p) && |p| >= 2 && p[0] == p[|p| - 1]
      ensures Uses(p, except)
    {
      if !Uses(p, except) {
        assert p[1] in g.Deps(p[0]) && p[0] in Elements(g.keys);
        PathDescends(g, order, except, p, IndexOf(order, p[0]));
        assert false;
      }
    }
  }

  /** What the state at the end of the search says about the graph. */
  lemma SearchCompleted(g: Graph, cycles: seq<seq<Node>>, finished: seq<Node>, expanded: seq<Node>)
    requires g.Valid() && NoDuplicates(expanded) && Elements(g.keys) <= Elements(expanded)
    requires forall c :: c in cycles ==> IsSimpleCycle(g, c)
    requires Elements(finished) == Elements(expanded)
    requires DependenciesFirst(g, finished, Closing(cycles))
    ensures BreaksEveryCycle(g, Closing(cycles))
    ensures cycles == [] <==> Acyclic(g)
    ensures OutDegrees(g, expanded) == OutDegrees(g, g.keys)
  {
    SameDegrees(g, expanded, g.keys);
    OrderBreaksCycles(g, finished, Closing(cycles));
    NoCycleReported(g, cycles);
  }

  lemma NoCycleReported(g: Graph, cycles: seq<seq<Node>>)
    requires forall c :: c in cycles ==> IsSimpleCycle(g, c)
    requires BreaksEveryCycle(g, Closing(cycles))
    ensures cycles == [] <==> Acyclic(g)
  {
    if cycles != [] {
      assert IsSimpleCycle(g, cycles[0]);
      assert Reaches(g, cycles[0][0], cycles[0][0]);
    } else {
      assert forall p :: !Uses(p, Closing(cycles));
    }
  }

  lemma {:induction false} DropNode(g: Graph, nodes: seq<Node>, k: nat)
    requires k < |nodes|
    ensures OutDegrees(g, nodes) == OutDegrees(g, Without(nodes, k)) + |g.Deps(nodes[k])|
  {
    var init, rest := nodes[..|nodes| - 1], Without(nodes, k);
    if k == |nodes| - 1 {
      assert rest == init;
    } else {
      DropNode(g, init, k);
      assert rest[..|rest| - 1] == Without(init, k);
    }
  }

  /** Listing further nodes that have no edges does not change the count, nor does the order. */
  lemma {:induction false} SameDegrees(g: Graph, a: seq<Node>, b: seq<Node>)
    requires NoDuplicates(a) && NoDuplicates(b) && Elements(b) <= Elements(a)
    requires forall n :: n in Elements(a) - Elements(b) ==> g.Deps(n) == []
    ensures OutDegrees(g, a) == OutDegrees(g, b)
  {
    if a == [] {
      NoDuplicatesCardinality(b);
    } else {
      var init, last := a[..|a| - 1], a[|a| - 1];
      assert Elements(a) == Elements(init) + {last};
      if last in b {
        var k := IndexOf(b, last);
        DropNode(g, b, k);
        WithoutElements(b, k);
        SameDegrees(g, init, Without(b, k));
      } else {
        SameDegrees(g, init, b);
      }
    }
  }
}
