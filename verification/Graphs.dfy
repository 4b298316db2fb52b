/** Directed graphs as the dependency scanners hold them, and the vocabulary of paths. */
module Graphs {
  import opened Collections

  type Node = string

  /** A dict from node to list of dependencies: its keys in insertion order, and the lists. */
  datatype Graph = Graph(keys: seq<Node>, adj: map<Node, seq<Node>>) {
    ghost predicate Valid() {
      && NoDuplicates(keys)
      && forall n :: n in keys <==> n in adj
    }

    /** graph.get(n, []): a node that is not a key has no dependencies. */
    function Deps(n: Node): seq<Node> {
      if n in adj then adj[n] else []
    }

    /** Every node the graph mentions, as a key or as a dependency. */
    function Nodes(): set<Node> {
      adj.Keys + set k, d | k in adj && d in adj[k] :: d
    }
  }

  ghost predicate IsPath(g: Graph, p: seq<Node>) {
    && p != []
    && forall i :: 0 < i < |p| ==> p[i] in g.Deps(p[i - 1])
  }

  ghost predicate IsPathBetween(g: Graph, p: seq<Node>, a: Node, b: Node) {
    IsPath(g, p) && p[0] == a && p[|p| - 1] == b
  }

  /** b can be reached from a along at least one edge. */
  ghost predicate Reaches(g: Graph, a: Node, b: Node) {
    exists p :: IsPathBetween(g, p, a, b) && |p| >= 2
  }

  ghost predicate Acyclic(g: Graph) {
    forall n :: !Reaches(g, n, n)
  }

  /** A closed walk along edges that repeats no node except its end points. */
  ghost predicate IsSimpleCycle(g: Graph, c: seq<Node>) {
    && |c| >= 2
    && IsPathBetween(g, c, c[0], c[0])
    && NoDuplicates(c[..|c| - 1])
  }

  /** Two paths that meet join into one. */
  lemma JoinPaths(g: Graph, p: seq<Node>, q: seq<Node>)
    requires IsPath(g, p) && IsPath(g, q) && p[|p| - 1] == q[0]
    ensures IsPathBetween(g, p + q[1..], p[0], q[|q| - 1])
  {
    var r := p + q[1..];
    forall i | 0 < i < |r|
      ensures r[i] in g.Deps(r[i - 1])
    {
      if i < |p| {
        assert r[i] == p[i] && r[i - 1] == p[i - 1];
      } else {
        var k := i - |p| + 1;
        assert r[i] == q[k] && r[i - 1] == q[k - 1];
      }
    }
  }

  lemma SubPath(g: Graph, p: seq<Node>, lo: nat, hi: nat)
    requires IsPath(g, p) && lo < hi <= |p|
    ensures IsPathBetween(g, p[lo..hi], p[lo], p[hi - 1])
  {
    var q := p[lo..hi];
    forall i | 0 < i < |q|
      ensures q[i] in g.Deps(q[i - 1])
    {
      assert p[lo + i] == q[i] && p[lo + i - 1] == q[i - 1];
    }
  }

  lemma EdgeReaches(g: Graph, a: Node, b: Node)
    requires b in g.Deps(a)
    ensures Reaches(g, a, b)
  {
    assert IsPathBetween(g, [a, b], a, b);
  }

  lemma ReachesTransitive(g: Graph, a: Node, b: Node, c: Node)
    requires Reaches(g, a, b) && Reaches(g, b, c)
    ensures Reaches(g, a, c)
  {
    var p :| IsPathBetween(g, p, a, b) && |p| >= 2;
    var q :| IsPathBetween(g, q, b, c) && |q| >= 2;
    JoinPaths(g, p, q);
  }
}
