/** The redundancy report as a list: which finding stands where, and how often. */
module RedundancyOrder {
  import opened Collections
  import opened Graphs
  import opened Redundancy

  /** A key, one of its dependencies and another one, by their positions. */
  datatype Place = Place(key: nat, dep: nat, via: nat)

  ghost predicate Precedes(p: Place, q: Place) {
    || p.key < q.key
    || (p.key == q.key && p.dep < q.dep)
    || (p.key == q.key && p.dep == q.dep && p.via < q.via)
  }

  /** The positions are those of a key and of two of its dependencies. */
  predicate Within(g: Graph, p: Place) {
    p.key < |g.keys| && p.dep < |g.Deps(g.keys[p.key])| && p.via < |g.Deps(g.keys[p.key])|
  }

  /** The finding that a place stands for. */
  function At(g: Graph, p: Place): Finding
    requires Within(g, p)
  {
    var deps := g.Deps(g.keys[p.key]);
    Finding(g.keys[p.key], deps[p.dep], deps[p.via])
  }

  /** The one dependency can be reached from the other. */
  ghost predicate IsFound(g: Graph, p: Place) {
    Within(g, p) && At(g, p).via != At(g, p).dep && Reaches(g, At(g, p).via, At(g, p).dep)
  }

  // ----- the places, level by level -----

  ghost function ViaPlaces(g: Graph, i: nat, j: nat, k: nat): seq<Place> {
    if k == 0 then []
    else ViaPlaces(g, i, j, k - 1) + if IsFound(g, Place(i, j, k - 1)) then [Place(i, j, k - 1)] else []
  }

  ghost function DepPlaces(g: Graph, i: nat, j: nat): seq<Place>
    requires i < |g.keys|
  {
    if j == 0 then [] else DepPlaces(g, i, j - 1) + ViaPlaces(g, i, j - 1, |g.Deps(g.keys[i])|)
  }

  ghost function KeyPlaces(g: Graph, i: nat): seq<Place>
    requires i <= |g.keys|
  {
    if i == 0 then [] else KeyPlaces(g, i - 1) + DepPlaces(g, i - 1, |g.Deps(g.keys[i - 1])|)
  }

  ghost predicate Ascending(at: seq<Place>) {
    forall i, j :: 0 <= i < j < |at| ==> Precedes(at[i], at[j])
  }

  lemma AscendingConcat(a: seq<Place>, b: seq<Place>)
    requires Ascending(a) && Ascending(b)
    requires forall p, q :: p in a && q in b ==> Precedes(p, q)
    ensures Ascending(a + b)
  {
  }

  lemma {:induction false} ViaPlacesExactly(g: Graph, i: nat, j: nat, k: nat)
    ensures forall p :: p in ViaPlaces(g, i, j, k) <==> IsFound(g, p) && p.key == i && p.dep == j && p.via < k
    ensures Ascending(ViaPlaces(g, i, j, k))
  {
    if k > 0 {
      ViaPlacesExactly(g, i, j, k - 1);
      AscendingConcat(ViaPlaces(g, i, j, k - 1), if IsFound(g, Place(i, j, k - 1)) then [Place(i, j, k - 1)] else []);
    }
  }

  lemma {:induction false} DepPlacesExactly(g: Graph, i: nat, j: nat)
    requires i < |g.keys|
    ensures forall p :: p in DepPlaces(g, i, j) <==> IsFound(g, p) && p.key == i && p.dep < j
    ensures Ascending(DepPlaces(g, i, j))
  {
    if j > 0 {
      var n := |g.Deps(g.keys[i])|;
      DepPlacesExactly(g, i, j - 1);
      ViaPlacesExactly(g, i, j - 1, n);
      AscendingConcat(DepPlaces(g, i, j - 1), ViaPlaces(g, i, j - 1, n));
    }
  }

  lemma {:induction false} KeyPlacesExactly(g: Graph, i: nat)
    requires i <= |g.keys|
    ensures forall p :: p in KeyPlaces(g, i) <==> IsFound(g, p) && p.key < i
    ensures Ascending(KeyPlaces(g, i))
  {
    if i > 0 {
      var n := |g.Deps(g.keys[i - 1])|;
      KeyPlacesExactly(g, i - 1);
      DepPlacesExactly(g, i - 1, n);
      AscendingConcat(KeyPlaces(g, i - 1), DepPlaces(g, i - 1, n));
    }
  }

  // ----- what the report shows at them -----

  ghost predicate ShownBy(g: Graph, at: seq<Place>, found: seq<Finding>) {
    |at| == |found| && forall i :: 0 <= i < |at| ==> Within(g, at[i]) && found[i] == At(g, at[i])
  }

  lemma ShownConcat(g: Graph, a: seq<Place>, x: seq<Finding>, b: seq<Place>, y: seq<Finding>)
    requires ShownBy(g, a, x) && ShownBy(g, b, y)
    ensures ShownBy(g, a + b, x + y)
  {
  }

  /** One more of the dependencies, which is another one and leads to this one, or is passed over. */
  lemma ViasOneMore(g: Graph, node: Node, dep: Node, deps: seq<Node>, k: nat)
    requires k < |deps|
    ensures ViaFindings(g, node, dep, Others(deps[..k + 1], dep))
            == ViaFindings(g, node, dep, Others(deps[..k], dep))
               + if deps[k] != dep && Reaches(g, deps[k], dep) then [Finding(node, dep, deps[k])] else []
  {
    var vias := Others(deps[..k], dep);
    assert deps[..k + 1][..k] == deps[..k];
    if deps[k] != dep {
      assert (vias + [deps[k]])[..|vias|] == vias;
    } else {
      assert Others(deps[..k + 1], dep) == vias;
    }
  }

  lemma {:induction false} ViasShown(g: Graph, i: nat, j: nat, k: nat)
    requires i < |g.keys| && j < |g.Deps(g.keys[i])| && k <= |g.Deps(g.keys[i])|
    ensures var deps := g.Deps(g.keys[i]);
      ShownBy(g, ViaPlaces(g, i, j, k), ViaFindings(g, g.keys[i], deps[j], Others(deps[..k], deps[j])))
  {
    if k > 0 {
      var deps := g.Deps(g.keys[i]);
      var p := Place(i, j, k - 1);
      ViasShown(g, i, j, k - 1);
      ViasOneMore(g, g.keys[i], deps[j], deps, k - 1);
      ShownConcat(g, ViaPlaces(g, i, j, k - 1), ViaFindings(g, g.keys[i], deps[j], Others(deps[..k - 1], deps[j])),
                  if IsFound(g, p) then [p] else [], if IsFound(g, p) then [At(g, p)] else []);
    }
  }

  lemma {:induction false} DepsShown(g: Graph, i: nat, j: nat)
    requires i < |g.keys| && j <= |g.Deps(g.keys[i])|
    ensures ShownBy(g, DepPlaces(g, i, j), DepFindings(g, g.keys[i], g.Deps(g.keys[i])[..j]))
  {
    if j > 0 {
      var node, deps := g.keys[i], g.Deps(g.keys[i]);
      DepsShown(g, i, j - 1);
      ViasShown(g, i, j - 1, |deps|);
      assert deps[..|deps|] == deps;
      DepFindingsOneMore(g, node, deps, j - 1);
      ShownConcat(g, DepPlaces(g, i, j - 1), DepFindings(g, node, deps[..j - 1]),
                  ViaPlaces(g, i, j - 1, |deps|), ViaFindings(g, node, deps[j - 1], Others(deps, deps[j - 1])));
    }
  }

  lemma {:induction false} KeysShown(g: Graph, i: nat)
    requires i <= |g.keys|
    ensures ShownBy(g, KeyPlaces(g, i), KeyFindings(g, g.keys[..i]))
  {
    if i > 0 {
      var key := g.keys[i - 1];
      var deps := g.Deps(key);
      KeysShown(g, i - 1);
      DepsShown(g, i - 1, |deps|);
      assert deps[..|deps|] == deps && g.keys[..i][..i - 1] == g.keys[..i - 1];
      ShownConcat(g, KeyPlaces(g, i - 1), KeyFindings(g, g.keys[..i - 1]),
                  DepPlaces(g, i - 1, |deps|), DepFindings(g, key, deps));
    }
  }

  /**
   * The report names every place at which one dependency of a key implies another, each once, in the order of
   * the keys, then of the implied dependency, then of the other one.
   */
  lemma ReportInOrder(g: Graph) returns (at: seq<Place>)
    ensures ShownBy(g, at, Report(g)) && forall p :: p in at <==> IsFound(g, p)
    ensures forall i, j :: 0 <= i < j < |at| ==> Precedes(at[i], at[j])
  {
    at := KeyPlaces(g, |g.keys|);
    KeyPlacesExactly(g, |g.keys|);
    KeysShown(g, |g.keys|);
    assert g.keys[..|g.keys|] == g.keys;
  }
}
