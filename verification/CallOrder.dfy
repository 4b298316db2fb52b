/** The calls of a depth-first search in their order, told without the search. */
module CallOrder {
  import opened Collections
  import opened Graphs

  /** A call for a node: where it is made, as positions from the keys down, and the nodes being searched. */
  datatype Call = Call(at: seq<nat>, path: seq<Node>, node: Node)

  function RootCall(g: Graph, i: nat): Call
    requires i < |g.keys|
  {
    Call([i], [], g.keys[i])
  }

  /** The call for the j-th dependency, made while the node of this call is searched. */
  function ChildCall(g: Graph, c: Call, j: nat): Call
    requires j < |g.Deps(c.node)|
  {
    Call(c.at + [j], c.path + [c.node], g.Deps(c.node)[j])
  }

  /** No earlier call is for the same node, so this one searches it. */
  ghost predicate IsFirst(log: seq<Call>, k: nat)
    requires k < |log|
  {
    forall i :: 0 <= i < k ==> log[i].node != log[k].node
  }

  /** A place comes before those under it, and before those at or under a later sibling. */
  ghost predicate BeforeAt(a: seq<nat>, b: seq<nat>, k: nat) {
    k <= |a| && k < |b| && a[..k] == b[..k] && (k == |a| || a[k] < b[k])
  }

  ghost predicate Before(a: seq<nat>, b: seq<nat>) {
    exists k: nat :: BeforeAt(a, b, k)
  }

  lemma NotBackAt(a: seq<nat>, b: seq<nat>, k: nat, m: nat)
    requires BeforeAt(a, b, k)
    ensures !BeforeAt(b, a, m)
  {
    assert k < m <= |a| && m <= |b| ==> a[..m][k] == a[k] && b[..m][k] == b[k];
    assert m < k ==> a[..k][m] == a[m] && b[..k][m] == b[m];
  }

  lemma BeforeOneWay(a: seq<nat>, b: seq<nat>)
    ensures Before(a, b) ==> !Before(b, a)
  {
    if k: nat :| BeforeAt(a, b, k) {
      forall m: nat
        ensures !BeforeAt(b, a, m)
      {
        NotBackAt(a, b, k, m);
      }
    }
  }

  lemma SiblingsInOrder(p: seq<nat>, i: nat, a: seq<nat>, j: nat, b: seq<nat>)
    requires p + [i] <= a && p + [j] <= b && i < j
    ensures Before(a, b)
  {
    var n := |p|;
    assert a[..n + 1] == p + [i] && b[..n + 1] == p + [j];
    assert a[..n] == a[..n + 1][..n] && b[..n] == b[..n + 1][..n];
    assert a[n] == a[..n + 1][n] && b[n] == b[..n + 1][n];
    assert BeforeAt(a, b, n);
  }

  lemma ParentBefore(p: seq<nat>, j: nat, b: seq<nat>)
    requires p + [j] <= b
    ensures Before(p, b)
  {
    var n := |p|;
    assert b[..n] == b[..n + 1][..n] == p;
    assert BeforeAt(p, b, n);
  }

  // ----- the calls of a search as a list -----

  /** The call is one for a dependency of a node that an earlier call of the list, from lo on, searches. */
  ghost predicate Follows(g: Graph, log: seq<Call>, lo: nat, k: nat)
    requires k < |log|
  {
    exists i: nat, j: nat :: lo <= i < k && IsChild(g, log, i, j, log[k])
  }

  ghost predicate IsChild(g: Graph, log: seq<Call>, i: nat, j: nat, c: Call) {
    i < |log| && IsFirst(log, i) && j < |g.Deps(log[i].node)| && c == ChildCall(g, log[i], j)
  }

  /** Every dependency of the node of a call that searches it is called for. */
  ghost predicate Searches(g: Graph, log: seq<Call>, k: nat)
    requires k < |log|
  {
    IsFirst(log, k) ==>
      forall j {:trigger ChildCall(g, log[k], j)} :: 0 <= j < |g.Deps(log[k].node)| ==> ChildCall(g, log[k], j) in log
  }

  ghost predicate InPlaces(log: seq<Call>, i: nat, k: nat) {
    i < k < |log| ==> Before(log[i].at, log[k].at)
  }

  ghost predicate InOrder(log: seq<Call>, lo: nat) {
    forall i: nat, k: nat {:trigger InPlaces(log, i, k)} :: lo <= i ==> InPlaces(log, i, k)
  }

  ghost predicate Under(p: seq<nat>, log: seq<Call>, k: nat) {
    k < |log| ==> p <= log[k].at
  }

  /** From lo on the list is what the call at lo leads to. */
  ghost predicate IsSubtree(g: Graph, log: seq<Call>, lo: nat, c: Call) {
    && lo < |log| && log[lo] == c && InOrder(log, lo)
    && (forall k :: lo < k < |log| ==> Follows(g, log, lo, k))
    && (forall k :: lo <= k < |log| ==> Searches(g, log, k))
    && (forall k: nat {:trigger Under(c.at, log, k)} :: lo <= k ==> Under(c.at, log, k))
  }

  /** The same, when only the first n dependencies of the node have been called for. */
  ghost predicate IsPart(g: Graph, log: seq<Call>, lo: nat, c: Call, n: nat) {
    && lo < |log| && log[lo] == c && IsFirst(log, lo) && n <= |g.Deps(c.node)| && InOrder(log, lo)
    && (forall k :: lo < k < |log| ==> Follows(g, log, lo, k))
    && (forall k :: lo < k < |log| ==> Searches(g, log, k))
    && (forall j {:trigger ChildCall(g, c, j)} :: 0 <= j < n ==> ChildCall(g, c, j) in log)
    && AllUnder(c.at, n, log, lo + 1)
  }

  ghost predicate UnderOneOf(p: seq<nat>, n: nat, log: seq<Call>, k: nat) {
    k < |log| ==> exists j: nat :: j < n && p + [j] <= log[k].at
  }

  ghost predicate AllUnder(p: seq<nat>, n: nat, log: seq<Call>, lo: nat) {
    forall k: nat {:trigger UnderOneOf(p, n, log, k)} :: lo <= k ==> UnderOneOf(p, n, log, k)
  }

  lemma LeafIsSubtree(g: Graph, log: seq<Call>, c: Call)
    requires !IsFirst(log + [c], |log|)
    ensures IsSubtree(g, log + [c], |log|, c)
  {
  }

  lemma NothingCalled(g: Graph, log: seq<Call>, c: Call)
    requires IsFirst(log + [c], |log|)
    ensures IsPart(g, log + [c], |log|, c, 0)
  {
  }

  /** What was said of the calls so far still holds when more are made. */
  lemma MoreCalls(g: Graph, log: seq<Call>, log': seq<Call>, lo: nat, k: nat)
    requires log <= log' && k < |log|
    ensures IsFirst(log', k) <==> IsFirst(log, k)
    ensures Follows(g, log, lo, k) ==> Follows(g, log', lo, k)
    ensures Searches(g, log, k) ==> Searches(g, log', k)
  {
    assert forall i :: 0 <= i < |log| ==> log'[i] == log[i];
    if Follows(g, log, lo, k) {
      var i: nat, j: nat :| lo <= i < k && IsChild(g, log, i, j, log[k]);
      assert IsChild(g, log', i, j, log'[k]);
    }
    assert forall c :: c in log ==> c in log';
  }

  /** The calls for one more dependency come after all that were made. */
  lemma NextInOrder(g: Graph, log: seq<Call>, log': seq<Call>, lo: nat, c: Call, n: nat)
    requires IsPart(g, log, lo, c, n) && n < |g.Deps(c.node)| && log <= log'
    requires IsSubtree(g, log', |log|, ChildCall(g, c, n))
    ensures InOrder(log', lo)
  {
    forall i: nat, k: nat | lo <= i < k < |log'|
      ensures InPlaces(log', i, k)
    {
      assert InPlaces(log, i, k);
      if |log| <= i {
        assert InPlaces(log', i, k);
      } else if |log| <= k {
        assert Under(ChildCall(g, c, n).at, log', k);
        if i == lo {
          ParentBefore(c.at, n, log'[k].at);
        } else {
          assert UnderOneOf(c.at, n, log, i);
          var j: nat :| j < n && c.at + [j] <= log[i].at;
          SiblingsInOrder(c.at, j, log[i].at, n, log'[k].at);
        }
      }
    }
  }

  lemma NextFollows(g: Graph, log: seq<Call>, log': seq<Call>, lo: nat, c: Call, n: nat, k: nat)
    requires IsPart(g, log, lo, c, n) && n < |g.Deps(c.node)| && log <= log'
    requires IsSubtree(g, log', |log|, ChildCall(g, c, n))
    requires lo < k < |log'|
    ensures Follows(g, log', lo, k) && Searches(g, log', k)
  {
    if k < |log| {
      MoreCalls(g, log, log', lo, k);
    } else if k == |log| {
      MoreCalls(g, log, log', lo, lo);
      assert IsChild(g, log', lo, n, log'[k]);
    } else {
      assert Follows(g, log', |log|, k);
      var i: nat, j: nat :| |log| <= i < k && IsChild(g, log', i, j, log'[k]);
    }
  }

  lemma NextPlaces(g: Graph, log: seq<Call>, log': seq<Call>, lo: nat, c: Call, n: nat)
    requires IsPart(g, log, lo, c, n) && n < |g.Deps(c.node)| && log <= log'
    requires IsSubtree(g, log', |log|, ChildCall(g, c, n))
    ensures AllUnder(c.at, n + 1, log', lo + 1)
    ensures forall j {:trigger ChildCall(g, c, j)} :: 0 <= j < n + 1 ==> ChildCall(g, c, j) in log'
  {
    var next := n + 1;
    forall k: nat | lo < k < |log'|
      ensures UnderOneOf(c.at, next, log', k)
    {
      assert UnderOneOf(c.at, n, log, k);
      assert |log| <= k ==> Under(ChildCall(g, c, n).at, log', k);
    }
    assert log'[|log|] == ChildCall(g, c, n);
    assert forall d :: d in log ==> d in log';
  }

  /** One more dependency has been called for. */
  lemma NextPart(g: Graph, log: seq<Call>, log': seq<Call>, lo: nat, c: Call, n: nat)
    requires IsPart(g, log, lo, c, n) && n < |g.Deps(c.node)| && log <= log'
    requires IsSubtree(g, log', |log|, ChildCall(g, c, n))
    ensures IsPart(g, log', lo, c, n + 1)
  {
    NextInOrder(g, log, log', lo, c, n);
    NextPlaces(g, log, log', lo, c, n);
    MoreCalls(g, log, log', lo, lo);
    forall k | lo < k < |log'|
      ensures Follows(g, log', lo, k) && Searches(g, log', k)
    {
      NextFollows(g, log, log', lo, c, n, k);
    }
  }

  /** All dependencies have been called for. */
  lemma AllCalled(g: Graph, log: seq<Call>, lo: nat, c: Call)
    requires IsPart(g, log, lo, c, |g.Deps(c.node)|)
    ensures IsSubtree(g, log, lo, c)
  {
    forall k: nat | lo <= k < |log|
      ensures Under(c.at, log, k)
    {
      assert k > lo ==> UnderOneOf(c.at, |g.Deps(c.node)|, log, k);
    }
  }

  // ----- what a search carries along -----

  /** Something is asked about. What is said under this condition is carried along unread by those who do not ask. */
  ghost predicate Asked<T>(q: int, about: T) {
    true
  }

  /** From lo on the list is what the call leads to. */
  ghost predicate Leads(g: Graph, log: seq<Call>, lo: nat, c: Call) {
    forall q {:trigger Asked(q, (log, lo, c))} :: Asked(q, (log, lo, c)) ==> IsSubtree(g, log, lo, c)
  }

  /** And when only the first n dependencies of its node have been called for. */
  ghost predicate LeadsSoFar(g: Graph, log: seq<Call>, lo: nat, c: Call, n: nat) {
    forall q {:trigger Asked(q, (log, lo, c, n))} :: Asked(q, (log, lo, c, n)) ==> IsPart(g, log, lo, c, n)
  }

  lemma WhatLeads(g: Graph, log: seq<Call>, lo: nat, c: Call)
    requires Leads(g, log, lo, c)
    ensures IsSubtree(g, log, lo, c)
  {
    assert Asked(0, (log, lo, c));
  }

  lemma WhatLeadsSoFar(g: Graph, log: seq<Call>, lo: nat, c: Call, n: nat)
    requires LeadsSoFar(g, log, lo, c, n)
    ensures IsPart(g, log, lo, c, n)
  {
    assert Asked(0, (log, lo, c, n));
  }

  lemma LastCallLeads(g: Graph, log: seq<Call>, c: Call)
    ensures if IsFirst(log + [c], |log|) then LeadsSoFar(g, log + [c], |log|, c, 0) else Leads(g, log + [c], |log|, c)
  {
    if IsFirst(log + [c], |log|) {
      NothingCalled(g, log, c);
    } else {
      LeafIsSubtree(g, log, c);
    }
  }

  lemma LeadsFurther(g: Graph, log: seq<Call>, log': seq<Call>, lo: nat, c: Call, n: nat)
    requires LeadsSoFar(g, log, lo, c, n) && n < |g.Deps(c.node)| && log <= log'
    requires Leads(g, log', |log|, ChildCall(g, c, n))
    ensures LeadsSoFar(g, log', lo, c, n + 1)
  {
    WhatLeadsSoFar(g, log, lo, c, n);
    WhatLeads(g, log', |log|, ChildCall(g, c, n));
    NextPart(g, log, log', lo, c, n);
  }

  lemma LeadsToAll(g: Graph, log: seq<Call>, lo: nat, c: Call)
    requires LeadsSoFar(g, log, lo, c, |g.Deps(c.node)|)
    ensures Leads(g, log, lo, c)
  {
    WhatLeadsSoFar(g, log, lo, c, |g.Deps(c.node)|);
    AllCalled(g, log, lo, c);
  }

  // ----- the whole search -----

  ghost predicate IsRoot(g: Graph, c: Call) {
    exists i: nat :: i < |g.keys| && c == RootCall(g, i)
  }

  /** The calls of the loop over the first n keys. */
  ghost predicate IsForest(g: Graph, log: seq<Call>, n: nat) {
    && n <= |g.keys| && InOrder(log, 0)
    && (forall k :: 0 <= k < |log| ==> IsRoot(g, log[k]) || Follows(g, log, 0, k))
    && (forall k :: 0 <= k < |log| ==> Searches(g, log, k))
    && (forall i {:trigger RootCall(g, i)} :: 0 <= i < n ==> RootCall(g, i) in log)
    && AllUnder([], n, log, 0)
  }

  lemma NextTreeInOrder(g: Graph, log: seq<Call>, log': seq<Call>, n: nat)
    requires IsForest(g, log, n) && n < |g.keys| && log <= log' && IsSubtree(g, log', |log|, RootCall(g, n))
    ensures InOrder(log', 0)
    ensures AllUnder([], n + 1, log', 0)
  {
    var none: seq<nat> := [];
    var next := n + 1;
    assert RootCall(g, n).at == none + [n];
    forall k: nat | k < |log'|
      ensures UnderOneOf([], next, log', k)
    {
      assert UnderOneOf(none, n, log, k);
      assert |log| <= k ==> Under(RootCall(g, n).at, log', k);
    }
    forall i: nat, k: nat | i < k < |log'|
      ensures InPlaces(log', i, k)
    {
      assert InPlaces(log, i, k);
      if |log| <= i {
        assert InPlaces(log', i, k);
      } else if |log| <= k {
        assert UnderOneOf(none, n, log, i) && Under(RootCall(g, n).at, log', k);
        var j: nat :| j < n && none + [j] <= log[i].at;
        SiblingsInOrder([], j, log[i].at, n, log'[k].at);
      }
    }
  }

  lemma NextTree(g: Graph, log: seq<Call>, log': seq<Call>, n: nat)
    requires IsForest(g, log, n) && n < |g.keys| && log <= log' && IsSubtree(g, log', |log|, RootCall(g, n))
    ensures IsForest(g, log', n + 1)
  {
    NextTreeInOrder(g, log, log', n);
    forall k | 0 <= k < |log'|
      ensures IsRoot(g, log'[k]) || Follows(g, log', 0, k)
      ensures Searches(g, log', k)
    {
      if k < |log| {
        MoreCalls(g, log, log', 0, k);
      } else if k > |log| {
        assert Follows(g, log', |log|, k);
        var i: nat, j: nat :| |log| <= i < k && IsChild(g, log', i, j, log'[k]);
      }
    }
    assert log'[|log|] == RootCall(g, n);
    assert forall d :: d in log ==> d in log';
  }

  ghost predicate Covers(g: Graph, log: seq<Call>, n: nat) {
    forall q {:trigger Asked(q, (log, n))} :: Asked(q, (log, n)) ==> IsForest(g, log, n)
  }

  lemma WhatIsCovered(g: Graph, log: seq<Call>, n: nat)
    requires Covers(g, log, n)
    ensures IsForest(g, log, n)
  {
    assert Asked(0, (log, n));
  }

  lemma CoversNext(g: Graph, log: seq<Call>, log': seq<Call>, n: nat)
    requires Covers(g, log, n) && n < |g.keys| && log <= log' && Leads(g, log', |log|, RootCall(g, n))
    ensures Covers(g, log', n + 1)
  {
    WhatIsCovered(g, log, n);
    WhatLeads(g, log', |log|, RootCall(g, n));
    NextTree(g, log, log', n);
  }

  lemma CoversNothing(g: Graph)
    ensures Covers(g, [], 0)
  {
  }

  lemma CoversAll(g: Graph, log: seq<Call>)
    requires Covers(g, log, |g.keys|)
    ensures IsSearch(g, log)
  {
    WhatIsCovered(g, log, |g.keys|);
  }

  /**
   * The calls of a search: one for every key and, for the first call for a node, one for each of its dependencies;
   * no others, and in the order of their places.
   */
  ghost predicate IsSearch(g: Graph, log: seq<Call>) {
    && InOrder(log, 0)
    && (forall k :: 0 <= k < |log| ==> IsRoot(g, log[k]) || Follows(g, log, 0, k))
    && (forall k :: 0 <= k < |log| ==> Searches(g, log, k))
    && forall i {:trigger RootCall(g, i)} :: 0 <= i < |g.keys| ==> RootCall(g, i) in log
  }

  // ----- there is only one such list -----

  lemma PlacesInOrder(log: seq<Call>, i: nat, k: nat)
    requires InOrder(log, 0)
    ensures i < k < |log| ==> Before(log[i].at, log[k].at)
  {
    assert InPlaces(log, i, k);
  }

  lemma CalledToo(g: Graph, a: seq<Call>, b: seq<Call>, n: nat) returns (m: nat)
    requires IsSearch(g, a) && IsSearch(g, b) && n < |a| && n <= |b| && a[..n] == b[..n]
    ensures n <= m < |b| && b[m] == a[n]
  {
    assert forall i :: 0 <= i < n ==> a[..n][i] == a[i] && b[..n][i] == b[i];
    if !IsRoot(g, a[n]) {
      assert Follows(g, a, 0, n);
      var i: nat, j: nat :| i < n && IsChild(g, a, i, j, a[n]);
      assert IsFirst(b, i) && Searches(g, b, i);
      assert ChildCall(g, b[i], j) in b;
    }
    m :| 0 <= m < |b| && b[m] == a[n];
    BeforeOneWay(a[n].at, a[n].at);
    PlacesInOrder(a, m, n);
  }

  lemma NextSame(g: Graph, a: seq<Call>, b: seq<Call>, n: nat)
    requires IsSearch(g, a) && IsSearch(g, b) && n < |a| && n < |b| && a[..n] == b[..n]
    ensures a[n] == b[n]
  {
    var m := CalledToo(g, a, b, n);
    var m' := CalledToo(g, b, a, n);
    BeforeOneWay(a[n].at, b[n].at);
    PlacesInOrder(b, n, m);
    PlacesInOrder(a, n, m');
  }

  lemma {:induction false} SameStart(g: Graph, a: seq<Call>, b: seq<Call>, n: nat)
    requires IsSearch(g, a) && IsSearch(g, b) && n <= |a| && n <= |b|
    ensures a[..n] == b[..n]
  {
    if n > 0 {
      SameStart(g, a, b, n - 1);
      NextSame(g, a, b, n - 1);
      assert a[..n] == a[..n - 1] + [a[n - 1]] && b[..n] == b[..n - 1] + [b[n - 1]];
    }
  }

  /** The graph determines the calls and their order. */
  lemma SearchIsDetermined(g: Graph, a: seq<Call>, b: seq<Call>)
    requires IsSearch(g, a) && IsSearch(g, b)
    ensures a == b
  {
    var n := if |a| < |b| then |a| else |b|;
    SameStart(g, a, b, n);
    if n < |a| {
      var m := CalledToo(g, a, b, n);
    }
    if n < |b| {
      var m := CalledToo(g, b, a, n);
    }
    assert a == a[..n] && b == b[..n];
  }
}
