/** Rows of modules in a trail, or of lessons in a module, and the order column that lists them. */
module Ordering {
  import opened Collections
  import opened Options

  type Id = string

  /** A module row (its parent a trail) or a lesson row (its parent a module). */
  datatype Child = Child(parentId: Id, name: string, order: int, deletedAt: Option<int>)

  type Table = map<Id, Child>

  predicate IsLive(t: Table, id: Id, parent: Id) {
    id in t && t[id].deletedAt.None? && t[id].parentId == parent
  }

  /** findMany({ where: { parentId, deletedAt: null } }) as a set of ids. */
  function Live(t: Table, parent: Id): set<Id> {
    set c | c in t && IsLive(t, c, parent)
  }

  /** updateMany on live rows: the given ones get a deletion time. */
  function Delete(t: Table, ids: set<Id>, now: int): Table {
    map c | c in t :: if c in ids && t[c].deletedAt.None? then t[c].(deletedAt := Some(now)) else t[c]
  }

  /** What findMany with orderBy order may return: ties may come in any order. */
  ghost predicate IsListing(t: Table, parent: Id, l: seq<Id>) {
    && NoDuplicates(l) && Elements(l) == Live(t, parent)
    && forall i, j :: 0 <= i < j < |l| ==> Order(t, l[i]) <= Order(t, l[j])
  }

  function Order(t: Table, id: Id): int {
    if id in t then t[id].order else 0
  }

  /** findMany with orderBy order: one of the possible listings. */
  method List(t: Table, parent: Id) returns (l: seq<Id>)
    ensures IsListing(t, parent, l)
  {
    l := [];
    var todo := Live(t, parent);
    while todo != {}
      invariant todo <= Live(t, parent)
      invariant NoDuplicates(l) && Elements(l) == Live(t, parent) - todo
      invariant forall i, j :: 0 <= i < j < |l| ==> Order(t, l[i]) <= Order(t, l[j])
      invariant forall i, d :: 0 <= i < |l| && d in todo ==> Order(t, l[i]) <= Order(t, d)
      decreases todo
    {
      var c := Lowest(t, todo);
      assert c !in Elements(l);
      l := l + [c];
      todo := todo - {c};
    }
  }

  method Lowest(t: Table, ids: set<Id>) returns (c: Id)
    requires ids != {}
    ensures c in ids && forall d :: d in ids ==> Order(t, c) <= Order(t, d)
  {
    c :| c in ids;
    var todo := ids - {c};
    while todo != {}
      invariant c in ids && todo <= ids
      invariant forall d :: d in ids - todo ==> Order(t, c) <= Order(t, d)
      decreases todo
    {
      var d :| d in todo;
      if Order(t, d) < Order(t, c) { c := d; }
      todo := todo - {d};
    }
  }

  // ----- reordering -----

  datatype ReorderError = DuplicateIds | CountMismatch | WrongParent

  datatype ReorderResult = Reordered(table: Table) | Rejected(error: ReorderError)

  ghost predicate IsPermutation(ids: seq<Id>, live: set<Id>) {
    NoDuplicates(ids) && Elements(ids) == live
  }

  /** Each listed row at its place, the others as they were. */
  function WithOrder(t: Table, ids: seq<Id>): Table {
    map c | c in t :: if c in ids then t[c].(order := IndexOf(ids, c)) else t[c]
  }

  method Reorder(t: Table, parent: Id, ids: seq<Id>) returns (r: ReorderResult)
    ensures r.Reordered? <==> IsPermutation(ids, Live(t, parent))
    ensures r.Reordered? ==> r.table == WithOrder(t, ids)
    ensures r == Rejected(DuplicateIds) <==> !NoDuplicates(ids)
    ensures r == Rejected(CountMismatch) <==> NoDuplicates(ids) && |ids| != |Live(t, parent)|
  {
    FullCardinality(ids);
    var unique := Elements(ids);
    if |unique| != |ids| {
      NotFull(ids);
      return Rejected(DuplicateIds);
    }
    var existing := Live(t, parent);
    if |ids| != |existing| {
      return Rejected(CountMismatch);
    }
    for i := 0 to |ids|
      invariant forall j :: 0 <= j < i ==> ids[j] in existing
    {
      if ids[i] !in existing {
        return Rejected(WrongParent);
      }
    }
    SubsetCardinality(unique, existing);
    var table := SetOrders(t, ids);
    r := Reordered(table);
  }

  lemma NotFull<T(!new)>(s: seq<T>)
    requires |Elements(s)| != |s|
    ensures !NoDuplicates(s)
  {
    if NoDuplicates(s) { NoDuplicatesCardinality(s); }
  }

  /** The loop that writes the new order, row by row. */
  method SetOrders(t: Table, ids: seq<Id>) returns (table: Table)
    requires NoDuplicates(ids) && forall i :: 0 <= i < |ids| ==> ids[i] in t
    ensures table == WithOrder(t, ids)
  {
    table := t;
    for i := 0 to |ids|
      invariant table.Keys == t.Keys
      invariant forall c :: c in t ==> table[c] == if c in ids[..i] then t[c].(order := IndexOf(ids, c)) else t[c]
    {
      table := table[ids[i] := table[ids[i]].(order := i)];
      FirstIndex(ids, i);
      assert ids[..i + 1] == ids[..i] + [ids[i]];
    }
    assert ids[..|ids|] == ids;
  }

  lemma FirstIndex(ids: seq<Id>, i: nat)
    requires NoDuplicates(ids) && i < |ids|
    ensures IndexOf(ids, ids[i]) == i && ids[i] !in ids[..i]
  {
  }

  // ----- the order column -----

  /** The live rows are numbered 0, 1, 2, and so on without gap or repetition. */
  ghost predicate Dense(t: Table, parent: Id) {
    && (forall c :: c in Live(t, parent) ==> 0 <= t[c].order < |Live(t, parent)|)
    && (forall c, d :: c in Live(t, parent) && d in Live(t, parent) && t[c].order == t[d].order ==> c == d)
  }

  /** The numbering depends on the live rows only. */
  lemma SameRowsDense(t: Table, t': Table, parent: Id)
    requires Live(t, parent) == Live(t', parent)
    requires forall c :: c in Live(t, parent) ==> t'[c].order == t[c].order
    ensures Dense(t', parent) <==> Dense(t, parent)
  {
  }

  lemma SameLive(t: Table, ids: seq<Id>, parent: Id)
    ensures Live(WithOrder(t, ids), parent) == Live(t, parent)
  {
  }

  lemma ReorderIsDense(t: Table, parent: Id, ids: seq<Id>)
    requires IsPermutation(ids, Live(t, parent))
    ensures Dense(WithOrder(t, ids), parent)
  {
    SameLive(t, ids, parent);
    NoDuplicatesCardinality(ids);
  }

  /** Strictly increasing numbers below the length are the positions themselves. */
  lemma {:induction false} IncreasingFill(os: seq<int>, lo: int, i: nat)
    requires i < |os| && forall k :: 0 <= k < |os| ==> lo <= os[k] < lo + |os|
    requires forall j, k :: 0 <= j < k < |os| ==> os[j] < os[k]
    ensures os[i] == lo + i
  {
    AtLeastPosition(os, lo, i);
    AtMostPosition(os, lo + |os|, i);
  }

  lemma {:induction false} AtLeastPosition(os: seq<int>, lo: int, i: nat)
    requires i < |os| && lo <= os[0]
    requires forall j, k :: 0 <= j < k < |os| ==> os[j] < os[k]
    ensures os[i] >= lo + i
  {
    if i > 0 {
      AtLeastPosition(os, lo, i - 1);
    }
  }

  lemma {:induction false} AtMostPosition(os: seq<int>, hi: int, i: nat)
    requires i < |os| && os[|os| - 1] < hi
    requires forall j, k :: 0 <= j < k < |os| ==> os[j] < os[k]
    ensures os[i] <= hi - |os| + i
    decreases |os| - i
  {
    if i < |os| - 1 {
      AtMostPosition(os, hi, i + 1);
    }
  }

  /** With dense numbers the listing is determined: position i shows the row numbered i. */
  lemma DenseListing(t: Table, parent: Id, l: seq<Id>, i: nat)
    requires Dense(t, parent) && IsListing(t, parent, l) && i < |l|
    ensures l[i] in Live(t, parent) && t[l[i]].order == i
  {
    var os := seq(|l|, k requires 0 <= k < |l| => Order(t, l[k]));
    NoDuplicatesCardinality(l);
    forall j, k | 0 <= j < k < |os|
      ensures os[j] < os[k]
    {
      assert l[j] in Elements(l) && l[k] in Elements(l);
    }
    forall k | 0 <= k < |os|
      ensures 0 <= os[k] < |os|
    {
      assert l[k] in Elements(l);
    }
    IncreasingFill(os, 0, i);
    assert l[i] in Elements(l);
  }

  /** After a reorder the only possible listing is the request itself. */
  lemma ListingAfterReorder(t: Table, parent: Id, ids: seq<Id>, l: seq<Id>)
    requires IsPermutation(ids, Live(t, parent))
    requires IsListing(WithOrder(t, ids), parent, l)
    ensures l == ids
  {
    var t' := WithOrder(t, ids);
    ReorderIsDense(t, parent, ids);
    SameLive(t, ids, parent);
    NoDuplicatesCardinality(l);
    NoDuplicatesCardinality(ids);
    forall i | 0 <= i < |l|
      ensures l[i] == ids[i]
    {
      DenseListing(t', parent, l, i);
      assert l[i] in Elements(l);
      assert t'[l[i]].order == IndexOf(ids, l[i]);
    }
  }

  /** A new row that takes the number of live rows keeps the numbering dense, and cannot repair it. */
  lemma AppendDense(t: Table, parent: Id, id: Id, row: Child)
    requires id !in t && row.parentId == parent && row.deletedAt == None && row.order == |Live(t, parent)|
    ensures Dense(t[id := row], parent) <==> Dense(t, parent)
  {
    AddLive(t, parent, id, row);
  }

  /** With dense numbers, a new module is listed last and the others keep their places. */
  lemma CreatedIsListedLast(t: Table, parent: Id, id: Id, row: Child, l: seq<Id>, l': seq<Id>)
    requires id !in t && row.parentId == parent && row.deletedAt == None && row.order == |Live(t, parent)|
    requires Dense(t, parent) && IsListing(t, parent, l) && IsListing(t[id := row], parent, l')
    ensures l' == l + [id]
  {
    var t' := t[id := row];
    AppendDense(t, parent, id, row);
    AddLive(t, parent, id, row);
    NoDuplicatesCardinality(l);
    NoDuplicatesCardinality(l');
    forall i | 0 <= i < |l'|
      ensures l'[i] == (l + [id])[i]
    {
      DenseListing(t', parent, l', i);
      if i < |l| { DenseListing(t, parent, l, i); }
    }
  }

  lemma AddLive(t: Table, parent: Id, id: Id, row: Child)
    requires id !in t && row.parentId == parent && row.deletedAt == None
    ensures Live(t[id := row], parent) == Live(t, parent) + {id} && id !in Live(t, parent)
    ensures forall c :: c in Live(t, parent) ==> t[id := row][c] == t[c] && t[c].parentId == parent
  {
  }

  /** The live rows are numbered 1, 2, and so on. */
  ghost predicate DenseFromOne(t: Table, parent: Id) {
    && (forall c :: c in Live(t, parent) ==> 1 <= t[c].order <= |Live(t, parent)|)
    && (forall c, d :: c in Live(t, parent) && d in Live(t, parent) && t[c].order == t[d].order ==> c == d)
  }

  lemma ZeroCompletes(t: Table, parent: Id, id: Id, row: Child)
    requires id !in t && row.parentId == parent && row.deletedAt == None && row.order == 0
    requires DenseFromOne(t, parent)
    ensures Dense(t[id := row], parent)
  {
    AddLive(t, parent, id, row);
  }

  lemma ZeroNeedsOthersFromOne(t: Table, parent: Id, id: Id, row: Child)
    requires id !in t && row.parentId == parent && row.deletedAt == None && row.order == 0
    requires Dense(t[id := row], parent)
    ensures DenseFromOne(t, parent)
  {
    var t' := t[id := row];
    AddLive(t, parent, id, row);
    assert t'[id].order == 0;
    forall c | c in Live(t, parent)
      ensures 1 <= t[c].order <= |Live(t, parent)|
    {
      assert c in Live(t', parent) && t'[c].order == t[c].order;
    }
  }

  /**
   * With a new row numbered 0 the numbering is dense exactly if the others count from 1; so if it was
   * dense before, exactly if there was none.
   */
  lemma ZeroDense(t: Table, parent: Id, id: Id, row: Child)
    requires id !in t && row.parentId == parent && row.deletedAt == None && row.order == 0
    ensures Dense(t[id := row], parent) <==> DenseFromOne(t, parent)
    ensures Dense(t, parent) ==> (DenseFromOne(t, parent) <==> Live(t, parent) == {})
  {
    if Dense(t[id := row], parent) { ZeroNeedsOthersFromOne(t, parent, id, row); }
    if DenseFromOne(t, parent) { ZeroCompletes(t, parent, id, row); }
    if Dense(t, parent) && Live(t, parent) != {} {
      var c := SomeFirst(t, parent);
    }
  }

  /** A non-empty dense numbering has a row numbered 0. */
  lemma SomeFirst(t: Table, parent: Id) returns (c: Id)
    requires Dense(t, parent) && Live(t, parent) != {}
    ensures c in Live(t, parent) && t[c].order == 0
  {
    var l := SomeListing(t, parent);
    NoDuplicatesCardinality(l);
    DenseListing(t, parent, l, 0);
    c := l[0];
  }

  lemma SomeListing(t: Table, parent: Id) returns (l: seq<Id>)
    ensures IsListing(t, parent, l)
  {
    l := SortIds(t, Live(t, parent));
  }

  lemma {:induction false} SortIds(t: Table, ids: set<Id>) returns (l: seq<Id>)
    ensures NoDuplicates(l) && Elements(l) == ids
    ensures forall i, j :: 0 <= i < j < |l| ==> Order(t, l[i]) <= Order(t, l[j])
    decreases ids
  {
    if ids == {} {
      l := [];
    } else {
      var last := Highest(t, ids);
      var rest := SortIds(t, ids - {last});
      l := rest + [last];
      assert forall c :: c in rest ==> c in Elements(rest);
    }
  }

  lemma {:induction false} Highest(t: Table, ids: set<Id>) returns (last: Id)
    requires ids != {}
    ensures last in ids && forall c :: c in ids ==> Order(t, c) <= Order(t, last)
    decreases ids
  {
    var c :| c in ids;
    if ids == {c} {
      last := c;
    } else {
      last := Highest(t, ids - {c});
      if Order(t, last) < Order(t, c) { last := c; }
    }
  }

  /** Deleting a row of a dense numbering leaves it dense exactly if the row was the last. */
  lemma DeleteDense(t: Table, parent: Id, id: Id, now: int)
    requires Dense(t, parent) && id in Live(t, parent)
    ensures Dense(Delete(t, {id}, now), parent) <==> t[id].order == |Live(t, parent)| - 1
  {
    var t' := Delete(t, {id}, now);
    var n := |Live(t, parent)|;
    assert Live(t', parent) == Live(t, parent) - {id};
    assert forall c :: c in Live(t', parent) ==> t'[c] == t[c];
    if t[id].order != n - 1 {
      var last := SomeLast(t, parent);
      assert last in Live(t', parent);
    }
  }

  lemma SomeLast(t: Table, parent: Id) returns (c: Id)
    requires Dense(t, parent) && Live(t, parent) != {}
    ensures c in Live(t, parent) && t[c].order == |Live(t, parent)| - 1
  {
    var l := SomeListing(t, parent);
    NoDuplicatesCardinality(l);
    DenseListing(t, parent, l, |l| - 1);
    c := l[|l| - 1];
  }
}
