/** What each operation on trails, modules and lessons does to every single row. */
module ContentEffects {
  import opened Collections
  import opened Options
  import opened Ordering
  import opened ContentStore

  /** The table has one row more, and every other row is as it was. */
  ghost predicate OneRowMore(t: Table, t': Table, id: Id, parent: Id, name: string, order: int) {
    && t'.Keys == t.Keys + {id} && t'[id] == Child(parent, name, order, None)
    && forall c :: c in t && c != id ==> t'[c] == t[c]
  }

  /** Nothing changes but that the rows that are live and fall get this time of deletion. */
  ghost predicate Deletes(t: Table, t': Table, falls: set<Id>, now: int) {
    && t'.Keys == t.Keys
    && forall c :: c in t ==>
         t'[c] == if c in falls && t[c].deletedAt == None
                  then Child(t[c].parentId, t[c].name, t[c].order, Some(now)) else t[c]
  }

  ghost function ChildrenOf(t: Table, parent: Id): set<Id> {
    set c | c in t && t[c].parentId == parent
  }

  /** The lessons of the modules of the trail, of those that are still there. */
  ghost function LessonsOfTrail(s: Store, trailId: Id): set<Id> {
    set l | l in s.lessons && s.lessons[l].parentId in s.modules
            && s.modules[s.lessons[l].parentId].deletedAt == None
            && s.modules[s.lessons[l].parentId].parentId == trailId
  }

  lemma LiveExactly(t: Table, parent: Id)
    ensures Live(t, parent) == set c | c in t && t[c].deletedAt == None && t[c].parentId == parent
  {
  }

  /** A listing holds the rows of the parent that are not deleted, each once, by their order. */
  lemma ListingExactly(t: Table, parent: Id, l: seq<Id>)
    ensures IsListing(t, parent, l) <==>
      && (forall i, j :: 0 <= i < j < |l| ==> l[i] != l[j])
      && (forall c :: c in l <==> c in t && t[c].deletedAt == None && t[c].parentId == parent)
      && (forall i, j :: 0 <= i < j < |l| ==> t[l[i]].order <= t[l[j]].order)
  {
    if IsListing(t, parent, l) {
      forall c
        ensures c in l <==> c in t && t[c].deletedAt == None && t[c].parentId == parent
      {
        assert c in Elements(l) <==> c in Live(t, parent);
      }
    }
    if forall c :: c in l <==> c in t && t[c].deletedAt == None && t[c].parentId == parent {
      assert Elements(l) == Live(t, parent);
      assert forall i :: 0 <= i < |l| ==> l[i] in l;
    }
  }

  lemma TrailCreatedExactly(s: Store, id: Id, name: string)
    ensures var s' := TrailCreated(s, id, name);
      && s'.modules == s.modules && s'.lessons == s.lessons && s'.trails.Keys == s.trails.Keys + {id}
      && (forall t :: t in s.trails ==> s'.trails[t] == s.trails[t])
      && (id !in s.trails ==> s'.trails[id] == Trail(name, None))
  {
  }

  lemma DeleteDeletes(t: Table, rows: set<Id>, falls: set<Id>, now: int)
    requires forall c :: c in t && t[c].deletedAt == None ==> (c in rows <==> c in falls)
    ensures Deletes(t, Delete(t, rows, now), falls, now)
  {
  }

  /** A trail that is there goes, with its modules and their lessons, all at one time. */
  lemma TrailDeletedExactly(s: Store, id: Id, now: int)
    ensures var s' := TrailDeleted(s, id, now);
      if id !in s.trails || s.trails[id].deletedAt != None then s' == s
      else
        && s'.trails == s.trails[id := Trail(s.trails[id].name, Some(now))]
        && Deletes(s.modules, s'.modules, ChildrenOf(s.modules, id), now)
        && Deletes(s.lessons, s'.lessons, LessonsOfTrail(s, id), now)
  {
    var modules := Live(s.modules, id);
    DeleteDeletes(s.modules, modules, ChildrenOf(s.modules, id), now);
    DeleteDeletes(s.lessons, LessonsUnder(s.lessons, modules), LessonsOfTrail(s, id), now);
  }

  /** A module is created in a trail that is there, and is numbered by the modules that are there. */
  lemma ModuleCreatedExactly(s: Store, id: Id, trailId: Id, name: string)
    ensures var s' := ModuleCreated(s, id, trailId, name);
      if trailId !in s.trails || s.trails[trailId].deletedAt != None || id in s.modules then s' == s
      else
        var there := set m | m in s.modules && s.modules[m].deletedAt == None && s.modules[m].parentId == trailId;
        && s'.trails == s.trails && s'.lessons == s.lessons
        && OneRowMore(s.modules, s'.modules, id, trailId, name, |there|)
  {
    LiveExactly(s.modules, trailId);
  }

  /** A module goes with its lessons, if it is there and in that trail. */
  lemma ModuleDeletedExactly(s: Store, id: Id, trailId: Id, now: int)
    ensures var s' := ModuleDeleted(s, id, trailId, now);
      if id !in s.modules || s.modules[id].deletedAt != None || s.modules[id].parentId != trailId then s' == s
      else
        && s'.trails == s.trails && Deletes(s.modules, s'.modules, {id}, now)
        && Deletes(s.lessons, s'.lessons, ChildrenOf(s.lessons, id), now)
  {
    DeleteDeletes(s.modules, {id}, {id}, now);
    DeleteDeletes(s.lessons, LessonsUnder(s.lessons, {id}), ChildrenOf(s.lessons, id), now);
  }

  /** A lesson is created in a module that is there and in that trail, and is numbered 0. */
  lemma LessonCreatedExactly(s: Store, id: Id, trailId: Id, moduleId: Id, name: string)
    ensures var s' := LessonCreated(s, id, trailId, moduleId, name);
      if moduleId !in s.modules || s.modules[moduleId].deletedAt != None
         || s.modules[moduleId].parentId != trailId || id in s.lessons then s' == s
      else
        && s'.trails == s.trails && s'.modules == s.modules
        && OneRowMore(s.lessons, s'.lessons, id, moduleId, name, 0)
  {
  }

  /** A lesson goes if it is there and in that module. */
  lemma LessonDeletedExactly(s: Store, id: Id, moduleId: Id, now: int)
    ensures var s' := LessonDeleted(s, id, moduleId, now);
      if id !in s.lessons || s.lessons[id].deletedAt != None || s.lessons[id].parentId != moduleId then s' == s
      else s'.trails == s.trails && s'.modules == s.modules && Deletes(s.lessons, s'.lessons, {id}, now)
  {
    DeleteDeletes(s.lessons, {id}, {id}, now);
  }

  /** Every row that is named has its place as its order, and is otherwise as it was, like all others. */
  ghost predicate Numbers(t: Table, t': Table, ids: seq<Id>) {
    && t'.Keys == t.Keys
    && (forall c :: c in t && c !in ids ==> t'[c] == t[c])
    && forall i :: 0 <= i < |ids| && ids[i] in t ==>
         t'[ids[i]] == Child(t[ids[i]].parentId, t[ids[i]].name, i, t[ids[i]].deletedAt)
  }

  lemma WithOrderNumbers(t: Table, parent: Id, ids: seq<Id>)
    requires IsPermutation(ids, Live(t, parent))
    ensures Numbers(t, WithOrder(t, ids), ids)
  {
    forall i | 0 <= i < |ids|
      ensures IndexOf(ids, ids[i]) == i
    {
      FirstIndex(ids, i);
    }
  }

  /** The ids are those of the rows of the parent that are there, each once. */
  ghost predicate NamesAll(t: Table, parent: Id, ids: seq<Id>) {
    && (forall i, j :: 0 <= i < j < |ids| ==> ids[i] != ids[j])
    && forall c :: c in ids <==> c in t && t[c].deletedAt == None && t[c].parentId == parent
  }

  lemma PermutationExactly(t: Table, parent: Id, ids: seq<Id>)
    ensures IsPermutation(ids, Live(t, parent)) <==> NamesAll(t, parent, ids)
  {
    assert forall c :: c in Elements(ids) <==> c in ids;
    if NamesAll(t, parent, ids) {
      assert Elements(ids) == Live(t, parent);
    }
  }

  /** Modules are renumbered if the trail is there and the request names all its modules once; else nothing changes. */
  lemma ModulesReorderedExactly(s: Store, trailId: Id, ids: seq<Id>)
    ensures var s' := ModulesReordered(s, trailId, ids);
      if trailId in s.trails && s.trails[trailId].deletedAt == None && NamesAll(s.modules, trailId, ids)
      then s'.trails == s.trails && s'.lessons == s.lessons && Numbers(s.modules, s'.modules, ids)
      else s' == s
  {
    PermutationExactly(s.modules, trailId, ids);
    if IsPermutation(ids, Live(s.modules, trailId)) { WithOrderNumbers(s.modules, trailId, ids); }
  }

  lemma LessonsReorderedExactly(s: Store, trailId: Id, moduleId: Id, ids: seq<Id>)
    ensures var s' := LessonsReordered(s, trailId, moduleId, ids);
      if moduleId in s.modules && s.modules[moduleId].deletedAt == None && s.modules[moduleId].parentId == trailId
         && NamesAll(s.lessons, moduleId, ids)
      then s'.trails == s.trails && s'.modules == s.modules && Numbers(s.lessons, s'.lessons, ids)
      else s' == s
  {
    PermutationExactly(s.lessons, moduleId, ids);
    if IsPermutation(ids, Live(s.lessons, moduleId)) { WithOrderNumbers(s.lessons, moduleId, ids); }
  }
}
