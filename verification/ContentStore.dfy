/** Trails, modules and lessons with cascading soft delete, for one tenant. */
module ContentStore {
  import opened Collections
  import opened Options
  import opened Ordering

  datatype Trail = Trail(name: string, deletedAt: Option<int>)

  datatype Store = Store(trails: map<Id, Trail>, modules: Table, lessons: Table)

  predicate TrailLive(s: Store, id: Id) {
    id in s.trails && s.trails[id].deletedAt.None?
  }

  predicate ModuleLive(s: Store, id: Id) {
    id in s.modules && s.modules[id].deletedAt.None?
  }

  // ----- the operations as functions of the tables -----

  /** The live lessons of any of the modules. */
  function LessonsUnder(lessons: Table, modules: set<Id>): set<Id> {
    set l | l in lessons && lessons[l].deletedAt.None? && lessons[l].parentId in modules
  }

  function TrailCreated(s: Store, id: Id, name: string): Store {
    if id in s.trails then s else s.(trails := s.trails[id := Trail(name, None)])
  }

  function TrailDeleted(s: Store, id: Id, now: int): Store {
    if !TrailLive(s, id) then s
    else
      var modules := Live(s.modules, id);
      Store(s.trails[id := s.trails[id].(deletedAt := Some(now))],
            Delete(s.modules, modules, now),
            Delete(s.lessons, LessonsUnder(s.lessons, modules), now))
  }

  function ModuleCreated(s: Store, id: Id, trailId: Id, name: string): Store {
    if !TrailLive(s, trailId) || id in s.modules then s
    else s.(modules := s.modules[id := Child(trailId, name, |Live(s.modules, trailId)|, None)])
  }

  function ModuleDeleted(s: Store, id: Id, trailId: Id, now: int): Store {
    if !IsLive(s.modules, id, trailId) then s
    else Store(s.trails, Delete(s.modules, {id}, now), Delete(s.lessons, LessonsUnder(s.lessons, {id}), now))
  }

  function LessonCreated(s: Store, id: Id, trailId: Id, moduleId: Id, name: string): Store {
    if !IsLive(s.modules, moduleId, trailId) || id in s.lessons then s
    else s.(lessons := s.lessons[id := Child(moduleId, name, 0, None)])
  }

  function LessonDeleted(s: Store, id: Id, moduleId: Id, now: int): Store {
    if !IsLive(s.lessons, id, moduleId) then s else s.(lessons := Delete(s.lessons, {id}, now))
  }

  /** What a request would do that also checked that the module lies in the trail. */
  function LessonDeletedInTrail(s: Store, id: Id, trailId: Id, moduleId: Id, now: int): Store {
    if !IsLive(s.modules, moduleId, trailId) then s else LessonDeleted(s, id, moduleId, now)
  }

  /** Not checking makes a difference exactly if the lesson is found and its module is not a live one of the trail. */
  lemma DeleteIgnoresTrail(s: Store, id: Id, trailId: Id, moduleId: Id, now: int)
    ensures LessonDeleted(s, id, moduleId, now) == LessonDeletedInTrail(s, id, trailId, moduleId, now)
            <==> (IsLive(s.lessons, id, moduleId) ==> IsLive(s.modules, moduleId, trailId))
  {
    if IsLive(s.lessons, id, moduleId) {
      assert id in LessonDeleted(s, id, moduleId, now).lessons;
      assert LessonDeleted(s, id, moduleId, now).lessons[id].deletedAt.Some?;
    }
  }

  ghost function ModulesReordered(s: Store, trailId: Id, ids: seq<Id>): Store {
    if TrailLive(s, trailId) && IsPermutation(ids, Live(s.modules, trailId))
    then s.(modules := WithOrder(s.modules, ids)) else s
  }

  ghost function LessonsReordered(s: Store, trailId: Id, moduleId: Id, ids: seq<Id>): Store {
    if IsLive(s.modules, moduleId, trailId) && IsPermutation(ids, Live(s.lessons, moduleId))
    then s.(lessons := WithOrder(s.lessons, ids)) else s
  }

  // ----- the repository behind the service -----

  datatype ReorderOutcome = NotFound | Unprocessable(error: ReorderError) | Listed(ids: seq<Id>)

  class ContentRepository {
    var trails: map<Id, Trail>
    var modules: Table
    var lessons: Table

    constructor ()
      ensures State() == Store(map[], map[], map[])
    {
      trails, modules, lessons := map[], map[], map[];
    }

    ghost function State(): Store
      reads this
    {
      Store(trails, modules, lessons)
    }

    method CreateTrail(id: Id, name: string)
      modifies this
      ensures State() == TrailCreated(old(State()), id, name)
    {
      if id !in trails {
        trails := trails[id := Trail(name, None)];
      }
    }

    method SoftDeleteTrail(id: Id, now: int) returns (found: bool)
      modifies this
      ensures found == TrailLive(old(State()), id)
      ensures State() == TrailDeleted(old(State()), id, now)
    {
      found := id in trails && trails[id].deletedAt.None?;
      if !found {
        return;
      }
      var affected := Live(modules, id);
      var todo := affected;
      while todo != {}
        invariant todo <= affected && trails == old(trails) && modules == old(modules)
        invariant lessons == Delete(old(lessons), LessonsUnder(old(lessons), affected - todo), now)
        decreases todo
      {
        var mod :| mod in todo;
        DeleteTwice(old(lessons), affected - todo, mod, now);
        lessons := Delete(lessons, Live(lessons, mod), now);
        todo := todo - {mod};
        assert affected - todo == affected - (todo + {mod}) + {mod};
      }
      assert affected - todo == affected;
      modules := Delete(modules, affected, now);
      trails := trails[id := trails[id].(deletedAt := Some(now))];
    }

    /** The service numbers a new module with the count of live ones. */
    method CreateModule(id: Id, trailId: Id, name: string) returns (created: bool)
      modifies this
      ensures created == (TrailLive(old(State()), trailId) && id !in old(modules))
      ensures State() == ModuleCreated(old(State()), id, trailId, name)
    {
      var count := |Live(modules, trailId)|;
      created := trailId in trails && trails[trailId].deletedAt.None? && id !in modules;
      if created {
        modules := modules[id := Child(trailId, name, count, None)];
      }
    }

    method SoftDeleteModule(id: Id, trailId: Id, now: int) returns (found: bool)
      modifies this
      ensures found == IsLive(old(modules), id, trailId)
      ensures State() == ModuleDeleted(old(State()), id, trailId, now)
    {
      found := IsLive(modules, id, trailId);
      if found {
        lessons := Delete(lessons, Live(lessons, id), now);
        modules := Delete(modules, {id}, now);
        assert Live(old(lessons), id) == LessonsUnder(old(lessons), {id});
      }
    }

    /** The service numbers every new lesson 0. */
    method CreateLesson(id: Id, trailId: Id, moduleId: Id, name: string) returns (created: bool)
      modifies this
      ensures created == (IsLive(old(modules), moduleId, trailId) && id !in old(lessons))
      ensures State() == LessonCreated(old(State()), id, trailId, moduleId, name)
    {
      created := IsLive(modules, moduleId, trailId) && id !in lessons;
      if created {
        lessons := lessons[id := Child(moduleId, name, 0, None)];
      }
    }

    method SoftDeleteLesson(id: Id, moduleId: Id, now: int) returns (found: bool)
      modifies this
      ensures found == IsLive(old(lessons), id, moduleId)
      ensures State() == LessonDeleted(old(State()), id, moduleId, now)
    {
      found := IsLive(lessons, id, moduleId);
      if found {
        lessons := Delete(lessons, {id}, now);
      }
    }

    /** The request of the service, which names the trail as well. */
    method DeleteLesson(trailId: Id, moduleId: Id, id: Id, now: int) returns (found: bool)
      modifies this
      ensures found == IsLive(old(lessons), id, moduleId)
      ensures State() == LessonDeleted(old(State()), id, moduleId, now)
      ensures State() == LessonDeletedInTrail(old(State()), id, trailId, moduleId, now)
              <==> (found ==> IsLive(old(modules), moduleId, trailId))
    {
      DeleteIgnoresTrail(State(), id, trailId, moduleId, now);
      found := SoftDeleteLesson(id, moduleId, now);
    }

    method ReorderModules(trailId: Id, ids: seq<Id>) returns (r: ReorderOutcome)
      modifies this
      ensures State() == ModulesReordered(old(State()), trailId, ids)
      ensures r.Listed? <==> TrailLive(old(State()), trailId) && IsPermutation(ids, Live(old(modules), trailId))
      ensures r.NotFound? <==> !TrailLive(old(State()), trailId)
      ensures r.Listed? ==> r.ids == ids
    {
      if !(trailId in trails && trails[trailId].deletedAt.None?) {
        return NotFound;
      }
      var result := Reorder(modules, trailId, ids);
      match result
      case Rejected(error) => return Unprocessable(error);
      case Reordered(table) =>
        modules := table;
        SameLive(old(modules), ids, trailId);
        var listed := List(modules, trailId);
        ListingAfterReorder(old(modules), trailId, ids, listed);
        return Listed(listed);
    }

    method ReorderLessons(trailId: Id, moduleId: Id, ids: seq<Id>) returns (r: ReorderOutcome)
      modifies this
      ensures State() == LessonsReordered(old(State()), trailId, moduleId, ids)
      ensures r.Listed? <==> IsLive(old(modules), moduleId, trailId) && IsPermutation(ids, Live(old(lessons), moduleId))
      ensures r.NotFound? <==> !IsLive(old(modules), moduleId, trailId)
      ensures r.Listed? ==> r.ids == ids
    {
      if !IsLive(modules, moduleId, trailId) {
        return NotFound;
      }
      var result := Reorder(lessons, moduleId, ids);
      match result
      case Rejected(error) => return Unprocessable(error);
      case Reordered(table) =>
        lessons := table;
        SameLive(old(lessons), ids, moduleId);
        var listed := List(lessons, moduleId);
        ListingAfterReorder(old(lessons), moduleId, ids, listed);
        return Listed(listed);
    }
  }

  lemma DeleteTwice(lessons: Table, done: set<Id>, mod: Id, now: int)
    ensures var before := Delete(lessons, LessonsUnder(lessons, done), now);
      Delete(before, Live(before, mod), now) == Delete(lessons, LessonsUnder(lessons, done + {mod}), now)
  {
  }

  // ----- runs -----

  datatype Op =
    | CreateTrail(id: Id, name: string)
    | DeleteTrail(id: Id, now: int)
    | CreateModule(id: Id, trailId: Id, name: string)
    | DeleteModule(id: Id, trailId: Id, now: int)
    | ReorderModules(trailId: Id, ids: seq<Id>)
    | CreateLesson(id: Id, trailId: Id, moduleId: Id, name: string)
    | DeleteLesson(id: Id, moduleId: Id, now: int)
    | ReorderLessons(trailId: Id, moduleId: Id, ids: seq<Id>)

  ghost function Apply(s: Store, op: Op): Store {
    match op
    case CreateTrail(id, name) => TrailCreated(s, id, name)
    case DeleteTrail(id, now) => TrailDeleted(s, id, now)
    case CreateModule(id, trailId, name) => ModuleCreated(s, id, trailId, name)
    case DeleteModule(id, trailId, now) => ModuleDeleted(s, id, trailId, now)
    case ReorderModules(trailId, ids) => ModulesReordered(s, trailId, ids)
    case CreateLesson(id, trailId, moduleId, name) => LessonCreated(s, id, trailId, moduleId, name)
    case DeleteLesson(id, moduleId, now) => LessonDeleted(s, id, moduleId, now)
    case ReorderLessons(trailId, moduleId, ids) => LessonsReordered(s, trailId, moduleId, ids)
  }

  ghost function Run(s: Store, ops: seq<Op>): Store {
    if ops == [] then s else Apply(Run(s, ops[..|ops| - 1]), ops[|ops| - 1])
  }

  /** A live lesson sits under a live module, and a live module under a live trail. */
  ghost predicate Hierarchy(s: Store) {
    && (forall l :: l in s.lessons && s.lessons[l].deletedAt.None? ==> ModuleLive(s, s.lessons[l].parentId))
    && (forall m :: m in s.modules && s.modules[m].deletedAt.None? ==> TrailLive(s, s.modules[m].parentId))
  }

  lemma StepKeepsHierarchy(s: Store, op: Op)
    requires Hierarchy(s)
    ensures Hierarchy(Apply(s, op))
  {
  }

  lemma {:induction false} RunKeepsHierarchy(ops: seq<Op>)
    ensures Hierarchy(Run(Store(map[], map[], map[]), ops))
  {
    if ops != [] {
      RunKeepsHierarchy(ops[..|ops| - 1]);
      StepKeepsHierarchy(Run(Store(map[], map[], map[]), ops[..|ops| - 1]), ops[|ops| - 1]);
    }
  }

  /** Deleting a trail deletes exactly what hangs under it and was live, and leaves every other row alone. */
  lemma TrailDeletionExact(s: Store, id: Id, now: int)
    requires Hierarchy(s) && TrailLive(s, id)
    ensures var s' := TrailDeleted(s, id, now);
      && s'.trails == s.trails[id := s.trails[id].(deletedAt := Some(now))]
      && s'.modules.Keys == s.modules.Keys && s'.lessons.Keys == s.lessons.Keys
      && (forall m :: m in s.modules ==>
            s'.modules[m] == (if s.modules[m].parentId == id then Dead(s.modules[m], now) else s.modules[m]))
      && (forall l :: l in s.lessons && s.lessons[l].parentId in s.modules ==>
            s'.lessons[l] ==
            (if s.modules[s.lessons[l].parentId].parentId == id then Dead(s.lessons[l], now) else s.lessons[l]))
  {
  }

  /** The row with a deletion time, the one it has or else the given one. */
  function Dead(c: Child, now: int): Child {
    if c.deletedAt.Some? then c else c.(deletedAt := Some(now))
  }

  /** Rows stay, under the same parent and name, and a deletion time once written stays as it is. */
  ghost predicate TableGrows(t: Table, t': Table) {
    forall c :: c in t ==>
      && c in t' && t'[c].parentId == t[c].parentId && t'[c].name == t[c].name
      && (t[c].deletedAt.Some? ==> t'[c] == t[c])
  }

  ghost predicate NothingRevived(s: Store, s': Store) {
    && (forall t :: t in s.trails ==> t in s'.trails && (s.trails[t].deletedAt.Some? ==> s'.trails[t] == s.trails[t]))
    && TableGrows(s.modules, s'.modules) && TableGrows(s.lessons, s'.lessons)
  }

  lemma DeleteGrows(t: Table, ids: set<Id>, now: int)
    ensures TableGrows(t, Delete(t, ids, now))
  {
  }

  lemma ReorderGrows(t: Table, parent: Id, ids: seq<Id>)
    requires IsPermutation(ids, Live(t, parent))
    ensures TableGrows(t, WithOrder(t, ids))
  {
    assert forall c :: c in ids <==> c in Elements(ids);
  }

  predicate IsDeletion(op: Op) {
    op.DeleteTrail? || op.DeleteModule? || op.DeleteLesson?
  }

  lemma DeletionRevivesNothing(s: Store, op: Op)
    requires IsDeletion(op)
    ensures NothingRevived(s, Apply(s, op))
  {
    match op
    case DeleteTrail(id, now) =>
      DeleteGrows(s.modules, Live(s.modules, id), now);
      DeleteGrows(s.lessons, LessonsUnder(s.lessons, Live(s.modules, id)), now);
    case DeleteModule(id, _, now) =>
      DeleteGrows(s.modules, {id}, now);
      DeleteGrows(s.lessons, LessonsUnder(s.lessons, {id}), now);
    case DeleteLesson(id, _, now) =>
      DeleteGrows(s.lessons, {id}, now);
  }

  lemma StepRevivesNothing(s: Store, op: Op)
    ensures NothingRevived(s, Apply(s, op))
  {
    if IsDeletion(op) {
      DeletionRevivesNothing(s, op);
    } else {
      match op
      case ReorderModules(trailId, ids) =>
        if IsPermutation(ids, Live(s.modules, trailId)) { ReorderGrows(s.modules, trailId, ids); }
      case ReorderLessons(_, moduleId, ids) =>
        if IsPermutation(ids, Live(s.lessons, moduleId)) { ReorderGrows(s.lessons, moduleId, ids); }
      case _ =>
    }
  }

  lemma {:induction false} RunRevivesNothing(s: Store, ops: seq<Op>)
    ensures NothingRevived(s, Run(s, ops))
  {
    if ops != [] {
      RunRevivesNothing(s, ops[..|ops| - 1]);
      StepRevivesNothing(Run(s, ops[..|ops| - 1]), ops[|ops| - 1]);
    }
  }

  // ----- the numbering over runs -----

  ghost predicate DeletesModuleOf(op: Op, trailId: Id) {
    op.DeleteModule? && op.trailId == trailId
  }

  lemma StepKeepsDense(s: Store, op: Op, trailId: Id)
    requires Hierarchy(s) && Dense(s.modules, trailId) && !DeletesModuleOf(op, trailId)
    ensures Dense(Apply(s, op).modules, trailId)
  {
    var t, t' := s.modules, Apply(s, op).modules;
    if op.DeleteTrail? && op.id == trailId && TrailLive(s, trailId) {
      assert Live(t', trailId) == {};
    } else if op.CreateModule? && op.trailId == trailId && t' != t {
      AppendDense(t, trailId, op.id, t'[op.id]);
    } else if op.ReorderModules? && op.trailId == trailId && t' != t {
      ReorderIsDense(t, trailId, op.ids);
    } else {
      OtherOpKeepsRows(s, op, trailId);
      SameRowsDense(t, t', trailId);
    }
  }

  /** An operation on another trail, or none on modules, leaves this trail's live modules alone. */
  lemma OtherOpKeepsRows(s: Store, op: Op, trailId: Id)
    requires Hierarchy(s) && !DeletesModuleOf(op, trailId)
    requires op.DeleteTrail? ==> op.id != trailId || !TrailLive(s, trailId)
    requires (op.CreateModule? || op.ReorderModules?) && op.trailId == trailId ==> Apply(s, op).modules == s.modules
    ensures Live(Apply(s, op).modules, trailId) == Live(s.modules, trailId)
    ensures forall c :: c in Live(s.modules, trailId) ==> Apply(s, op).modules[c] == s.modules[c]
  {
    if op.ReorderModules? {
      assert forall c :: c in op.ids <==> c in Elements(op.ids);
    }
  }

  /** From a dense numbering, and as long as no module of the trail is deleted, the numbering stays dense. */
  lemma {:induction false} RunKeepsDense(s: Store, ops: seq<Op>, trailId: Id)
    requires Hierarchy(s) && Dense(s.modules, trailId)
    requires forall i :: 0 <= i < |ops| ==> !DeletesModuleOf(ops[i], trailId)
    ensures Hierarchy(Run(s, ops)) && Dense(Run(s, ops).modules, trailId)
  {
    if ops != [] {
      RunKeepsDense(s, ops[..|ops| - 1], trailId);
      StepKeepsHierarchy(Run(s, ops[..|ops| - 1]), ops[|ops| - 1]);
      StepKeepsDense(Run(s, ops[..|ops| - 1]), ops[|ops| - 1], trailId);
    }
  }
}
