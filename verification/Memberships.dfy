/** Guards on memberships: the last administrator of a tenant, and the limits of a plan. */
module Memberships {
  import opened Collections
  import opened Options

  type UserId = string
  type GroupId = string

  // ----- tenant members -----

  datatype TenantRole = AdminTenant | OtherRole(name: string)

  type Members = map<UserId, TenantRole>

  function Admins(m: Members): set<UserId> {
    set u | u in m && m[u] == AdminTenant
  }

  datatype Outcome = Done | NotFound | Refused

  datatype AdminOp = SetRole(user: UserId, role: TenantRole) | RemoveUser(user: UserId)

  predicate TakesAdminAway(m: Members, op: AdminOp) {
    op.user in m && m[op.user] == AdminTenant && (op.SetRole? ==> op.role != AdminTenant)
  }

  /** The guard looks only at requests of users about themselves. */
  predicate GuardRefuses(m: Members, actor: UserId, op: AdminOp) {
    TakesAdminAway(m, op) && actor == op.user && |Admins(m)| <= 1
  }

  function AfterOp(m: Members, actor: UserId, op: AdminOp): Members {
    if op.user !in m || GuardRefuses(m, actor, op) then m
    else
      match op
      case SetRole(user, role) => m[user := role]
      case RemoveUser(user) => m - {user}
  }

  /** The user is an administrator, and there is no other. */
  ghost predicate IsSoleAdmin(m: Members, u: UserId) {
    u in m && m[u] == AdminTenant && forall v :: v in m && m[v] == AdminTenant ==> v == u
  }

  lemma SoleAdminExactly(m: Members, u: UserId)
    requires u in m && m[u] == AdminTenant
    ensures IsSoleAdmin(m, u) <==> |Admins(m)| <= 1
  {
    if IsSoleAdmin(m, u) {
      assert Admins(m) == {u};
    } else {
      var v :| v in m && m[v] == AdminTenant && v != u;
      SubsetCardinality({u, v}, Admins(m));
    }
  }

  class AdminUsers {
    var members: Members

    method UpdateRole(actor: UserId, user: UserId, role: TenantRole) returns (outcome: Outcome)
      modifies this
      ensures outcome ==
              if user !in old(members) then NotFound
              else if IsSoleAdmin(old(members), user) && role != AdminTenant && actor == user then Refused else Done
      ensures members == if outcome == Done then old(members)[user := role] else old(members)
      ensures members == AfterOp(old(members), actor, SetRole(user, role))
    {
      if user !in members {
        return NotFound;
      }
      if members[user] == AdminTenant && role != AdminTenant && actor == user {
        SoleAdminExactly(members, user);
        if |Admins(members)| <= 1 {
          return Refused;
        }
      }
      members := members[user := role];
      outcome := Done;
    }

    method RemoveFromTenant(actor: UserId, user: UserId) returns (outcome: Outcome)
      modifies this
      ensures outcome == if user !in old(members) then NotFound
                         else if IsSoleAdmin(old(members), user) && actor == user then Refused else Done
      ensures members == if outcome == Done then old(members) - {user} else old(members)
      ensures members == AfterOp(old(members), actor, RemoveUser(user))
    {
      if user !in members {
        return NotFound;
      }
      if members[user] == AdminTenant && actor == user {
        SoleAdminExactly(members, user);
        if |Admins(members)| <= 1 {
          return Refused;
        }
      }
      members := members - {user};
      outcome := Done;
    }
  }

  lemma AdminsAfter(m: Members, actor: UserId, op: AdminOp)
    ensures Admins(AfterOp(m, actor, op)) ==
      if op.user !in m || GuardRefuses(m, actor, op) then Admins(m)
      else if op.SetRole? && op.role == AdminTenant then Admins(m) + {op.user}
      else Admins(m) - {op.user}
  {
  }

  /** A tenant loses its last administrator exactly when someone else takes the role from the only one. */
  lemma LastAdminLost(m: Members, actor: UserId, op: AdminOp)
    requires Admins(m) != {}
    ensures Admins(AfterOp(m, actor, op)) == {} <==>
            Admins(m) == {op.user} && actor != op.user && TakesAdminAway(m, op)
  {
    AdminsAfter(m, actor, op);
    if Admins(m) == {op.user} {
      assert |Admins(m)| == 1;
    }
    if TakesAdminAway(m, op) && actor == op.user && |Admins(m)| > 1 {
      assert |Admins(m) - {op.user}| == |Admins(m)| - 1;
    }
  }

  /** One request after another, each by a user who is an administrator at that moment. */
  ghost predicate ByAdmins(m: Members, ops: seq<(UserId, AdminOp)>)
    decreases ops
  {
    ops == [] || (ops[0].0 in Admins(m) && ByAdmins(AfterOp(m, ops[0].0, ops[0].1), ops[1..]))
  }

  function RunAdmin(m: Members, ops: seq<(UserId, AdminOp)>): Members
    decreases ops
  {
    if ops == [] then m else RunAdmin(AfterOp(m, ops[0].0, ops[0].1), ops[1..])
  }

  lemma {:induction false} AdminRemains(m: Members, ops: seq<(UserId, AdminOp)>)
    requires Admins(m) != {} && ByAdmins(m, ops)
    ensures Admins(RunAdmin(m, ops)) != {}
    decreases ops
  {
    if ops != [] {
      LastAdminLost(m, ops[0].0, ops[0].1);
      AdminRemains(AfterOp(m, ops[0].0, ops[0].1), ops[1..]);
    }
  }

  // ----- group members -----

  datatype GroupRole = Lider | Participante

  type Rows = map<(GroupId, UserId), GroupRole>

  function InGroup(rows: Rows, g: GroupId): set<(GroupId, UserId)> {
    set r | r in rows && r.0 == g
  }

  function Leaders(rows: Rows): set<(GroupId, UserId)> {
    set r | r in rows && rows[r] == Lider
  }

  /** A limit of the plan; none if the plan has no finite one. */
  type Limit = Option<nat>

  predicate Reached(count: nat, limit: Limit) {
    limit.Some? && count >= limit.value
  }

  datatype GroupOp =
    | Add(user: UserId, role: GroupRole)
    | UpdateRole(user: UserId, role: GroupRole)
    | Remove(user: UserId)

  datatype Tenant = Tenant(groups: set<GroupId>, users: set<UserId>, memberLimit: Limit, leaderLimit: Limit)

  datatype GroupOutcome = Changed | GroupNotFound | UserNotFound | AlreadyMember | LimitReached | NoMembership

  function Decide(t: Tenant, rows: Rows, g: GroupId, op: GroupOp): GroupOutcome {
    if g !in t.groups then GroupNotFound
    else
      match op
      case Add(user, role) =>
        if user !in t.users then UserNotFound
        else if (g, user) in rows then AlreadyMember
        else if Reached(|InGroup(rows, g)|, t.memberLimit) then LimitReached
        else if role == Lider && Reached(|Leaders(rows)|, t.leaderLimit) then LimitReached
        else Changed
      case UpdateRole(user, role) =>
        if (g, user) !in rows then NoMembership
        else if rows[(g, user)] == role then Changed
        else if role == Lider && Reached(|Leaders(rows)|, t.leaderLimit) then LimitReached
        else Changed
      case Remove(user) => if (g, user) !in rows then NoMembership else Changed
  }

  function RowsAfter(t: Tenant, rows: Rows, g: GroupId, op: GroupOp): Rows {
    if Decide(t, rows, g, op) != Changed then rows
    else
      match op
      case Add(user, role) => rows[(g, user) := role]
      case UpdateRole(user, role) => rows[(g, user) := role]
      case Remove(user) => rows - {(g, user)}
  }

  /** The plan has a finite limit, and the members of the group have reached it. */
  ghost predicate GroupIsFull(t: Tenant, rows: Rows, g: GroupId) {
    t.memberLimit.Some? && |set r | r in rows && r.0 == g| >= t.memberLimit.value
  }

  /** The plan has a finite limit, and the leaders of all groups together have reached it. */
  ghost predicate LeadersAreFull(t: Tenant, rows: Rows) {
    t.leaderLimit.Some? && |set r | r in rows && rows[r] == Lider| >= t.leaderLimit.value
  }

  lemma LimitsExactly(t: Tenant, rows: Rows, g: GroupId)
    ensures Reached(|InGroup(rows, g)|, t.memberLimit) <==> GroupIsFull(t, rows, g)
    ensures Reached(|Leaders(rows)|, t.leaderLimit) <==> LeadersAreFull(t, rows)
  {
    assert InGroup(rows, g) == set r | r in rows && r.0 == g;
    assert Leaders(rows) == set r | r in rows && rows[r] == Lider;
  }

  /** Whom a group takes in, and with which role. */
  lemma AddExactly(t: Tenant, rows: Rows, g: GroupId, user: UserId, role: GroupRole)
    ensures var outcome := Decide(t, rows, g, Add(user, role));
      && (outcome == GroupNotFound <==> g !in t.groups)
      && (outcome == UserNotFound <==> g in t.groups && user !in t.users)
      && (outcome == AlreadyMember <==> g in t.groups && user in t.users && (g, user) in rows)
      && (outcome == Changed <==>
            && g in t.groups && user in t.users && (g, user) !in rows
            && !GroupIsFull(t, rows, g) && (role == Lider ==> !LeadersAreFull(t, rows)))
      && outcome != NoMembership
      && RowsAfter(t, rows, g, Add(user, role)) == if outcome == Changed then rows[(g, user) := role] else rows
  {
    LimitsExactly(t, rows, g);
  }

  /** Whose role changes: only becoming a leader can meet a limit. */
  lemma ChangeRoleExactly(t: Tenant, rows: Rows, g: GroupId, user: UserId, role: GroupRole)
    ensures var outcome := Decide(t, rows, g, GroupOp.UpdateRole(user, role));
      && (outcome == GroupNotFound <==> g !in t.groups)
      && (outcome == NoMembership <==> g in t.groups && (g, user) !in rows)
      && (outcome == LimitReached <==>
            && g in t.groups && (g, user) in rows
            && rows[(g, user)] == Participante && role == Lider && LeadersAreFull(t, rows))
      && outcome != UserNotFound && outcome != AlreadyMember
      && RowsAfter(t, rows, g, GroupOp.UpdateRole(user, role))
         == if outcome == Changed then rows[(g, user) := role] else rows
  {
    LimitsExactly(t, rows, g);
  }

  /** Who leaves a group. */
  lemma RemoveExactly(t: Tenant, rows: Rows, g: GroupId, user: UserId)
    ensures var outcome := Decide(t, rows, g, Remove(user));
      && outcome == (if g !in t.groups then GroupNotFound
                     else if (g, user) !in rows then NoMembership else Changed)
      && RowsAfter(t, rows, g, Remove(user)) == if outcome == Changed then rows - {(g, user)} else rows
  {
  }

  class GroupMembers {
    const tenant: Tenant
    var rows: Rows

    constructor (t: Tenant)
      ensures tenant == t && rows == map[]
    {
      tenant, rows := t, map[];
    }

    method AddMember(g: GroupId, user: UserId, role: GroupRole) returns (outcome: GroupOutcome)
      modifies this
      ensures outcome == Decide(tenant, old(rows), g, Add(user, role))
      ensures rows == RowsAfter(tenant, old(rows), g, Add(user, role))
    {
      if g !in tenant.groups {
        return GroupNotFound;
      }
      if user !in tenant.users {
        return UserNotFound;
      }
      if (g, user) in rows {
        return AlreadyMember;
      }
      if Reached(|InGroup(rows, g)|, tenant.memberLimit) {
        return LimitReached;
      }
      if role == Lider {
        if Reached(|Leaders(rows)|, tenant.leaderLimit) {
          return LimitReached;
        }
      }
      rows := rows[(g, user) := role];
      outcome := Changed;
    }

    method ChangeRole(g: GroupId, user: UserId, role: GroupRole) returns (outcome: GroupOutcome)
      modifies this
      ensures outcome == Decide(tenant, old(rows), g, GroupOp.UpdateRole(user, role))
      ensures rows == RowsAfter(tenant, old(rows), g, GroupOp.UpdateRole(user, role))
    {
      if g !in tenant.groups {
        return GroupNotFound;
      }
      if (g, user) !in rows {
        return NoMembership;
      }
      if rows[(g, user)] == role {
        assert rows == rows[(g, user) := role];
        return Changed;
      }
      if role == Lider && Reached(|Leaders(rows)|, tenant.leaderLimit) {
        return LimitReached;
      }
      rows := rows[(g, user) := role];
      outcome := Changed;
    }

    method RemoveMember(g: GroupId, user: UserId) returns (outcome: GroupOutcome)
      modifies this
      ensures outcome == Decide(tenant, old(rows), g, Remove(user))
      ensures rows == RowsAfter(tenant, old(rows), g, Remove(user))
    {
      if g !in tenant.groups {
        return GroupNotFound;
      }
      if (g, user) !in rows {
        return NoMembership;
      }
      rows := rows - {(g, user)};
      outcome := Changed;
    }
  }

  predicate WithinLimit(count: nat, limit: Limit) {
    limit.Some? ==> count <= limit.value
  }

  /** Counts never grow past a limit, and a count that is already past it never grows. */
  lemma StepKeepsMemberLimit(t: Tenant, rows: Rows, g: GroupId, op: GroupOp, h: GroupId)
    ensures var after := |InGroup(RowsAfter(t, rows, g, op), h)|;
      after <= |InGroup(rows, h)| || WithinLimit(after, t.memberLimit)
  {
    var rows' := RowsAfter(t, rows, g, op);
    if op.Add? && rows' != rows && g == h {
      assert InGroup(rows', h) == InGroup(rows, h) + {(g, op.user)};
    } else {
      SubsetCardinality(InGroup(rows', h), InGroup(rows, h));
    }
  }

  lemma StepKeepsLeaderLimit(t: Tenant, rows: Rows, g: GroupId, op: GroupOp)
    ensures var after := |Leaders(RowsAfter(t, rows, g, op))|;
      after <= |Leaders(rows)| || WithinLimit(after, t.leaderLimit)
  {
    var rows' := RowsAfter(t, rows, g, op);
    var r := (g, op.user);
    if r in Leaders(rows') && r !in Leaders(rows) {
      assert Leaders(rows') == Leaders(rows) + {r};
    } else {
      SubsetCardinality(Leaders(rows'), Leaders(rows));
    }
  }

  function RunGroups(t: Tenant, rows: Rows, ops: seq<(GroupId, GroupOp)>): Rows {
    if ops == [] then rows
    else RowsAfter(t, RunGroups(t, rows, ops[..|ops| - 1]), ops[|ops| - 1].0, ops[|ops| - 1].1)
  }

  /** With fixed limits, a group within its member limit and a tenant within its leader limit stay so. */
  lemma {:induction false} LimitsHold(t: Tenant, rows: Rows, ops: seq<(GroupId, GroupOp)>, g: GroupId)
    ensures WithinLimit(|InGroup(rows, g)|, t.memberLimit) ==>
            WithinLimit(|InGroup(RunGroups(t, rows, ops), g)|, t.memberLimit)
    ensures WithinLimit(|Leaders(rows)|, t.leaderLimit) ==>
            WithinLimit(|Leaders(RunGroups(t, rows, ops))|, t.leaderLimit)
  {
    if ops != [] {
      var before, last := RunGroups(t, rows, ops[..|ops| - 1]), ops[|ops| - 1];
      LimitsHold(t, rows, ops[..|ops| - 1], g);
      StepKeepsMemberLimit(t, before, last.0, last.1, g);
      StepKeepsLeaderLimit(t, before, last.0, last.1);
    }
  }
}
