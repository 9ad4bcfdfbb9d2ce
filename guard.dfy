/** The `WorkspaceRoleGuard` decision: given the roles a handler requires, the
    caller, the `workspaceId` route parameter and the membership table, allow
    the request or refuse it with `Forbidden`. It only reads the table. */
module WorkspaceRoleGuard {
  import opened Common
  import opened Model

  datatype Decision = Allow | Deny(error: Error)

  /** The `@RequireWorkspaceRole` sets found on the controllers. */
  const ReadRoles: seq<Role> := [Admin, Member, Guest]
  const WriteRoles: seq<Role> := [Admin, Member]
  const AdminOnly: seq<Role> := [Admin]

  /** The handler carries a non-empty role restriction. */
  predicate RolesRequired(roles: Option<seq<Role>>)
  {
    roles.Some? && |roles.value| > 0
  }

  /** `canActivate`. `userId` is `request.user?.id` and `workspaceId` is
      `Number(request.params.workspaceId)`, `None` standing for `undefined`
      and `NaN` respectively. */
  function CanActivate(roles: Option<seq<Role>>, userId: Option<int>, workspaceId: Option<int>,
                       rows: seq<Membership>): (d: Decision)
    ensures !RolesRequired(roles) ==> d == Allow
    ensures RolesRequired(roles) && (Falsy(userId) || Falsy(workspaceId)) ==>
              d == Deny(Forbidden("Invalid workspace access"))
    ensures RolesRequired(roles) && !Falsy(userId) && !Falsy(workspaceId) &&
            (forall m :: m in rows ==> !(m.workspaceId == workspaceId.value && m.userId == userId.value)) ==>
              d == Deny(Forbidden("Not a workspace member"))
    ensures RolesRequired(roles) && !Falsy(userId) && !Falsy(workspaceId) &&
            (exists m :: m in rows && m.workspaceId == workspaceId.value && m.userId == userId.value) &&
            d.Deny? ==>
              d == Deny(Forbidden("Insufficient permissions"))
    ensures d == Allow ==>
              !RolesRequired(roles) ||
              (!Falsy(userId) && !Falsy(workspaceId) && HoldsRole(rows, workspaceId.value, userId.value, roles.value))
  {
    if !RolesRequired(roles) then Allow
    else if Falsy(userId) || Falsy(workspaceId) then Deny(Forbidden("Invalid workspace access"))
    else match FindMember(rows, workspaceId.value, userId.value)
      case None => Deny(Forbidden("Not a workspace member"))
      case Some(m) => if m.role !in roles.value then Deny(Forbidden("Insufficient permissions")) else Allow
  }

  /** Under the unique key the guard allows exactly the callers whose row for
      the workspace carries a required role. */
  lemma GuardAllowsExactly(roles: seq<Role>, user: int, ws: int, rows: seq<Membership>)
    requires UniquePairs(rows)
    requires |roles| > 0 && user != 0 && ws != 0
    ensures CanActivate(Some(roles), Some(user), Some(ws), rows) == Allow <==> HoldsRole(rows, ws, user, roles)
  {
    if HoldsRole(rows, ws, user, roles) {
      var m :| m in rows && m.workspaceId == ws && m.userId == user && m.role in roles;
      FindMemberUnique(rows, m);
    }
  }

  /** With the ADMIN-only set, the guard is the services' own `IsAdmin` check. */
  lemma AdminOnlyIsIsAdmin(user: int, ws: int, rows: seq<Membership>)
    requires user != 0 && ws != 0
    ensures CanActivate(Some(AdminOnly), Some(user), Some(ws), rows) == Allow <==> IsAdmin(rows, ws, user)
  {
    assert AdminOnly == [Admin];
  }

  /** The invite status of a row is never consulted: rewriting the status of
      any row leaves every decision as it was, so a PENDING invitee passes
      exactly as an ACCEPTED member with the same role would. */
  lemma GuardIgnoresInviteStatus(roles: Option<seq<Role>>, userId: Option<int>, workspaceId: Option<int>,
                                 rows: seq<Membership>, k: nat, status: InviteStatus)
    requires UniquePairs(rows)
    requires k < |rows|
    ensures CanActivate(roles, userId, workspaceId, rows[k := rows[k].(status := status)]) ==
            CanActivate(roles, userId, workspaceId, rows)
  {
    var rows' := rows[k := rows[k].(status := status)];
    if RolesRequired(roles) && !Falsy(userId) && !Falsy(workspaceId) {
      var ws, user := workspaceId.value, userId.value;
      assert forall i :: 0 <= i < |rows| ==>
        rows'[i].workspaceId == rows[i].workspaceId && rows'[i].userId == rows[i].userId &&
        rows'[i].role == rows[i].role;
      assert UniquePairs(rows');
      var old_, new_ := FindMember(rows, ws, user), FindMember(rows', ws, user);
      if old_.Some? {
        var i :| 0 <= i < |rows| && rows[i] == old_.value;
        assert rows'[i] in rows';
        FindMemberUnique(rows', rows'[i]);
      }
    }
  }
}
