/** The workspace service of the root `src/` tree. It differs from the
    `backend/` one in three ways: the owner's membership gets the column's
    default status, the invitee is named by user id and nobody checks that
    such a user exists, and `listWorkspaces` adds no role (it is
    `Model.WorkspacesOf`). Its `updateMemberRole` and `listMembers` are the
    same code as the `backend/` ones (`BackendWorkspace.UpdateMemberRole`,
    `Model.MembersOf`). */
module SrcWorkspace {
  import opened Common
  import opened Model
  import opened Store

  datatype InviteMemberDto = InviteMemberDto(userId: int, role: Role)

  /** `createWorkspace`: the workspace row and the owner's ADMIN membership,
      whose status is the column default. */
  method CreateWorkspace(db: Db, userId: int, name: string, urlSlug: string) returns (w: Workspace)
    requires db.Valid()
    modifies db`workspaces, db`members, db`nextWorkspaceId, db`nextMemberId
    ensures db.Valid()
    ensures w == Workspace(old(db.nextWorkspaceId), name, urlSlug, userId)
    ensures db.nextWorkspaceId == old(db.nextWorkspaceId) + 1 && db.nextMemberId == old(db.nextMemberId) + 1
    ensures forall x :: x in old(db.workspaces) ==> x.id != w.id
    ensures db.workspaces == old(db.workspaces) + [w]
    ensures db.members == old(db.members) + [Membership(old(db.nextMemberId), w.id, userId, Admin, db.defaults.memberStatus)]
    ensures MembersOf(db.members, w.id) == [Membership(old(db.nextMemberId), w.id, userId, Admin, db.defaults.memberStatus)]
  {
    w := Workspace(db.nextWorkspaceId, name, urlSlug, userId);
    var owner := Membership(db.nextMemberId, w.id, userId, Admin, db.defaults.memberStatus);
    NewWorkspaceHasSoleMember(db.members, owner);
    db.workspaces := db.workspaces + [w];
    db.members := db.members + [owner];
    db.nextWorkspaceId := db.nextWorkspaceId + 1;
    db.nextMemberId := db.nextMemberId + 1;
  }

  /** The checks of `inviteMember` in this tree: inviter is ADMIN, then no row
      for (workspace, invitee) of any status. The invitee's existence is not
      checked; on success, the invitee id exactly as given. */
  function InviteDecision(rows: seq<Membership>, ws: int, inviterId: int, inviteeId: int): (r: Result<int>)
    ensures (forall m :: m in rows && m.workspaceId == ws && m.userId == inviterId ==> m.role != Admin) ==>
              r == Err(Forbidden("Only admins can invite members"))
    ensures IsAdmin(rows, ws, inviterId) && (exists m :: m in rows && m.workspaceId == ws && m.userId == inviteeId) ==>
              r == Err(Forbidden("User is already a member of this workspace"))
    ensures r.Ok? <==>
              IsAdmin(rows, ws, inviterId) && forall m :: m in rows ==> !(m.workspaceId == ws && m.userId == inviteeId)
    ensures r.Ok? ==> r.value == inviteeId
  {
    if !IsAdmin(rows, ws, inviterId) then Err(Forbidden("Only admins can invite members"))
    else if FindMember(rows, ws, inviteeId).Some? then Err(Forbidden("User is already a member of this workspace"))
    else Ok(inviteeId)
  }

  /** `inviteMember`: one new row (workspace, dto.userId, dto.role) with the
      column's default status on success; the table is untouched otherwise. */
  method InviteMember(db: Db, ws: int, inviterId: int, dto: InviteMemberDto) returns (r: Result<Membership>)
    requires db.Valid()
    modifies db`members, db`nextMemberId
    ensures db.Valid()
    ensures match InviteDecision(old(db.members), ws, inviterId, dto.userId)
      case Err(e) => r == Err(e) && db.members == old(db.members) && db.nextMemberId == old(db.nextMemberId)
      case Ok(_) =>
        && r == Ok(Membership(old(db.nextMemberId), ws, dto.userId, dto.role, db.defaults.memberStatus))
        && db.members == old(db.members) + [r.value]
        && db.nextMemberId == old(db.nextMemberId) + 1
  {
    var d := InviteDecision(db.members, ws, inviterId, dto.userId);
    if d.Err? {
      return Err(d.error);
    }
    var row := Membership(db.nextMemberId, ws, dto.userId, dto.role, db.defaults.memberStatus);
    AppendKeepsUnique(db.members, row);
    db.members := db.members + [row];
    db.nextMemberId := db.nextMemberId + 1;
    r := Ok(row);
  }

  /** After a successful invite, inviting the same user to the same workspace
      again is refused: the row just added blocks it, whatever its status. */
  lemma {:induction false} ReinviteRefused(rows: seq<Membership>, ws: int, inviterId: int, row: Membership)
    requires InviteDecision(rows, ws, inviterId, row.userId).Ok?
    requires row.workspaceId == ws
    ensures InviteDecision(rows + [row], ws, inviterId, row.userId) == Err(Forbidden("User is already a member of this workspace"))
  {
    FindMemberAppend(rows, row, ws, inviterId);
    assert row in rows + [row];
  }
}
