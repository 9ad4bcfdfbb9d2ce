/** The workspace service of the `backend/` tree: creating a workspace with its
    owner as ADMIN, listing a user's workspaces with the user's role, inviting
    a registered user by email, and changing a member's role. */
module BackendWorkspace {
  import opened Common
  import opened Model
  import opened Store

  datatype InviteMemberDto = InviteMemberDto(email: string, role: Role)

  /** A workspace as `listWorkspaces` returns it: the row and the caller's role. */
  datatype WorkspaceWithRole = WorkspaceWithRole(workspace: Workspace, role: Role)

  /** `user.findUnique({ where: { email } })`. */
  function FindUserByEmail(users: seq<User>, email: string): (r: Option<User>)
    ensures r.Some? ==> r.value in users && r.value.email == email
    ensures r.None? <==> forall u :: u in users ==> u.email != email
  {
    Find(users, (u: User) => u.email == email)
  }

  /** `createWorkspace`: the workspace row and, in the same nested write, the
      owner's ADMIN/ACCEPTED membership. The new workspace has the owner as its
      one and only member. */
  method CreateWorkspace(db: Db, ownerId: int, name: string, urlSlug: string) returns (w: Workspace)
    requires db.Valid()
    modifies db`workspaces, db`members, db`nextWorkspaceId, db`nextMemberId
    ensures db.Valid()
    ensures w == Workspace(old(db.nextWorkspaceId), name, urlSlug, ownerId)
    ensures db.nextWorkspaceId == old(db.nextWorkspaceId) + 1 && db.nextMemberId == old(db.nextMemberId) + 1
    ensures forall x :: x in old(db.workspaces) ==> x.id != w.id
    ensures db.workspaces == old(db.workspaces) + [w]
    ensures db.members == old(db.members) + [Membership(old(db.nextMemberId), w.id, ownerId, Admin, Accepted)]
    ensures MembersOf(db.members, w.id) == [Membership(old(db.nextMemberId), w.id, ownerId, Admin, Accepted)]
  {
    w := Workspace(db.nextWorkspaceId, name, urlSlug, ownerId);
    var owner := Membership(db.nextMemberId, w.id, ownerId, Admin, Accepted);
    NewWorkspaceHasSoleMember(db.members, owner);
    db.workspaces := db.workspaces + [w];
    db.members := db.members + [owner];
    db.nextWorkspaceId := db.nextWorkspaceId + 1;
    db.nextMemberId := db.nextMemberId + 1;
  }

  /** `listWorkspaces`: the workspaces in which the user has a row, each with
      the role of that row. The `'MEMBER'` fallback of the source is never
      taken, since every listed workspace has such a row. */
  function ListWorkspaces(workspaces: seq<Workspace>, rows: seq<Membership>, user: int): (r: seq<WorkspaceWithRole>)
    ensures forall v :: v in r ==>
      v.workspace in workspaces &&
      exists m :: m in rows && m.workspaceId == v.workspace.id && m.userId == user && m.role == v.role
    ensures forall w, m :: w in workspaces && m in rows && m.workspaceId == w.id && m.userId == user ==>
      exists v :: v in r && v.workspace == w
  {
    var mine := WorkspacesOf(workspaces, rows, user);
    var annotate := (w: Workspace) =>
      WorkspaceWithRole(w, match FindMember(rows, w.id, user) case Some(m) => m.role case None => Member);
    var r := MapSeq(mine, annotate);
    assert forall w :: w in mine ==> annotate(w) in r && annotate(w).workspace == w;
    r
  }

  /** Under the unique key, the role shown for a workspace is the user's one row's role. */
  lemma ListedRoleIsOwnRole(workspaces: seq<Workspace>, rows: seq<Membership>, user: int, v: WorkspaceWithRole, m: Membership)
    requires UniquePairs(rows)
    requires v in ListWorkspaces(workspaces, rows, user)
    requires m in rows && m.workspaceId == v.workspace.id && m.userId == user
    ensures v.role == m.role
  {
    var m' :| m' in rows && m'.workspaceId == v.workspace.id && m'.userId == user && m'.role == v.role;
    FindMemberUnique(rows, m);
    FindMemberUnique(rows, m');
  }

  /** The checks of `inviteMember`, in the source's order; on success, the id
      of the user to add. */
  function InviteDecision(rows: seq<Membership>, users: seq<User>, ws: int, inviterId: int, email: string): (r: Result<int>)
    ensures !IsAdmin(rows, ws, inviterId) ==> r == Err(Forbidden("Only admins can invite members"))
    ensures (forall m :: m in rows && m.workspaceId == ws && m.userId == inviterId ==> m.role != Admin) ==>
              r == Err(Forbidden("Only admins can invite members"))
    ensures IsAdmin(rows, ws, inviterId) && (forall u :: u in users ==> u.email != email) ==>
              r == Err(NotFound("User with this email does not exist"))
    ensures IsAdmin(rows, ws, inviterId) && FindUserByEmail(users, email).Some? &&
            (exists m :: m in rows && m.workspaceId == ws && m.userId == FindUserByEmail(users, email).value.id) ==>
              r == Err(Forbidden("User is already a member of this workspace"))
    ensures IsAdmin(rows, ws, inviterId) && FindUserByEmail(users, email).Some? &&
            FindMember(rows, ws, FindUserByEmail(users, email).value.id).None? ==>
              r == Ok(FindUserByEmail(users, email).value.id)
    ensures r.Ok? ==>
              && (exists m :: m in rows && m.workspaceId == ws && m.userId == inviterId && m.role == Admin)
              && (exists u :: u in users && u.email == email && u.id == r.value)
              && (forall m :: m in rows ==> !(m.workspaceId == ws && m.userId == r.value))
  {
    if !IsAdmin(rows, ws, inviterId) then Err(Forbidden("Only admins can invite members"))
    else match FindUserByEmail(users, email)
      case None => Err(NotFound("User with this email does not exist"))
      case Some(u) =>
        if FindMember(rows, ws, u.id).Some? then Err(Forbidden("User is already a member of this workspace"))
        else Ok(u.id)
  }

  /** `inviteMember`: on success exactly one row is added, for the invitee,
      with the requested role and the column's default status; on any failure
      the table is untouched. */
  method InviteMember(db: Db, ws: int, inviterId: int, dto: InviteMemberDto) returns (r: Result<Membership>)
    requires db.Valid()
    modifies db`members, db`nextMemberId
    ensures db.Valid()
    ensures match InviteDecision(old(db.members), db.users, ws, inviterId, dto.email)
      case Err(e) => r == Err(e) && db.members == old(db.members) && db.nextMemberId == old(db.nextMemberId)
      case Ok(invitee) =>
        && r == Ok(Membership(old(db.nextMemberId), ws, invitee, dto.role, db.defaults.memberStatus))
        && db.members == old(db.members) + [r.value]
        && db.nextMemberId == old(db.nextMemberId) + 1
  {
    var d := InviteDecision(db.members, db.users, ws, inviterId, dto.email);
    if d.Err? {
      return Err(d.error);
    }
    var row := Membership(db.nextMemberId, ws, d.value, dto.role, db.defaults.memberStatus);
    AppendKeepsUnique(db.members, row);
    db.members := db.members + [row];
    db.nextMemberId := db.nextMemberId + 1;
    r := Ok(row);
  }

  /** The checks of `updateMemberRole`: the updater must be an ADMIN of the
      workspace, then the target row must exist (the store's `update` throws
      otherwise); on success, the target row. */
  function RoleUpdateDecision(rows: seq<Membership>, ws: int, targetId: int, updaterId: int): (r: Result<Membership>)
    ensures !IsAdmin(rows, ws, updaterId) ==> r == Err(Forbidden("Only admins can update roles"))
    ensures (forall m :: m in rows && m.workspaceId == ws && m.userId == updaterId ==> m.role != Admin) ==>
              r == Err(Forbidden("Only admins can update roles"))
    ensures IsAdmin(rows, ws, updaterId) && FindMember(rows, ws, targetId).Some? ==>
              r == Ok(FindMember(rows, ws, targetId).value)
    ensures IsAdmin(rows, ws, updaterId) && (forall m :: m in rows ==> !(m.workspaceId == ws && m.userId == targetId)) ==>
              r == Err(RecordNotFound("Record to update not found"))
    ensures r.Ok? ==>
              && (exists m :: m in rows && m.workspaceId == ws && m.userId == updaterId && m.role == Admin)
              && r.value in rows && r.value.workspaceId == ws && r.value.userId == targetId
  {
    if !IsAdmin(rows, ws, updaterId) then Err(Forbidden("Only admins can update roles"))
    else match FindMember(rows, ws, targetId)
      case None => Err(RecordNotFound("Record to update not found"))
      case Some(t) => Ok(t)
  }

  /** `updateMemberRole` (the same in both source trees): only the target
      row's role changes; see `Model.SetRoleEffect`. */
  method UpdateMemberRole(db: Db, ws: int, targetId: int, updaterId: int, role: Role) returns (r: Result<Membership>)
    requires db.Valid()
    modifies db`members
    ensures db.Valid()
    ensures match RoleUpdateDecision(old(db.members), ws, targetId, updaterId)
      case Err(e) => r == Err(e) && db.members == old(db.members)
      case Ok(t) => r == Ok(t.(role := role)) && db.members == SetRole(old(db.members), ws, targetId, role)
  {
    var d := RoleUpdateDecision(db.members, ws, targetId, updaterId);
    if d.Err? {
      return Err(d.error);
    }
    SetRoleEffect(db.members, d.value, role);
    db.members := SetRole(db.members, ws, targetId, role);
    r := Ok(d.value.(role := role));
  }
}
