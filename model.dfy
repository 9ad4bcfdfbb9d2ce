/** The rows of the relational schema every service works on, and the queries
    on the membership table (composite key `workspaceId_userId`) that the
    guard and every service repeat. */
module Model {
  import opened Common

  datatype Role = Admin | Member | Guest

  datatype InviteStatus = Pending | Accepted

  datatype User = User(id: int, email: string)

  datatype Workspace = Workspace(id: int, name: string, urlSlug: string, ownerId: int)

  datatype Membership = Membership(id: int, workspaceId: int, userId: int, role: Role, status: InviteStatus)

  datatype Project = Project(id: string, workspaceId: int, name: string, key: string, description: Option<string>)

  datatype SprintStatus = Pending | Active | Completed

  /** Dates are opaque instants (`Option` for the nullable columns). */
  datatype Sprint = Sprint(id: int, projectId: string, name: string, status: SprintStatus,
                           startDate: Option<int>, endDate: Option<int>)

  datatype IssueType = Bug | Feature | Task

  datatype IssuePriority = Low | Medium | High | Critical

  datatype IssueStatus = Todo | InProgress | Done

  /** `listPosition` is a float in the schema; only its order matters here, so it is an `int`. */
  datatype Issue = Issue(id: int, projectId: string, workspaceId: int, ticketNumber: int,
                         title: string, description: Option<string>, kind: IssueType,
                         priority: IssuePriority, status: IssueStatus, sprintId: Option<int>,
                         assigneeId: Option<int>, reporterId: int, listPosition: int)

  datatype Comment = Comment(id: int, issueId: int, userId: int, content: string, createdAt: int)

  /** Column defaults of the schema that the services rely on without setting them. */
  datatype Defaults = Defaults(memberStatus: InviteStatus, issueStatus: IssueStatus, listPosition: int)

  /** The primary keys, and the per-project ticket key, as columns. */
  function WorkspaceKey(w: Workspace): int { w.id }
  function ProjectKey(p: Project): string { p.id }
  function SprintKey(s: Sprint): int { s.id }
  function IssueKey(i: Issue): int { i.id }
  function CommentKey(c: Comment): int { c.id }
  function TicketKey(i: Issue): (string, int) { (i.projectId, i.ticketNumber) }

  /** The `name` of an included `workspace` relation (`None` when no row has the id). */
  function WorkspaceName(workspaces: seq<Workspace>, ws: int): (r: Option<string>)
    ensures r.Some? ==> exists w :: w in workspaces && w.id == ws && w.name == r.value
    ensures r.None? <==> forall w :: w in workspaces ==> w.id != ws
  {
    match FindByKey(workspaces, WorkspaceKey, ws)
    case None => None
    case Some(w) => Some(w.name)
  }

  /** The `name` of an included `project` relation (`None` when no row has the id). */
  function ProjectName(projects: seq<Project>, pid: string): (r: Option<string>)
    ensures r.Some? ==> exists p :: p in projects && p.id == pid && p.name == r.value
    ensures r.None? <==> forall p :: p in projects ==> p.id != pid
  {
    match FindByKey(projects, ProjectKey, pid)
    case None => None
    case Some(p) => Some(p.name)
  }

  /** JavaScript truthiness of a numeric input: `undefined`, `null`, `NaN` and `0` are falsy. */
  predicate Falsy(x: Option<int>)
  {
    x.None? || x.value == 0
  }

  /** `workspaceMember.findUnique({ where: { workspaceId_userId } })`. */
  function FindMember(rows: seq<Membership>, ws: int, user: int): (r: Option<Membership>)
    ensures r.Some? ==> r.value in rows && r.value.workspaceId == ws && r.value.userId == user
    ensures r.None? <==> forall m :: m in rows ==> !(m.workspaceId == ws && m.userId == user)
  {
    Find(rows, (m: Membership) => m.workspaceId == ws && m.userId == user)
  }

  /** The unique constraint on (workspaceId, userId): no two rows share a pair. */
  ghost predicate UniquePairs(rows: seq<Membership>)
  {
    forall i, j ::
      (0 <= i < |rows| && 0 <= j < |rows| &&
       rows[i].workspaceId == rows[j].workspaceId && rows[i].userId == rows[j].userId) ==> i == j
  }

  /** Under the unique key, the lookup returns the one row that holds the pair. */
  lemma FindMemberUnique(rows: seq<Membership>, m: Membership)
    requires UniquePairs(rows)
    requires m in rows
    ensures FindMember(rows, m.workspaceId, m.userId) == Some(m)
  {
    var r := FindMember(rows, m.workspaceId, m.userId);
    var j :| 0 <= j < |rows| && rows[j] == m;
    var i :| 0 <= i < |rows| && rows[i] == r.value;
  }

  /** Appending a row for a pair that had none keeps the key unique. */
  lemma AppendKeepsUnique(rows: seq<Membership>, m: Membership)
    requires UniquePairs(rows)
    requires forall x :: x in rows ==> !(x.workspaceId == m.workspaceId && x.userId == m.userId)
    ensures UniquePairs(rows + [m])
  {
    var rows' := rows + [m];
    assert forall i :: 0 <= i < |rows| ==> rows'[i] == rows[i] && rows[i] in rows;
  }

  /** A membership row for a workspace id no row mentions yet is, after the
      insert, the only row of that workspace, and the key stays unique. */
  lemma NewWorkspaceHasSoleMember(rows: seq<Membership>, owner: Membership)
    requires UniquePairs(rows)
    requires forall m :: m in rows ==> m.workspaceId != owner.workspaceId
    ensures MembersOf(rows + [owner], owner.workspaceId) == [owner]
    ensures UniquePairs(rows + [owner])
  {
    var p := (m: Membership) => m.workspaceId == owner.workspaceId;
    FilterAppend(rows, owner, p);
    FilterNone(rows, p);
    AppendKeepsUnique(rows, owner);
  }

  /** Appending a row does not change a lookup that already succeeds. */
  lemma {:induction false} FindMemberAppend(rows: seq<Membership>, row: Membership, ws: int, user: int)
    requires FindMember(rows, ws, user).Some?
    ensures FindMember(rows + [row], ws, user) == FindMember(rows, ws, user)
  {
    if rows[0].workspaceId == ws && rows[0].userId == user {
      assert (rows + [row])[0] == rows[0];
    } else {
      assert (rows + [row])[1..] == rows[1..] + [row];
      FindMemberAppend(rows[1..], row, ws, user);
    }
  }

  /** Some row for the pair carries one of the roles. */
  ghost predicate HoldsRole(rows: seq<Membership>, ws: int, user: int, roles: seq<Role>)
  {
    exists m :: m in rows && m.workspaceId == ws && m.userId == user && m.role in roles
  }

  /** `membership?.role`: the role of the pair's row, if there is one. */
  function RoleOf(rows: seq<Membership>, ws: int, user: int): (r: Option<Role>)
    ensures r.Some? ==> exists m :: m in rows && m.workspaceId == ws && m.userId == user && m.role == r.value
    ensures r.None? <==> forall m :: m in rows ==> !(m.workspaceId == ws && m.userId == user)
  {
    match FindMember(rows, ws, user)
    case None => None
    case Some(m) => Some(m.role)
  }

  /** Under the unique key, a role check on the looked-up row is the same as
      asking whether the pair holds one of the roles. */
  lemma RoleOfUnique(rows: seq<Membership>, ws: int, user: int, roles: seq<Role>)
    requires UniquePairs(rows)
    ensures HoldsRole(rows, ws, user, roles) <==> RoleOf(rows, ws, user).Some? && RoleOf(rows, ws, user).value in roles
  {
    if HoldsRole(rows, ws, user, roles) {
      var m :| m in rows && m.workspaceId == ws && m.userId == user && m.role in roles;
      FindMemberUnique(rows, m);
    }
  }

  /** The check `member && member.role === ADMIN` the services make on the acting user. */
  predicate IsAdmin(rows: seq<Membership>, ws: int, user: int)
  {
    RoleOf(rows, ws, user) == Some(Admin)
  }

  /** `workspaceMember.findMany({ where: { workspaceId } })`: the `listMembers` query. */
  function MembersOf(rows: seq<Membership>, ws: int): (r: seq<Membership>)
    ensures forall m :: m in r ==> m in rows && m.workspaceId == ws
    ensures forall m :: m in rows && m.workspaceId == ws ==> m in r
  {
    Filter(rows, (m: Membership) => m.workspaceId == ws)
  }

  /** `workspace.findMany({ where: { members: { some: { userId } } } })`. */
  function WorkspacesOf(workspaces: seq<Workspace>, rows: seq<Membership>, user: int): (r: seq<Workspace>)
    ensures forall w :: w in r ==> w in workspaces && exists m :: m in rows && m.workspaceId == w.id && m.userId == user
    ensures forall w, m :: w in workspaces && m in rows && m.workspaceId == w.id && m.userId == user ==> w in r
  {
    Filter(workspaces, (w: Workspace) => FindMember(rows, w.id, user).Some?)
  }

  /** `workspaceMember.update({ where: { workspaceId_userId }, data: { role } })`. */
  function SetRole(rows: seq<Membership>, ws: int, user: int, role: Role): seq<Membership>
  {
    UpdateWhere(rows, (m: Membership) => m.workspaceId == ws && m.userId == user,
                (m: Membership) => m.(role := role))
  }

  /** A role update rewrites the target row's role and nothing else: every other
      row, and every other field of the target (its id, pair and invite status),
      stays as it was, and the key stays unique. */
  lemma SetRoleEffect(rows: seq<Membership>, target: Membership, role: Role)
    requires UniquePairs(rows)
    requires target in rows
    ensures var rows' := SetRole(rows, target.workspaceId, target.userId, role);
      && |rows'| == |rows|
      && (forall i :: 0 <= i < |rows| ==> rows'[i] == rows[i] || (rows[i] == target && rows'[i] == target.(role := role)))
      && UniquePairs(rows')
      && FindMember(rows', target.workspaceId, target.userId) == Some(target.(role := role))
  {
    var ws, user := target.workspaceId, target.userId;
    var rows' := SetRole(rows, ws, user, role);
    var k :| 0 <= k < |rows| && rows[k] == target;
    forall i | 0 <= i < |rows|
      ensures rows'[i] == rows[i] || (rows[i] == target && rows'[i] == target.(role := role))
    {
      if rows[i].workspaceId == ws && rows[i].userId == user {
        assert i == k;
      }
    }
    assert rows'[k] == target.(role := role);
    assert forall i :: 0 <= i < |rows| ==> rows'[i].workspaceId == rows[i].workspaceId && rows'[i].userId == rows[i].userId;
    FindMemberUnique(rows', rows'[k]);
  }
}
