/** The dashboard of the `backend/` tree: everything a user may see at a
    glance. A workspace is visible to its owner and to users with an ACCEPTED
    row in it; projects, issues and comments come only from visible
    workspaces, and PENDING invitations are listed on their own. */
module BackendDashboard {
  import opened Common
  import opened Model

  /** A workspace as selected: `{ id, name }`. */
  datatype WorkspaceView = WorkspaceView(id: int, name: string)

  /** A pending invitation as projected: the row id, the workspace and its name. */
  datatype InviteView = InviteView(id: int, workspaceId: int, workspaceName: Option<string>)

  datatype Dashboard = Dashboard(workspaces: seq<WorkspaceView>, pendingInvites: seq<InviteView>,
                                 projects: seq<Project>, issues: seq<Issue>, comments: seq<Comment>)

  /** The `OR` of the workspace query: owner, or an ACCEPTED row. */
  predicate Visible(members: seq<Membership>, userId: int, w: Workspace)
  {
    w.ownerId == userId ||
    exists m :: m in members && m.workspaceId == w.id && m.userId == userId && m.status == Accepted
  }

  /** The user's PENDING rows. */
  predicate PendingFor(userId: int, m: Membership)
  {
    m.userId == userId && m.status == InviteStatus.Pending
  }

  /** Helper of `GetDashboard`: the workspace ids of step one,
      `workspaces.map(w => w.id)`, as a set. */
  function VisibleIds(workspaces: seq<Workspace>, members: seq<Membership>, userId: int): (r: set<int>)
    ensures forall x :: x in r <==> exists w :: w in workspaces && Visible(members, userId, w) && w.id == x
  {
    set w | w in workspaces && Visible(members, userId, w) :: w.id
  }

  /** The visible workspaces, selected down to `{ id, name }`. */
  function VisibleWorkspaces(workspaces: seq<Workspace>, members: seq<Membership>, userId: int): (r: seq<WorkspaceView>)
    ensures forall v :: v in r ==>
              exists w :: w in workspaces && Visible(members, userId, w) && v == WorkspaceView(w.id, w.name)
    ensures forall w :: w in workspaces && Visible(members, userId, w) ==> WorkspaceView(w.id, w.name) in r
  {
    var mine := Filter(workspaces, (w: Workspace) => Visible(members, userId, w));
    MapSeq(mine, (w: Workspace) => WorkspaceView(w.id, w.name))
  }

  /** The user's PENDING rows, each with its workspace's name. */
  function PendingInvites(workspaces: seq<Workspace>, members: seq<Membership>, userId: int): (r: seq<InviteView>)
    ensures forall v :: v in r ==>
              exists m :: m in members && PendingFor(userId, m) &&
                          v == InviteView(m.id, m.workspaceId, WorkspaceName(workspaces, m.workspaceId))
    ensures forall m :: m in members && PendingFor(userId, m) ==>
              InviteView(m.id, m.workspaceId, WorkspaceName(workspaces, m.workspaceId)) in r
  {
    var pending := Filter(members, (m: Membership) => PendingFor(userId, m));
    MapSeq(pending, (m: Membership) => InviteView(m.id, m.workspaceId, WorkspaceName(workspaces, m.workspaceId)))
  }

  /** `getDashboard`. Each list keeps table order (the source orders some of
      them by creation or update time). */
  function GetDashboard(workspaces: seq<Workspace>, members: seq<Membership>, projects: seq<Project>,
                        issues: seq<Issue>, comments: seq<Comment>, userId: int): (r: Dashboard)
    ensures r.workspaces == VisibleWorkspaces(workspaces, members, userId)
    ensures r.pendingInvites == PendingInvites(workspaces, members, userId)
    ensures forall p :: p in r.projects ==>
              p in projects && exists w :: w in workspaces && w.id == p.workspaceId && Visible(members, userId, w)
    ensures forall p, w :: p in projects && w in workspaces && w.id == p.workspaceId && Visible(members, userId, w) ==>
              p in r.projects
    ensures forall i :: i in r.issues ==>
              i in issues && exists w :: w in workspaces && w.id == i.workspaceId && Visible(members, userId, w)
    ensures forall i, w :: i in issues && w in workspaces && w.id == i.workspaceId && Visible(members, userId, w) ==>
              i in r.issues
    ensures forall c :: c in r.comments ==> c in comments && exists i :: i in r.issues && i.id == c.issueId
    ensures forall c, i :: c in comments && i in r.issues && i.id == c.issueId ==> c in r.comments
  {
    var ids := VisibleIds(workspaces, members, userId);
    var ps := Filter(projects, (p: Project) => p.workspaceId in ids);
    var iss := Filter(issues, (i: Issue) => i.workspaceId in ids);
    var issueIds := set i | i in iss :: i.id;
    var cs := Filter(comments, (c: Comment) => c.issueId in issueIds);
    Dashboard(VisibleWorkspaces(workspaces, members, userId), PendingInvites(workspaces, members, userId), ps, iss, cs)
  }

  /** Under the unique workspace id, nothing of a workspace the user may not
      see reaches the dashboard: none of its projects and none of its issues. */
  lemma HiddenWorkspaceStaysHidden(workspaces: seq<Workspace>, members: seq<Membership>, projects: seq<Project>,
                                   issues: seq<Issue>, comments: seq<Comment>, userId: int, w: Workspace)
    requires KeyUnique(workspaces, WorkspaceKey)
    requires w in workspaces && !Visible(members, userId, w)
    ensures var d := GetDashboard(workspaces, members, projects, issues, comments, userId);
            && (forall p :: p in d.projects ==> p.workspaceId != w.id)
            && (forall i :: i in d.issues ==> i.workspaceId != w.id)
  {
    forall w' | w' in workspaces && w'.id == w.id
      ensures !Visible(members, userId, w')
    {
      assert WorkspaceKey(w') == WorkspaceKey(w);
    }
  }
}
