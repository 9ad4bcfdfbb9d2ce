/** Properties that span services: how the same membership row is read by
    the dashboard, the project service and the role guard, and how the two
    issue services differ on the same request. */
module Scenarios {
  import opened Common
  import opened Model
  import WorkspaceRoleGuard
  import BackendProject
  import BackendDashboard
  import BackendIssue
  import SrcIssue
  import Issues

  /** A user whose only tie to a workspace it does not own is a PENDING
      invitation sees none of that workspace's projects or issues on the
      dashboard, and sees the invitation there. */
  lemma PendingInviteeHidden(workspaces: seq<Workspace>, members: seq<Membership>,
                             projects: seq<Project>, issues: seq<Issue>, comments: seq<Comment>,
                             w: Workspace, m: Membership)
    requires KeyUnique(workspaces, WorkspaceKey) && UniquePairs(members)
    requires w in workspaces && m in members
    requires m.workspaceId == w.id && m.status == InviteStatus.Pending && w.ownerId != m.userId
    ensures var d := BackendDashboard.GetDashboard(workspaces, members, projects, issues, comments, m.userId);
            && (forall p :: p in d.projects ==> p.workspaceId != w.id)
            && (forall i :: i in d.issues ==> i.workspaceId != w.id)
            && BackendDashboard.InviteView(m.id, w.id, Some(w.name)) in d.pendingInvites
  {
    var u := m.userId;
    forall m' | m' in members && m'.workspaceId == w.id && m'.userId == u
      ensures m'.status != Accepted
    {
      FindMemberUnique(members, m);
      FindMemberUnique(members, m');
    }
    BackendDashboard.HiddenWorkspaceStaysHidden(workspaces, members, projects, issues, comments, u, w);
    FindByKeyUnique(workspaces, WorkspaceKey, w);
    assert BackendDashboard.PendingFor(u, m);
  }

  /** The same PENDING invitee passes the project service's access check
      and the role guard with the read roles. */
  lemma PendingInviteeAdmitted(members: seq<Membership>, m: Membership)
    requires UniquePairs(members)
    requires m in members && m.status == InviteStatus.Pending
    requires m.userId != 0 && m.workspaceId != 0
    ensures BackendProject.VerifyWorkspaceAccess(members, m.userId, m.workspaceId) == Ok(m)
    ensures WorkspaceRoleGuard.CanActivate(Some(WorkspaceRoleGuard.ReadRoles), Some(m.userId), Some(m.workspaceId), members)
            == WorkspaceRoleGuard.Allow
  {
    FindMemberUnique(members, m);
    assert m.role in WorkspaceRoleGuard.ReadRoles by {
      assert WorkspaceRoleGuard.ReadRoles == [Admin, Member, Guest];
      match m.role
      case Admin => assert WorkspaceRoleGuard.ReadRoles[0] == Admin;
      case Member => assert WorkspaceRoleGuard.ReadRoles[1] == Member;
      case Guest => assert WorkspaceRoleGuard.ReadRoles[2] == Guest;
    }
    WorkspaceRoleGuard.GuardAllowsExactly(WorkspaceRoleGuard.ReadRoles, m.userId, m.workspaceId, members);
  }

  /** Behind the write roles the guard turns away a GUEST, with the same
      refusal whatever the row's invite status. */
  lemma GuestRefusedWriteRoles(members: seq<Membership>, guest: Membership)
    requires UniquePairs(members)
    requires guest in members && guest.role == Guest
    requires guest.userId != 0 && guest.workspaceId != 0
    ensures WorkspaceRoleGuard.CanActivate(Some(WorkspaceRoleGuard.WriteRoles), Some(guest.userId),
                                           Some(guest.workspaceId), members)
            == WorkspaceRoleGuard.Deny(Forbidden("Insufficient permissions"))
  {
    FindMemberUnique(members, guest);
    assert Guest !in WorkspaceRoleGuard.WriteRoles;
  }

  /** The same GUEST asks both issue services to create an issue in a
      project of its workspace: the `backend/` one refuses, the `src/` one
      creates it. On a project without issues the two would number it 1 and
      101. */
  lemma GuestCreatesOnlyInSrc(projects: seq<Project>, members: seq<Membership>, issues: seq<Issue>,
                              p: Project, guest: Membership, dto: Issues.CreateIssueDto, id: int, defaults: Defaults)
    requires KeyUnique(projects, ProjectKey) && UniquePairs(members)
    requires p in projects && guest in members
    requires guest.workspaceId == p.workspaceId && guest.role == Guest
    ensures BackendIssue.PlanCreate(projects, members, issues, guest.userId, p.id, dto, id, defaults) ==
            Err(Forbidden("You are not allowed to create issues in this workspace"))
    ensures SrcIssue.PlanCreate(projects, issues, guest.userId, p.id, dto, id, defaults).Ok?
    ensures (forall i :: i in issues ==> i.projectId != p.id) ==>
              Issues.NextTicket(issues, p.id, 0) == 1 && Issues.NextTicket(issues, p.id, 100) == 101
  {
    BackendIssue.ProjectForWorkExactly(projects, members, p, guest.userId,
                                       "You are not allowed to create issues in this workspace");
    FindMemberUnique(members, guest);
  }
}
