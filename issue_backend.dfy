/** The issue service of the `backend/` tree. Reading and creating issues
    needs an ADMIN or MEMBER row in the project's workspace; an issue may be
    updated by an ADMIN, a MEMBER or its reporter, and deleted only by an
    ADMIN or its reporter. Tickets count from 1 in each project. */
module BackendIssue {
  import opened Common
  import opened Model
  import opened Store
  import opened Issues

  /** The roles that may read and create issues: every role but GUEST. */
  const WorkerRoles: seq<Role> := [Admin, Member]

  /** The project lookup and membership check at the head of `findByProject`
      and `create`: NotFound for an unknown project, then `denied` unless the
      caller has a row in its workspace that is not GUEST. */
  function ProjectForWork(projects: seq<Project>, members: seq<Membership>, pid: string, userId: int,
                          denied: string): (r: Result<Project>)
    ensures (forall p :: p in projects ==> p.id != pid) ==> r == Err(NotFound("Project not found"))
    ensures (exists p :: p in projects && p.id == pid) ==> r.Ok? || r == Err(Forbidden(denied))
    ensures r.Ok? ==> r.value in projects && r.value.id == pid &&
                      HoldsRole(members, r.value.workspaceId, userId, WorkerRoles)
  {
    match FindByKey(projects, ProjectKey, pid)
    case None => Err(NotFound("Project not found"))
    case Some(p) =>
      match RoleOf(members, p.workspaceId, userId)
      case None => Err(Forbidden(denied))
      case Some(role) => if role == Guest then Err(Forbidden(denied)) else Ok(p)
  }

  /** Under the unique keys, the check passes exactly for the callers holding
      ADMIN or MEMBER in the project's workspace. */
  lemma ProjectForWorkExactly(projects: seq<Project>, members: seq<Membership>, p: Project, userId: int,
                              denied: string)
    requires KeyUnique(projects, ProjectKey) && UniquePairs(members)
    requires p in projects
    ensures ProjectForWork(projects, members, p.id, userId, denied) ==
            if HoldsRole(members, p.workspaceId, userId, WorkerRoles) then Ok(p) else Err(Forbidden(denied))
  {
    FindByKeyUnique(projects, ProjectKey, p);
    RoleOfUnique(members, p.workspaceId, userId, WorkerRoles);
  }

  /** `findByProject`: after the checks, the `Issues.ProjectIssues` query. */
  function FindByProject(projects: seq<Project>, members: seq<Membership>, issues: seq<Issue>,
                         sprints: seq<Sprint>, pid: string, userId: int, filters: IssueFilters): (r: Result<seq<Issue>>)
    ensures (forall p :: p in projects ==> p.id != pid) ==> r == Err(NotFound("Project not found"))
    ensures (exists p :: p in projects && p.id == pid) ==>
              r.Ok? || r == Err(Forbidden("You are not a member of this workspace"))
    ensures r.Err? && r != Err(NotFound("Project not found")) ==>
              r == Err(Forbidden("You are not a member of this workspace"))
    ensures r.Ok? ==>
              && (exists p :: p in projects && p.id == pid && HoldsRole(members, p.workspaceId, userId, WorkerRoles))
              && r.value == ProjectIssues(issues, sprints, pid, userId, filters)
  {
    match ProjectForWork(projects, members, pid, userId, "You are not a member of this workspace")
    case Err(e) => Err(e)
    case Ok(_) => Ok(ProjectIssues(issues, sprints, pid, userId, filters))
  }

  /** A GUEST of the project's workspace cannot list its issues. */
  lemma GuestCannotList(projects: seq<Project>, members: seq<Membership>, issues: seq<Issue>,
                        sprints: seq<Sprint>, p: Project, guest: Membership, filters: IssueFilters)
    requires KeyUnique(projects, ProjectKey) && UniquePairs(members)
    requires p in projects && guest in members
    requires guest.workspaceId == p.workspaceId && guest.role == Guest
    ensures FindByProject(projects, members, issues, sprints, p.id, guest.userId, filters) ==
            Err(Forbidden("You are not a member of this workspace"))
  {
    ProjectForWorkExactly(projects, members, p, guest.userId, "You are not a member of this workspace");
    FindMemberUnique(members, guest);
  }

  /** The row `create` inserts, or the reason it refuses: ticket one past the
      project's largest (1 for its first issue), the project's workspace, the
      caller as reporter, falsy `sprintId`/`assigneeId` stored as `null`, and
      the column defaults for status and list position. */
  function PlanCreate(projects: seq<Project>, members: seq<Membership>, issues: seq<Issue>, userId: int,
                      pid: string, dto: CreateIssueDto, id: int, defaults: Defaults): (r: Result<Issue>)
    ensures (forall p :: p in projects ==> p.id != pid) ==> r == Err(NotFound("Project not found"))
    ensures (exists p :: p in projects && p.id == pid) ==>
              r.Ok? || r == Err(Forbidden("You are not allowed to create issues in this workspace"))
    ensures r.Err? && r != Err(NotFound("Project not found")) ==>
              r == Err(Forbidden("You are not allowed to create issues in this workspace"))
    ensures r.Ok? ==>
              && (exists p :: p in projects && p.id == pid && p.workspaceId == r.value.workspaceId &&
                              HoldsRole(members, p.workspaceId, userId, WorkerRoles))
              && r.value.id == id && r.value.projectId == pid && r.value.reporterId == userId
              && r.value.ticketNumber == NextTicket(issues, pid, 0)
              && r.value.title == dto.title && r.value.description == dto.description
              && r.value.kind == dto.kind && r.value.priority == dto.priority
              && r.value.sprintId == (if Falsy(dto.sprintId) then None else dto.sprintId)
              && r.value.assigneeId == (if Falsy(dto.assigneeId) then None else dto.assigneeId)
              && r.value.status == defaults.issueStatus && r.value.listPosition == defaults.listPosition
  {
    match ProjectForWork(projects, members, pid, userId, "You are not allowed to create issues in this workspace")
    case Err(e) => Err(e)
    case Ok(p) =>
      Ok(Issue(id, pid, p.workspaceId, NextTicket(issues, pid, 0), dto.title, dto.description, dto.kind,
               dto.priority, defaults.issueStatus, if Falsy(dto.sprintId) then None else dto.sprintId,
               if Falsy(dto.assigneeId) then None else dto.assigneeId, userId, defaults.listPosition))
  }

  /** Under the unique keys, an existing project's issues are listed to, and
      new issues in it planned for, exactly the callers holding ADMIN or
      MEMBER in its workspace; everyone else is refused with Forbidden. */
  lemma WorkersExactly(projects: seq<Project>, members: seq<Membership>, issues: seq<Issue>,
                       sprints: seq<Sprint>, p: Project, userId: int, filters: IssueFilters,
                       dto: CreateIssueDto, id: int, defaults: Defaults)
    requires KeyUnique(projects, ProjectKey) && UniquePairs(members)
    requires p in projects
    ensures FindByProject(projects, members, issues, sprints, p.id, userId, filters) ==
            if HoldsRole(members, p.workspaceId, userId, WorkerRoles)
            then Ok(ProjectIssues(issues, sprints, p.id, userId, filters))
            else Err(Forbidden("You are not a member of this workspace"))
    ensures PlanCreate(projects, members, issues, userId, p.id, dto, id, defaults).Ok? <==>
            HoldsRole(members, p.workspaceId, userId, WorkerRoles)
    ensures !HoldsRole(members, p.workspaceId, userId, WorkerRoles) ==>
              PlanCreate(projects, members, issues, userId, p.id, dto, id, defaults) ==
              Err(Forbidden("You are not allowed to create issues in this workspace"))
  {
    ProjectForWorkExactly(projects, members, p, userId, "You are not a member of this workspace");
    ProjectForWorkExactly(projects, members, p, userId, "You are not allowed to create issues in this workspace");
  }

  /** `create`: on success, the planned row is appended under the next id. */
  method Create(db: Db, userId: int, pid: string, dto: CreateIssueDto) returns (r: Result<Issue>)
    requires db.Valid()
    modifies db`issues, db`nextIssueId
    ensures db.Valid()
    ensures r == PlanCreate(db.projects, db.members, old(db.issues), userId, pid, dto, old(db.nextIssueId), db.defaults)
    ensures r.Err? ==> db.issues == old(db.issues) && db.nextIssueId == old(db.nextIssueId)
    ensures r.Ok? ==> db.issues == old(db.issues) + [r.value] && db.nextIssueId == old(db.nextIssueId) + 1
  {
    r := PlanCreate(db.projects, db.members, db.issues, userId, pid, dto, db.nextIssueId, db.defaults);
    if r.Ok? {
      NextTicketKeepsTicketsUnique(db.issues, r.value, 0);
      AppendKeepsKeyUnique(db.issues, r.value, IssueKey);
      db.issues := db.issues + [r.value];
      db.nextIssueId := db.nextIssueId + 1;
    }
  }

  /** `isAdmin || isMember || isReporter` of `update`. */
  predicate MayUpdate(members: seq<Membership>, issue: Issue, userId: int)
  {
    var role := RoleOf(members, issue.workspaceId, userId);
    role == Some(Admin) || role == Some(Member) || issue.reporterId == userId
  }

  /** `isAdmin || isReporter` of `remove`. */
  predicate MayRemove(members: seq<Membership>, issue: Issue, userId: int)
  {
    RoleOf(members, issue.workspaceId, userId) == Some(Admin) || issue.reporterId == userId
  }

  /** Whoever may delete an issue may also update it. */
  lemma RemoverMayUpdate(members: seq<Membership>, issue: Issue, userId: int)
    requires MayRemove(members, issue, userId)
    ensures MayUpdate(members, issue, userId)
  {
  }

  /** Under the unique key, the two permissions in terms of the caller's row. */
  lemma PermissionsExactly(members: seq<Membership>, issue: Issue, userId: int)
    requires UniquePairs(members)
    ensures MayUpdate(members, issue, userId) <==>
            HoldsRole(members, issue.workspaceId, userId, [Admin, Member]) || issue.reporterId == userId
    ensures MayRemove(members, issue, userId) <==>
            HoldsRole(members, issue.workspaceId, userId, [Admin]) || issue.reporterId == userId
  {
    RoleOfUnique(members, issue.workspaceId, userId, [Admin, Member]);
    RoleOfUnique(members, issue.workspaceId, userId, [Admin]);
  }

  /** The issue `update` or `remove` acts on, or the reason it refuses. */
  function IssueDecision(issues: seq<Issue>, members: seq<Membership>, userId: int, issueId: int,
                         forRemoval: bool): (r: Result<Issue>)
    ensures (forall i :: i in issues ==> i.id != issueId) ==> r == Err(NotFound("Issue not found"))
    ensures r.Err? && r != Err(NotFound("Issue not found")) ==>
              r == Err(Forbidden(if forRemoval then "You cannot delete this issue" else "You cannot update this issue"))
    ensures r.Ok? ==> r.value in issues && r.value.id == issueId &&
                      if forRemoval then MayRemove(members, r.value, userId) else MayUpdate(members, r.value, userId)
  {
    match FindByKey(issues, IssueKey, issueId)
    case None => Err(NotFound("Issue not found"))
    case Some(i) =>
      if forRemoval then
        if MayRemove(members, i, userId) then Ok(i) else Err(Forbidden("You cannot delete this issue"))
      else
        if MayUpdate(members, i, userId) then Ok(i) else Err(Forbidden("You cannot update this issue"))
  }

  /** Under the unique id, an existing issue is handed to exactly the callers
      holding the permission; everyone else is refused with the operation's
      message. */
  lemma IssueDecisionExactly(issues: seq<Issue>, members: seq<Membership>, userId: int, issue: Issue,
                             forRemoval: bool)
    requires KeyUnique(issues, IssueKey)
    requires issue in issues
    ensures IssueDecision(issues, members, userId, issue.id, forRemoval) ==
            if (if forRemoval then MayRemove(members, issue, userId) else MayUpdate(members, issue, userId))
            then Ok(issue)
            else Err(Forbidden(if forRemoval then "You cannot delete this issue" else "You cannot update this issue"))
  {
    FindByKeyUnique(issues, IssueKey, issue);
  }

  /** An ADMIN of the issue's workspace may update and delete any of its
      issues, reported by anybody. */
  lemma AdminMayUpdateAndRemove(issues: seq<Issue>, members: seq<Membership>, issue: Issue, m: Membership)
    requires KeyUnique(issues, IssueKey) && UniquePairs(members)
    requires issue in issues && m in members
    requires m.workspaceId == issue.workspaceId && m.role == Admin
    ensures IssueDecision(issues, members, m.userId, issue.id, false) == Ok(issue)
    ensures IssueDecision(issues, members, m.userId, issue.id, true) == Ok(issue)
  {
    IssueDecisionExactly(issues, members, m.userId, issue, false);
    IssueDecisionExactly(issues, members, m.userId, issue, true);
    FindMemberUnique(members, m);
  }

  /** A MEMBER who did not report the issue may update it but not delete it. */
  lemma MemberMayUpdateButNotRemove(issues: seq<Issue>, members: seq<Membership>, issue: Issue, m: Membership)
    requires KeyUnique(issues, IssueKey) && UniquePairs(members)
    requires issue in issues && m in members
    requires m.workspaceId == issue.workspaceId && m.role == Member && issue.reporterId != m.userId
    ensures IssueDecision(issues, members, m.userId, issue.id, false) == Ok(issue)
    ensures IssueDecision(issues, members, m.userId, issue.id, true) == Err(Forbidden("You cannot delete this issue"))
  {
    FindByKeyUnique(issues, IssueKey, issue);
    FindMemberUnique(members, m);
  }

  /** A GUEST who did not report the issue may neither update nor delete it;
      its reporter may do both, whatever its role. */
  lemma GuestRefusedReporterAllowed(issues: seq<Issue>, members: seq<Membership>, issue: Issue, m: Membership)
    requires KeyUnique(issues, IssueKey) && UniquePairs(members)
    requires issue in issues && m in members
    requires m.workspaceId == issue.workspaceId && m.role == Guest
    ensures issue.reporterId != m.userId ==>
              IssueDecision(issues, members, m.userId, issue.id, false) == Err(Forbidden("You cannot update this issue")) &&
              IssueDecision(issues, members, m.userId, issue.id, true) == Err(Forbidden("You cannot delete this issue"))
    ensures IssueDecision(issues, members, issue.reporterId, issue.id, false) == Ok(issue)
    ensures IssueDecision(issues, members, issue.reporterId, issue.id, true) == Ok(issue)
  {
    FindByKeyUnique(issues, IssueKey, issue);
    FindMemberUnique(members, m);
  }

  /** `update`: on success the issue's row, and only it, takes the DTO's fields. */
  method Update(db: Db, userId: int, issueId: int, dto: UpdateIssueDto) returns (r: Result<Issue>)
    requires db.Valid()
    modifies db`issues
    ensures db.Valid()
    ensures match IssueDecision(old(db.issues), db.members, userId, issueId, false)
      case Err(e) => r == Err(e) && db.issues == old(db.issues)
      case Ok(i) =>
        && r == Ok(ApplyIssueUpdate(i, dto))
        && |db.issues| == |old(db.issues)|
        && forall k :: 0 <= k < |db.issues| ==>
             db.issues[k] == if old(db.issues)[k].id == issueId then ApplyIssueUpdate(old(db.issues)[k], dto) else old(db.issues)[k]
  {
    var d := IssueDecision(db.issues, db.members, userId, issueId, false);
    if d.Err? {
      return Err(d.error);
    }
    UpdateIssueRow(db, d.value, dto);
    r := Ok(ApplyIssueUpdate(d.value, dto));
  }

  /** `remove`: on success exactly the rows with that id are gone. */
  method Remove(db: Db, userId: int, issueId: int) returns (r: Result<Issue>)
    requires db.Valid()
    modifies db`issues
    ensures db.Valid()
    ensures r == IssueDecision(old(db.issues), db.members, userId, issueId, true)
    ensures r.Err? ==> db.issues == old(db.issues)
    ensures r.Ok? ==> db.issues == RemoveByKey(old(db.issues), IssueKey, issueId)
  {
    r := IssueDecision(db.issues, db.members, userId, issueId, true);
    if r.Ok? {
      db.issues := RemoveByKey(db.issues, IssueKey, issueId);
    }
  }

  /** One row of `listNewIssues`: the issue with its project's and workspace's names. */
  datatype NewIssueView = NewIssueView(id: int, title: string, projectId: string, projectName: Option<string>,
                                       workspaceId: int, workspaceName: Option<string>,
                                       status: IssueStatus, priority: IssuePriority)

  function ViewOf(projects: seq<Project>, workspaces: seq<Workspace>, i: Issue): NewIssueView
  {
    NewIssueView(i.id, i.title, i.projectId, ProjectName(projects, i.projectId), i.workspaceId,
                 WorkspaceName(workspaces, i.workspaceId), i.status, i.priority)
  }

  /** The open issues assigned to the user. */
  predicate IsNewFor(userId: int, i: Issue)
  {
    i.assigneeId == Some(userId) && i.status != Done
  }

  /** `listNewIssues`: a view of exactly the issues assigned to the user that
      are not DONE, one per such row, in table order. */
  function ListNewIssues(issues: seq<Issue>, projects: seq<Project>, workspaces: seq<Workspace>,
                         userId: int): (r: seq<NewIssueView>)
    ensures forall v :: v in r ==>
              exists i :: i in issues && i.assigneeId == Some(userId) && i.status != Done && v == ViewOf(projects, workspaces, i)
    ensures forall i :: i in issues && i.assigneeId == Some(userId) && i.status != Done ==> ViewOf(projects, workspaces, i) in r
    ensures forall v :: v in r ==> v.status != Done
  {
    var mine := Filter(issues, (i: Issue) => IsNewFor(userId, i));
    var r := MapSeq(mine, (i: Issue) => ViewOf(projects, workspaces, i));
    assert forall v :: v in r ==> exists i :: i in mine && v == ViewOf(projects, workspaces, i);
    r
  }
}
