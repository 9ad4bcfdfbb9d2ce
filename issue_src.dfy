/** The issue service of the root `src/` tree. It checks no membership at
    all: `findByProject` is the bare `Issues.ProjectIssues` query, `create`
    only needs the project to exist, and `update`/`remove` act on any id.
    Tickets count from 101 in each project and a new issue is always TODO. */
module SrcIssue {
  import opened Common
  import opened Model
  import opened Store
  import opened Issues

  /** The row `create` inserts, or NotFound for an unknown project: ticket one
      past the project's largest (101 for its first issue), status TODO, the
      project's workspace, the caller as reporter, and `sprintId` and
      `assigneeId` exactly as given (`??` keeps a 0). */
  function PlanCreate(projects: seq<Project>, issues: seq<Issue>, userId: int, pid: string,
                      dto: CreateIssueDto, id: int, defaults: Defaults): (r: Result<Issue>)
    ensures r.Err? <==> forall p :: p in projects ==> p.id != pid
    ensures r.Err? ==> r.error == NotFound("Project not found")
    ensures r.Ok? ==>
              && (exists p :: p in projects && p.id == pid && p.workspaceId == r.value.workspaceId)
              && r.value.id == id && r.value.projectId == pid && r.value.reporterId == userId
              && r.value.ticketNumber == NextTicket(issues, pid, 100)
              && r.value.status == Todo
              && r.value.title == dto.title && r.value.description == dto.description
              && r.value.kind == dto.kind && r.value.priority == dto.priority
              && r.value.sprintId == dto.sprintId && r.value.assigneeId == dto.assigneeId
              && r.value.listPosition == defaults.listPosition
  {
    match FindByKey(projects, ProjectKey, pid)
    case None => Err(NotFound("Project not found"))
    case Some(p) =>
      Ok(Issue(id, pid, p.workspaceId, NextTicket(issues, pid, 100), dto.title, dto.description, dto.kind,
               dto.priority, Todo, dto.sprintId, dto.assigneeId, userId, defaults.listPosition))
  }

  /** `create`: on success, the planned row is appended under the next id. */
  method Create(db: Db, userId: int, pid: string, dto: CreateIssueDto) returns (r: Result<Issue>)
    requires db.Valid()
    modifies db`issues, db`nextIssueId
    ensures db.Valid()
    ensures r == PlanCreate(db.projects, old(db.issues), userId, pid, dto, old(db.nextIssueId), db.defaults)
    ensures r.Err? ==> db.issues == old(db.issues) && db.nextIssueId == old(db.nextIssueId)
    ensures r.Ok? ==> db.issues == old(db.issues) + [r.value] && db.nextIssueId == old(db.nextIssueId) + 1
  {
    r := PlanCreate(db.projects, db.issues, userId, pid, dto, db.nextIssueId, db.defaults);
    if r.Ok? {
      NextTicketKeepsTicketsUnique(db.issues, r.value, 100);
      AppendKeepsKeyUnique(db.issues, r.value, IssueKey);
      db.issues := db.issues + [r.value];
      db.nextIssueId := db.nextIssueId + 1;
    }
  }

  /** `update`: no permission check; the store's `update` fails on an unknown id. */
  method Update(db: Db, issueId: int, dto: UpdateIssueDto) returns (r: Result<Issue>)
    requires db.Valid()
    modifies db`issues
    ensures db.Valid()
    ensures match FindByKey(old(db.issues), IssueKey, issueId)
      case None => r == Err(RecordNotFound("Record to update not found")) && db.issues == old(db.issues)
      case Some(i) =>
        && r == Ok(ApplyIssueUpdate(i, dto))
        && |db.issues| == |old(db.issues)|
        && forall k :: 0 <= k < |db.issues| ==>
             db.issues[k] == if old(db.issues)[k].id == issueId then ApplyIssueUpdate(old(db.issues)[k], dto) else old(db.issues)[k]
  {
    var found := FindByKey(db.issues, IssueKey, issueId);
    if found.None? {
      return Err(RecordNotFound("Record to update not found"));
    }
    UpdateIssueRow(db, found.value, dto);
    r := Ok(ApplyIssueUpdate(found.value, dto));
  }

  /** `remove`: no permission check; the store's `delete` fails on an unknown id. */
  method Remove(db: Db, issueId: int) returns (r: Result<Issue>)
    requires db.Valid()
    modifies db`issues
    ensures db.Valid()
    ensures match FindByKey(old(db.issues), IssueKey, issueId)
      case None => r == Err(RecordNotFound("Record to delete does not exist")) && db.issues == old(db.issues)
      case Some(i) => r == Ok(i) && db.issues == RemoveByKey(old(db.issues), IssueKey, issueId)
  {
    var found := FindByKey(db.issues, IssueKey, issueId);
    if found.None? {
      return Err(RecordNotFound("Record to delete does not exist"));
    }
    db.issues := RemoveByKey(db.issues, IssueKey, issueId);
    r := Ok(found.value);
  }
}
