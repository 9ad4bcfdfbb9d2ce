/** What the two issue services share: per-project ticket numbering, the
    `findByProject` query with its two filters, and the issue update DTO. */
module Issues {
  import opened Common
  import opened Model
  import opened Store

  /** The ticket number of `issue.findFirst({ where: { projectId }, orderBy:
      { ticketNumber: 'desc' } })`: the largest ticket of the project, if it
      has any issue. */
  function MaxTicket(issues: seq<Issue>, pid: string): (r: Option<int>)
    ensures r.None? <==> forall i :: i in issues ==> i.projectId != pid
    ensures r.Some? ==> exists i :: i in issues && i.projectId == pid && i.ticketNumber == r.value
    ensures r.Some? ==> forall i :: i in issues && i.projectId == pid ==> i.ticketNumber <= r.value
  {
    if issues == [] then None
    else
      assert issues == [issues[0]] + issues[1..];
      var rest := MaxTicket(issues[1..], pid);
      if issues[0].projectId != pid then rest
      else match rest
        case None => Some(issues[0].ticketNumber)
        case Some(m) => Some(if issues[0].ticketNumber < m then m else issues[0].ticketNumber)
  }

  /** The ticket a new issue of the project gets: one past the project's
      largest ticket, and `base + 1` for the project's first issue. */
  function NextTicket(issues: seq<Issue>, pid: string, base: int): (r: int)
    ensures forall i :: i in issues && i.projectId == pid ==> i.ticketNumber < r
    ensures (forall i :: i in issues ==> i.projectId != pid) ==> r == base + 1
    ensures (exists i :: i in issues && i.projectId == pid) ==>
              exists i :: i in issues && i.projectId == pid && i.ticketNumber == r - 1
  {
    match MaxTicket(issues, pid)
    case None => base + 1
    case Some(m) => m + 1
  }

  /** Creating issues A then B in the same project gives B the ticket after
      A's, whatever the other projects hold. */
  lemma ConsecutiveTickets(issues: seq<Issue>, a: Issue, base: int)
    requires a.ticketNumber == NextTicket(issues, a.projectId, base)
    ensures NextTicket(issues + [a], a.projectId, base) == a.ticketNumber + 1
  {
    var pid := a.projectId;
    var issues' := issues + [a];
    assert a in issues';
    assert forall j :: j in issues' && j.projectId == pid ==> j.ticketNumber <= a.ticketNumber;
  }

  /** An issue numbered by `NextTicket` keeps ticket numbers unique per project. */
  lemma NextTicketKeepsTicketsUnique(issues: seq<Issue>, a: Issue, base: int)
    requires KeyUnique(issues, TicketKey)
    requires a.ticketNumber == NextTicket(issues, a.projectId, base)
    ensures KeyUnique(issues + [a], TicketKey)
  {
    forall y | y in issues
      ensures TicketKey(y) != TicketKey(a)
    {
      if y.projectId == a.projectId {
        assert y.ticketNumber < a.ticketNumber;
      }
    }
    AppendKeepsKeyUnique(issues, a, TicketKey);
  }

  /** The `filters` query object; only these two keys are consulted. */
  datatype IssueFilters = IssueFilters(sprint: Option<string>, assignee: Option<string>)

  /** The relation filter `sprint: { status: 'ACTIVE' }`: the issue is in a
      sprint, and that sprint is active. */
  predicate InActiveSprint(sprints: seq<Sprint>, i: Issue)
  {
    i.sprintId.Some? &&
    match FindByKey(sprints, SprintKey, i.sprintId.value)
    case None => false
    case Some(s) => s.status == Active
  }

  /** The `where` of `findByProject`: the project, and each filter only when
      its key has exactly the recognised value. */
  predicate Selected(sprints: seq<Sprint>, pid: string, userId: int, filters: IssueFilters, i: Issue)
  {
    && i.projectId == pid
    && (filters.assignee == Some("me") ==> i.assigneeId == Some(userId))
    && (filters.sprint == Some("active") ==> InActiveSprint(sprints, i))
  }

  /** The `findMany` of `findByProject`: exactly the selected issues of the
      table, each as often as it occurs there, by ascending `listPosition`. */
  function ProjectIssues(issues: seq<Issue>, sprints: seq<Sprint>, pid: string, userId: int,
                         filters: IssueFilters): (r: seq<Issue>)
    ensures forall i :: i in r ==> i in issues && Selected(sprints, pid, userId, filters, i)
    ensures forall i :: i in issues && Selected(sprints, pid, userId, filters, i) ==> i in r
    ensures SortedBy(r, (i: Issue) => i.listPosition)
    ensures multiset(r) == multiset(Filter(issues, (i: Issue) => Selected(sprints, pid, userId, filters, i)))
  {
    var selected := Filter(issues, (i: Issue) => Selected(sprints, pid, userId, filters, i));
    var r := SortBy(selected, (i: Issue) => i.listPosition);
    forall i
      ensures i in r <==> i in selected
    {
      assert i in r <==> i in multiset(r);
      assert i in selected <==> i in multiset(selected);
    }
    r
  }

  /** Without filters, the query returns the whole project. */
  lemma UnfilteredIsWholeProject(issues: seq<Issue>, sprints: seq<Sprint>, pid: string, userId: int, i: Issue)
    requires i in issues && i.projectId == pid
    ensures i in ProjectIssues(issues, sprints, pid, userId, IssueFilters(None, None))
  {
    assert Selected(sprints, pid, userId, IssueFilters(None, None), i);
  }

  /** `CreateIssueDto`; `None` is an absent or `null` optional field. */
  datatype CreateIssueDto = CreateIssueDto(title: string, description: Option<string>, kind: IssueType,
                                           priority: IssuePriority, sprintId: Option<int>,
                                           assigneeId: Option<int>)

  /** `UpdateIssueDto`: each field may be absent; `sprintId` and `assigneeId`
      may also be set to `null`. */
  datatype UpdateIssueDto = UpdateIssueDto(status: Patch<IssueStatus>, sprintId: Patch<Option<int>>,
                                           assigneeId: Patch<Option<int>>, listPosition: Patch<int>)

  /** `issue.update({ data: dto })` on one row: the fields the DTO carries take
      their new value, every other column (id, project, ticket, reporter, ...)
      is left as it was. */
  function ApplyIssueUpdate(i: Issue, dto: UpdateIssueDto): (r: Issue)
    ensures r.(status := i.status, sprintId := i.sprintId, assigneeId := i.assigneeId,
               listPosition := i.listPosition) == i
    ensures dto.status.Set? ==> r.status == dto.status.value
    ensures dto.status.Keep? ==> r.status == i.status
    ensures dto.sprintId.Set? ==> r.sprintId == dto.sprintId.value
    ensures dto.sprintId.Keep? ==> r.sprintId == i.sprintId
    ensures dto.assigneeId.Set? ==> r.assigneeId == dto.assigneeId.value
    ensures dto.assigneeId.Keep? ==> r.assigneeId == i.assigneeId
    ensures dto.listPosition.Set? ==> r.listPosition == dto.listPosition.value
    ensures dto.listPosition.Keep? ==> r.listPosition == i.listPosition
  {
    i.(status := Apply(dto.status, i.status), sprintId := Apply(dto.sprintId, i.sprintId),
       assigneeId := Apply(dto.assigneeId, i.assigneeId),
       listPosition := Apply(dto.listPosition, i.listPosition))
  }

  /** The row write of both `update`s: the row with the target's id takes the
      DTO's fields and every other row stays where and as it was. */
  method UpdateIssueRow(db: Db, target: Issue, dto: UpdateIssueDto)
    requires db.Valid()
    requires target in db.issues
    modifies db`issues
    ensures db.Valid()
    ensures |db.issues| == |old(db.issues)|
    ensures forall k :: 0 <= k < |db.issues| ==>
              db.issues[k] == if old(db.issues)[k].id == target.id then ApplyIssueUpdate(old(db.issues)[k], dto) else old(db.issues)[k]
    ensures forall x :: x in db.issues <==> (x in old(db.issues) && x.id != target.id) || x == ApplyIssueUpdate(target, dto)
  {
    var f := (x: Issue) => ApplyIssueUpdate(x, dto);
    UpdateByKeyEffect(db.issues, IssueKey, target, f);
    UpdateByKeyKeepsKeyUnique(db.issues, IssueKey, target.id, f, TicketKey);
    db.issues := UpdateByKey(db.issues, IssueKey, target.id, f);
  }
}
