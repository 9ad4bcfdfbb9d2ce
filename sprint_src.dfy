/** The sprint service of the root `src/` tree: a sprint is created PENDING and
    then moved by `update`, which refuses to touch a COMPLETED sprint and to
    complete one that never started, and stamps the start (on ACTIVE) or end
    (on COMPLETED) with the current time. The clock is a parameter. */
module SrcSprint {
  import opened Common
  import opened Model
  import opened Store

  /** `CreateSprintDto`: the dates as instants, `None` when absent or empty. */
  datatype CreateSprintDto = CreateSprintDto(name: string, startDate: Option<int>, endDate: Option<int>)

  datatype UpdateSprintDto = UpdateSprintDto(status: SprintStatus)

  /** The sprint `create` inserts, or NotFound for an unknown project. */
  function PlanCreate(projects: seq<Project>, pid: string, dto: CreateSprintDto, id: int): (r: Result<Sprint>)
    ensures r.Err? <==> forall p :: p in projects ==> p.id != pid
    ensures r.Err? ==> r.error == NotFound("Project not found")
    ensures r.Ok? ==> r.value == Sprint(id, pid, dto.name, SprintStatus.Pending, dto.startDate, dto.endDate)
  {
    if FindByKey(projects, ProjectKey, pid).None? then Err(NotFound("Project not found"))
    else Ok(Sprint(id, pid, dto.name, SprintStatus.Pending, dto.startDate, dto.endDate))
  }

  /** `create`: on success the new PENDING sprint is appended under the next id. */
  method Create(db: Db, pid: string, dto: CreateSprintDto) returns (r: Result<Sprint>)
    requires db.Valid()
    modifies db`sprints, db`nextSprintId
    ensures db.Valid()
    ensures r == PlanCreate(db.projects, pid, dto, old(db.nextSprintId))
    ensures r.Err? ==> db.sprints == old(db.sprints) && db.nextSprintId == old(db.nextSprintId)
    ensures r.Ok? ==> db.sprints == old(db.sprints) + [r.value] && db.nextSprintId == old(db.nextSprintId) + 1
  {
    r := PlanCreate(db.projects, pid, dto, db.nextSprintId);
    if r.Ok? {
      AppendKeepsKeyUnique(db.sprints, r.value, SprintKey);
      db.sprints := db.sprints + [r.value];
      db.nextSprintId := db.nextSprintId + 1;
    }
  }

  /** The moves `update` accepts, as a table: anything out of PENDING but
      straight to COMPLETED, anything out of ACTIVE (back to PENDING and
      ACTIVE again included), nothing out of COMPLETED. */
  predicate Accepts(from: SprintStatus, to: SprintStatus)
  {
    match (from, to)
    case (Completed, _) => false
    case (Pending, Completed) => false
    case (Pending, _) => true
    case (Active, _) => true
  }

  /** The row `update` writes for a sprint, or the reason it refuses. Only
      the status and the two dates change; the start is restamped on every
      move to ACTIVE and the end on the move to COMPLETED. */
  function Transition(s: Sprint, status: SprintStatus, now: int): (r: Result<Sprint>)
    ensures r.Ok? <==> Accepts(s.status, status)
    ensures s.status == Completed ==> r == Err(BadRequest("Completed sprint cannot be modified"))
    ensures s.status == SprintStatus.Pending && status == Completed ==>
              r == Err(BadRequest("Sprint must be started before completing"))
    ensures r.Ok? ==>
              && r.value.(status := s.status, startDate := s.startDate, endDate := s.endDate) == s
              && r.value.status == status
              && r.value.startDate == (if status == Active then Some(now) else s.startDate)
              && r.value.endDate == (if status == Completed then Some(now) else s.endDate)
  {
    if s.status == Completed then Err(BadRequest("Completed sprint cannot be modified"))
    else if s.status == SprintStatus.Pending && status == Completed then
      Err(BadRequest("Sprint must be started before completing"))
    else
      Ok(s.(status := status,
            startDate := if status == Active then Some(now) else s.startDate,
            endDate := if status == Completed then Some(now) else s.endDate))
  }

  /** One `update` request: the requested status and the time it runs at. */
  datatype Step = Step(status: SprintStatus, now: int)

  /** A sprint after a series of `update` requests; a refused request leaves it as it was. */
  function Replay(s: Sprint, steps: seq<Step>): Sprint
    decreases |steps|
  {
    if steps == [] then s
    else
      var next := match Transition(s, steps[0].status, steps[0].now) case Ok(t) => t case Err(_) => s;
      Replay(next, steps[1..])
  }

  /** COMPLETED is final: no series of requests changes a completed sprint. */
  lemma {:induction false} CompletedIsFinal(s: Sprint, steps: seq<Step>)
    requires s.status == Completed
    ensures Replay(s, steps) == s
    decreases |steps|
  {
    if steps != [] {
      CompletedIsFinal(s, steps[1..]);
    }
  }

  /** The dates a sprint's status implies: an ACTIVE sprint has a start, and
      a COMPLETED one a start no later than its end. */
  ghost predicate WellDated(s: Sprint)
  {
    && (s.status == Active ==> s.startDate.Some?)
    && (s.status == Completed ==> s.startDate.Some? && s.endDate.Some? && s.startDate.value <= s.endDate.value)
  }

  /** Requests whose clock never goes back, none earlier than `clock`. */
  ghost predicate Chronological(clock: int, steps: seq<Step>)
  {
    && (forall k :: 0 <= k < |steps| ==> clock <= steps[k].now)
    && (forall j, k :: 0 <= j < k < |steps| ==> steps[j].now <= steps[k].now)
  }

  /** With a clock that never goes back, `update` keeps every sprint well
      dated; in particular a sprint created PENDING (with any dates) and then
      completed was started no later than it was completed. */
  lemma {:induction false} ReplayWellDated(s: Sprint, clock: int, steps: seq<Step>)
    requires WellDated(s)
    requires s.status == Active ==> s.startDate.value <= clock
    requires Chronological(clock, steps)
    ensures WellDated(Replay(s, steps))
    decreases |steps|
  {
    if steps != [] {
      var now := steps[0].now;
      var next := match Transition(s, steps[0].status, now) case Ok(t) => t case Err(_) => s;
      assert next.status == Active ==> next.startDate.value <= now;
      assert Chronological(now, steps[1..]) by {
        forall k | 0 <= k < |steps[1..]|
          ensures now <= steps[1..][k].now
        {
          assert steps[1..][k] == steps[k + 1];
        }
      }
      ReplayWellDated(next, now, steps[1..]);
    }
  }

  /** `update`: NotFound for an unknown sprint; otherwise the transition's
      row replaces the sprint's, or the sprint table is untouched. */
  method Update(db: Db, sprintId: int, dto: UpdateSprintDto, now: int) returns (r: Result<Sprint>)
    requires db.Valid()
    modifies db`sprints
    ensures db.Valid()
    ensures match FindByKey(old(db.sprints), SprintKey, sprintId)
      case None => r == Err(NotFound("Sprint not found")) && db.sprints == old(db.sprints)
      case Some(s) =>
        && r == Transition(s, dto.status, now)
        && (r.Err? ==> db.sprints == old(db.sprints))
        && (r.Ok? ==>
              && |db.sprints| == |old(db.sprints)|
              && forall k :: 0 <= k < |db.sprints| ==>
                   db.sprints[k] == if old(db.sprints)[k].id == sprintId then r.value else old(db.sprints)[k])
  {
    var found := FindByKey(db.sprints, SprintKey, sprintId);
    if found.None? {
      return Err(NotFound("Sprint not found"));
    }
    var s := found.value;
    r := Transition(s, dto.status, now);
    if r.Ok? {
      var t := r.value;
      var f := (x: Sprint) => x.(status := t.status, startDate := t.startDate, endDate := t.endDate);
      assert f(s) == t;
      UpdateByKeyEffect(db.sprints, SprintKey, s, f);
      db.sprints := UpdateByKey(db.sprints, SprintKey, sprintId, f);
    }
  }
}
