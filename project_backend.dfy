/** The project service of the `backend/` tree. Every operation is gated by
    `verifyWorkspaceAccess`, which accepts any membership row of the
    workspace: role and invite status are not consulted. */
module BackendProject {
  import opened Common
  import opened Model
  import opened Store

  /** `verifyWorkspaceAccess`: the caller's row in the workspace, or Forbidden. */
  function VerifyWorkspaceAccess(members: seq<Membership>, userId: int, ws: int): (r: Result<Membership>)
    ensures r.Err? <==> forall m :: m in members ==> !(m.workspaceId == ws && m.userId == userId)
    ensures r.Err? ==> r.error == Forbidden("Access denied to workspace")
    ensures r.Ok? ==> r.value in members && r.value.workspaceId == ws && r.value.userId == userId
  {
    match FindMember(members, ws, userId)
    case None => Err(Forbidden("Access denied to workspace"))
    case Some(m) => Ok(m)
  }

  /** `CreateProjectDto`. */
  datatype CreateProjectDto = CreateProjectDto(workspaceId: int, name: string, key: string,
                                               description: Option<string>)

  /** The project `create` inserts, under the generated id `newId`. */
  function PlanCreate(members: seq<Membership>, userId: int, dto: CreateProjectDto, newId: string): (r: Result<Project>)
    ensures r.Err? <==> forall m :: m in members ==> !(m.workspaceId == dto.workspaceId && m.userId == userId)
    ensures r.Err? ==> r.error == Forbidden("Access denied to workspace")
    ensures r.Ok? ==> r.value == Project(newId, dto.workspaceId, dto.name, dto.key, dto.description)
  {
    match VerifyWorkspaceAccess(members, userId, dto.workspaceId)
    case Err(e) => Err(e)
    case Ok(_) => Ok(Project(newId, dto.workspaceId, dto.name, dto.key, dto.description))
  }

  /** `create`. The store generates project ids; here the new id is a
      parameter that no existing project holds. */
  method Create(db: Db, userId: int, dto: CreateProjectDto, newId: string) returns (r: Result<Project>)
    requires db.Valid()
    requires forall p :: p in db.projects ==> p.id != newId
    modifies db`projects
    ensures db.Valid()
    ensures r == PlanCreate(db.members, userId, dto, newId)
    ensures r.Err? ==> db.projects == old(db.projects)
    ensures r.Ok? ==> db.projects == old(db.projects) + [r.value]
  {
    r := PlanCreate(db.members, userId, dto, newId);
    if r.Ok? {
      AppendKeepsKeyUnique(db.projects, r.value, ProjectKey);
      db.projects := db.projects + [r.value];
    }
  }

  /** `findAll`: after the access check, exactly the workspace's projects. */
  function FindAll(projects: seq<Project>, members: seq<Membership>, userId: int, ws: int): (r: Result<seq<Project>>)
    ensures r.Err? <==> forall m :: m in members ==> !(m.workspaceId == ws && m.userId == userId)
    ensures r.Err? ==> r.error == Forbidden("Access denied to workspace")
    ensures r.Ok? ==> forall p :: p in r.value ==> p in projects && p.workspaceId == ws
    ensures r.Ok? ==> forall p :: p in projects && p.workspaceId == ws ==> p in r.value
  {
    match VerifyWorkspaceAccess(members, userId, ws)
    case Err(e) => Err(e)
    case Ok(_) => Ok(Filter(projects, (p: Project) => p.workspaceId == ws))
  }

  /** `findOne`: NotFound before the access check, so an unknown id is
      reported as such to anybody. */
  function FindOne(projects: seq<Project>, members: seq<Membership>, userId: int, pid: string): (r: Result<Project>)
    ensures (forall p :: p in projects ==> p.id != pid) ==> r == Err(NotFound("Project not found"))
    ensures r.Err? && r != Err(NotFound("Project not found")) ==> r == Err(Forbidden("Access denied to workspace"))
    ensures r.Ok? ==>
              && r.value in projects && r.value.id == pid
              && exists m :: m in members && m.workspaceId == r.value.workspaceId && m.userId == userId
  {
    match FindByKey(projects, ProjectKey, pid)
    case None => Err(NotFound("Project not found"))
    case Some(p) =>
      match VerifyWorkspaceAccess(members, userId, p.workspaceId)
      case Err(e) => Err(e)
      case Ok(_) => Ok(p)
  }

  /** Under the unique key, an existing project is found exactly by the
      callers with a row in its workspace. */
  lemma FindOneExactly(projects: seq<Project>, members: seq<Membership>, userId: int, p: Project)
    requires KeyUnique(projects, ProjectKey)
    requires p in projects
    ensures FindOne(projects, members, userId, p.id) ==
            if exists m :: m in members && m.workspaceId == p.workspaceId && m.userId == userId
            then Ok(p) else Err(Forbidden("Access denied to workspace"))
  {
    FindByKeyUnique(projects, ProjectKey, p);
  }

  /** `UpdateProjectDto`. */
  datatype UpdateProjectDto = UpdateProjectDto(name: Patch<string>, description: Patch<Option<string>>)

  /** The DTO applied to one project: only the name and description may change. */
  function ApplyProjectUpdate(p: Project, dto: UpdateProjectDto): (r: Project)
    ensures r.(name := p.name, description := p.description) == p
    ensures r.name == Apply(dto.name, p.name) && r.description == Apply(dto.description, p.description)
  {
    p.(name := Apply(dto.name, p.name), description := Apply(dto.description, p.description))
  }

  /** `update`: `findOne`'s checks, then only that project's name and
      description change. */
  method Update(db: Db, userId: int, pid: string, dto: UpdateProjectDto) returns (r: Result<Project>)
    requires db.Valid()
    modifies db`projects
    ensures db.Valid()
    ensures match FindOne(old(db.projects), db.members, userId, pid)
      case Err(e) => r == Err(e) && db.projects == old(db.projects)
      case Ok(p) =>
        && r == Ok(ApplyProjectUpdate(p, dto))
        && |db.projects| == |old(db.projects)|
        && forall k :: 0 <= k < |db.projects| ==>
             db.projects[k] == if old(db.projects)[k].id == pid then ApplyProjectUpdate(old(db.projects)[k], dto) else old(db.projects)[k]
  {
    var found := FindOne(db.projects, db.members, userId, pid);
    if found.Err? {
      return Err(found.error);
    }
    var f := (x: Project) => ApplyProjectUpdate(x, dto);
    UpdateByKeyEffect(db.projects, ProjectKey, found.value, f);
    db.projects := UpdateByKey(db.projects, ProjectKey, pid, f);
    r := Ok(ApplyProjectUpdate(found.value, dto));
  }

  /** `remove`: `findOne`'s checks, then exactly that project is gone. */
  method Remove(db: Db, userId: int, pid: string) returns (r: Result<Project>)
    requires db.Valid()
    modifies db`projects
    ensures db.Valid()
    ensures r == FindOne(old(db.projects), db.members, userId, pid)
    ensures r.Err? ==> db.projects == old(db.projects)
    ensures r.Ok? ==> db.projects == RemoveByKey(old(db.projects), ProjectKey, pid)
  {
    r := FindOne(db.projects, db.members, userId, pid);
    if r.Ok? {
      db.projects := RemoveByKey(db.projects, ProjectKey, pid);
    }
  }
}
