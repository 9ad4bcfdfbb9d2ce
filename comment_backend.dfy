/** The comment service of the `backend/` tree. Any member of the issue's
    workspace, of any role and status, may read and write comments; only the
    author may edit one; the author or an ADMIN of the workspace may delete it. */
module BackendComment {
  import opened Common
  import opened Model
  import opened Store

  /** `comment.findMany({ where: { issueId } })`. */
  function CommentsOf(comments: seq<Comment>, issueId: int): (r: seq<Comment>)
    ensures forall c :: c in r ==> c in comments && c.issueId == issueId
    ensures forall c :: c in comments && c.issueId == issueId ==> c in r
  {
    Filter(comments, (c: Comment) => c.issueId == issueId)
  }

  /** The issue and membership checks shared by reading and writing: NotFound
      for an unknown issue, then `denied` unless the caller has a row in the
      issue's workspace. */
  function IssueForMember(issues: seq<Issue>, members: seq<Membership>, issueId: int, userId: int,
                          denied: string): (r: Result<Issue>)
    ensures (forall i :: i in issues ==> i.id != issueId) ==> r == Err(NotFound("Issue not found"))
    ensures (exists i :: i in issues && i.id == issueId) ==> r.Ok? || r == Err(Unauthorized(denied))
    ensures (KeyUnique(issues, IssueKey) &&
             exists i, m :: i in issues && i.id == issueId && m in members &&
                            m.workspaceId == i.workspaceId && m.userId == userId) ==> r.Ok?
    ensures r.Ok? ==> r.value in issues && r.value.id == issueId &&
                      exists m :: m in members && m.workspaceId == r.value.workspaceId && m.userId == userId
  {
    match FindByKey(issues, IssueKey, issueId)
    case None => Err(NotFound("Issue not found"))
    case Some(i) => if FindMember(members, i.workspaceId, userId).None? then Err(Unauthorized(denied)) else Ok(i)
  }

  /** `findByIssue`: the issue's comments, oldest first; GUEST and PENDING
      rows are enough. */
  function FindByIssue(issues: seq<Issue>, members: seq<Membership>, comments: seq<Comment>,
                       issueId: int, userId: int): (r: Result<seq<Comment>>)
    ensures (forall i :: i in issues ==> i.id != issueId) ==> r == Err(NotFound("Issue not found"))
    ensures (exists i :: i in issues && i.id == issueId) ==>
              r.Ok? || r == Err(Unauthorized("You cannot view comments for this issue"))
    ensures r.Err? && r != Err(NotFound("Issue not found")) ==>
              r == Err(Unauthorized("You cannot view comments for this issue"))
    ensures r.Ok? ==>
              && (exists i, m :: i in issues && i.id == issueId && m in members &&
                                 m.workspaceId == i.workspaceId && m.userId == userId)
              && SortedBy(r.value, (c: Comment) => c.createdAt)
              && multiset(r.value) == multiset(CommentsOf(comments, issueId))
  {
    match IssueForMember(issues, members, issueId, userId, "You cannot view comments for this issue")
    case Err(e) => Err(e)
    case Ok(_) => Ok(SortBy(CommentsOf(comments, issueId), (c: Comment) => c.createdAt))
  }

  /** A member of the issue's workspace, whatever the row's role and status,
      reads exactly the issue's comments. */
  lemma AnyMemberReads(issues: seq<Issue>, members: seq<Membership>, comments: seq<Comment>,
                       issue: Issue, m: Membership, c: Comment)
    requires KeyUnique(issues, IssueKey)
    requires issue in issues && m in members && m.workspaceId == issue.workspaceId
    ensures FindByIssue(issues, members, comments, issue.id, m.userId).Ok?
    ensures var r := FindByIssue(issues, members, comments, issue.id, m.userId);
            c in r.value <==> c in comments && c.issueId == issue.id
  {
    FindByKeyUnique(issues, IssueKey, issue);
    var r := FindByIssue(issues, members, comments, issue.id, m.userId);
    assert c in r.value <==> c in multiset(CommentsOf(comments, issue.id));
  }

  /** `CreateCommentDto`; `issueId` is `Number(dto.issueId)`, `None` for `NaN`. */
  datatype CreateCommentDto = CreateCommentDto(content: string, issueId: Option<int>)

  /** The comment `create` inserts, or the reason it refuses: the author is
      the caller and the creation time is `now`. */
  function PlanCreate(issues: seq<Issue>, members: seq<Membership>, userId: int, dto: CreateCommentDto,
                      id: int, now: int): (r: Result<Comment>)
    ensures dto.issueId.None? ==> r == Err(InvalidInput("Invalid issueId"))
    ensures dto.issueId.Some? && (forall i :: i in issues ==> i.id != dto.issueId.value) ==>
              r == Err(NotFound("Issue not found"))
    ensures dto.issueId.Some? && (exists i :: i in issues && i.id == dto.issueId.value) ==>
              r.Ok? || r == Err(Unauthorized("You cannot comment on this issue"))
    ensures r.Err? && r.error != InvalidInput("Invalid issueId") && r.error != NotFound("Issue not found") ==>
              r.error == Unauthorized("You cannot comment on this issue")
    ensures r.Ok? ==>
              && dto.issueId.Some?
              && (exists i, m :: i in issues && i.id == dto.issueId.value && m in members &&
                                 m.workspaceId == i.workspaceId && m.userId == userId)
              && r.value == Comment(id, dto.issueId.value, userId, dto.content, now)
  {
    match dto.issueId
    case None => Err(InvalidInput("Invalid issueId"))
    case Some(issueId) =>
      match IssueForMember(issues, members, issueId, userId, "You cannot comment on this issue")
      case Err(e) => Err(e)
      case Ok(_) => Ok(Comment(id, issueId, userId, dto.content, now))
  }

  /** A member of the issue's workspace, whatever the row's role and status,
      may comment on it: the comment is the caller's, on that issue, at `now`. */
  lemma AnyMemberComments(issues: seq<Issue>, members: seq<Membership>, issue: Issue, m: Membership,
                          content: string, id: int, now: int)
    requires KeyUnique(issues, IssueKey)
    requires issue in issues && m in members && m.workspaceId == issue.workspaceId
    ensures PlanCreate(issues, members, m.userId, CreateCommentDto(content, Some(issue.id)), id, now) ==
            Ok(Comment(id, issue.id, m.userId, content, now))
  {
    var r := IssueForMember(issues, members, issue.id, m.userId, "You cannot comment on this issue");
    assert r.Ok?;
  }

  /** A caller with no row in an existing issue's workspace is refused with
      Unauthorized, both reading its comments and commenting on it. */
  lemma NonMemberUnauthorized(issues: seq<Issue>, members: seq<Membership>, comments: seq<Comment>,
                              issue: Issue, userId: int, content: string, id: int, now: int)
    requires KeyUnique(issues, IssueKey)
    requires issue in issues
    requires forall m :: m in members ==> !(m.workspaceId == issue.workspaceId && m.userId == userId)
    ensures FindByIssue(issues, members, comments, issue.id, userId) ==
            Err(Unauthorized("You cannot view comments for this issue"))
    ensures PlanCreate(issues, members, userId, CreateCommentDto(content, Some(issue.id)), id, now) ==
            Err(Unauthorized("You cannot comment on this issue"))
  {
    FindByKeyUnique(issues, IssueKey, issue);
  }

  /** `create`: on success the planned comment is appended under the next id.
      The clock is the `now` parameter. */
  method Create(db: Db, userId: int, dto: CreateCommentDto, now: int) returns (r: Result<Comment>)
    requires db.Valid()
    modifies db`comments, db`nextCommentId
    ensures db.Valid()
    ensures r == PlanCreate(db.issues, db.members, userId, dto, old(db.nextCommentId), now)
    ensures r.Err? ==> db.comments == old(db.comments) && db.nextCommentId == old(db.nextCommentId)
    ensures r.Ok? ==> db.comments == old(db.comments) + [r.value] && db.nextCommentId == old(db.nextCommentId) + 1
  {
    r := PlanCreate(db.issues, db.members, userId, dto, db.nextCommentId, now);
    if r.Ok? {
      AppendKeepsKeyUnique(db.comments, r.value, CommentKey);
      db.comments := db.comments + [r.value];
      db.nextCommentId := db.nextCommentId + 1;
    }
  }

  /** `UpdateCommentDto`. */
  datatype UpdateCommentDto = UpdateCommentDto(content: Patch<string>)

  /** The checks of `update`: the comment exists and the caller wrote it. */
  function UpdateDecision(comments: seq<Comment>, userId: int, commentId: int): (r: Result<Comment>)
    ensures (forall c :: c in comments ==> c.id != commentId) ==> r == Err(NotFound("Comment not found"))
    ensures r.Err? && r != Err(NotFound("Comment not found")) ==>
              r == Err(Unauthorized("You can only update your own comments"))
    ensures (exists c :: c in comments && c.id == commentId) ==>
              r.Ok? || r == Err(Unauthorized("You can only update your own comments"))
    ensures r.Ok? ==> r.value in comments && r.value.id == commentId && r.value.userId == userId
  {
    match FindByKey(comments, CommentKey, commentId)
    case None => Err(NotFound("Comment not found"))
    case Some(c) => if c.userId != userId then Err(Unauthorized("You can only update your own comments")) else Ok(c)
  }

  /** Under the unique id, an existing comment is handed to its author and
      to nobody else, whether or not its issue row exists. */
  lemma NonAuthorUnauthorized(comments: seq<Comment>, c: Comment, userId: int)
    requires KeyUnique(comments, CommentKey)
    requires c in comments
    ensures UpdateDecision(comments, userId, c.id) ==
            if c.userId == userId then Ok(c) else Err(Unauthorized("You can only update your own comments"))
  {
    FindByKeyUnique(comments, CommentKey, c);
  }

  /** The DTO applied to one comment: only the content may change. */
  function ApplyCommentUpdate(c: Comment, dto: UpdateCommentDto): (r: Comment)
    ensures r.(content := c.content) == c
    ensures r.content == Apply(dto.content, c.content)
  {
    c.(content := Apply(dto.content, c.content))
  }

  /** `update`: on success only the comment's content changes. */
  method Update(db: Db, userId: int, commentId: int, dto: UpdateCommentDto) returns (r: Result<Comment>)
    requires db.Valid()
    modifies db`comments
    ensures db.Valid()
    ensures match UpdateDecision(old(db.comments), userId, commentId)
      case Err(e) => r == Err(e) && db.comments == old(db.comments)
      case Ok(c) =>
        && r == Ok(ApplyCommentUpdate(c, dto))
        && |db.comments| == |old(db.comments)|
        && forall k :: 0 <= k < |db.comments| ==>
             db.comments[k] == if old(db.comments)[k].id == commentId then ApplyCommentUpdate(old(db.comments)[k], dto) else old(db.comments)[k]
  {
    var d := UpdateDecision(db.comments, userId, commentId);
    if d.Err? {
      return Err(d.error);
    }
    var f := (x: Comment) => ApplyCommentUpdate(x, dto);
    UpdateByKeyEffect(db.comments, CommentKey, d.value, f);
    db.comments := UpdateByKey(db.comments, CommentKey, commentId, f);
    r := Ok(ApplyCommentUpdate(d.value, dto));
  }

  /** The checks of `remove`: the comment and its issue exist, and the
      caller is an ADMIN of the issue's workspace or the comment's author. */
  function RemoveDecision(comments: seq<Comment>, issues: seq<Issue>, members: seq<Membership>,
                          userId: int, commentId: int): (r: Result<Comment>)
    ensures (forall c :: c in comments ==> c.id != commentId) ==> r == Err(NotFound("Comment not found"))
    ensures forall c :: c in comments && c.id == commentId && KeyUnique(comments, CommentKey) &&
                        FindByKey(issues, IssueKey, c.issueId).None? ==>
              r == Err(NotFound("Issue not found"))
    ensures r.Err? ==>
              r.error in {NotFound("Comment not found"), NotFound("Issue not found"),
                          Unauthorized("You cannot delete this comment")}
    ensures r.Ok? ==>
              && r.value in comments && r.value.id == commentId
              && exists i :: i in issues && i.id == r.value.issueId &&
                             (IsAdmin(members, i.workspaceId, userId) || r.value.userId == userId)
  {
    match FindByKey(comments, CommentKey, commentId)
    case None => Err(NotFound("Comment not found"))
    case Some(c) =>
      match FindByKey(issues, IssueKey, c.issueId)
      case None => Err(NotFound("Issue not found"))
      case Some(i) =>
        if !IsAdmin(members, i.workspaceId, userId) && c.userId != userId
        then Err(Unauthorized("You cannot delete this comment"))
        else Ok(c)
  }

  /** The author may edit and delete their comment; an ADMIN of the
      workspace who is not the author may delete it but not edit it; any
      other non-author may do neither. */
  lemma CommentPermissions(comments: seq<Comment>, issues: seq<Issue>, members: seq<Membership>,
                           c: Comment, issue: Issue, userId: int)
    requires KeyUnique(comments, CommentKey) && KeyUnique(issues, IssueKey)
    requires c in comments && issue in issues && c.issueId == issue.id
    ensures c.userId == userId ==>
              UpdateDecision(comments, userId, c.id) == Ok(c) &&
              RemoveDecision(comments, issues, members, userId, c.id) == Ok(c)
    ensures c.userId != userId ==>
              UpdateDecision(comments, userId, c.id) == Err(Unauthorized("You can only update your own comments"))
    ensures c.userId != userId ==>
              RemoveDecision(comments, issues, members, userId, c.id) ==
              if IsAdmin(members, issue.workspaceId, userId) then Ok(c) else Err(Unauthorized("You cannot delete this comment"))
  {
    FindByKeyUnique(comments, CommentKey, c);
    FindByKeyUnique(issues, IssueKey, issue);
  }

  /** `remove`: on success exactly the rows with that id are gone. */
  method Remove(db: Db, userId: int, commentId: int) returns (r: Result<Comment>)
    requires db.Valid()
    modifies db`comments
    ensures db.Valid()
    ensures r == RemoveDecision(old(db.comments), db.issues, db.members, userId, commentId)
    ensures r.Err? ==> db.comments == old(db.comments)
    ensures r.Ok? ==> db.comments == RemoveByKey(old(db.comments), CommentKey, commentId)
  {
    r := RemoveDecision(db.comments, db.issues, db.members, userId, commentId);
    if r.Ok? {
      db.comments := RemoveByKey(db.comments, CommentKey, commentId);
    }
  }
}
