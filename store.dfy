/** The relational store behind every service: one table per entity, kept in
    insertion order, and the autoincrement counters that number new rows. */
module Store {
  import opened Common
  import opened Model

  class Db {
    const defaults: Defaults
    var users: seq<User>
    var workspaces: seq<Workspace>
    var members: seq<Membership>
    var projects: seq<Project>
    var sprints: seq<Sprint>
    var issues: seq<Issue>
    var comments: seq<Comment>
    var nextWorkspaceId: int
    var nextMemberId: int
    var nextSprintId: int
    var nextIssueId: int
    var nextCommentId: int

    /** The unique keys of the schema (primary keys, the membership pair and
        the per-project ticket number) and the autoincrement counters: every
        id handed out so far is positive and below its counter, and every
        membership row refers to a workspace id already handed out. */
    ghost predicate Valid()
      reads this
    {
      && UniquePairs(members)
      && KeyUnique(workspaces, WorkspaceKey) && KeyUnique(projects, ProjectKey)
      && KeyUnique(sprints, SprintKey) && KeyUnique(issues, IssueKey) && KeyUnique(comments, CommentKey)
      && KeyUnique(issues, TicketKey)
      && 1 <= nextWorkspaceId && 1 <= nextMemberId && 1 <= nextSprintId && 1 <= nextIssueId && 1 <= nextCommentId
      && (forall w :: w in workspaces ==> 1 <= w.id < nextWorkspaceId)
      && (forall m :: m in members ==> 1 <= m.workspaceId < nextWorkspaceId && 1 <= m.id < nextMemberId)
      && (forall s :: s in sprints ==> 1 <= s.id < nextSprintId)
      && (forall i :: i in issues ==> 1 <= i.id < nextIssueId)
      && (forall c :: c in comments ==> 1 <= c.id < nextCommentId)
    }

    /** An empty store over the registered users (registration is not part of this model). */
    constructor (users: seq<User>, defaults: Defaults)
      ensures Valid()
      ensures this.users == users && this.defaults == defaults
      ensures workspaces == [] && members == [] && projects == []
      ensures sprints == [] && issues == [] && comments == []
    {
      this.defaults := defaults;
      this.users := users;
      workspaces, members, projects, sprints, issues, comments := [], [], [], [], [], [];
      nextWorkspaceId, nextMemberId, nextSprintId, nextIssueId, nextCommentId := 1, 1, 1, 1, 1;
    }
  }
}
