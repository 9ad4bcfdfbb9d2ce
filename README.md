# Taskflow workspace authorization and lifecycle, in Dafny

Taskflow is a multi-tenant project tracker (NestJS over a Prisma store). It
has workspaces with members, and each member has a role (ADMIN, MEMBER or
GUEST) and an invite status (PENDING or ACCEPTED). Workspaces hold projects,
projects hold sprints and issues, and issues hold comments. The repository
carries two service trees, `backend/` and `src/`, whose services overlap but
differ in their checks.

This project models:

- the workspace role guard;
- the workspace, issue, comment, project and dashboard services of `backend/`;
- the workspace, issue and sprint services of `src/`.

It then proves what those services promise about who may do what, and
what each operation does to the store.

## Layout

- `common.dfy` (`Common`): `Option`, `Result` and the error taxonomy
  (`Forbidden` 403, `NotFound` 404, `BadRequest` 400, `Unauthorized` 401,
  `InvalidInput` for the plain `Error`, and `RecordNotFound` for the
  store's own error when an `update` or `delete` finds no row, which
  reaches the client as HTTP 500). It also holds optional DTO fields,
  modelled as `Patch`. Finally it has the generic table operations the
  store performs: lookup, filter, map, sort, and update or delete on a
  unique key.
- `model.dfy` (`Model`): the rows of the schema, and the queries on the
  membership table that every service repeats. Those queries are the
  lookup on the composite key (workspaceId, userId), the role of the pair,
  `listMembers` and `listWorkspaces`.
- `store.dfy` (`Store`): the class `Db`, with one `seq` field per table and
  the autoincrement counters. Its invariant `Valid()` says that:
  - every unique key is unique: the primary keys, the membership pair and
    (projectId, ticketNumber);
  - every id is below its counter.
  Every state-changing operation is a method on a `Db`. It keeps `Valid()`
  and states the new value of every field it may modify, counters included;
  its `modifies` frame keeps every other field.
- `guard.dfy` (`WorkspaceRoleGuard`): `canActivate`.
- `workspace_backend.dfy` and `workspace_src.dfy`: the two workspace services.
- `issues.dfy` (`Issues`): what the two issue services share. That is the
  ticket numbering, the `findByProject` query with its filters, and the
  issue update.
- `issue_backend.dfy` and `issue_src.dfy`: the two issue services.
- `comment_backend.dfy`, `sprint_src.dfy`, `project_backend.dfy` and
  `dashboard_backend.dfy`: the remaining services.
- `scenarios.dfy`: properties that span services.

Each check-then-write operation is split in two:

- a function on table values, which is the decision (the error the source
  throws, or the row it writes);
- a method that applies the decision to a `Db`.

The method's contract ties the new state to the decision on the old state.
The functions' contracts and the lemmas state the properties.

The store generates some values itself: project ids (a generated string),
the current time (`new Date()`, the comment `createdAt` default) and the
schema's column defaults. The model takes all of these as parameters, or as
the `Db.defaults` constant. The store's JavaScript inputs are modelled this
way:

- `undefined`, `null` and `NaN` are `None`.
- JavaScript truthiness of a number is `Model.Falsy`.

## Model

| member | source | states |
|---|---|---|
| Model.FindMember | src/common/guards/workspace-role.guard.ts:37-44 | The lookup on the composite key returns a row holding the pair, and returns `None` exactly when no row holds it. |
| Model.FindMemberUnique | src/common/guards/workspace-role.guard.ts:37-44 | Under the unique key, the lookup returns the one row that holds the pair. |
| Model.AppendKeepsUnique | backend/src/modules/workspace/workspace.service.ts:80-93 | Inserting a row for a pair that has no row keeps the (workspaceId, userId) key unique. |
| Model.NewWorkspaceHasSoleMember | backend/src/modules/workspace/workspace.service.ts:10-22 | A row for a workspace id that appears nowhere else becomes that workspace's only member, and the key stays unique. |
| Model.FindMemberAppend | src/modules/workspace/workspace.service.ts:42-53 | Appending a row does not change a lookup that already succeeds. |
| Model.RoleOf | backend/src/modules/issue/issue.service.ts:77-78 | `membership?.role` is the role of some row for the pair; it is `None` exactly when no row holds the pair. |
| Model.RoleOfUnique | backend/src/modules/issue/issue.service.ts:74-78 | Under the unique key, a role check on the looked-up row holds exactly when the pair holds one of the roles. |
| Model.MembersOf | backend/src/modules/workspace/workspace.service.ts:114-119 | `listMembers` (the same code in `src/modules/workspace/workspace.service.ts:79-83`) returns exactly the rows of the workspace. |
| Model.WorkspacesOf | src/modules/workspace/workspace.service.ts:27-32 | The `src/` `listWorkspaces` returns exactly the workspaces in which the user has a row, of any role or status. |
| Model.SetRoleEffect | backend/src/modules/workspace/workspace.service.ts:108-111 | A role update rewrites only the target row's role. The row's id, pair and status are kept, as is every other row, and the key stays unique. |
| Model.WorkspaceName | backend/src/dashboard/dashboard.service.ts:66-70 | The included workspace's name belongs to a workspace with that id, and is `None` exactly when no workspace has the id. |
| Model.ProjectName | backend/src/modules/issue/issue.service.ts:118-127 | The included project's name belongs to a project with that id, and is `None` exactly when no project has the id. |
| WorkspaceRoleGuard.CanActivate | src/common/guards/workspace-role.guard.ts:19-55 | Each outcome, in the source's order: no role restriction allows; a falsy user or workspace id yields "Invalid workspace access"; no row yields "Not a workspace member"; any other refusal is "Insufficient permissions". An allow means some row holds a required role. |
| WorkspaceRoleGuard.GuardAllowsExactly | src/common/guards/workspace-role.guard.ts:37-54 | Under the unique key, with valid ids, the guard allows if and only if the caller's row carries a required role. |
| WorkspaceRoleGuard.AdminOnlyIsIsAdmin | src/common/guards/workspace-role.guard.ts:50-52 | With the ADMIN-only set, the guard allows exactly the callers that the services' own ADMIN check accepts. |
| WorkspaceRoleGuard.GuardIgnoresInviteStatus | src/common/guards/workspace-role.guard.ts:37-54 | Rewriting any row's invite status leaves every decision unchanged, so a PENDING member passes like an ACCEPTED one. |
| BackendWorkspace.FindUserByEmail | backend/src/modules/workspace/workspace.service.ts:62-64 | The lookup by email returns a user with that email, and returns `None` exactly when there is none. |
| BackendWorkspace.CreateWorkspace | backend/src/modules/workspace/workspace.service.ts:10-22 | The new workspace takes the next id, with the caller as owner. The caller's ADMIN/ACCEPTED row is then the workspace's only member. Nothing else changes. |
| BackendWorkspace.ListWorkspaces | backend/src/modules/workspace/workspace.service.ts:24-40 | Each listed workspace has a row for the user carrying the listed role. Every workspace in which the user has a row is listed. |
| BackendWorkspace.ListedRoleIsOwnRole | backend/src/modules/workspace/workspace.service.ts:33-39 | Under the unique key, the listed role is the role of the user's own row; the 'MEMBER' fallback never decides it. |
| BackendWorkspace.InviteDecision | backend/src/modules/workspace/workspace.service.ts:47-84 | The checks, in order: a non-ADMIN or non-member inviter; an unknown email; an existing row of any status. An ADMIN inviting a registered user with no row succeeds with that user's id. On success the inviter is an ADMIN, and the invitee is the user with that email, with no existing row. |
| BackendWorkspace.InviteMember | backend/src/modules/workspace/workspace.service.ts:42-94 | A refusal leaves the table untouched. Success appends exactly one row (next id, workspace, invitee, requested role, default status), and the key stays unique. |
| BackendWorkspace.RoleUpdateDecision | backend/src/modules/workspace/workspace.service.ts:97-111 | A non-ADMIN updater is Forbidden. A missing target row is the store's record-not-found error (HTTP 500). An ADMIN updating an existing row gets that row. |
| BackendWorkspace.UpdateMemberRole | backend/src/modules/workspace/workspace.service.ts:97-112 | A refusal changes nothing. Success rewrites only the target row's role. The code is the same as `src/modules/workspace/workspace.service.ts:65-77`. |
| SrcWorkspace.CreateWorkspace | src/modules/workspace/workspace.service.ts:10-25 | The new workspace takes the next id, with the caller as owner. The caller's ADMIN row, with the column's default status, is then its only member. |
| SrcWorkspace.InviteDecision | src/modules/workspace/workspace.service.ts:34-53 | A non-ADMIN inviter, then an existing row, are Forbidden. The invite succeeds if and only if the inviter is ADMIN and the pair has no row. The invitee's existence is not checked. |
| SrcWorkspace.InviteMember | src/modules/workspace/workspace.service.ts:34-63 | A refusal leaves the table untouched. Success appends exactly one row (dto.userId, dto.role, default status). |
| SrcWorkspace.ReinviteRefused | src/modules/workspace/workspace.service.ts:42-53 | After a successful invite, inviting the same user again is refused as "already a member". |
| Issues.MaxTicket | backend/src/modules/issue/issue.service.ts:47-50 | The result is the largest ticket number among the project's issues. It is `None` exactly when the project has no issue. |
| Issues.NextTicket | backend/src/modules/issue/issue.service.ts:47-51 | The new ticket exceeds every ticket of the project. It is the project's largest ticket + 1, or `base + 1` for the project's first issue. |
| Issues.ConsecutiveTickets | backend/src/modules/issue/issue.service.ts:47-51 | Creating A and then B in the same project gives `B.ticketNumber == A.ticketNumber + 1`. |
| Issues.NextTicketKeepsTicketsUnique | backend/src/modules/issue/issue.service.ts:47-64 | An issue numbered this way keeps (projectId, ticketNumber) unique. |
| Issues.ProjectIssues | src/modules/issue/issue.service.ts:11-22 | The result holds exactly the project's issues that pass the `assignee === 'me'` and `sprint === 'active'` filters, each as often as in the table, sorted by ascending listPosition. |
| Issues.UnfilteredIsWholeProject | src/modules/issue/issue.service.ts:11-22 | With neither filter, every issue of the project is returned. |
| Issues.ApplyIssueUpdate | src/modules/issue/issue.service.ts:57-62 | The DTO's present fields (status, sprintId, assigneeId, listPosition) take their new value. Every other column is kept. |
| Issues.UpdateIssueRow | backend/src/modules/issue/issue.service.ts:85 | Only the row with the issue's id is rewritten; every other row stays in place. The unique keys hold afterwards. |
| BackendIssue.ProjectForWork | backend/src/modules/issue/issue.service.ts:12-21 | An unknown project is NotFound, before any membership check. An existing project is Forbidden unless the caller holds ADMIN or MEMBER in its workspace. |
| BackendIssue.ProjectForWorkExactly | backend/src/modules/issue/issue.service.ts:16-21 | Under the unique keys, an existing project passes if and only if the caller holds ADMIN or MEMBER. |
| BackendIssue.FindByProject | backend/src/modules/issue/issue.service.ts:11-31 | NotFound for an unknown project. An existing project yields either the `Issues.ProjectIssues` query or Forbidden ("You are not a member of this workspace"), and success means the caller holds ADMIN or MEMBER there. |
| BackendIssue.GuestCannotList | backend/src/modules/issue/issue.service.ts:19-21 | A GUEST of the project's workspace is refused. |
| BackendIssue.PlanCreate | backend/src/modules/issue/issue.service.ts:34-66 | NotFound for an unknown project. An existing project yields either the new row or Forbidden, and success means the caller holds ADMIN or MEMBER there. The new row has: the next ticket (1 for a project's first issue); the project's workspace; the caller as reporter; falsy sprintId/assigneeId stored as null; the default status and position. |
| BackendIssue.WorkersExactly | backend/src/modules/issue/issue.service.ts:12-44 | Under the unique keys, for an existing project: listing returns `Issues.ProjectIssues` to an ADMIN or MEMBER of its workspace, and Forbidden to everyone else (non-members and GUESTs). Creating succeeds if and only if the caller holds ADMIN or MEMBER, and anyone else gets Forbidden. |
| BackendIssue.Create | backend/src/modules/issue/issue.service.ts:34-67 | A refusal changes nothing. Success appends the planned row under the next id, and the unique keys hold. |
| BackendIssue.RemoverMayUpdate | backend/src/modules/issue/issue.service.ts:77-99 | Whoever may delete an issue may also update it. |
| BackendIssue.PermissionsExactly | backend/src/modules/issue/issue.service.ts:77-99 | Under the unique key, updating is allowed if and only if the caller holds ADMIN or MEMBER or is the reporter. Deleting is allowed if and only if the caller holds ADMIN or is the reporter. |
| BackendIssue.IssueDecision | backend/src/modules/issue/issue.service.ts:69-100 | An unknown issue is NotFound; a refused caller gets "You cannot update/delete this issue". On success the result is the issue, and the caller has the permission. |
| BackendIssue.IssueDecisionExactly | backend/src/modules/issue/issue.service.ts:69-100 | Under the unique id, an existing issue is returned if and only if the caller has the update (or delete) permission; otherwise the refusal carries the operation's message. |
| BackendIssue.AdminMayUpdateAndRemove | backend/src/modules/issue/issue.service.ts:77-99 | An ADMIN of the issue's workspace may update and delete it, whoever reported it. |
| BackendIssue.MemberMayUpdateButNotRemove | backend/src/modules/issue/issue.service.ts:77-100 | A MEMBER who is not the reporter may update the issue, and is Forbidden from deleting it. |
| BackendIssue.GuestRefusedReporterAllowed | backend/src/modules/issue/issue.service.ts:77-100 | A GUEST who is not the reporter may neither update nor delete. The reporter may do both. |
| BackendIssue.Update | backend/src/modules/issue/issue.service.ts:69-86 | A refusal changes nothing. Success rewrites only the issue's row with the DTO. |
| BackendIssue.Remove | backend/src/modules/issue/issue.service.ts:88-104 | A refusal changes nothing. Success deletes exactly the row with that id. |
| BackendIssue.ListNewIssues | backend/src/modules/issue/issue.service.ts:106-128 | The result is a view of exactly the issues assigned to the user that are not DONE. Each view carries the issue's project and workspace names. |
| SrcIssue.PlanCreate | src/modules/issue/issue.service.ts:25-53 | NotFound happens if and only if the project is unknown; otherwise the row has: the next ticket (101 for a project's first issue); status TODO; the project's workspace; the caller as reporter; sprintId and assigneeId exactly as given (`??` keeps 0). |
| SrcIssue.Create | src/modules/issue/issue.service.ts:25-54 | A refusal changes nothing. Success appends the planned row under the next id, and the unique keys hold. |
| SrcIssue.Update | src/modules/issue/issue.service.ts:57-62 | There is no permission check. An unknown id is the store's record-not-found error (HTTP 500); otherwise only that row is rewritten. |
| SrcIssue.Remove | src/modules/issue/issue.service.ts:65-69 | There is no permission check. An unknown id is the store's record-not-found error (HTTP 500); otherwise exactly that row is deleted. |
| BackendComment.CommentsOf | backend/src/modules/comment/comment.service.ts:19-21 | The result is exactly the comments of the issue. |
| BackendComment.IssueForMember | backend/src/modules/comment/comment.service.ts:10-17 | An unknown issue is NotFound. An existing issue is Unauthorized unless the caller has a row, of any role or status, in its workspace; under the unique id, such a row always passes. |
| BackendComment.FindByIssue | backend/src/modules/comment/comment.service.ts:9-24 | An unknown issue is NotFound. An existing issue yields either its comments or Unauthorized, and success means the caller has a row in its workspace. On success the result is a permutation of the issue's comments, ascending by createdAt. |
| BackendComment.AnyMemberReads | backend/src/modules/comment/comment.service.ts:14-23 | Any member, GUEST or PENDING included, reads exactly the issue's comments. |
| BackendComment.PlanCreate | backend/src/modules/comment/comment.service.ts:28-47 | A NaN issueId is an InvalidInput, and an unknown issue is NotFound. For an existing issue the result is either the comment or Unauthorized, and success means the caller has a row in its workspace. The new comment has the caller as author and `now` as its time. |
| BackendComment.AnyMemberComments | backend/src/modules/comment/comment.service.ts:26-47 | Any member of the issue's workspace, GUEST or PENDING included, may comment: the result is the caller's comment on that issue at `now`. |
| BackendComment.NonMemberUnauthorized | backend/src/modules/comment/comment.service.ts:10-39 | Under the unique id, a caller with no row in an existing issue's workspace gets "You cannot view comments for this issue" when reading and "You cannot comment on this issue" when commenting. |
| BackendComment.Create | backend/src/modules/comment/comment.service.ts:26-48 | A refusal changes nothing. Success appends the planned comment under the next id. |
| BackendComment.UpdateDecision | backend/src/modules/comment/comment.service.ts:52-57 | An unknown comment is NotFound. An existing comment yields either itself or Unauthorized, and success means the caller wrote it. |
| BackendComment.NonAuthorUnauthorized | backend/src/modules/comment/comment.service.ts:52-57 | Under the unique id, an existing comment is returned to its author, and anyone else gets "You can only update your own comments", whether or not its issue row exists. |
| BackendComment.ApplyCommentUpdate | backend/src/modules/comment/comment.service.ts:59 | Only the content may change. |
| BackendComment.Update | backend/src/modules/comment/comment.service.ts:51-60 | A refusal changes nothing. Success rewrites only that comment's content. |
| BackendComment.RemoveDecision | backend/src/modules/comment/comment.service.ts:63-75 | The possible errors are the two NotFounds and "You cannot delete this comment". If the comment exists but its issue row does not, the result is "Issue not found". On success the caller is an ADMIN of the issue's workspace or the author. |
| BackendComment.CommentPermissions | backend/src/modules/comment/comment.service.ts:51-78 | The author may edit and delete. A non-author may never edit, and may delete if and only if they are an ADMIN of the workspace. |
| BackendComment.Remove | backend/src/modules/comment/comment.service.ts:62-78 | A refusal changes nothing. Success deletes exactly that comment. |
| SrcSprint.PlanCreate | src/modules/sprint/sprint.service.ts:12-28 | NotFound happens if and only if the project is unknown. Otherwise the sprint is PENDING, with the DTO's dates or null. |
| SrcSprint.Create | src/modules/sprint/sprint.service.ts:11-29 | A refusal changes nothing. Success appends the PENDING sprint under the next id. |
| SrcSprint.Transition | src/modules/sprint/sprint.service.ts:41-61 | The move is accepted if and only if the `Accepts` table allows it. COMPLETED is refused with "Completed sprint cannot be modified", and PENDING→COMPLETED with "Sprint must be started before completing". On success only the status and dates change: the start is stamped iff the target is ACTIVE, and the end iff it is COMPLETED. |
| SrcSprint.CompletedIsFinal | src/modules/sprint/sprint.service.ts:41-43 | No series of updates changes a COMPLETED sprint. |
| SrcSprint.ReplayWellDated | src/modules/sprint/sprint.service.ts:52-61 | With a clock that never goes back, an ACTIVE sprint always has a start. A COMPLETED sprint has a start no later than its end. |
| SrcSprint.Update | src/modules/sprint/sprint.service.ts:32-62 | An unknown sprint is NotFound. Otherwise the result is the transition's outcome: a refusal changes nothing, and success replaces only that sprint's row. |
| BackendProject.VerifyWorkspaceAccess | backend/src/modules/project/project.service.ts:13-26 | Access is granted if and only if the caller has a row, of any role and status, in the workspace. It yields that row; refusal is "Access denied to workspace". |
| BackendProject.PlanCreate | backend/src/modules/project/project.service.ts:30-40 | The call is refused if and only if the caller has no row in dto.workspaceId. Otherwise the project is made from the DTO in that workspace. |
| BackendProject.Create | backend/src/modules/project/project.service.ts:30-41 | A refusal changes nothing. Success appends the project, and the id key stays unique. |
| BackendProject.FindAll | backend/src/modules/project/project.service.ts:44-51 | After the access check, the result is exactly the workspace's projects. |
| BackendProject.FindOne | backend/src/modules/project/project.service.ts:54-64 | An unknown id is NotFound, before access is checked; then "Access denied to workspace". On success the caller has a row in the project's workspace. |
| BackendProject.FindOneExactly | backend/src/modules/project/project.service.ts:54-64 | Under the unique key, an existing project is returned if and only if the caller has a row in its workspace. |
| BackendProject.ApplyProjectUpdate | backend/src/modules/project/project.service.ts:70-73 | Only the name and description may change. |
| BackendProject.Update | backend/src/modules/project/project.service.ts:67-74 | The method has `findOne`'s outcomes; a refusal changes nothing, and success rewrites only that project's row. |
| BackendProject.Remove | backend/src/modules/project/project.service.ts:77-83 | The method has `findOne`'s outcomes; a refusal changes nothing, and success deletes exactly that project. |
| BackendDashboard.VisibleWorkspaces | backend/src/dashboard/dashboard.service.ts:11-19 | The result is exactly the `{ id, name }` of the visible workspaces. |
| BackendDashboard.PendingInvites | backend/src/dashboard/dashboard.service.ts:24-27 | The result is exactly the user's PENDING rows, each projected to id, workspaceId and workspace name (lines 66-70). |
| BackendDashboard.GetDashboard | backend/src/dashboard/dashboard.service.ts:8-75 | The five lists. Projects and issues are exactly those of visible workspaces. Comments are exactly those on the returned issues. |
| BackendDashboard.HiddenWorkspaceStaysHidden | backend/src/dashboard/dashboard.service.ts:30-46 | Under the unique workspace id, no project or issue of a workspace the user may not see is returned. |
| Scenarios.PendingInviteeHidden | backend/src/dashboard/dashboard.service.ts:11-46 | A user whose only tie to a workspace it does not own is a PENDING row sees none of its projects or issues, and sees the invitation. |
| Scenarios.PendingInviteeAdmitted | backend/src/modules/project/project.service.ts:13-26 | The same PENDING row passes the project service's access check and the guard with the read roles. |
| Scenarios.GuestRefusedWriteRoles | src/common/guards/workspace-role.guard.ts:50-52 | Behind the write roles (ADMIN, MEMBER), the guard refuses a GUEST with "Insufficient permissions". |
| Scenarios.GuestCreatesOnlyInSrc | backend/src/modules/issue/issue.service.ts:42-44 | A GUEST is refused by the `backend/` `create` but served by the `src/` one. The first ticket of a project is 1 in one tree and 101 in the other. |

## Where the services and the rest of the repository differ

The frontend and the route decorators suggest rules that the services do
not enforce. The model follows the services in each case below.

- Role updates apply to PENDING rows too. The frontend refuses them
  ("Cannot change role of a pending member.", at
  `taskify-frontend/src/app/workspaces/[workspaceId]/page.tsx:36`), but
  nothing in `updateMemberRole` rejects them (`Model.SetRoleEffect` keeps the status and rewrites the role).
- The sprint `update` accepts ACTIVE→PENDING and ACTIVE→ACTIVE, and
  restamps the start on every move to ACTIVE (`SrcSprint.Accepts`,
  `SrcSprint.Transition`).
- The `backend/` comment service lets any member post comments, GUEST and
  PENDING rows included (`BackendComment.IssueForMember`). The project
  service, too, accepts any row of any role and status
  (`BackendProject.VerifyWorkspaceAccess`). Only the route decorators
  restrict roles.
- The backend invite does not set the new row's status; the schema default
  decides. The `src/` `createWorkspace` does not set the owner's status
  either. Both take it from `Db.defaults.memberStatus`.

## Left out

- The `console.log` calls of the backend `updateMemberRole`: they have no
  effect on the result or the store.
- The `UpdateIssueDto` and `UpdateCommentDto` imported by the `backend/`
  issue and comment services come from files that are not part of this
  model. Their shapes are assumed: the `src/` issue update DTO (status,
  sprintId, assigneeId, listPosition), and the comment's content. The
  `CreateSprintDto` and `UpdateSprintDto` of the `src/` sprint service are
  also not part of this model. They are assumed to have the shape of
  `backend/src/modules/sprint/sprint-dto.ts`: a name with optional dates,
  and a required status.

- Authentication (password hashing, JWT), controllers and module wiring.
  The guard's role sets are the constants `ReadRoles`, `WriteRoles` and
  `AdminOnly`, taken from the `@RequireWorkspaceRole` decorators. Whether the
  guard runs on a route is not visible in the source. On routes whose path
  has no `workspaceId`, `CanActivate`'s contract already gives "Invalid
  workspace access".
- The `src/` `findByProject` is exactly `Issues.ProjectIssues`, with no
  membership check; it has no separate member.
- `deleteWorkspace`, `listNewComments` and the `backend/` sprint service:
  they are called from controllers but are not part of this model.
- Concurrency. Each service call is one atomic step on the store, so the
  invite and ticket-number races in the source, which has no locking, are
  not modelled.
- Cascading deletes and foreign keys of the schema. Deleting a project or
  an issue removes only that row.
- Relation `include`s: `user`, `members` and the nested
  `project`/`workspace` of the dashboard's issues and comments. Only the
  names that `listNewIssues` and the invitation view project are kept.
- BackendDashboard.GetDashboard: returns every list in table order. The
  source orders projects, issues and comments by `createdAt`/`updatedAt`
  descending.
- BackendProject.FindAll: returns the projects in table order rather than
  by `createdAt` descending.
- Issues.ProjectIssues: `listPosition` is an `int`, because only its order
  matters here; the source's float arithmetic is not modelled.
- Validation by the DTO decorators and JavaScript coercions other than
  `Number`, `NaN` and truthiness on the fields shown. For example, an
  unparseable date string or a `dto: any` carrying extra columns. Update
  DTOs carry the declared fields only.
