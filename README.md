# Recruitment applications, modelled in Dafny

This project models the recruitment-application core of a job-recruitment
backend, written in Kotlin. Users apply to recruitment posts and can cancel
their applications. They can also list the posts where their application has
a given status. Beside that workflow sit two smaller parts: the
ownership-gated profile service, and the recruitment post entity's setters.

Files:

- `errors.dfy` (module `Errors`): the closed set of error codes. It also
  holds `Outcome` (completes, or throws a code), `Result<T>` and `Option<T>`.
- `post.dfy` (module `Posts`): the `RecruitmentPost` entity as a class whose
  setters overwrite named fields. `PostFields`, `WithStatus` and `WithPost` are
  the value view used to compare successive updates.
- `user.dfy` (module `Users`): skill-name resolution (`ResolveSkills`, the
  `mapNotNull` step) with its lemmas. It also holds the `SiteUser` entity and
  `UserService`, which holds the user table and the skill table.
- `recruitment.dfy` (module `Recruitment`): the application table as a map
  from row id to application row. Around it sit the lookups, the invariant
  "at most one row per (post, user)" (`AtMostOnePerPair`) with its
  preservation lemmas, and `RecruitmentUserService`, which holds the post
  table and the application table.

Modelling choices:

- Every service call is one atomic method, or a function when it only reads.
  Throwing `GlobalException(code)` becomes `Fail(code)` / `Failure(code)`.
- Application rows are keyed by their own row id, as stored rows would be.
  The row entity and its schema are outside the model, which assumes no
  storage-level uniqueness constraint on (post, user). The service's
  duplicate check is what keeps `AtMostOnePerPair`, and `Valid()` records it.
  `nextRecordId` stands for the store's id generator, which is outside the model.
- Posts are looked up by id (`findByIdFetch`). `Valid()` states that the post
  stored under id `p` has `postId == p`. This matters because
  `checkRecruitmentCondition` checks for duplicates using `post.postId`, not
  the `postId` argument.
- The service methods state their full new state. Their error precedence
  appears as one `ensures` per branch. The lemmas on the table functions
  (`InsertKeepsAtMostOne`, `RemoveFound`, `CancelUndoesSave`) link several
  calls. A successful save inserts `RecruitmentUser(nextRecordId, postId,
  user.id, Applied)` under a fresh id. A later successful cancel on the same
  open post then finds exactly that row and removes it, which restores the
  table. The id counter stays advanced.
- `RecruitmentUserStatus.from` is not part of this model. It is modelled as
  an exact match of the names `APPLIED`, `ACCEPTED` and `REJECTED`.
- The post-level status enum is not part of this model either. It is
  modelled as `Open | Closed`, because the code only ever compares with
  CLOSED.
- Ids are unbounded integers; Kotlin's `!!` on ids is not modelled. The
  applicant count is a 32-bit `Int32`, stored as a nullable value.

Two points of the code's behaviour worth noting:

- `saveRecruitment` checks for a duplicate
  (RecruitmentUserService.kt:147) before it checks closure (:152). A
  CLOSED post that the user already applied to therefore yields
  AlreadyRecruitment.
- `updateRecruitmentStatus` imposes no direction.
  `ClosedPostCanReopen` shows that a CLOSED post can be reopened.

## Model

| member | source | states |
|---|---|---|
| `Posts.WithStatus` | backend/src/main/java/com/backend/domain/post/entity/RecruitmentPost.kt:41-43 | a status update sets the status and keeps subject, content, applicant count, closing date and job posting |
| `Posts.WithPost` | backend/src/main/java/com/backend/domain/post/entity/RecruitmentPost.kt:36-39 | a post edit sets subject, content and applicant count and keeps status, closing date and job posting |
| `Posts.WithStatusIdempotent` | backend/src/main/java/com/backend/domain/post/entity/RecruitmentPost.kt:41-43 | setting the same status twice equals setting it once |
| `Posts.WithStatusLastWins` | backend/src/main/java/com/backend/domain/post/entity/RecruitmentPost.kt:41-43 | of two successive status updates only the last one matters |
| `Posts.ClosedPostCanReopen` | backend/src/main/java/com/backend/domain/post/entity/RecruitmentPost.kt:41-43 | a CLOSED post can be set back to open: the setter imposes no direction |
| `Posts.StatusAndPostCommute` | backend/src/main/java/com/backend/domain/post/entity/RecruitmentPost.kt:36-43 | a status update and a post edit touch disjoint fields and commute |
| `Posts.RecruitmentPost.UpdatePost` | backend/src/main/java/com/backend/domain/post/entity/RecruitmentPost.kt:36-39 | assigns subject, content and `numOfApplicants`; status, closing date and job posting are unchanged |
| `Posts.RecruitmentPost.UpdateRecruitmentStatus` | backend/src/main/java/com/backend/domain/post/entity/RecruitmentPost.kt:41-43 | assigns the given status, whatever it was before; every other field is unchanged |
| `Users.Lookup` | backend/src/main/java/com/backend/domain/user/service/UserService.kt:73 | the skill found is the one the table stores under the requested name and, when the table keys every skill by its own name, it carries that name |
| `Users.ResolveSkillsNames` | backend/src/main/java/com/backend/domain/user/service/UserService.kt:71-75 | when the table keys every skill by its own name, every resolved skill carries a name that some request entry asked for |
| `Users.ResolveSkills` | backend/src/main/java/com/backend/domain/user/service/UserService.kt:71-75 | the resolved list is never longer than the request and holds only skills from the table |
| `Users.ResolveSkillsSingle` | backend/src/main/java/com/backend/domain/user/service/UserService.kt:71-75 | one entry yields its lookup when its name is non-null and found, and nothing otherwise |
| `Users.ResolveSkillsAppend` | backend/src/main/java/com/backend/domain/user/service/UserService.kt:71-75 | resolution distributes over concatenation, so request order is kept |
| `Users.ResolveSkillsMembers` | backend/src/main/java/com/backend/domain/user/service/UserService.kt:71-75 | a skill is in the result if and only if some request entry resolves to it |
| `Users.ResolveSkillsAllFound` | backend/src/main/java/com/backend/domain/user/service/UserService.kt:71-75 | when every entry resolves, the result has the request's length and position i is the lookup of entry i |
| `Users.ResolveSkillsNoneFound` | backend/src/main/java/com/backend/domain/user/service/UserService.kt:71-75 | when no entry resolves, the result is empty |
| `Users.SiteUser.UpdateJobSkills` | backend/src/main/java/com/backend/domain/user/service/UserService.kt:76 | replaces the user's skills and keeps the profile fields |
| `Users.SiteUser.ModifyProfile` | backend/src/main/java/com/backend/domain/user/service/UserService.kt:79 | assigns introduction and job and keeps the skills |
| `Users.IsValidUser` | backend/src/main/java/com/backend/domain/user/service/UserService.kt:36-40 | passes if and only if the id is the requester's; otherwise fails with UnauthorizedUser |
| `Users.UserService.GetUserById` | backend/src/main/java/com/backend/domain/user/service/UserService.kt:26-28 | returns the stored user if and only if the id is present; otherwise fails with UserNotFound |
| `Users.UserService.GetUser` | backend/src/main/java/com/backend/domain/user/service/UserService.kt:49-55 | a mismatched requester gets UnauthorizedUser whether or not the user exists; a matching one gets UserNotFound or the stored user |
| `Users.UserService.ModifyUser` | backend/src/main/java/com/backend/domain/user/service/UserService.kt:65-80 | UnauthorizedUser, then UserNotFound, each leaving every user unchanged; on success skills are kept when none were supplied and otherwise replaced by the resolved list, each of whose skills carries a requested name; introduction and job are always overwritten; other users are unchanged |
| `Recruitment.ParseStatus` | backend/src/main/java/com/backend/domain/recruitmentUser/service/RecruitmentUserService.kt:97-98 | a successful parse returns the status whose name is the input |
| `Recruitment.ParseStatusName` | backend/src/main/java/com/backend/domain/recruitmentUser/service/RecruitmentUserService.kt:97-98 | for the assumed exact-match parse, every status name parses back to its status |
| `Recruitment.ParseStatusOnlyNames` | backend/src/main/java/com/backend/domain/recruitmentUser/service/RecruitmentUserService.kt:97-98 | for the assumed exact-match parse, parsing fails exactly on strings that are no status's name |
| `Recruitment.FindByPostAndUser` | backend/src/main/java/com/backend/domain/recruitmentUser/service/RecruitmentUserService.kt:168 | finds a row if and only if one exists for (post, user); the row is stored under its id and is the only one for that pair |
| `Recruitment.InsertKeepsAtMostOne` | backend/src/main/java/com/backend/domain/recruitmentUser/service/RecruitmentUserService.kt:145-149 | inserting a row under a fresh id, when no row exists for its pair, keeps at most one row per (post, user) |
| `Recruitment.RemoveFound` | backend/src/main/java/com/backend/domain/recruitmentUser/service/RecruitmentUserService.kt:78-81 | deleting the found row leaves no row for that pair, keeps the invariant and removes only that key |
| `Recruitment.CancelUndoesSave` | backend/src/main/java/com/backend/domain/recruitmentUser/service/RecruitmentUserService.kt:47-82 | after inserting a fresh row, the lookup for its pair finds exactly that row, and deleting it gives back the original table |
| `Recruitment.PostIdsWithStatus` | backend/src/main/java/com/backend/domain/recruitmentUser/service/RecruitmentUserService.kt:103-104 | assumed definition of the listing query `findRecruitmentAll`, whose body is outside the model: the posts where the user has an application of that status |
| `Recruitment.InsertListsPost` | backend/src/main/java/com/backend/domain/recruitmentUser/service/RecruitmentUserService.kt:54-59 | after the APPLIED row for (post, user) is inserted, the post is in that user's APPLIED listing; every other user's listings are unchanged |
| `Recruitment.RemoveUnlistsPost` | backend/src/main/java/com/backend/domain/recruitmentUser/service/RecruitmentUserService.kt:78-81 | after the row found for (post, user) is deleted, the post is in none of that user's listings; every other user's listings are unchanged |
| `Recruitment.RecruitmentUserService.GetPost` | backend/src/main/java/com/backend/domain/recruitmentUser/service/RecruitmentUserService.kt:181-184 | returns the stored post if and only if the id is present; otherwise fails with PostNotFound |
| `Recruitment.RecruitmentUserService.GetRecruitmentUser` | backend/src/main/java/com/backend/domain/recruitmentUser/service/RecruitmentUserService.kt:167-171 | returns the stored row for (post, user) if and only if one exists; otherwise fails with RecruitmentNotFound |
| `Recruitment.RecruitmentUserService.IsAlreadyApplied` | backend/src/main/java/com/backend/domain/recruitmentUser/service/RecruitmentUserService.kt:121-123 | true if and only if some row records this user's application to this post |
| `Recruitment.RecruitmentUserService.ValidateRecruitmentNotClosed` | backend/src/main/java/com/backend/domain/recruitmentUser/service/RecruitmentUserService.kt:132-136 | fails with RecruitmentClosed if and only if the post is CLOSED |
| `Recruitment.RecruitmentUserService.CheckRecruitmentCondition` | backend/src/main/java/com/backend/domain/recruitmentUser/service/RecruitmentUserService.kt:145-153 | an existing application yields AlreadyRecruitment even on a CLOSED post; otherwise CLOSED yields RecruitmentClosed; it passes if and only if there is no application and the post is open |
| `Recruitment.RecruitmentUserService.SaveRecruitment` | backend/src/main/java/com/backend/domain/recruitmentUser/service/RecruitmentUserService.kt:46-60 | PostNotFound, then AlreadyRecruitment, then RecruitmentClosed, each leaving the table unchanged; on success exactly one APPLIED row for (postId, user) is added under a fresh id and all other rows are unchanged, so the post is in the user's APPLIED listing; the invariant is kept |
| `Recruitment.RecruitmentUserService.CancelRecruitment` | backend/src/main/java/com/backend/domain/recruitmentUser/service/RecruitmentUserService.kt:70-82 | PostNotFound, then RecruitmentClosed (even with an application), then RecruitmentNotFound, each leaving the table unchanged; on success exactly the row for (postId, user) is removed, whatever its status, so the post is in none of the user's listings |
| `Recruitment.RecruitmentUserService.GetAcceptedPosts` | backend/src/main/java/com/backend/domain/recruitmentUser/service/RecruitmentUserService.kt:93-108 | fails with RecruitmentStatusNotSupport if and only if the status does not parse; otherwise returns the parsed status and the user's posts with that status; reads only |

## Left out

- Spring dependency injection, `@Transactional`, Lombok and the ORM. Each
  service call is one atomic step on the tables.
- Concurrency: the race between the duplicate check and the insert is not
  modelled, because calls are atomic here.
- Paging (`Pageable`, `Page`) and the response DTOs. The listing query
  `findRecruitmentAll` is not part of this model. `PostIdsWithStatus` states
  its assumed contract as a set of post ids.
- `Recruitment.RecruitmentUserService.GetAcceptedPosts`: returns a set of
  post ids rather than a page of post responses, because the query and
  the DTOs are not part of this model.
- Constructing a `RecruitmentPost`. The constructor passes the request's
  subject and content to the parent and takes `jobPosting` from its
  parameter. It assigns `recruitmentClosingDate`, `numOfApplicants` and
  `recruitmentStatus` to themselves instead of taking them from the request.
  Posts therefore start from an arbitrary initialised state.
- `recruitmentClosingDate` is kept as an opaque integer. No modelled logic
  reads it; closure depends only on `recruitmentStatus`.
- Bodies that are not part of this model: `Post.updatePost`,
  `SiteUser.updateJobSkills`, `SiteUser.modifyProfile` and
  `RecruitmentUserStatus.from`. The first three are modelled as plain field
  assignments, and `from` as an exact match of the status names.
- Whether `findByPostAndUser` could face two rows for one pair is never
  asked. `FindByPostAndUser` requires the row-table invariant (`WellKeyed`
  and `AtMostOnePerPair`), and so do the members that use it:
  `RemoveFound`, `RemoveUnlistsPost`, `CancelUndoesSave`,
  `RecruitmentUserService.GetRecruitmentUser`, `IsAlreadyApplied`,
  `CheckRecruitmentCondition`, `SaveRecruitment` and `CancelRecruitment`.
  `InsertKeepsAtMostOne` requires it as well. `PostIdsWithStatus` and
  `InsertListsPost` do not. Under the invariant that case cannot arise.
- Row id generation: `nextRecordId` is a counter. A save followed by a
  cancel restores the rows but not the counter.
- `JobPostingSearchCondition` (its bounds are checked by a validation
  framework) and `RecruitmentPostRepository` (an interface, here a map
  lookup).
- Null request fields other than `jobSkills` and the skill names are not
  modelled: introduction and job are plain strings.
