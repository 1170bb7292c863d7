/** The recruitment-application workflow: apply to a post, cancel an
    application, and list the user's applications of one status. */
module Recruitment {
  import opened Errors
  import opened Posts
  import opened Users

  /** The identity of an application row. */
  type RecordId = nat

  /** User-level application status. */
  datatype RecruitmentUserStatus = Applied | Accepted | Rejected

  /** One application row: one user's application to one post. */
  datatype RecruitmentUser = RecruitmentUser(
    id: RecordId,
    postId: PostId,
    userId: UserId,
    status: RecruitmentUserStatus)

  /** The response of `getAcceptedPosts`: the parsed status and the posts the
      listing query selects (paging is not modelled). */
  datatype RecruitmentUserPostResponse = RecruitmentUserPostResponse(
    status: RecruitmentUserStatus,
    postIds: set<PostId>)

  // ---------------------------------------------------------------
  //  Status names
  // ---------------------------------------------------------------

  function StatusName(s: RecruitmentUserStatus): string
  {
    match s
    case Applied => "APPLIED"
    case Accepted => "ACCEPTED"
    case Rejected => "REJECTED"
  }

  /** `RecruitmentUserStatus.from`: a partial parse of a status name. */
  function ParseStatus(name: string): (r: Option<RecruitmentUserStatus>)
    ensures r.Some? ==> StatusName(r.value) == name
  {
    if name == "APPLIED" then Some(Applied)
    else if name == "ACCEPTED" then Some(Accepted)
    else if name == "REJECTED" then Some(Rejected)
    else None
  }

  /** Parsing inverts naming, and exactly the three names parse. */
  lemma ParseStatusName(s: RecruitmentUserStatus)
    ensures ParseStatus(StatusName(s)) == Some(s)
  {
  }

  lemma ParseStatusOnlyNames(name: string)
    ensures ParseStatus(name).None? <==> forall s :: StatusName(s) != name
  {
  }

  // ---------------------------------------------------------------
  //  The application table
  // ---------------------------------------------------------------

  predicate Matches(rec: RecruitmentUser, postId: PostId, userId: UserId)
  {
    rec.postId == postId && rec.userId == userId
  }

  /** Some row records this user's application to this post. */
  predicate HasApplication(apps: map<RecordId, RecruitmentUser>, postId: PostId, userId: UserId)
  {
    exists k :: k in apps && Matches(apps[k], postId, userId)
  }

  /** The invariant the service keeps: at most one row per (post, user). */
  predicate AtMostOnePerPair(apps: map<RecordId, RecruitmentUser>)
  {
    forall i, j :: i in apps && j in apps && Matches(apps[i], apps[j].postId, apps[j].userId) ==> i == j
  }

  /** Every row is stored under its own id. */
  predicate WellKeyed(apps: map<RecordId, RecruitmentUser>)
  {
    forall k :: k in apps ==> apps[k].id == k
  }

  /** `findByPostAndUser`: the unique row for (post, user), if any. */
  function FindByPostAndUser(apps: map<RecordId, RecruitmentUser>, postId: PostId, userId: UserId): (r: Option<RecruitmentUser>)
    requires WellKeyed(apps) && AtMostOnePerPair(apps)
    ensures r.Some? <==> HasApplication(apps, postId, userId)
    ensures r.Some? ==> r.value.id in apps && apps[r.value.id] == r.value && Matches(r.value, postId, userId)
    ensures r.Some? ==> forall k :: k in apps && Matches(apps[k], postId, userId) ==> k == r.value.id
  {
    if HasApplication(apps, postId, userId) then
      var k :| k in apps && Matches(apps[k], postId, userId);
      Some(apps[k])
    else
      None
  }

  /** A row for (post, user) inserted under a fresh id where none existed
      keeps the invariant and becomes the row found for that pair. */
  lemma {:induction false} InsertKeepsAtMostOne(apps: map<RecordId, RecruitmentUser>, rec: RecruitmentUser)
    requires WellKeyed(apps) && AtMostOnePerPair(apps)
    requires rec.id !in apps
    requires !HasApplication(apps, rec.postId, rec.userId)
    ensures WellKeyed(apps[rec.id := rec]) && AtMostOnePerPair(apps[rec.id := rec])
    ensures HasApplication(apps[rec.id := rec], rec.postId, rec.userId)
  {
    var apps' := apps[rec.id := rec];
    assert forall i :: i in apps ==> !Matches(apps[i], rec.postId, rec.userId);
    assert Matches(apps'[rec.id], rec.postId, rec.userId);
  }

  /** Removing the row found for (post, user) leaves no row for that pair,
      keeps the invariant and leaves every other row as it was. */
  lemma RemoveFound(apps: map<RecordId, RecruitmentUser>, postId: PostId, userId: UserId)
    requires WellKeyed(apps) && AtMostOnePerPair(apps)
    requires HasApplication(apps, postId, userId)
    ensures var k := FindByPostAndUser(apps, postId, userId).value.id;
            && WellKeyed(apps - {k}) && AtMostOnePerPair(apps - {k})
            && !HasApplication(apps - {k}, postId, userId)
            && (apps - {k}).Keys == apps.Keys - {k}
  {
  }

  /** Inserting a fresh row and then removing the row found for its pair
      gives back the original table. */
  lemma {:induction false} CancelUndoesSave(apps: map<RecordId, RecruitmentUser>, rec: RecruitmentUser)
    requires WellKeyed(apps) && AtMostOnePerPair(apps)
    requires rec.id !in apps
    requires !HasApplication(apps, rec.postId, rec.userId)
    ensures WellKeyed(apps[rec.id := rec]) && AtMostOnePerPair(apps[rec.id := rec])
    ensures FindByPostAndUser(apps[rec.id := rec], rec.postId, rec.userId) == Some(rec)
    ensures apps[rec.id := rec] - {rec.id} == apps
  {
    InsertKeepsAtMostOne(apps, rec);
    var apps' := apps[rec.id := rec];
    var found := FindByPostAndUser(apps', rec.postId, rec.userId);
    assert found.value.id == rec.id;
  }

  /** The listing query `findRecruitmentAll` is not part of this model; its
      assumed contract: the posts on which the user holds an application of
      the given status. */
  function PostIdsWithStatus(apps: map<RecordId, RecruitmentUser>, userId: UserId, status: RecruitmentUserStatus): (r: set<PostId>)
    ensures forall p :: p in r <==> exists k :: k in apps && Matches(apps[k], p, userId) && apps[k].status == status
  {
    set k | k in apps && apps[k].userId == userId && apps[k].status == status :: apps[k].postId
  }

  /** After a save inserts the APPLIED row for (post, user), the post is in
      the user's APPLIED listing, and no other user's listing changes. */
  lemma InsertListsPost(apps: map<RecordId, RecruitmentUser>, rec: RecruitmentUser, other: UserId, s: RecruitmentUserStatus)
    requires rec.id !in apps && rec.status == Applied
    ensures rec.postId in PostIdsWithStatus(apps[rec.id := rec], rec.userId, Applied)
    ensures other != rec.userId ==> PostIdsWithStatus(apps[rec.id := rec], other, s) == PostIdsWithStatus(apps, other, s)
  {
    var apps' := apps[rec.id := rec];
    assert rec.id in apps' && Matches(apps'[rec.id], rec.postId, rec.userId);
    if other != rec.userId {
      forall p ensures p in PostIdsWithStatus(apps', other, s) <==> p in PostIdsWithStatus(apps, other, s) {
        if p in PostIdsWithStatus(apps', other, s) {
          var k :| k in apps' && Matches(apps'[k], p, other) && apps'[k].status == s;
          assert k != rec.id && k in apps;
        }
        if p in PostIdsWithStatus(apps, other, s) {
          var k :| k in apps && Matches(apps[k], p, other) && apps[k].status == s;
          assert k in apps' && apps'[k] == apps[k];
        }
      }
    }
  }

  /** After a cancel deletes the row found for (post, user), the post is in
      none of the user's listings, and no other user's listing changes. */
  lemma RemoveUnlistsPost(apps: map<RecordId, RecruitmentUser>, postId: PostId, userId: UserId, other: UserId, s: RecruitmentUserStatus)
    requires WellKeyed(apps) && AtMostOnePerPair(apps)
    requires HasApplication(apps, postId, userId)
    ensures var k := FindByPostAndUser(apps, postId, userId).value.id;
            && postId !in PostIdsWithStatus(apps - {k}, userId, s)
            && (other != userId ==> PostIdsWithStatus(apps - {k}, other, s) == PostIdsWithStatus(apps, other, s))
  {
    var k := FindByPostAndUser(apps, postId, userId).value.id;
    var apps' := apps - {k};
    if other != userId {
      forall p ensures p in PostIdsWithStatus(apps', other, s) <==> p in PostIdsWithStatus(apps, other, s) {
        if p in PostIdsWithStatus(apps, other, s) {
          var j :| j in apps && Matches(apps[j], p, other) && apps[j].status == s;
          assert j != k && j in apps';
        }
      }
    }
  }

  // ---------------------------------------------------------------
  //  The service
  // ---------------------------------------------------------------

  class RecruitmentUserService {
    /** `recruitmentPostRepository`, looked up by `findByIdFetch`. */
    var posts: map<PostId, RecruitmentPost>
    /** `recruitmentUserRepository`, keyed by row id. */
    var applications: map<RecordId, RecruitmentUser>
    /** The next row id the store hands out. */
    var nextRecordId: RecordId

    ghost predicate Valid()
      reads this
    {
      && (forall p :: p in posts ==> posts[p].postId == p)
      && (forall k :: k in applications ==> k < nextRecordId)
      && WellKeyed(applications)
      && AtMostOnePerPair(applications)
    }

    // ---- Lookups ----

    function GetPost(postId: PostId): (r: Result<RecruitmentPost>)
      reads this
      ensures r.Success? <==> postId in posts
      ensures r.Success? ==> r.value == posts[postId]
      ensures r.Failure? ==> r.code == PostNotFound
    {
      if postId in posts then Success(posts[postId]) else Failure(PostNotFound)
    }

    function GetRecruitmentUser(siteUser: SiteUser, postId: PostId): (r: Result<RecruitmentUser>)
      requires Valid()
      reads this
      ensures r.Success? <==> HasApplication(applications, postId, siteUser.id)
      ensures r.Success? ==> r.value.id in applications && applications[r.value.id] == r.value
                             && Matches(r.value, postId, siteUser.id)
      ensures r.Failure? ==> r.code == RecruitmentNotFound
    {
      match FindByPostAndUser(applications, postId, siteUser.id)
      case Some(rec) => Success(rec)
      case None => Failure(RecruitmentNotFound)
    }

    // ---- Checks ----

    function IsAlreadyApplied(siteUser: SiteUser, postId: PostId): (b: bool)
      requires Valid()
      reads this
      ensures b <==> exists k :: k in applications && Matches(applications[k], postId, siteUser.id)
    {
      FindByPostAndUser(applications, postId, siteUser.id).Some?
    }

    function ValidateRecruitmentNotClosed(post: RecruitmentPost): (r: Outcome)
      reads post
      ensures r.Fail? <==> post.recruitmentStatus == Closed
      ensures r.Fail? ==> r.code == RecruitmentClosed
    {
      if post.recruitmentStatus == Closed then Fail(RecruitmentClosed) else Pass
    }

    /** The duplicate check comes before the closed check. */
    function CheckRecruitmentCondition(siteUser: SiteUser, post: RecruitmentPost): (r: Outcome)
      requires Valid()
      reads this, post
      ensures HasApplication(applications, post.postId, siteUser.id) ==> r == Fail(AlreadyRecruitment)
      ensures !HasApplication(applications, post.postId, siteUser.id) && post.recruitmentStatus == Closed
              ==> r == Fail(RecruitmentClosed)
      ensures r.Pass? <==> !HasApplication(applications, post.postId, siteUser.id) && post.recruitmentStatus != Closed
    {
      if IsAlreadyApplied(siteUser, post.postId) then Fail(AlreadyRecruitment)
      else ValidateRecruitmentNotClosed(post)
    }

    // ---- Operations ----

    /** Post lookup, then duplicate check, then closed check; on success one
        APPLIED row for (postId, user) is added under a fresh id. */
    method SaveRecruitment(siteUser: SiteUser, postId: PostId) returns (r: Outcome)
      requires Valid()
      modifies this`applications, this`nextRecordId
      ensures Valid()
      ensures postId !in posts ==> r == Fail(PostNotFound)
      ensures postId in posts && HasApplication(old(applications), postId, siteUser.id)
              ==> r == Fail(AlreadyRecruitment)
      ensures postId in posts && !HasApplication(old(applications), postId, siteUser.id)
              && posts[postId].recruitmentStatus == Closed
              ==> r == Fail(RecruitmentClosed)
      ensures postId in posts && !HasApplication(old(applications), postId, siteUser.id)
              && posts[postId].recruitmentStatus != Closed
              ==> r == Pass
      ensures r.Fail? ==> applications == old(applications) && nextRecordId == old(nextRecordId)
      ensures r.Pass? ==>
                && old(nextRecordId) !in old(applications)
                && applications == old(applications)[old(nextRecordId) := RecruitmentUser(old(nextRecordId), postId, siteUser.id, Applied)]
                && nextRecordId == old(nextRecordId) + 1
                && postId in PostIdsWithStatus(applications, siteUser.id, Applied)
    {
      var found := GetPost(postId);
      if found.Failure? {
        return Fail(found.code);
      }
      var post := found.value;
      r := CheckRecruitmentCondition(siteUser, post);
      if r.Fail? {
        return;
      }
      var rec := RecruitmentUser(nextRecordId, post.postId, siteUser.id, Applied);
      InsertKeepsAtMostOne(applications, rec);
      InsertListsPost(applications, rec, siteUser.id, Applied);
      applications := applications[rec.id := rec];
      nextRecordId := nextRecordId + 1;
    }

    /** Post lookup, then closed check, then application lookup; on success
        the row for (postId, user) is deleted, whatever its status. */
    method CancelRecruitment(siteUser: SiteUser, postId: PostId) returns (r: Outcome)
      requires Valid()
      modifies this`applications
      ensures Valid()
      ensures postId !in posts ==> r == Fail(PostNotFound)
      ensures postId in posts && posts[postId].recruitmentStatus == Closed ==> r == Fail(RecruitmentClosed)
      ensures postId in posts && posts[postId].recruitmentStatus != Closed
              && !HasApplication(old(applications), postId, siteUser.id)
              ==> r == Fail(RecruitmentNotFound)
      ensures postId in posts && posts[postId].recruitmentStatus != Closed
              && HasApplication(old(applications), postId, siteUser.id)
              ==> r == Pass
      ensures r.Fail? ==> applications == old(applications)
      ensures r.Pass? ==>
                && HasApplication(old(applications), postId, siteUser.id)
                && applications == old(applications) - {FindByPostAndUser(old(applications), postId, siteUser.id).value.id}
                && !HasApplication(applications, postId, siteUser.id)
                && forall st :: postId !in PostIdsWithStatus(applications, siteUser.id, st)
    {
      var found := GetPost(postId);
      if found.Failure? {
        return Fail(found.code);
      }
      var post := found.value;
      r := ValidateRecruitmentNotClosed(post);
      if r.Fail? {
        return;
      }
      var rec := GetRecruitmentUser(siteUser, postId);
      if rec.Failure? {
        return Fail(rec.code);
      }
      RemoveFound(applications, postId, siteUser.id);
      forall st ensures postId !in PostIdsWithStatus(applications - {rec.value.id}, siteUser.id, st) {
        RemoveUnlistsPost(applications, postId, siteUser.id, siteUser.id, st);
      }
      applications := applications - {rec.value.id};
    }

    /** Parse the status, failing on an unknown name; otherwise list the
        user's posts with that application status. Reads only. */
    function GetAcceptedPosts(siteUser: SiteUser, status: string): (r: Result<RecruitmentUserPostResponse>)
      reads this
      ensures r.Failure? <==> ParseStatus(status).None?
      ensures r.Failure? ==> r.code == RecruitmentStatusNotSupport
      ensures r.Success? ==> StatusName(r.value.status) == status
      ensures r.Success? ==> forall p :: p in r.value.postIds <==>
                exists k :: k in applications && Matches(applications[k], p, siteUser.id)
                            && applications[k].status == r.value.status
    {
      match ParseStatus(status)
      case None => Failure(RecruitmentStatusNotSupport)
      case Some(s) => Success(RecruitmentUserPostResponse(s, PostIdsWithStatus(applications, siteUser.id, s)))
    }
  }
}
