/** The recruitment post entity: a mutable record whose setters overwrite
    named fields and nothing else. */
module Posts {
  import opened Errors

  type PostId = int
  type JobPostingId = int

  /** Kotlin's 32-bit `Int`. */
  newtype Int32 = x: int | -0x8000_0000 <= x < 0x8000_0000

  /** Post-level status. Only the comparison with CLOSED is ever made. */
  datatype RecruitmentStatus = Open | Closed

  /** The fields of a post as one value, so that successive updates can be
      compared. */
  datatype PostFields = PostFields(
    subject: string,
    content: string,
    recruitmentClosingDate: int,
    numOfApplicants: Option<Int32>,
    recruitmentStatus: RecruitmentStatus,
    jobPosting: JobPostingId)

  /** The effect of `updateRecruitmentStatus(s)` on the fields. */
  function WithStatus(p: PostFields, s: RecruitmentStatus): (r: PostFields)
    ensures r.recruitmentStatus == s
    ensures r.subject == p.subject && r.content == p.content
    ensures r.numOfApplicants == p.numOfApplicants
    ensures r.recruitmentClosingDate == p.recruitmentClosingDate
    ensures r.jobPosting == p.jobPosting
  {
    p.(recruitmentStatus := s)
  }

  /** The effect of `updatePost(subject, content, n)` on the fields. */
  function WithPost(p: PostFields, subject: string, content: string, n: Int32): (r: PostFields)
    ensures r.subject == subject && r.content == content
    ensures r.numOfApplicants == Some(n)
    ensures r.recruitmentStatus == p.recruitmentStatus
    ensures r.recruitmentClosingDate == p.recruitmentClosingDate
    ensures r.jobPosting == p.jobPosting
  {
    p.(subject := subject, content := content, numOfApplicants := Some(n))
  }

  /** Setting the same status twice is the same as setting it once. */
  lemma WithStatusIdempotent(p: PostFields, s: RecruitmentStatus)
    ensures WithStatus(WithStatus(p, s), s) == WithStatus(p, s)
  {
  }

  /** Only the last status update matters. */
  lemma WithStatusLastWins(p: PostFields, s: RecruitmentStatus, t: RecruitmentStatus)
    ensures WithStatus(WithStatus(p, s), t) == WithStatus(p, t)
  {
  }

  /** No one-directional rule: a closed post can be reopened. */
  lemma ClosedPostCanReopen(p: PostFields)
    requires p.recruitmentStatus == Closed
    ensures WithStatus(p, Open).recruitmentStatus == Open
    ensures WithStatus(p, Open) != p
  {
  }

  /** Status updates and post edits touch disjoint fields, so they commute. */
  lemma StatusAndPostCommute(p: PostFields, s: RecruitmentStatus, subject: string, content: string, n: Int32)
    ensures WithStatus(WithPost(p, subject, content, n), s) == WithPost(WithStatus(p, s), subject, content, n)
  {
  }

  /** A recruitment post. `subject` and `content` belong to the parent Post
      entity; `postId` is its identity. Posts are never constructed here:
      they start from an arbitrary initialised state. */
  class RecruitmentPost {
    const postId: PostId
    var subject: string
    var content: string
    var recruitmentClosingDate: int
    var numOfApplicants: Option<Int32>
    var recruitmentStatus: RecruitmentStatus
    var jobPosting: JobPostingId

    function Fields(): (f: PostFields)
      reads this
    {
      PostFields(subject, content, recruitmentClosingDate, numOfApplicants, recruitmentStatus, jobPosting)
    }

    /** `updatePost`: the parent's subject/content update, then the
        applicant count. */
    method UpdatePost(subject: string, content: string, numOfApplicants: Int32)
      modifies this
      ensures Fields() == WithPost(old(Fields()), subject, content, numOfApplicants)
      ensures this.numOfApplicants == Some(numOfApplicants)
      ensures recruitmentStatus == old(recruitmentStatus)
      ensures recruitmentClosingDate == old(recruitmentClosingDate)
      ensures jobPosting == old(jobPosting)
    {
      this.subject := subject;
      this.content := content;
      this.numOfApplicants := Some(numOfApplicants);
    }

    /** `updateRecruitmentStatus`: any status is accepted, CLOSED included
        and CLOSED back to open included. */
    method UpdateRecruitmentStatus(recruitmentStatus: RecruitmentStatus)
      modifies this
      ensures Fields() == WithStatus(old(Fields()), recruitmentStatus)
      ensures this.recruitmentStatus == recruitmentStatus
      ensures numOfApplicants == old(numOfApplicants)
      ensures recruitmentClosingDate == old(recruitmentClosingDate)
      ensures jobPosting == old(jobPosting)
    {
      this.recruitmentStatus := recruitmentStatus;
    }
  }
}
