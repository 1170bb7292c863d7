/** Ownership-gated profile read and update, and the resolution of requested
    skill names against the skill table. */
module Users {
  import opened Errors

  type UserId = int

  datatype JobSkill = JobSkill(id: int, name: string)

  /** One entry of the request's skill list; its name may be null. */
  datatype JobSkillRequest = JobSkillRequest(name: Option<string>)

  /** The profile-modification request. `jobSkills` null means "leave the
      skills alone". */
  datatype ModifyProfileRequest = ModifyProfileRequest(
    introduction: string,
    job: string,
    jobSkills: Option<seq<JobSkillRequest>>)

  /** The authenticated principal; only its id is consulted. */
  datatype UserDetails = UserDetails(id: UserId)

  // ---------------------------------------------------------------
  //  Skill resolution (the mapNotNull comprehension)
  // ---------------------------------------------------------------

  /** An entry survives resolution when its name is present and found. */
  predicate Resolvable(req: JobSkillRequest, table: map<string, JobSkill>)
  {
    req.name.Some? && req.name.value in table
  }

  /** The skill table's invariant: `findByName(n)` returns a skill named n. */
  predicate SkillsNamedByKey(table: map<string, JobSkill>)
  {
    forall n :: n in table ==> table[n].name == n
  }

  /** `findByName` for an entry that resolves. */
  function Lookup(req: JobSkillRequest, table: map<string, JobSkill>): (s: JobSkill)
    requires Resolvable(req, table)
    ensures s in table.Values && s == table[req.name.value]
    ensures SkillsNamedByKey(table) ==> s.name == req.name.value
  {
    table[req.name.value]
  }

  /** The skills found for the request entries, in request order; entries
      with a null or unknown name are dropped. */
  function ResolveSkills(reqs: seq<JobSkillRequest>, table: map<string, JobSkill>): (r: seq<JobSkill>)
    ensures |r| <= |reqs|
    ensures forall j :: 0 <= j < |r| ==> r[j] in table.Values
  {
    if reqs == [] then []
    else
      var rest := ResolveSkills(reqs[1..], table);
      if Resolvable(reqs[0], table) then [Lookup(reqs[0], table)] + rest else rest
  }

  /** A single entry resolves to its lookup, or to nothing. */
  lemma ResolveSkillsSingle(req: JobSkillRequest, table: map<string, JobSkill>)
    ensures ResolveSkills([req], table) == if Resolvable(req, table) then [Lookup(req, table)] else []
  {
  }

  /** Resolution distributes over concatenation: together with
      ResolveSkillsSingle this pins it down as an order-keeping filter-map. */
  lemma {:induction false} ResolveSkillsAppend(a: seq<JobSkillRequest>, b: seq<JobSkillRequest>, table: map<string, JobSkill>)
    ensures ResolveSkills(a + b, table) == ResolveSkills(a, table) + ResolveSkills(b, table)
  {
    if a == [] {
      assert a + b == b;
    } else {
      assert (a + b)[0] == a[0];
      assert (a + b)[1..] == a[1..] + b;
      ResolveSkillsAppend(a[1..], b, table);
    }
  }

  /** A skill is in the result exactly when some request entry resolves to it. */
  lemma {:induction false} ResolveSkillsMembers(reqs: seq<JobSkillRequest>, table: map<string, JobSkill>, s: JobSkill)
    ensures s in ResolveSkills(reqs, table) <==>
            exists i :: 0 <= i < |reqs| && Resolvable(reqs[i], table) && Lookup(reqs[i], table) == s
  {
    if reqs != [] {
      ResolveSkillsMembers(reqs[1..], table, s);
      if exists i :: 0 <= i < |reqs| && Resolvable(reqs[i], table) && Lookup(reqs[i], table) == s {
        var i :| 0 <= i < |reqs| && Resolvable(reqs[i], table) && Lookup(reqs[i], table) == s;
        if i > 0 {
          assert reqs[1..][i - 1] == reqs[i];
        }
      }
      if exists i :: 0 <= i < |reqs[1..]| && Resolvable(reqs[1..][i], table) && Lookup(reqs[1..][i], table) == s {
        var i :| 0 <= i < |reqs[1..]| && Resolvable(reqs[1..][i], table) && Lookup(reqs[1..][i], table) == s;
        assert reqs[i + 1] == reqs[1..][i];
      }
    }
  }

  /** Under the table's invariant, every resolved skill carries a name that
      some request entry asked for. */
  lemma ResolveSkillsNames(reqs: seq<JobSkillRequest>, table: map<string, JobSkill>)
    requires SkillsNamedByKey(table)
    ensures forall j :: 0 <= j < |ResolveSkills(reqs, table)| ==>
              exists i :: 0 <= i < |reqs| && reqs[i].name == Some(ResolveSkills(reqs, table)[j].name)
  {
    var r := ResolveSkills(reqs, table);
    forall j | 0 <= j < |r|
      ensures exists i :: 0 <= i < |reqs| && reqs[i].name == Some(r[j].name)
    {
      ResolveSkillsMembers(reqs, table, r[j]);
      var i :| 0 <= i < |reqs| && Resolvable(reqs[i], table) && Lookup(reqs[i], table) == r[j];
      assert reqs[i].name == Some(r[j].name);
    }
  }

  /** When every entry resolves, nothing is dropped and order is kept
      position by position. */
  lemma {:induction false} ResolveSkillsAllFound(reqs: seq<JobSkillRequest>, table: map<string, JobSkill>)
    requires forall i :: 0 <= i < |reqs| ==> Resolvable(reqs[i], table)
    ensures |ResolveSkills(reqs, table)| == |reqs|
    ensures forall i :: 0 <= i < |reqs| ==> ResolveSkills(reqs, table)[i] == Lookup(reqs[i], table)
  {
    if reqs != [] {
      assert forall i :: 0 <= i < |reqs[1..]| ==> reqs[1..][i] == reqs[i + 1];
      ResolveSkillsAllFound(reqs[1..], table);
    }
  }

  /** When no entry resolves, the new skill list is empty. */
  lemma {:induction false} ResolveSkillsNoneFound(reqs: seq<JobSkillRequest>, table: map<string, JobSkill>)
    requires forall i :: 0 <= i < |reqs| ==> !Resolvable(reqs[i], table)
    ensures ResolveSkills(reqs, table) == []
  {
    if reqs != [] {
      assert forall i :: 0 <= i < |reqs[1..]| ==> reqs[1..][i] == reqs[i + 1];
      ResolveSkillsNoneFound(reqs[1..], table);
    }
  }

  // ---------------------------------------------------------------
  //  The user entity and the service
  // ---------------------------------------------------------------

  /** The user entity. Its `updateJobSkills` and `modifyProfile` bodies are
      not part of this model; they are taken to replace the skills and to
      assign the two profile fields. */
  class SiteUser {
    const id: UserId
    var introduction: string
    var job: string
    var jobSkills: seq<JobSkill>

    method UpdateJobSkills(skills: seq<JobSkill>)
      modifies this
      ensures jobSkills == skills
      ensures introduction == old(introduction) && job == old(job)
    {
      jobSkills := skills;
    }

    method ModifyProfile(introduction: string, job: string)
      modifies this
      ensures this.introduction == introduction && this.job == job
      ensures jobSkills == old(jobSkills)
    {
      this.introduction := introduction;
      this.job := job;
    }
  }

  /** The identity gate: passes exactly when the path id is the requester's. */
  function IsValidUser(id: UserId, requester: UserDetails): (r: Outcome)
    ensures r.Pass? <==> id == requester.id
    ensures r.Fail? ==> r.code == UnauthorizedUser
  {
    if id != requester.id then Fail(UnauthorizedUser) else Pass
  }

  /** The service over the user table (`userRepository`) and the skill table
      (`jobSkillRepository.findByName`). */
  class UserService {
    var users: map<UserId, SiteUser>
    var skills: map<string, JobSkill>

    /** The repositories return, for an id, the user with that id and, for a
        name, the skill with that name. */
    ghost predicate Valid()
      reads this
    {
      && (forall k :: k in users ==> users[k].id == k)
      && SkillsNamedByKey(skills)
    }

    function GetUserById(id: UserId): (r: Result<SiteUser>)
      reads this
      ensures r.Success? <==> id in users
      ensures r.Success? ==> r.value == users[id]
      ensures r.Failure? ==> r.code == UserNotFound
    {
      if id in users then Success(users[id]) else Failure(UserNotFound)
    }

    /** The gate runs first, so a mismatched requester is refused whether or
        not the user exists. */
    function GetUser(id: UserId, requester: UserDetails): (r: Result<SiteUser>)
      reads this
      ensures id != requester.id ==> r == Failure(UnauthorizedUser)
      ensures id == requester.id && id !in users ==> r == Failure(UserNotFound)
      ensures id == requester.id && id in users ==> r == Success(users[id])
    {
      match IsValidUser(id, requester)
      case Fail(code) => Failure(code)
      case Pass => GetUserById(id)
    }

    /** Gate, then lookup, then (when skills were supplied) replace the skills
        with the resolved list, then always overwrite the profile fields. */
    method ModifyUser(id: UserId, requester: UserDetails, req: ModifyProfileRequest) returns (r: Outcome)
      requires Valid()
      modifies users.Values
      ensures Valid() && users == old(users)
      ensures id != requester.id ==> r == Fail(UnauthorizedUser)
      ensures id == requester.id && id !in users ==> r == Fail(UserNotFound)
      ensures r.Fail? ==> unchanged(users.Values)
      ensures id == requester.id && id in users ==> r == Pass
      ensures r.Pass? ==>
                && id in users
                && users[id].introduction == req.introduction
                && users[id].job == req.job
                && users[id].jobSkills == (if req.jobSkills.None? then old(users[id].jobSkills)
                                           else ResolveSkills(req.jobSkills.value, skills))
      ensures r.Pass? && req.jobSkills.Some? ==>
                forall j :: 0 <= j < |users[id].jobSkills| ==>
                  exists i :: 0 <= i < |req.jobSkills.value| && req.jobSkills.value[i].name == Some(users[id].jobSkills[j].name)
      ensures forall k :: k in users && k != id ==> unchanged(users[k])
    {
      r := IsValidUser(id, requester);
      if r.Fail? {
        return;
      }
      var found := GetUserById(id);
      if found.Failure? {
        r := Fail(found.code);
        return;
      }
      var user := found.value;
      if req.jobSkills.Some? {
        var resolved := ResolveSkills(req.jobSkills.value, skills);
        ResolveSkillsNames(req.jobSkills.value, skills);
        user.UpdateJobSkills(resolved);
      }
      user.ModifyProfile(req.introduction, req.job);
    }
  }
}
