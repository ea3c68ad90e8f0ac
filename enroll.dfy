/** The enrollment endpoint (backend/api/courses/enroll.php): an ordered
    chain of checks, where the first one that fails decides the answer, then
    one enrollments row is inserted. */
module Enroll {
  import opened Common
  import opened Request
  import opened InputSanitizer
  import opened Schema
  import opened StoreModule

  datatype EnrollRequest = EnrollRequest(
    verb: HttpMethod, authorization: Option<string>, courseId: Option<int>, enrollmentKey: Option<string>)

  /** The `data` of a successful response; the enrollment date is a clock
      value and is not kept. */
  datatype EnrollResult = EnrollResult(enrollmentId: int, courseId: int)

  datatype EnrollOutcome = EnrollOutcome(tables: Tables, resp: Response, result: Option<EnrollResult>)

  /** The ids of the active enrollments of course `cid`. */
  function ActiveIds(t: Tables, cid: int): set<int>
  {
    set k | k in t.enrollments && t.enrollments[k].courseId == cid && t.enrollments[k].status == Active
  }

  /** `SELECT COUNT(*) FROM enrollments WHERE course_id = :course_id AND status = 'active'`. */
  function ActiveCount(t: Tables, cid: int): nat
  {
    |ActiveIds(t, cid)|
  }

  /** Some enrollment of the student in the course exists, whatever its status. */
  predicate AlreadyEnrolled(t: Tables, sid: int, cid: int)
  {
    exists k :: k in t.enrollments && t.enrollments[k].studentId == sid && t.enrollments[k].courseId == cid
  }

  /** The course is full: it has a limit and as many active enrollments. */
  predicate Full(c: Course, active: nat)
  {
    c.maxEnrollments > 0 && active >= c.maxEnrollments
  }

  /** The key test: a course that requires a key refuses a missing or empty
      key with 400 and a different key with 403. */
  function KeyRefusal(c: Course, key: Option<string>): (r: Option<Response>)
    ensures r.None? <==> !c.requiresKey || (Present(key) && key == c.enrollmentKey)
    ensures r.Some? ==> r.value == Fail(if Present(key) then 403 else 400)
  {
    if !c.requiresKey then None
    else if !Present(key) then Some(Fail(400))
    else if key != c.enrollmentKey then Some(Fail(403))
    else None
  }

  ghost function EnrollSpec(t: Tables, s: Session, rq: EnrollRequest): EnrollOutcome
  {
    var pre := Preflight(rq.verb, {HttpMethod.Post});
    if pre.Some? then EnrollOutcome(t, pre.value, None)
    else if !HasToken(rq.authorization) then EnrollOutcome(t, Fail(401), None)
    else if rq.courseId.None? then EnrollOutcome(t, Fail(400), None)
    else
      var cid := rq.courseId.value;
      var key := Sanitize(rq.enrollmentKey);
      if s.userId.None? then EnrollOutcome(t, Fail(401), None)
      else
        match StudentOf(t, s.userId.value)
        case None => EnrollOutcome(t, Fail(403), None)
        case Some(sid) =>
          if cid !in t.courses then EnrollOutcome(t, Fail(404), None)
          else if KeyRefusal(t.courses[cid], key).Some? then
            EnrollOutcome(t, KeyRefusal(t.courses[cid], key).value, None)
          else if Full(t.courses[cid], ActiveCount(t, cid)) then EnrollOutcome(t, Fail(403), None)
          else if AlreadyEnrolled(t, sid, cid) then EnrollOutcome(t, Fail(409), None)
          else
            EnrollOutcome(t.(enrollments := t.enrollments[t.nextId := Enrollment(sid, cid, key, Active)],
                             nextId := t.nextId + 1),
                          Ok, Some(EnrollResult(t.nextId, cid)))
  }

  method EnrollStudent(db: Store, s: Session, rq: EnrollRequest) returns (resp: Response, result: Option<EnrollResult>)
    requires db.Valid()
    modifies db
    ensures var out := EnrollSpec(old(db.T()), s, rq);
      db.T() == out.tables && resp == out.resp && result == out.result
  {
    var pre := Preflight(rq.verb, {HttpMethod.Post});
    if pre.Some? {
      return pre.value, None;
    }
    if !HasToken(rq.authorization) {
      return Fail(401), None;
    }
    if rq.courseId.None? {
      return Fail(400), None;
    }
    var cid := rq.courseId.value;
    var key := Sanitize(rq.enrollmentKey);
    if s.userId.None? {
      return Fail(401), None;
    }
    var student := db.LookupStudent(s.userId.value);
    if student.None? {
      return Fail(403), None;
    }
    var sid := student.value;
    if cid !in db.courses {
      return Fail(404), None;
    }
    var course := db.courses[cid];
    var refusal := KeyRefusal(course, key);
    if refusal.Some? {
      return refusal.value, None;
    }
    if course.maxEnrollments > 0 {
      var count := |set k | k in db.enrollments && db.enrollments[k].courseId == cid && db.enrollments[k].status == Active|;
      assert count == ActiveCount(db.T(), cid);
      if count >= course.maxEnrollments {
        return Fail(403), None;
      }
    }
    if exists k :: k in db.enrollments && db.enrollments[k].studentId == sid && db.enrollments[k].courseId == cid {
      return Fail(409), None;
    }
    var id := db.nextId;
    InsertEnrollment(db, Enrollment(sid, cid, key, Active));
    return Ok, Some(EnrollResult(id, cid));
  }

  /** The INSERT: the new row takes the next id. */
  method InsertEnrollment(db: Store, e: Enrollment)
    modifies db
    ensures db.T() == old(db.T()).(enrollments := old(db.enrollments)[old(db.nextId) := e],
                                   nextId := old(db.nextId) + 1)
  {
    db.enrollments := db.enrollments[db.nextId := e];
    db.nextId := db.nextId + 1;
  }

  // The admission rule.

  /** Every refusal leaves the store as it was. */
  lemma EnrollRefusalWritesNothing(t: Tables, s: Session, rq: EnrollRequest)
    ensures var out := EnrollSpec(t, s, rq);
      out.resp != Ok ==> out.tables == t && out.result.None?
  {
  }

  /** The checks before the course is read: 401 without a token, 400
      without a course id, 401 without a session user, 403 for a user who is
      not a student. */
  lemma EnrollCallerRefusals(t: Tables, s: Session, rq: EnrollRequest)
    requires rq.verb == HttpMethod.Post
    ensures var out := EnrollSpec(t, s, rq);
      (!HasToken(rq.authorization) ==> out.resp == Fail(401))
      && (HasToken(rq.authorization) && rq.courseId.None? ==> out.resp == Fail(400))
      && (HasToken(rq.authorization) && rq.courseId.Some? && s.userId.None? ==> out.resp == Fail(401))
      && (HasToken(rq.authorization) && rq.courseId.Some? && s.userId.Some?
          && (forall k :: k in t.students ==> t.students[k].userId != s.userId.value)
          ==> out.resp == Fail(403))
  {
  }

  /** A request from a student that gets past the caller checks. */
  predicate FromStudent(t: Tables, s: Session, rq: EnrollRequest, sid: int)
  {
    rq.verb == HttpMethod.Post && HasToken(rq.authorization) && rq.courseId.Some?
    && s.userId.Some? && sid in t.students && t.students[sid].userId == s.userId.value
  }

  /** For a student, the course checks in order: 404 for an unknown course,
      the key test, 403 for a full course, 409 for any existing enrollment
      in it; and the call is accepted exactly when all of them pass. */
  lemma EnrollCourseChecks(t: Tables, s: Session, rq: EnrollRequest, sid: int)
    requires WellFormed(t) && FromStudent(t, s, rq, sid)
    ensures var out := EnrollSpec(t, s, rq);
      var cid := rq.courseId.value;
      var key := Sanitize(rq.enrollmentKey);
      (cid !in t.courses ==> out.resp == Fail(404))
      && (cid in t.courses && t.courses[cid].requiresKey && !Present(key) ==> out.resp == Fail(400))
      && (cid in t.courses && t.courses[cid].requiresKey && Present(key) && key != t.courses[cid].enrollmentKey
          ==> out.resp == Fail(403))
      && (cid in t.courses && KeyRefusal(t.courses[cid], key).None? && Full(t.courses[cid], ActiveCount(t, cid))
          ==> out.resp == Fail(403))
      && ((cid in t.courses && KeyRefusal(t.courses[cid], key).None? && !Full(t.courses[cid], ActiveCount(t, cid))
           && AlreadyEnrolled(t, sid, cid)) ==> out.resp == Fail(409))
      && (out.resp == Ok <==>
            cid in t.courses && KeyRefusal(t.courses[cid], key).None?
            && !Full(t.courses[cid], ActiveCount(t, cid)) && !AlreadyEnrolled(t, sid, cid))
  {
    StudentOfUnique(t, s.userId.value, sid);
  }

  /** A course that requires a key but has none stored admits nobody. */
  lemma KeylessLockedCourse(t: Tables, s: Session, rq: EnrollRequest)
    requires rq.courseId.Some? && rq.courseId.value in t.courses
    requires t.courses[rq.courseId.value].requiresKey && t.courses[rq.courseId.value].enrollmentKey.None?
    ensures EnrollSpec(t, s, rq).resp != Ok
  {
  }

  /** An accepted call inserts exactly one enrollment, under a fresh id, for
      the caller's student and the course, active and recording the key
      sent; nothing else changes. */
  lemma EnrollInsertsOne(t: Tables, s: Session, rq: EnrollRequest)
    requires WellFormed(t)
    ensures var out := EnrollSpec(t, s, rq);
      out.resp == Ok ==>
        var sid := StudentOf(t, s.userId.value).value;
        t.nextId !in t.enrollments
        && out.tables == t.(enrollments := t.enrollments[t.nextId := Enrollment(sid, rq.courseId.value,
                                                                               Sanitize(rq.enrollmentKey), Active)],
                            nextId := t.nextId + 1)
        && out.result == Some(EnrollResult(t.nextId, rq.courseId.value))
        && t.students[sid].userId == s.userId.value
  {
  }

  // Invariants kept by every call.

  /** No course has more active enrollments than its limit. */
  predicate WithinCapacity(t: Tables)
  {
    forall c :: c in t.courses && t.courses[c].maxEnrollments > 0 ==> ActiveCount(t, c) <= t.courses[c].maxEnrollments
  }

  /** At most one enrollment per (student, course) stays true. */
  lemma EnrollKeepsOnePerPair(t: Tables, s: Session, rq: EnrollRequest)
    requires WellFormed(t) && OneEnrollmentPerPair(t)
    ensures OneEnrollmentPerPair(EnrollSpec(t, s, rq).tables)
  {
    var out := EnrollSpec(t, s, rq);
    if out.resp == Ok {
      var sid := StudentOf(t, s.userId.value).value;
      var e := Enrollment(sid, rq.courseId.value, Sanitize(rq.enrollmentKey), Active);
      assert !AlreadyEnrolled(t, sid, rq.courseId.value);
      InsertKeepsOnePerPair(t, e);
    }
  }

  lemma InsertKeepsOnePerPair(t: Tables, e: Enrollment)
    requires IdsBelow(t) && OneEnrollmentPerPair(t) && !AlreadyEnrolled(t, e.studentId, e.courseId)
    ensures OneEnrollmentPerPair(t.(enrollments := t.enrollments[t.nextId := e], nextId := t.nextId + 1))
  {
  }

  /** Calls made one after another never push a course past its limit. */
  lemma EnrollKeepsCapacity(t: Tables, s: Session, rq: EnrollRequest)
    requires WellFormed(t) && WithinCapacity(t)
    ensures WithinCapacity(EnrollSpec(t, s, rq).tables)
  {
    var out := EnrollSpec(t, s, rq);
    if out.resp == Ok {
      var sid := StudentOf(t, s.userId.value).value;
      var cid := rq.courseId.value;
      var e := Enrollment(sid, cid, Sanitize(rq.enrollmentKey), Active);
      assert !Full(t.courses[cid], ActiveCount(t, cid));
      InsertKeepsCapacity(t, e);
    }
  }

  lemma InsertKeepsCapacity(t: Tables, e: Enrollment)
    requires IdsBelow(t) && WithinCapacity(t) && e.courseId in t.courses
    requires !Full(t.courses[e.courseId], ActiveCount(t, e.courseId))
    ensures WithinCapacity(t.(enrollments := t.enrollments[t.nextId := e], nextId := t.nextId + 1))
  {
    var r := t.(enrollments := t.enrollments[t.nextId := e], nextId := t.nextId + 1);
    forall c | c in r.courses && r.courses[c].maxEnrollments > 0
      ensures ActiveCount(r, c) <= r.courses[c].maxEnrollments
    {
      ActiveAfterInsert(t, e, c);
    }
  }

  /** The insert adds one active enrollment to its course and none to the others. */
  lemma ActiveAfterInsert(t: Tables, e: Enrollment, c: int)
    requires IdsBelow(t)
    ensures var r := t.(enrollments := t.enrollments[t.nextId := e], nextId := t.nextId + 1);
      ActiveCount(r, c) == ActiveCount(t, c) + (if e.courseId == c && e.status == Active then 1 else 0)
  {
    var r := t.(enrollments := t.enrollments[t.nextId := e], nextId := t.nextId + 1);
    if e.courseId == c && e.status == Active {
      assert ActiveIds(r, c) == ActiveIds(t, c) + {t.nextId};
    } else {
      assert ActiveIds(r, c) == ActiveIds(t, c);
    }
  }

  /** The call keeps the store's invariants and referential integrity. */
  lemma EnrollKeepsInvariants(t: Tables, s: Session, rq: EnrollRequest)
    requires WellFormed(t)
    ensures var out := EnrollSpec(t, s, rq);
      WellFormed(out.tables) && (Integrity(t) ==> Integrity(out.tables))
  {
    var out := EnrollSpec(t, s, rq);
    if out.resp == Ok {
      var sid := StudentOf(t, s.userId.value).value;
      var e := Enrollment(sid, rq.courseId.value, Sanitize(rq.enrollmentKey), Active);
      assert out.tables == t.(enrollments := t.enrollments[t.nextId := e], nextId := t.nextId + 1);
      InsertEnrollmentKeeps(t, e);
    } else {
      EnrollRefusalWritesNothing(t, s, rq);
    }
  }

  lemma InsertEnrollmentKeeps(t: Tables, e: Enrollment)
    requires WellFormed(t)
    ensures var r := t.(enrollments := t.enrollments[t.nextId := e], nextId := t.nextId + 1);
      WellFormed(r)
      && (Integrity(t) && e.studentId in t.students && e.courseId in t.courses ==> Integrity(r))
  {
    var r := t.(enrollments := t.enrollments[t.nextId := e], nextId := t.nextId + 1);
    EnrollmentIdsBelow(t, r, e);
    if Integrity(t) && e.studentId in t.students && e.courseId in t.courses {
      assert EnrollmentsRefOk(r);
    }
  }

  lemma EnrollmentIdsBelow(t: Tables, r: Tables, e: Enrollment)
    requires IdsBelow(t)
    requires r == t.(enrollments := t.enrollments[t.nextId := e], nextId := t.nextId + 1)
    ensures IdsBelow(r)
  {
  }
}
