/** The two course-delete endpoints: the teacher route
    (backend/api/teachers/delete-course.php), which identifies the teacher by
    email and checks ownership, and the admin route
    (backend/api/admin/delete-course.php), which only checks that the course
    exists. Both run the same per-course delete sequence. */
module CourseDelete {
  import opened Common
  import opened Text
  import opened InputSanitizer
  import opened Request
  import opened Schema
  import opened Cascade
  import opened StoreModule
  import opened CascadeDelete

  /** What a delete endpoint does: the tables afterwards, the response, and
      the success message when there is one. */
  datatype DeleteOutcome = DeleteOutcome(tables: Tables, resp: Response, message: Option<string>)

  // ---- Teacher route ----

  datatype TeacherDeleteRequest = TeacherDeleteRequest(
    verb: HttpMethod, authorization: Option<string>, courseId: Option<int>, email: Option<string>)

  function TeacherDeletedMessage(title: string): string
  {
    "Cours \"" + title + "\" supprimé avec succès"
  }

  ghost function TeacherDeleteCourseSpec(t: Tables, rq: TeacherDeleteRequest): DeleteOutcome
  {
    var pre := Preflight(rq.verb, {Delete, HttpMethod.Post});
    if pre.Some? then DeleteOutcome(t, pre.value, None)
    else if !HasToken(rq.authorization) then DeleteOutcome(t, Fail(401), None)
    else
      var cid := IntOr(rq.courseId, 0);
      var email := Sanitize(rq.email);
      if cid == 0 || !Present(email) then DeleteOutcome(t, Fail(400), None)
      else
        var tid := TeacherByEmail(t, email.value);
        if tid.None? || !Owns(t, tid.value, cid) then DeleteOutcome(t, Fail(403), None)
        else DeleteOutcome(CoursesRemoved(t, {cid}), Ok, Some(TeacherDeletedMessage(t.courses[cid].title)))
  }

  method TeacherDeleteCourse(db: Store, rq: TeacherDeleteRequest) returns (resp: Response, message: Option<string>)
    requires db.Valid()
    modifies db
    ensures var out := TeacherDeleteCourseSpec(old(db.T()), rq);
      db.T() == out.tables && resp == out.resp && message == out.message
  {
    var pre := Preflight(rq.verb, {Delete, HttpMethod.Post});
    if pre.Some? {
      return pre.value, None;
    }
    if !HasToken(rq.authorization) {
      return Fail(401), None;
    }
    var cid := IntOr(rq.courseId, 0);
    var email := Sanitize(rq.email);
    if cid == 0 || !Present(email) {
      return Fail(400), None;
    }
    var tid := db.LookupTeacherByEmail(email.value);
    if tid.None? || !(cid in db.courses && db.courses[cid].teacherId == tid.value) {
      return Fail(403), None;
    }
    var title := db.courses[cid].title;
    DeleteCourseRows(db, cid);
    return Ok, Some(TeacherDeletedMessage(title));
  }

  /** Every refusal leaves the store as it was. */
  lemma TeacherDeleteRefusalWritesNothing(t: Tables, rq: TeacherDeleteRequest)
    ensures var out := TeacherDeleteCourseSpec(t, rq);
      out.resp != Ok ==> out.tables == t && out.message.None?
  {
  }

  /** Which refusal a request gets, in the order the route checks. */
  lemma TeacherDeleteRefusals(t: Tables, rq: TeacherDeleteRequest)
    requires rq.verb in {Delete, HttpMethod.Post}
    ensures var out := TeacherDeleteCourseSpec(t, rq);
      (!HasToken(rq.authorization) ==> out.resp == Fail(401))
      && (HasToken(rq.authorization) && (IntOr(rq.courseId, 0) == 0 || !Present(Sanitize(rq.email)))
          ==> out.resp == Fail(400))
      && (HasToken(rq.authorization) && IntOr(rq.courseId, 0) != 0 && Present(Sanitize(rq.email))
          && (forall k :: !IsTeacherWithEmail(t, k, Sanitize(rq.email).value))
          ==> out.resp == Fail(403))
  {
  }

  /** A course is deleted only by the teacher whose email the request names,
      and then exactly its rows go. */
  lemma TeacherDeleteOnlyByOwner(t: Tables, rq: TeacherDeleteRequest)
    requires WellFormed(t)
    ensures var out := TeacherDeleteCourseSpec(t, rq);
      out.resp == Ok <==>
        (rq.verb in {Delete, HttpMethod.Post} && HasToken(rq.authorization)
         && Present(Sanitize(rq.email))
         && exists k :: IsTeacherWithEmail(t, k, Sanitize(rq.email).value)
                        && IntOr(rq.courseId, 0) != 0 && Owns(t, k, IntOr(rq.courseId, 0)))
    ensures var out := TeacherDeleteCourseSpec(t, rq);
      out.resp == Ok ==> out.tables == CoursesRemoved(t, {IntOr(rq.courseId, 0)})
  {
    var out := TeacherDeleteCourseSpec(t, rq);
    if rq.verb in {Delete, HttpMethod.Post} && HasToken(rq.authorization) && Present(Sanitize(rq.email)) {
      var email := Sanitize(rq.email).value;
      if exists k :: IsTeacherWithEmail(t, k, email) && IntOr(rq.courseId, 0) != 0 && Owns(t, k, IntOr(rq.courseId, 0)) {
        var k :| IsTeacherWithEmail(t, k, email) && IntOr(rq.courseId, 0) != 0 && Owns(t, k, IntOr(rq.courseId, 0));
        TeacherByEmailUnique(t, email, k);
      }
    }
  }

  /** The success message names the deleted course. */
  lemma TeacherDeletedMessageNamesCourse(title: string)
    ensures Contains(TeacherDeletedMessage(title), title)
  {
    ContainsInfix("Cours \"", title, "\" supprimé avec succès");
  }

  // ---- Admin route ----

  datatype AdminDeleteRequest = AdminDeleteRequest(
    verb: HttpMethod, authorization: Option<string>, courseId: Option<int>)

  /** The existence check joins the course to its teacher and the teacher's
      user; a course whose teacher or user row is missing is not found. */
  predicate CourseWithTeacher(t: Tables, cid: int)
  {
    cid in t.courses && t.courses[cid].teacherId in t.teachers
    && t.teachers[t.courses[cid].teacherId].userId in t.users
  }

  function AdminDeletedMessage(title: string, teacherName: string): string
  {
    "Cours \"" + title + "\" (par " + teacherName + ") supprimé avec succès"
  }

  /** The message of a successful admin delete of `cid`. */
  function AdminMessageFor(t: Tables, cid: int): string
    requires CourseWithTeacher(t, cid)
  {
    var c := t.courses[cid];
    AdminDeletedMessage(c.title, FullName(t.users[t.teachers[c.teacherId].userId]))
  }

  function AdminDeleteCourseSpec(t: Tables, rq: AdminDeleteRequest): DeleteOutcome
  {
    var pre := Preflight(rq.verb, {Delete, HttpMethod.Post});
    if pre.Some? then DeleteOutcome(t, pre.value, None)
    else if !HasToken(rq.authorization) then DeleteOutcome(t, Fail(401), None)
    else
      var cid := IntOr(rq.courseId, 0);
      if cid == 0 then DeleteOutcome(t, Fail(400), None)
      else if !CourseWithTeacher(t, cid) then DeleteOutcome(t, Fail(404), None)
      else DeleteOutcome(CoursesRemoved(t, {cid}), Ok, Some(AdminMessageFor(t, cid)))
  }

  method AdminDeleteCourse(db: Store, rq: AdminDeleteRequest) returns (resp: Response, message: Option<string>)
    modifies db
    ensures var out := AdminDeleteCourseSpec(old(db.T()), rq);
      db.T() == out.tables && resp == out.resp && message == out.message
  {
    var pre := Preflight(rq.verb, {Delete, HttpMethod.Post});
    if pre.Some? {
      return pre.value, None;
    }
    if !HasToken(rq.authorization) {
      return Fail(401), None;
    }
    var cid := IntOr(rq.courseId, 0);
    if cid == 0 {
      return Fail(400), None;
    }
    if !CourseWithTeacher(db.T(), cid) {
      return Fail(404), None;
    }
    var msg := AdminMessageFor(db.T(), cid);
    DeleteCourseRows(db, cid);
    return Ok, Some(msg);
  }

  /** Every refusal leaves the store as it was. */
  lemma AdminDeleteRefusalWritesNothing(t: Tables, rq: AdminDeleteRequest)
    ensures var out := AdminDeleteCourseSpec(t, rq);
      out.resp != Ok ==> out.tables == t && out.message.None?
  {
  }

  /** With consistent foreign keys, 404 means exactly that the course does not exist. */
  lemma AdminNotFoundIffAbsent(t: Tables, rq: AdminDeleteRequest)
    requires Integrity(t)
    requires rq.verb in {Delete, HttpMethod.Post} && HasToken(rq.authorization) && IntOr(rq.courseId, 0) != 0
    ensures AdminDeleteCourseSpec(t, rq).resp == Fail(404) <==> IntOr(rq.courseId, 0) !in t.courses
  {
  }

  /** Any token holder may delete any existing course: the outcome depends on
      the token only through its presence. */
  lemma AdminDeleteAnyToken(t: Tables, rq: AdminDeleteRequest, other: string)
    requires other != "" && !Contains(other, "Bearer ")
    ensures var rq2 := rq.(authorization := Some(other));
      HasToken(rq.authorization) ==> AdminDeleteCourseSpec(t, rq) == AdminDeleteCourseSpec(t, rq2)
  {
    BareTokenKept(other);
  }

  /** The admin route deletes exactly when the course exists with its
      teacher and user rows, whoever holds the token, and then runs the same
      cascade as the teacher route. */
  lemma AdminDeleteWhenFound(t: Tables, rq: AdminDeleteRequest)
    ensures var out := AdminDeleteCourseSpec(t, rq);
      out.resp == Ok <==>
        (rq.verb in {Delete, HttpMethod.Post} && HasToken(rq.authorization)
         && IntOr(rq.courseId, 0) != 0 && CourseWithTeacher(t, IntOr(rq.courseId, 0)))
    ensures var out := AdminDeleteCourseSpec(t, rq);
      out.resp == Ok ==> out.tables == CoursesRemoved(t, {IntOr(rq.courseId, 0)})
  {
  }

  /** The success message names the course and its teacher. */
  lemma AdminDeletedMessageNames(title: string, teacherName: string)
    ensures Contains(AdminDeletedMessage(title, teacherName), title)
    ensures Contains(AdminDeletedMessage(title, teacherName), teacherName)
  {
    assert AdminDeletedMessage(title, teacherName)
        == "Cours \"" + title + ("\" (par " + teacherName + ") supprimé avec succès");
    ContainsInfix("Cours \"", title, "\" (par " + teacherName + ") supprimé avec succès");
    assert AdminDeletedMessage(title, teacherName)
        == ("Cours \"" + title + "\" (par ") + teacherName + ") supprimé avec succès";
    ContainsInfix("Cours \"" + title + "\" (par ", teacherName, ") supprimé avec succès");
  }

  // ---- Properties of a successful delete, shared by both routes ----

  /** The teacher route keeps fresh ids, the unique columns and referential integrity. */
  lemma TeacherDeleteKeepsInvariants(t: Tables, rq: TeacherDeleteRequest)
    requires WellFormed(t) && Integrity(t)
    ensures WellFormed(TeacherDeleteCourseSpec(t, rq).tables)
    ensures Integrity(TeacherDeleteCourseSpec(t, rq).tables)
  {
    var out := TeacherDeleteCourseSpec(t, rq);
    var cid := IntOr(rq.courseId, 0);
    if out.tables != t {
      assert out.tables == CoursesRemoved(t, {cid});
      RemovedKeepsWellFormed(t, {cid});
      RemovedKeepsIntegrity(t, {cid});
    }
  }

  /** So does the admin route. */
  lemma AdminDeleteKeepsInvariants(t: Tables, rq: AdminDeleteRequest)
    requires WellFormed(t) && Integrity(t)
    ensures WellFormed(AdminDeleteCourseSpec(t, rq).tables)
    ensures Integrity(AdminDeleteCourseSpec(t, rq).tables)
  {
    var out := AdminDeleteCourseSpec(t, rq);
    var cid := IntOr(rq.courseId, 0);
    if out.tables != t {
      assert out.tables == CoursesRemoved(t, {cid});
      RemovedKeepsWellFormed(t, {cid});
      RemovedKeepsIntegrity(t, {cid});
    }
  }

  /** Exactly one course row goes: the target. */
  lemma DeletedCourseIsTheOnlyCourseGone(t: Tables, cid: int)
    requires cid in t.courses
    ensures CoursesRemoved(t, {cid}).courses.Keys == t.courses.Keys - {cid}
    ensures |CoursesRemoved(t, {cid}).courses| == |t.courses| - 1
  {
    var r := CoursesRemoved(t, {cid}).courses;
    assert r.Keys == t.courses.Keys - {cid};
    assert |t.courses.Keys - {cid}| == |t.courses.Keys| - 1;
  }
}
