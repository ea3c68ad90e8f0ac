/** The two course-creation endpoints: the session route
    (backend/api/courses/create.php), where the signed-in teacher chooses the
    key, capacity and visibility settings, and the email route
    (backend/api/teachers/create-course.php), which names the teacher by
    email and leaves the key and capacity columns to their table defaults.
    Both insert one courses row under the next id. */
module CourseCreate {
  import opened Common
  import opened Request
  import opened InputSanitizer
  import opened Schema
  import opened StoreModule
  import opened Register
  import opened Enroll

  /** The tables with one more course, under the next id. */
  function AddCourse(t: Tables, c: Course): Tables
  {
    t.(courses := t.courses[t.nextId := c], nextId := t.nextId + 1)
  }

  /** `INSERT INTO courses …` and `lastInsertId()`. */
  method InsertCourse(db: Store, c: Course) returns (id: int)
    modifies db
    ensures db.T() == AddCourse(old(db.T()), c) && id == old(db.nextId)
  {
    id := db.nextId;
    db.courses := db.courses[db.nextId := c];
    db.nextId := db.nextId + 1;
  }

  // ---- Session route ----

  /** The decoded JSON body; an undecodable body has every field absent. */
  datatype CourseFields = CourseFields(
    title: Option<string>, description: Option<string>, category: Option<string>,
    requiresKey: Option<bool>, enrollmentKey: Option<string>,
    maxEnrollments: Option<int>, isPublic: Option<bool>)

  datatype CreateCourseRequest = CreateCourseRequest(verb: HttpMethod, fields: CourseFields)

  /** The `data` of the success response. */
  datatype CreatedCourse = CreatedCourse(courseId: int, title: string, teacherId: int)

  /** The tables afterwards, the response, the field a 400 names, and the
      created course. */
  datatype CreateCourseOutcome = CreateCourseOutcome(
    tables: Tables, resp: Response, missing: Option<string>, created: Option<CreatedCourse>)

  const CourseFieldNames := ["title", "description", "category"]

  function CourseFieldValues(f: CourseFields): seq<Option<string>>
  {
    [f.title, f.description, f.category]
  }

  /** The first of title, description and category that is missing or empty. */
  function MissingCourseField(f: CourseFields): (r: Option<string>)
    ensures r.None? <==> Present(f.title) && Present(f.description) && Present(f.category)
  {
    if !Present(f.title) then Some("title")
    else if !Present(f.description) then Some("description")
    else if !Present(f.category) then Some("category")
    else None
  }

  /** The written-out checks are the `foreach` over the required fields. */
  lemma MissingCourseFieldIsFirst(f: CourseFields)
    ensures MissingCourseField(f) == FirstMissing(CourseFieldNames, CourseFieldValues(f))
  {
    var v := CourseFieldValues(f);
    var r := FirstMissing(CourseFieldNames, v);
    if r.None? {
      assert Present(v[0]) && Present(v[1]) && Present(v[2]);
    } else {
      var i :| 0 <= i < 3 && CourseFieldNames[i] == r.value && !Present(v[i])
               && forall j :: 0 <= j < i ==> Present(v[j]);
      assert i == 0 || Present(v[0]);
      assert i <= 1 || Present(v[1]);
    }
  }

  /** The row the session route inserts: sanitized text, no key requirement,
      no key, no capacity limit and public unless the body says otherwise. */
  function NewCourse(tid: int, f: CourseFields, now: int): Course
  {
    Course(tid, Clean(f.title), Clean(f.description), Clean(f.category),
           BoolOr(f.requiresKey, false), Sanitize(f.enrollmentKey),
           IntOr(f.maxEnrollments, 0), BoolOr(f.isPublic, true), now)
  }

  function Turned(t: Tables, resp: Response): CreateCourseOutcome
  {
    CreateCourseOutcome(t, resp, None, None)
  }

  /** The session route; `now` is the clock. */
  ghost function CreateCourseSpec(t: Tables, s: Session, rq: CreateCourseRequest, now: int): CreateCourseOutcome
  {
    var pre := Preflight(rq.verb, {HttpMethod.Post});
    if pre.Some? then Turned(t, pre.value)
    else if !TeacherSession(s) then Turned(t, Fail(403))
    else
      var missing := MissingCourseField(rq.fields);
      if missing.Some? then CreateCourseOutcome(t, Fail(400), missing, None)
      else
        match TeacherOf(t, s.userId.value)
        case None => Turned(t, Fail(403))
        case Some(tid) =>
          CreateCourseOutcome(AddCourse(t, NewCourse(tid, rq.fields, now)), Ok, None,
                              Some(CreatedCourse(t.nextId, Clean(rq.fields.title), tid)))
  }

  method CreateCourse(db: Store, s: Session, rq: CreateCourseRequest, now: int)
    returns (resp: Response, missing: Option<string>, created: Option<CreatedCourse>)
    requires db.Valid()
    modifies db
    ensures var out := CreateCourseSpec(old(db.T()), s, rq, now);
      db.T() == out.tables && resp == out.resp && missing == out.missing && created == out.created
  {
    var pre := Preflight(rq.verb, {HttpMethod.Post});
    if pre.Some? {
      return pre.value, None, None;
    }
    if !(s.userId.Some? && s.role == Some(Teacher)) {
      return Fail(403), None, None;
    }
    missing := FindMissing(CourseFieldNames, CourseFieldValues(rq.fields));
    MissingCourseFieldIsFirst(rq.fields);
    if missing.Some? {
      return Fail(400), missing, None;
    }
    var teacher := db.LookupTeacher(s.userId.value);
    if teacher.None? {
      return Fail(403), None, None;
    }
    var tid := teacher.value;
    var id := InsertCourse(db, NewCourse(tid, rq.fields, now));
    return Ok, None, Some(CreatedCourse(id, Clean(rq.fields.title), tid));
  }

  /** Every refusal leaves the store as it was. */
  lemma CreateRefusalWritesNothing(t: Tables, s: Session, rq: CreateCourseRequest, now: int)
    ensures var out := CreateCourseSpec(t, s, rq, now);
      out.resp != Ok ==> out.tables == t && out.created.None?
  {
  }

  /** The refusals in the order the endpoint checks: the session's role, then
      the first missing or empty field of title, description and category,
      named in that order, then the teachers row of the session's user. */
  lemma CreateRefusals(t: Tables, s: Session, rq: CreateCourseRequest, now: int)
    requires rq.verb == HttpMethod.Post
    ensures var out := CreateCourseSpec(t, s, rq, now);
      var f := rq.fields;
      (!TeacherSession(s) ==> out.resp == Fail(403) && out.missing.None?)
      && (TeacherSession(s) && !Present(f.title) ==> out.resp == Fail(400) && out.missing == Some("title"))
      && (TeacherSession(s) && Present(f.title) && !Present(f.description)
          ==> out.resp == Fail(400) && out.missing == Some("description"))
      && (TeacherSession(s) && Present(f.title) && Present(f.description) && !Present(f.category)
          ==> out.resp == Fail(400) && out.missing == Some("category"))
      && (TeacherSession(s) && Present(f.title) && Present(f.description) && Present(f.category)
          && (forall k :: k in t.teachers ==> t.teachers[k].userId != s.userId.value)
          ==> out.resp == Fail(403) && out.missing.None?)
  {
  }

  /** The call succeeds exactly for a teacher session whose user has a
      teachers row and a body with the three texts present. */
  lemma CreateSucceedsIff(t: Tables, s: Session, rq: CreateCourseRequest, now: int)
    ensures var out := CreateCourseSpec(t, s, rq, now);
      out.resp == Ok <==>
        (rq.verb == HttpMethod.Post && TeacherSession(s)
         && Present(rq.fields.title) && Present(rq.fields.description) && Present(rq.fields.category)
         && exists k :: k in t.teachers && t.teachers[k].userId == s.userId.value)
  {
  }

  /** A successful call inserts one course, under a fresh id, owned by the
      session user's teachers row, with the settings of the body and the
      defaults where the body is silent; nothing else changes. */
  lemma CreateInsertsCourse(t: Tables, s: Session, rq: CreateCourseRequest, now: int)
    requires WellFormed(t)
    ensures var out := CreateCourseSpec(t, s, rq, now);
      var f := rq.fields;
      out.resp == Ok ==>
        TeacherSession(s) && Present(f.title) && Present(f.description) && Present(f.category)
        && t.nextId !in t.courses && t.nextId in out.tables.courses
        && var c := out.tables.courses[t.nextId];
        out.tables == AddCourse(t, c)
        && c.teacherId in t.teachers && t.teachers[c.teacherId].userId == s.userId.value
        && c.title == Sanitize(f.title).value && c.description == Sanitize(f.description).value
        && c.category == Sanitize(f.category).value
        && c.requiresKey == (f.requiresKey == Some(true))
        && c.enrollmentKey == Sanitize(f.enrollmentKey)
        && c.maxEnrollments == (if f.maxEnrollments.Some? then f.maxEnrollments.value else 0)
        && c.isPublic == (f.isPublic != Some(false))
        && c.createdAt == now
        && out.created == Some(CreatedCourse(t.nextId, c.title, c.teacherId))
  {
    var out := CreateCourseSpec(t, s, rq, now);
    CreateShape(t, s, rq, now);
    if out.resp == Ok {
      var tid := TeacherOf(t, s.userId.value).value;
      var c := NewCourse(tid, rq.fields, now);
      assert out.tables == AddCourse(t, c);
      assert out.tables.courses[t.nextId] == c;
      NewCourseFields(tid, rq.fields, now);
    }
  }

  /** The row the session route builds, field by field. */
  lemma NewCourseFields(tid: int, f: CourseFields, now: int)
    requires f.title.Some? && f.description.Some? && f.category.Some?
    ensures var c := NewCourse(tid, f, now);
      c.teacherId == tid && c.createdAt == now
      && c.title == Sanitize(f.title).value && c.description == Sanitize(f.description).value
      && c.category == Sanitize(f.category).value
      && c.requiresKey == (f.requiresKey == Some(true))
      && c.enrollmentKey == Sanitize(f.enrollmentKey)
      && c.maxEnrollments == (if f.maxEnrollments.Some? then f.maxEnrollments.value else 0)
      && c.isPublic == (f.isPublic != Some(false))
  {
    assert f.title == Some(f.title.value);
    assert f.description == Some(f.description.value);
    assert f.category == Some(f.category.value);
  }

  /** A success is the insert of the row built from the body, for the
      teachers row of the session user. */
  lemma CreateShape(t: Tables, s: Session, rq: CreateCourseRequest, now: int)
    ensures var out := CreateCourseSpec(t, s, rq, now);
      out.resp == Ok ==>
        TeacherSession(s) && MissingCourseField(rq.fields).None? && TeacherOf(t, s.userId.value).Some?
        && var tid := TeacherOf(t, s.userId.value).value;
        out == CreateCourseOutcome(AddCourse(t, NewCourse(tid, rq.fields, now)), Ok, None,
                                   Some(CreatedCourse(t.nextId, Clean(rq.fields.title), tid)))
  {
  }

  /** A course created with a non-empty key is then admitted by the
      enrollment key test for the same key: both sides sanitize it. */
  lemma CreatedKeyAdmits(tid: int, f: CourseFields, now: int, k: string)
    requires f.requiresKey == Some(true) && f.enrollmentKey == Some(k)
    requires Sanitize(Some(k)).value != ""
    ensures KeyRefusal(NewCourse(tid, f, now), Sanitize(Some(k))).None?
  {
  }

  /** A course created to require a key but without one can never be
      joined: every enrollment request for it is refused. */
  lemma CreatedKeylessIsLocked(t: Tables, s: Session, rq: CreateCourseRequest, now: int,
                               s2: Session, erq: EnrollRequest)
    requires WellFormed(t)
    requires rq.fields.requiresKey == Some(true) && rq.fields.enrollmentKey.None?
    requires CreateCourseSpec(t, s, rq, now).resp == Ok
    requires erq.courseId == Some(t.nextId)
    ensures EnrollSpec(CreateCourseSpec(t, s, rq, now).tables, s2, erq).resp != Ok
  {
    KeylessLockedCourse(CreateCourseSpec(t, s, rq, now).tables, s2, erq);
  }

  /** Adding a course owned by an existing teachers row keeps fresh ids,
      the unique columns and referential integrity. */
  lemma AddCourseKeeps(t: Tables, c: Course)
    requires WellFormed(t) && Integrity(t) && c.teacherId in t.teachers
    ensures WellFormed(AddCourse(t, c)) && Integrity(AddCourse(t, c))
  {
    var r := AddCourse(t, c);
    CourseAddedWellFormed(t, r);
    CourseAddedRefs(t, r);
  }

  lemma CourseAddedWellFormed(t: Tables, r: Tables)
    requires WellFormed(t)
    requires r == t.(courses := r.courses, nextId := t.nextId + 1)
    requires forall k :: k in r.courses ==> k in t.courses || k == t.nextId
    ensures WellFormed(r)
  {
  }

  lemma CourseAddedRefs(t: Tables, r: Tables)
    requires Integrity(t)
    requires r == t.(courses := r.courses, nextId := r.nextId)
    requires forall k :: k in t.courses ==> k in r.courses
    requires forall k :: k in r.courses ==> r.courses[k].teacherId in t.teachers
    ensures Integrity(r)
  {
    assert CoursesRefOk(r);
    assert EnrollmentsRefOk(r) && AssignmentsRefOk(r) && QuizzesRefOk(r);
    assert MaterialsRefOk(r) && TopicsRefOk(r);
  }

  lemma CreateKeepsInvariants(t: Tables, s: Session, rq: CreateCourseRequest, now: int)
    requires WellFormed(t) && Integrity(t)
    ensures var out := CreateCourseSpec(t, s, rq, now);
      WellFormed(out.tables) && Integrity(out.tables)
  {
    var out := CreateCourseSpec(t, s, rq, now);
    CreateRefusalWritesNothing(t, s, rq, now);
    CreateShape(t, s, rq, now);
    if out.resp == Ok {
      var tid := TeacherOf(t, s.userId.value).value;
      var c := NewCourse(tid, rq.fields, now);
      assert c.teacherId == tid;
      AddCourseKeeps(t, c);
    }
  }

  // ---- Email route ----

  datatype EmailCourseBody = EmailCourseBody(
    teacherEmail: Option<string>, title: Option<string>, description: Option<string>,
    category: Option<string>, isPublic: Option<bool>)

  /** `body` is None when the JSON does not decode to a non-empty object. */
  datatype EmailCourseRequest = EmailCourseRequest(verb: HttpMethod, body: Option<EmailCourseBody>)

  /** The values the courses table gives the key and capacity columns the
      email route does not set. */
  datatype ColumnDefaults = ColumnDefaults(requiresKey: bool, enrollmentKey: Option<string>, maxEnrollments: int)

  /** The `data` of the email route's success response: no teacher id. */
  datatype CourseReceipt = CourseReceipt(courseId: int, title: string)

  datatype EmailCourseOutcome = EmailCourseOutcome(tables: Tables, resp: Response, receipt: Option<CourseReceipt>)

  /** The row the email route inserts; `created_at` is `NOW()`. */
  function EmailCourse(tid: int, b: EmailCourseBody, d: ColumnDefaults, now: int): Course
  {
    Course(tid, Clean(b.title), Clean(b.description), Clean(b.category),
           d.requiresKey, d.enrollmentKey, d.maxEnrollments, BoolOr(b.isPublic, true), now)
  }

  ghost function EmailCourseSpec(t: Tables, rq: EmailCourseRequest, d: ColumnDefaults, now: int): EmailCourseOutcome
  {
    var pre := Preflight(rq.verb, {HttpMethod.Post});
    if pre.Some? then EmailCourseOutcome(t, pre.value, None)
    else if rq.body.None? then EmailCourseOutcome(t, Fail(400), None)
    else
      var b := rq.body.value;
      if !Present(b.teacherEmail) then EmailCourseOutcome(t, Fail(401), None)
      else if !Present(b.title) || !Present(b.description) || !Present(b.category) then
        EmailCourseOutcome(t, Fail(400), None)
      else
        match TeacherByEmail(t, Clean(b.teacherEmail))
        case None => EmailCourseOutcome(t, Fail(403), None)
        case Some(tid) =>
          EmailCourseOutcome(AddCourse(t, EmailCourse(tid, b, d, now)), Ok,
                             Some(CourseReceipt(t.nextId, Clean(b.title))))
  }

  method EmailCreateCourse(db: Store, rq: EmailCourseRequest, d: ColumnDefaults, now: int)
    returns (resp: Response, receipt: Option<CourseReceipt>)
    requires db.Valid()
    modifies db
    ensures var out := EmailCourseSpec(old(db.T()), rq, d, now);
      db.T() == out.tables && resp == out.resp && receipt == out.receipt
  {
    var pre := Preflight(rq.verb, {HttpMethod.Post});
    if pre.Some? {
      return pre.value, None;
    }
    if rq.body.None? {
      return Fail(400), None;
    }
    var b := rq.body.value;
    if !Present(b.teacherEmail) {
      return Fail(401), None;
    }
    if !Present(b.title) || !Present(b.description) || !Present(b.category) {
      return Fail(400), None;
    }
    var teacher := db.LookupTeacherByEmail(Clean(b.teacherEmail));
    if teacher.None? {
      return Fail(403), None;
    }
    var id := InsertCourse(db, EmailCourse(teacher.value, b, d, now));
    return Ok, Some(CourseReceipt(id, Clean(b.title)));
  }

  lemma EmailRefusalWritesNothing(t: Tables, rq: EmailCourseRequest, d: ColumnDefaults, now: int)
    ensures var out := EmailCourseSpec(t, rq, d, now);
      out.resp != Ok ==> out.tables == t && out.receipt.None?
  {
  }

  /** The refusals in order: an undecodable body, a missing email (401),
      a missing text (400), then an email that is no teacher's (403). */
  lemma EmailRefusals(t: Tables, rq: EmailCourseRequest, d: ColumnDefaults, now: int)
    requires rq.verb == HttpMethod.Post
    ensures var out := EmailCourseSpec(t, rq, d, now);
      (rq.body.None? ==> out.resp == Fail(400))
      && (rq.body.Some? && !Present(rq.body.value.teacherEmail) ==> out.resp == Fail(401))
      && (rq.body.Some? && Present(rq.body.value.teacherEmail)
          && !(Present(rq.body.value.title) && Present(rq.body.value.description)
               && Present(rq.body.value.category))
          ==> out.resp == Fail(400))
  {
  }

  /** The call succeeds exactly when the sanitized email is a teacher's and
      the three texts are present; the course then belongs to that teacher
      and carries the column defaults. */
  lemma EmailCreateByTeacher(t: Tables, rq: EmailCourseRequest, d: ColumnDefaults, now: int)
    requires WellFormed(t)
    ensures var out := EmailCourseSpec(t, rq, d, now);
      out.resp == Ok <==>
        (rq.verb == HttpMethod.Post && rq.body.Some? && Present(rq.body.value.teacherEmail)
         && Present(rq.body.value.title) && Present(rq.body.value.description)
         && Present(rq.body.value.category)
         && exists k :: IsTeacherWithEmail(t, k, Sanitize(rq.body.value.teacherEmail).value))
    ensures var out := EmailCourseSpec(t, rq, d, now);
      out.resp == Ok ==>
        rq.body.Some? && Present(rq.body.value.teacherEmail)
        && exists c ::
             (out.tables == AddCourse(t, c)
              && IsTeacherWithEmail(t, c.teacherId, Sanitize(rq.body.value.teacherEmail).value)
              && c.requiresKey == d.requiresKey && c.enrollmentKey == d.enrollmentKey
              && c.maxEnrollments == d.maxEnrollments
              && c.isPublic == (rq.body.value.isPublic != Some(false)) && c.createdAt == now
              && out.receipt == Some(CourseReceipt(t.nextId, c.title)))
  {
    var out := EmailCourseSpec(t, rq, d, now);
    EmailShape(t, rq, d, now);
    if rq.body.Some? && Present(rq.body.value.teacherEmail) {
      var b := rq.body.value;
      assert Clean(b.teacherEmail) == Sanitize(b.teacherEmail).value by {
        assert b.teacherEmail == Some(b.teacherEmail.value);
      }
      if out.resp == Ok {
        var tid := TeacherByEmail(t, Clean(b.teacherEmail)).value;
        var c := EmailCourse(tid, b, d, now);
        assert out.tables == AddCourse(t, c);
      }
    }
  }

  /** A success is the insert of the row built from the body, for the
      teacher the sanitized email names. */
  lemma EmailShape(t: Tables, rq: EmailCourseRequest, d: ColumnDefaults, now: int)
    ensures var out := EmailCourseSpec(t, rq, d, now);
      out.resp == Ok ==>
        rq.body.Some? && Present(rq.body.value.teacherEmail) && Present(rq.body.value.title)
        && Present(rq.body.value.description) && Present(rq.body.value.category)
        && TeacherByEmail(t, Clean(rq.body.value.teacherEmail)).Some?
        && var tid := TeacherByEmail(t, Clean(rq.body.value.teacherEmail)).value;
        out == EmailCourseOutcome(AddCourse(t, EmailCourse(tid, rq.body.value, d, now)), Ok,
                                  Some(CourseReceipt(t.nextId, Clean(rq.body.value.title))))
  {
  }

  lemma EmailKeepsInvariants(t: Tables, rq: EmailCourseRequest, d: ColumnDefaults, now: int)
    requires WellFormed(t) && Integrity(t)
    ensures var out := EmailCourseSpec(t, rq, d, now);
      WellFormed(out.tables) && Integrity(out.tables)
  {
    var out := EmailCourseSpec(t, rq, d, now);
    EmailRefusalWritesNothing(t, rq, d, now);
    EmailShape(t, rq, d, now);
    if out.resp == Ok {
      var b := rq.body.value;
      var tid := TeacherByEmail(t, Clean(b.teacherEmail)).value;
      AddCourseKeeps(t, EmailCourse(tid, b, d, now));
    }
  }
}
