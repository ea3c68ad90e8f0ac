/** The endpoints that add content to a course, backend/api/assignments/create.php
    and backend/api/quizzes/create.php. Both run the same checks: a decodable
    body, the teacher's email, a course id and a title, a teacher with that
    email, and a course of theirs with that id. Then each inserts one row. */
module ContentCreate {
  import opened Common
  import opened Request
  import opened InputSanitizer
  import opened Schema
  import opened StoreModule
  import opened Register

  /** The decoded JSON body; the quiz route reads neither `due_date` nor
      `max_points`. */
  datatype ContentBody = ContentBody(
    teacherEmail: Option<string>, courseId: Option<int>, title: Option<string>,
    description: Option<string>, dueDate: Option<string>, maxPoints: Option<int>)

  /** `body` is None when the JSON does not decode to a non-empty object. */
  datatype ContentRequest = ContentRequest(verb: HttpMethod, body: Option<ContentBody>)

  /** The result of the shared checks: the answer that ends the call, or the
      course the new row goes to. */
  datatype Gate = Refused(resp: Response) | Admitted(courseId: int)

  /** The tables afterwards, the response and the id of the new row. */
  datatype ContentOutcome = ContentOutcome(tables: Tables, resp: Response, newId: Option<int>)

  ghost function GateOf(t: Tables, rq: ContentRequest): Gate
  {
    var pre := Preflight(rq.verb, {HttpMethod.Post});
    if pre.Some? then Refused(pre.value)
    else if rq.body.None? then Refused(Fail(400))
    else
      var b := rq.body.value;
      if !Present(b.teacherEmail) then Refused(Fail(401))
      else if b.courseId.None? || b.title.None? then Refused(Fail(400))
      else
        match TeacherByEmail(t, Clean(b.teacherEmail))
        case None => Refused(Fail(403))
        case Some(tid) =>
          if Owns(t, tid, b.courseId.value) then Admitted(b.courseId.value) else Refused(Fail(403))
  }

  method CheckGate(db: Store, rq: ContentRequest) returns (g: Gate)
    requires db.Valid()
    ensures g == GateOf(db.T(), rq)
  {
    var pre := Preflight(rq.verb, {HttpMethod.Post});
    if pre.Some? {
      return Refused(pre.value);
    }
    if rq.body.None? {
      return Refused(Fail(400));
    }
    var b := rq.body.value;
    if !Present(b.teacherEmail) {
      return Refused(Fail(401));
    }
    if b.courseId.None? || b.title.None? {
      return Refused(Fail(400));
    }
    var teacher := db.LookupTeacherByEmail(Clean(b.teacherEmail));
    if teacher.None? {
      return Refused(Fail(403));
    }
    var cid := b.courseId.value;
    if !(cid in db.courses && db.courses[cid].teacherId == teacher.value) {
      return Refused(Fail(403));
    }
    return Admitted(cid);
  }

  /** The gate admits exactly a request whose sanitized email belongs to a
      teacher who owns the named course; the other answers come in the order
      the endpoints check. */
  lemma GateRules(t: Tables, rq: ContentRequest)
    requires WellFormed(t) && rq.verb == HttpMethod.Post
    ensures var g := GateOf(t, rq);
      (rq.body.None? ==> g == Refused(Fail(400)))
      && (rq.body.Some? && !Present(rq.body.value.teacherEmail) ==> g == Refused(Fail(401)))
      && (rq.body.Some? && Present(rq.body.value.teacherEmail)
          && (rq.body.value.courseId.None? || rq.body.value.title.None?)
          ==> g == Refused(Fail(400)))
      && (rq.body.Some? && Present(rq.body.value.teacherEmail)
          && rq.body.value.courseId.Some? && rq.body.value.title.Some?
          ==> (g.Refused? ==> g.resp == Fail(403))
              && (g.Admitted? <==>
                    exists k :: IsTeacherWithEmail(t, k, Sanitize(rq.body.value.teacherEmail).value)
                                && Owns(t, k, rq.body.value.courseId.value)))
    ensures GateOf(t, rq).Admitted? ==> GateOf(t, rq).courseId == rq.body.value.courseId.value
  {
    if rq.body.Some? && Present(rq.body.value.teacherEmail)
       && rq.body.value.courseId.Some? && rq.body.value.title.Some?
    {
      var email := Sanitize(rq.body.value.teacherEmail).value;
      if exists k :: IsTeacherWithEmail(t, k, email) && Owns(t, k, rq.body.value.courseId.value) {
        var k :| IsTeacherWithEmail(t, k, email) && Owns(t, k, rq.body.value.courseId.value);
        TeacherByEmailUnique(t, email, k);
      }
    }
  }

  /** What an admitted request carries: a body with a title, and the id of
      an existing course. */
  lemma GateAdmits(t: Tables, rq: ContentRequest)
    requires GateOf(t, rq).Admitted?
    ensures rq.body.Some? && rq.body.value.title.Some? && rq.body.value.courseId.Some?
    ensures GateOf(t, rq).courseId == rq.body.value.courseId.value
    ensures GateOf(t, rq).courseId in t.courses
  {
  }

  // ---- Assignments ----

  /** The tables with one more assignment, under the next id. */
  function AddAssignment(t: Tables, a: Assignment): Tables
  {
    t.(assignments := t.assignments[t.nextId := a], nextId := t.nextId + 1)
  }

  /** `INSERT INTO assignments …` and `lastInsertId()`. */
  method InsertAssignment(db: Store, a: Assignment) returns (id: int)
    modifies db
    ensures db.T() == AddAssignment(old(db.T()), a) && id == old(db.nextId)
  {
    id := db.nextId;
    db.assignments := db.assignments[db.nextId := a];
    db.nextId := db.nextId + 1;
  }

  /** The new assignment: sanitized title, description and due date (null
      when absent) and 100 points unless the body says otherwise. */
  function NewAssignment(cid: int, b: ContentBody): Assignment
  {
    Assignment(cid, Clean(b.title), Sanitize(b.description), Sanitize(b.dueDate), IntOr(b.maxPoints, 100))
  }

  ghost function CreateAssignmentSpec(t: Tables, rq: ContentRequest): ContentOutcome
  {
    match GateOf(t, rq)
    case Refused(resp) => ContentOutcome(t, resp, None)
    case Admitted(cid) =>
      ContentOutcome(AddAssignment(t, NewAssignment(cid, rq.body.value)), Ok, Some(t.nextId))
  }

  method CreateAssignment(db: Store, rq: ContentRequest) returns (resp: Response, newId: Option<int>)
    requires db.Valid()
    modifies db
    ensures var out := CreateAssignmentSpec(old(db.T()), rq);
      db.T() == out.tables && resp == out.resp && newId == out.newId
  {
    var g := CheckGate(db, rq);
    if g.Refused? {
      return g.resp, None;
    }
    var id := InsertAssignment(db, NewAssignment(g.courseId, rq.body.value));
    return Ok, Some(id);
  }

  /** A refused call writes nothing; an admitted one adds exactly one
      assignment, under a fresh id, to the course the gate admitted, with the
      body's fields and the defaults where the body is silent. */
  lemma AssignmentCreated(t: Tables, rq: ContentRequest)
    requires WellFormed(t)
    ensures var out := CreateAssignmentSpec(t, rq);
      (GateOf(t, rq).Refused? ==> out.tables == t && out.resp == GateOf(t, rq).resp && out.newId.None?)
      && (GateOf(t, rq).Admitted? ==>
            var b := rq.body.value;
            var a := out.tables.assignments[t.nextId];
            t.nextId !in t.assignments && t.nextId in out.tables.assignments
            && out.tables == AddAssignment(t, a) && out.resp == Ok && out.newId == Some(t.nextId)
            && a.courseId == b.courseId.value && a.courseId in t.courses
            && a.title == Sanitize(b.title).value
            && a.description == Sanitize(b.description) && a.dueDate == Sanitize(b.dueDate)
            && a.maxPoints == (if b.maxPoints.Some? then b.maxPoints.value else 100))
  {
    match GateOf(t, rq)
    case Refused(_) =>
    case Admitted(cid) =>
      GateAdmits(t, rq);
      var r := AddAssignment(t, NewAssignment(cid, rq.body.value));
      assert CreateAssignmentSpec(t, rq) == ContentOutcome(r, Ok, Some(t.nextId));
  }

  lemma AssignmentKeepsInvariants(t: Tables, rq: ContentRequest)
    requires WellFormed(t) && Integrity(t)
    ensures var out := CreateAssignmentSpec(t, rq);
      WellFormed(out.tables) && Integrity(out.tables)
  {
    match GateOf(t, rq)
    case Refused(_) =>
      assert CreateAssignmentSpec(t, rq).tables == t;
    case Admitted(cid) =>
      GateAdmits(t, rq);
      AssignmentKeeps(t, NewAssignment(cid, rq.body.value));
  }

  lemma AssignmentKeeps(t: Tables, a: Assignment)
    requires WellFormed(t) && Integrity(t) && a.courseId in t.courses
    ensures WellFormed(AddAssignment(t, a)) && Integrity(AddAssignment(t, a))
  {
    AssignmentAddedWellFormed(t, AddAssignment(t, a));
    AssignmentAddedRefs(t, AddAssignment(t, a));
  }

  lemma AssignmentAddedWellFormed(t: Tables, r: Tables)
    requires WellFormed(t)
    requires r == t.(assignments := r.assignments, nextId := t.nextId + 1)
    requires forall k :: k in r.assignments ==> k in t.assignments || k == t.nextId
    ensures WellFormed(r)
  {
  }

  lemma AssignmentAddedRefs(t: Tables, r: Tables)
    requires Integrity(t)
    requires r == t.(assignments := r.assignments, nextId := r.nextId)
    requires forall k :: k in t.assignments ==> k in r.assignments
    requires forall k :: k in r.assignments ==> r.assignments[k].courseId in t.courses
    ensures Integrity(r)
  {
    assert AssignmentsRefOk(r);
    assert SubmissionsRefOk(r) && FilesRefOk(r);
  }

  // ---- Quizzes ----

  /** The tables with one more quiz, under the next id. */
  function AddQuiz(t: Tables, q: Quiz): Tables
  {
    t.(quizzes := t.quizzes[t.nextId := q], nextId := t.nextId + 1)
  }

  /** `INSERT INTO quizzes …` and `lastInsertId()`. */
  method InsertQuiz(db: Store, q: Quiz) returns (id: int)
    modifies db
    ensures db.T() == AddQuiz(old(db.T()), q) && id == old(db.nextId)
  {
    id := db.nextId;
    db.quizzes := db.quizzes[db.nextId := q];
    db.nextId := db.nextId + 1;
  }

  /** The new quiz: sanitized title and description and the fixed settings,
      a practice quiz without time limit, passing at 60, not published. */
  function NewQuiz(cid: int, b: ContentBody): Quiz
  {
    Quiz(cid, Clean(b.title), Sanitize(b.description), Practice, 0, 60, false)
  }

  ghost function CreateQuizSpec(t: Tables, rq: ContentRequest): ContentOutcome
  {
    match GateOf(t, rq)
    case Refused(resp) => ContentOutcome(t, resp, None)
    case Admitted(cid) => ContentOutcome(AddQuiz(t, NewQuiz(cid, rq.body.value)), Ok, Some(t.nextId))
  }

  method CreateQuiz(db: Store, rq: ContentRequest) returns (resp: Response, newId: Option<int>)
    requires db.Valid()
    modifies db
    ensures var out := CreateQuizSpec(old(db.T()), rq);
      db.T() == out.tables && resp == out.resp && newId == out.newId
  {
    var g := CheckGate(db, rq);
    if g.Refused? {
      return g.resp, None;
    }
    var id := InsertQuiz(db, NewQuiz(g.courseId, rq.body.value));
    return Ok, Some(id);
  }

  /** A refused call writes nothing; an admitted one adds exactly one quiz,
      under a fresh id, to the admitted course, whatever settings the body
      carries: practice, no time limit, passing score 60, unpublished. */
  lemma QuizCreated(t: Tables, rq: ContentRequest)
    requires WellFormed(t)
    ensures var out := CreateQuizSpec(t, rq);
      (GateOf(t, rq).Refused? ==> out.tables == t && out.resp == GateOf(t, rq).resp && out.newId.None?)
      && (GateOf(t, rq).Admitted? ==>
            var b := rq.body.value;
            var q := out.tables.quizzes[t.nextId];
            t.nextId !in t.quizzes && t.nextId in out.tables.quizzes
            && out.tables == AddQuiz(t, q) && out.resp == Ok && out.newId == Some(t.nextId)
            && q.courseId == b.courseId.value && q.courseId in t.courses
            && q.title == Sanitize(b.title).value && q.description == Sanitize(b.description)
            && q.quizType == Practice && q.timeLimit == 0 && q.passingScore == 60 && !q.isPublished)
  {
    match GateOf(t, rq)
    case Refused(_) =>
    case Admitted(cid) =>
      GateAdmits(t, rq);
      var r := AddQuiz(t, NewQuiz(cid, rq.body.value));
      assert CreateQuizSpec(t, rq) == ContentOutcome(r, Ok, Some(t.nextId));
  }

  lemma QuizKeepsInvariants(t: Tables, rq: ContentRequest)
    requires WellFormed(t) && Integrity(t)
    ensures var out := CreateQuizSpec(t, rq);
      WellFormed(out.tables) && Integrity(out.tables)
  {
    match GateOf(t, rq)
    case Refused(_) =>
      assert CreateQuizSpec(t, rq).tables == t;
    case Admitted(cid) =>
      GateAdmits(t, rq);
      QuizKeeps(t, NewQuiz(cid, rq.body.value));
  }

  lemma QuizKeeps(t: Tables, q: Quiz)
    requires WellFormed(t) && Integrity(t) && q.courseId in t.courses
    ensures WellFormed(AddQuiz(t, q)) && Integrity(AddQuiz(t, q))
  {
    QuizAddedWellFormed(t, AddQuiz(t, q));
    QuizAddedRefs(t, AddQuiz(t, q));
  }

  lemma QuizAddedWellFormed(t: Tables, r: Tables)
    requires WellFormed(t)
    requires r == t.(quizzes := r.quizzes, nextId := t.nextId + 1)
    requires forall k :: k in r.quizzes ==> k in t.quizzes || k == t.nextId
    ensures WellFormed(r)
  {
  }

  lemma QuizAddedRefs(t: Tables, r: Tables)
    requires Integrity(t)
    requires r == t.(quizzes := r.quizzes, nextId := r.nextId)
    requires forall k :: k in t.quizzes ==> k in r.quizzes
    requires forall k :: k in r.quizzes ==> r.quizzes[k].courseId in t.courses
    ensures Integrity(r)
  {
    assert QuizzesRefOk(r);
    assert QuestionsRefOk(r) && QuizSubmissionsRefOk(r);
  }
}
