/** The admin endpoint that deletes a teacher
    (backend/api/admin/delete-teacher.php): every course of the teacher goes
    with the full per-course cascade, then the teachers row and its users row. */
module TeacherDelete {
  import opened Common
  import opened Text
  import opened Request
  import opened Schema
  import opened Cascade
  import opened StoreModule
  import opened CascadeDelete

  datatype TeacherRemovalRequest = TeacherRemovalRequest(
    verb: HttpMethod, authorization: Option<string>, teacherId: Option<int>)

  datatype RemovalOutcome = RemovalOutcome(tables: Tables, resp: Response, message: Option<string>)

  /** The ids of the teacher's courses. */
  function CoursesOfTeacher(t: Tables, tid: int): set<int>
  {
    set k | k in t.courses && t.courses[k].teacherId == tid
  }

  /** The existence check joins the teachers row to its users row. */
  predicate TeacherFound(t: Tables, tid: int)
  {
    tid in t.teachers && t.teachers[tid].userId in t.users
  }

  function TeacherRemovedMessage(name: string): string
  {
    "Enseignant \"" + name + "\" et tous ses cours supprimés avec succès"
  }

  /** The tables once the teacher `tid` (whose user is `uid`) and all of their
      courses are deleted. */
  function TeacherRemoved(t: Tables, tid: int, uid: int): Tables
  {
    var r := CoursesRemoved(t, CoursesOfTeacher(t, tid));
    r.(teachers := r.teachers - {tid}, users := r.users - {uid})
  }

  function TeacherRemovalSpec(t: Tables, rq: TeacherRemovalRequest): RemovalOutcome
  {
    var pre := Preflight(rq.verb, {Delete, HttpMethod.Post});
    if pre.Some? then RemovalOutcome(t, pre.value, None)
    else if !HasToken(rq.authorization) then RemovalOutcome(t, Fail(401), None)
    else
      var tid := IntOr(rq.teacherId, 0);
      if tid == 0 then RemovalOutcome(t, Fail(400), None)
      else if !TeacherFound(t, tid) then RemovalOutcome(t, Fail(404), None)
      else
        var uid := t.teachers[tid].userId;
        RemovalOutcome(TeacherRemoved(t, tid, uid), Ok, Some(TeacherRemovedMessage(FullName(t.users[uid]))))
  }

  /** `SELECT id FROM courses WHERE teacher_id = :teacher_id`. */
  method CourseIdsOf(db: Store, tid: int) returns (cs: set<int>)
    ensures cs == CoursesOfTeacher(db.T(), tid)
  {
    cs := set k | k in db.courses && db.courses[k].teacherId == tid;
  }

  /** The `foreach` over the fetched course ids: each one is deleted with the
      per-course sequence, in whatever order the ids come. */
  method DeleteCourses(db: Store, cs: set<int>)
    modifies db
    ensures db.T() == CoursesRemoved(old(db.T()), cs)
  {
    ghost var t0 := db.T();
    var todo := cs;
    ghost var done: set<int> := {};
    DeleteNone(db, t0);
    while exists c :: c in todo
      invariant done !! todo && done + todo == cs
      invariant db.T() == CoursesRemoved(t0, done)
      decreases |todo|
    {
      var c :| c in todo;
      DeleteOneMore(db, t0, done, c);
      done := done + {c};
      todo := todo - {c};
    }
    assert done == cs;
  }

  /** Before the loop, no course is deleted yet. */
  method DeleteNone(db: Store, ghost t0: Tables)
    requires db.T() == t0
    ensures db.T() == CoursesRemoved(t0, {})
  {
    RemovedNothing(t0);
  }

  /** One turn of the loop: removing one more course from a state where the
      courses `done` are already gone. */
  method DeleteOneMore(db: Store, ghost t0: Tables, ghost done: set<int>, c: int)
    requires db.T() == CoursesRemoved(t0, done)
    modifies db
    ensures db.T() == CoursesRemoved(t0, done + {c})
  {
    DeleteCourseRows(db, c);
    RemovedCompose(t0, done, {c});
  }

  method RemoveTeacher(db: Store, rq: TeacherRemovalRequest) returns (resp: Response, message: Option<string>)
    modifies db
    ensures var out := TeacherRemovalSpec(old(db.T()), rq);
      db.T() == out.tables && resp == out.resp && message == out.message
  {
    var pre := Preflight(rq.verb, {Delete, HttpMethod.Post});
    if pre.Some? {
      return pre.value, None;
    }
    if !HasToken(rq.authorization) {
      return Fail(401), None;
    }
    var tid := IntOr(rq.teacherId, 0);
    if tid == 0 {
      return Fail(400), None;
    }
    if !(tid in db.teachers && db.teachers[tid].userId in db.users) {
      return Fail(404), None;
    }
    var uid := db.teachers[tid].userId;
    var name := FullName(db.users[uid]);
    var cs := CourseIdsOf(db, tid);
    DeleteCourses(db, cs);
    db.teachers := db.teachers - {tid};
    db.users := db.users - {uid};
    return Ok, Some(TeacherRemovedMessage(name));
  }

  /** Every refusal leaves the store as it was. */
  lemma RemovalRefusalWritesNothing(t: Tables, rq: TeacherRemovalRequest)
    ensures var out := TeacherRemovalSpec(t, rq);
      out.resp != Ok ==> out.tables == t && out.message.None?
  {
  }

  /** The refusals, in the order the endpoint checks; with consistent foreign
      keys 404 means exactly that there is no such teacher. */
  lemma RemovalRefusals(t: Tables, rq: TeacherRemovalRequest)
    requires rq.verb in {Delete, HttpMethod.Post}
    ensures var out := TeacherRemovalSpec(t, rq);
      (!HasToken(rq.authorization) ==> out.resp == Fail(401))
      && (HasToken(rq.authorization) && IntOr(rq.teacherId, 0) == 0 ==> out.resp == Fail(400))
      && (Integrity(t) && HasToken(rq.authorization) && IntOr(rq.teacherId, 0) != 0
          ==> (out.resp == Fail(404) <==> IntOr(rq.teacherId, 0) !in t.teachers))
  {
  }

  /** After the delete no course has that teacher, and the teachers row and
      its users row are gone. */
  lemma TeacherRemovedGone(t: Tables, tid: int, uid: int)
    ensures var r := TeacherRemoved(t, tid, uid);
      (forall k :: k in r.courses ==> r.courses[k].teacherId != tid)
      && tid !in r.teachers && uid !in r.users
  {
  }

  /** Every course of the teacher goes with all of its rows. */
  lemma TeacherRemovedCoursesCascade(t: Tables, tid: int, uid: int)
    ensures Slice(TeacherRemoved(t, tid, uid), CoursesOfTeacher(t, tid))
      == Tables(map[], map[], map[], map[], map[], map[], map[], map[], map[],
                map[], map[], map[], map[], map[], map[], map[], map[], t.nextId)
  {
    var cs := CoursesOfTeacher(t, tid);
    RemovedLeavesNoRows(t, cs);
    SliceIgnoresPeople(CoursesRemoved(t, cs), tid, uid, cs);
  }

  /** Courses of other teachers keep all of their rows. */
  lemma TeacherRemovedKeepsOthers(t: Tables, tid: int, uid: int, ds: set<int>)
    requires ds !! CoursesOfTeacher(t, tid)
    ensures Slice(TeacherRemoved(t, tid, uid), ds) == Slice(t, ds)
  {
    var cs := CoursesOfTeacher(t, tid);
    RemovedKeepsOtherCourses(t, cs, ds);
    SliceIgnoresPeople(CoursesRemoved(t, cs), tid, uid, ds);
  }

  /** A teacher without courses loses only the teachers row and the users row. */
  lemma TeacherWithoutCourses(t: Tables, tid: int, uid: int)
    requires CoursesOfTeacher(t, tid) == {}
    ensures TeacherRemoved(t, tid, uid) == t.(teachers := t.teachers - {tid}, users := t.users - {uid})
  {
    RemovedNothing(t);
  }

  /** The delete keeps referential integrity when nothing else
      refers to the removed user: no students row, and no forum topic, post or
      like of theirs outside their own courses. */
  predicate UserUnreferenced(t: Tables, uid: int)
  {
    (forall k :: k in t.students ==> t.students[k].userId != uid)
    && (forall k :: k in t.topics ==> t.topics[k].userId != uid)
    && (forall k :: k in t.posts ==> t.posts[k].userId != uid)
    && (forall k :: k in t.likes ==> t.likes[k].userId != uid)
  }

  lemma TeacherRemovedKeepsIntegrity(t: Tables, tid: int)
    requires WellFormed(t) && Integrity(t) && tid in t.teachers
    requires UserUnreferenced(CoursesRemoved(t, CoursesOfTeacher(t, tid)), t.teachers[tid].userId)
    ensures Integrity(TeacherRemoved(t, tid, t.teachers[tid].userId))
  {
    var cs := CoursesOfTeacher(t, tid);
    RemovedKeepsIntegrity(t, cs);
    RemovedKeepsWellFormed(t, cs);
    var r := CoursesRemoved(t, cs);
    assert r.teachers == t.teachers;
    PeopleRemovedKeepIntegrity(r, tid);
  }

  /** Removing a teacher without courses, and its unreferenced user, keeps
      referential integrity. */
  lemma PeopleRemovedKeepIntegrity(r: Tables, tid: int)
    requires Integrity(r) && UniqueRoleRows(r) && tid in r.teachers
    requires forall k :: k in r.courses ==> r.courses[k].teacherId != tid
    requires UserUnreferenced(r, r.teachers[tid].userId)
    ensures Integrity(r.(teachers := r.teachers - {tid}, users := r.users - {r.teachers[tid].userId}))
  {
    var uid := r.teachers[tid].userId;
    var f := r.(teachers := r.teachers - {tid}, users := r.users - {uid});
    assert StudentsRefOk(f);
    assert TeachersRefOk(f);
    assert CoursesRefOk(f);
    assert TopicsRefOk(f);
    assert PostsRefOk(f);
    assert LikesRefOk(f);
    assert EnrollmentsRefOk(f) && AssignmentsRefOk(f) && SubmissionsRefOk(f) && FilesRefOk(f);
    assert QuizzesRefOk(f) && QuestionsRefOk(f) && OptionsRefOk(f) && QuizSubmissionsRefOk(f);
    assert MaterialsRefOk(f) && CompletedRefOk(f);
  }

  /** The delete keeps fresh ids and the unique columns. */
  lemma TeacherRemovedKeepsWellFormed(t: Tables, tid: int, uid: int)
    requires WellFormed(t)
    ensures WellFormed(TeacherRemoved(t, tid, uid))
  {
    RemovedKeepsWellFormed(t, CoursesOfTeacher(t, tid));
  }

  /** The success message names the teacher. */
  lemma TeacherRemovedMessageNames(name: string)
    ensures Contains(TeacherRemovedMessage(name), name)
  {
    ContainsInfix("Enseignant \"", name, "\" et tous ses cours supprimés avec succès");
  }

  // Helpers about slices.

  lemma SliceIgnoresPeople(r: Tables, tid: int, uid: int, ds: set<int>)
    ensures Slice(r.(teachers := r.teachers - {tid}, users := r.users - {uid}), ds) == Slice(r, ds)
  {
  }
}
