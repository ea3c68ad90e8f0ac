/** The admin endpoint that deletes a student
    (backend/api/admin/delete-student.php): the student's submissions, quiz
    submissions, completion marks and enrollments, the user's forum likes and
    posts, then the students row and the users row. Forum topics are not
    touched. */
module StudentDelete {
  import opened Common
  import opened Text
  import opened Request
  import opened Schema
  import opened Cascade
  import opened StoreModule

  datatype StudentRemovalRequest = StudentRemovalRequest(
    verb: HttpMethod, authorization: Option<string>, studentId: Option<int>)

  datatype StudentOutcome = StudentOutcome(tables: Tables, resp: Response, message: Option<string>)

  /** The existence check joins the students row to its users row. */
  predicate StudentFound(t: Tables, sid: int)
  {
    sid in t.students && t.students[sid].userId in t.users
  }

  function StudentRemovedMessage(name: string): string
  {
    "Étudiant \"" + name + "\" supprimé avec succès"
  }

  // The rows each DELETE removes.

  function SubmissionsOfStudent(t: Tables, sid: int): set<int>
  { set k | k in t.submissions && t.submissions[k].studentId == sid }

  function QuizSubmissionsOfStudent(t: Tables, sid: int): set<int>
  { set k | k in t.quizSubmissions && t.quizSubmissions[k].studentId == sid }

  function CompletedOfStudent(t: Tables, sid: int): set<int>
  { set k | k in t.completed && t.completed[k].studentId == sid }

  function EnrollmentsOfStudent(t: Tables, sid: int): set<int>
  { set k | k in t.enrollments && t.enrollments[k].studentId == sid }

  function LikesByUser(t: Tables, uid: int): set<int>
  { set k | k in t.likes && t.likes[k].userId == uid }

  function PostsByUser(t: Tables, uid: int): set<int>
  { set k | k in t.posts && t.posts[k].userId == uid }

  /** The tables once the eight DELETE statements for student `sid`, whose
      user is `uid`, have run. */
  function StudentRemoved(t: Tables, sid: int, uid: int): Tables
  {
    t.(submissions := Without(t.submissions, SubmissionsOfStudent(t, sid)),
       quizSubmissions := Without(t.quizSubmissions, QuizSubmissionsOfStudent(t, sid)),
       completed := Without(t.completed, CompletedOfStudent(t, sid)),
       enrollments := Without(t.enrollments, EnrollmentsOfStudent(t, sid)),
       likes := Without(t.likes, LikesByUser(t, uid)),
       posts := Without(t.posts, PostsByUser(t, uid)),
       students := t.students - {sid},
       users := t.users - {uid})
  }

  function StudentRemovalSpec(t: Tables, rq: StudentRemovalRequest): StudentOutcome
  {
    var pre := Preflight(rq.verb, {Delete, HttpMethod.Post});
    if pre.Some? then StudentOutcome(t, pre.value, None)
    else if !HasToken(rq.authorization) then StudentOutcome(t, Fail(401), None)
    else
      var sid := IntOr(rq.studentId, 0);
      if sid == 0 then StudentOutcome(t, Fail(400), None)
      else if !StudentFound(t, sid) then StudentOutcome(t, Fail(404), None)
      else
        var uid := t.students[sid].userId;
        StudentOutcome(StudentRemoved(t, sid, uid), Ok, Some(StudentRemovedMessage(FullName(t.users[uid]))))
  }

  // One method per DELETE statement, in the order the endpoint runs them.

  method DeleteSubmissionsOf(db: Store, sid: int)
    modifies db
    ensures db.T() == old(db.T()).(submissions := Without(old(db.submissions), SubmissionsOfStudent(old(db.T()), sid)))
  {
    db.submissions := map k | k in db.submissions && db.submissions[k].studentId != sid :: db.submissions[k];
  }

  method DeleteQuizSubmissionsOf(db: Store, sid: int)
    modifies db
    ensures db.T() == old(db.T()).(quizSubmissions := Without(old(db.quizSubmissions), QuizSubmissionsOfStudent(old(db.T()), sid)))
  {
    db.quizSubmissions := map k | k in db.quizSubmissions && db.quizSubmissions[k].studentId != sid :: db.quizSubmissions[k];
  }

  method DeleteCompletedOf(db: Store, sid: int)
    modifies db
    ensures db.T() == old(db.T()).(completed := Without(old(db.completed), CompletedOfStudent(old(db.T()), sid)))
  {
    db.completed := map k | k in db.completed && db.completed[k].studentId != sid :: db.completed[k];
  }

  method DeleteEnrollmentsOf(db: Store, sid: int)
    modifies db
    ensures db.T() == old(db.T()).(enrollments := Without(old(db.enrollments), EnrollmentsOfStudent(old(db.T()), sid)))
  {
    db.enrollments := map k | k in db.enrollments && db.enrollments[k].studentId != sid :: db.enrollments[k];
  }

  method DeleteLikesBy(db: Store, uid: int)
    modifies db
    ensures db.T() == old(db.T()).(likes := Without(old(db.likes), LikesByUser(old(db.T()), uid)))
  {
    db.likes := map k | k in db.likes && db.likes[k].userId != uid :: db.likes[k];
  }

  method DeletePostsBy(db: Store, uid: int)
    modifies db
    ensures db.T() == old(db.T()).(posts := Without(old(db.posts), PostsByUser(old(db.T()), uid)))
  {
    db.posts := map k | k in db.posts && db.posts[k].userId != uid :: db.posts[k];
  }

  /** The eight statements together. */
  method DeleteStudentRows(db: Store, sid: int, uid: int)
    modifies db
    ensures db.T() == StudentRemoved(old(db.T()), sid, uid)
  {
    ghost var t0 := db.T();
    DeleteSubmissionsOf(db, sid);
    DeleteQuizSubmissionsOf(db, sid);
    DeleteCompletedOf(db, sid);
    DeleteEnrollmentsOf(db, sid);
    assert LikesByUser(db.T(), uid) == LikesByUser(t0, uid);
    DeleteLikesBy(db, uid);
    assert PostsByUser(db.T(), uid) == PostsByUser(t0, uid);
    DeletePostsBy(db, uid);
    db.students := db.students - {sid};
    db.users := db.users - {uid};
  }

  method RemoveStudent(db: Store, rq: StudentRemovalRequest) returns (resp: Response, message: Option<string>)
    modifies db
    ensures var out := StudentRemovalSpec(old(db.T()), rq);
      db.T() == out.tables && resp == out.resp && message == out.message
  {
    var pre := Preflight(rq.verb, {Delete, HttpMethod.Post});
    if pre.Some? {
      return pre.value, None;
    }
    if !HasToken(rq.authorization) {
      return Fail(401), None;
    }
    var sid := IntOr(rq.studentId, 0);
    if sid == 0 {
      return Fail(400), None;
    }
    if !(sid in db.students && db.students[sid].userId in db.users) {
      return Fail(404), None;
    }
    var uid := db.students[sid].userId;
    var name := FullName(db.users[uid]);
    DeleteStudentRows(db, sid, uid);
    return Ok, Some(StudentRemovedMessage(name));
  }

  /** Every refusal leaves the store as it was. */
  lemma StudentRefusalWritesNothing(t: Tables, rq: StudentRemovalRequest)
    ensures var out := StudentRemovalSpec(t, rq);
      out.resp != Ok ==> out.tables == t && out.message.None?
  {
  }

  /** The refusals, in the order the endpoint checks; with consistent foreign
      keys 404 means exactly that there is no such student. */
  lemma StudentRefusals(t: Tables, rq: StudentRemovalRequest)
    requires rq.verb in {Delete, HttpMethod.Post}
    ensures var out := StudentRemovalSpec(t, rq);
      (!HasToken(rq.authorization) ==> out.resp == Fail(401))
      && (HasToken(rq.authorization) && IntOr(rq.studentId, 0) == 0 ==> out.resp == Fail(400))
      && (Integrity(t) && HasToken(rq.authorization) && IntOr(rq.studentId, 0) != 0
          ==> (out.resp == Fail(404) <==> IntOr(rq.studentId, 0) !in t.students))
  {
  }

  /** Nothing carrying the student's id or user id survives, and the students
      and users rows are gone. */
  lemma StudentRemovedGone(t: Tables, sid: int, uid: int)
    ensures var r := StudentRemoved(t, sid, uid);
      (forall k :: k in r.submissions ==> r.submissions[k].studentId != sid)
      && (forall k :: k in r.quizSubmissions ==> r.quizSubmissions[k].studentId != sid)
      && (forall k :: k in r.completed ==> r.completed[k].studentId != sid)
      && (forall k :: k in r.enrollments ==> r.enrollments[k].studentId != sid)
      && (forall k :: k in r.likes ==> r.likes[k].userId != uid)
      && (forall k :: k in r.posts ==> r.posts[k].userId != uid)
      && sid !in r.students && uid !in r.users
  {
  }

  /** Rows of other students and users are kept as they were, and every
      other table, forum topics included, is untouched. */
  lemma StudentRemovedKeepsOthers(t: Tables, sid: int, uid: int)
    ensures var r := StudentRemoved(t, sid, uid);
      (forall k :: k in t.submissions && t.submissions[k].studentId != sid ==>
         k in r.submissions && r.submissions[k] == t.submissions[k])
      && (forall k :: k in t.quizSubmissions && t.quizSubmissions[k].studentId != sid ==>
            k in r.quizSubmissions && r.quizSubmissions[k] == t.quizSubmissions[k])
      && (forall k :: k in t.completed && t.completed[k].studentId != sid ==>
            k in r.completed && r.completed[k] == t.completed[k])
      && (forall k :: k in t.enrollments && t.enrollments[k].studentId != sid ==>
            k in r.enrollments && r.enrollments[k] == t.enrollments[k])
      && (forall k :: k in t.likes && t.likes[k].userId != uid ==> k in r.likes && r.likes[k] == t.likes[k])
      && (forall k :: k in t.posts && t.posts[k].userId != uid ==> k in r.posts && r.posts[k] == t.posts[k])
      && (forall k :: k in t.students && k != sid ==> k in r.students && r.students[k] == t.students[k])
      && (forall k :: k in t.users && k != uid ==> k in r.users && r.users[k] == t.users[k])
      && r.topics == t.topics && r.teachers == t.teachers && r.courses == t.courses
      && r.assignments == t.assignments && r.files == t.files && r.quizzes == t.quizzes
      && r.questions == t.questions && r.options == t.options && r.materials == t.materials
      && r.nextId == t.nextId
  {
  }

  /** Nothing outside the deleted rows refers to the student: no teachers
      row or forum topic of the user, and no other user's like on, or reply
      to, one of the user's posts. */
  predicate StudentUnreferenced(t: Tables, uid: int)
  {
    (forall k :: k in t.teachers ==> t.teachers[k].userId != uid)
    && (forall k :: k in t.topics ==> t.topics[k].userId != uid)
    && (forall k :: (k in t.likes && t.likes[k].postId in t.posts
                     && t.posts[t.likes[k].postId].userId == uid) ==> t.likes[k].userId == uid)
    && (forall k :: (k in t.posts && t.posts[k].parentId.Some? && t.posts[k].parentId.value in t.posts
                     && t.posts[t.posts[k].parentId.value].userId == uid) ==> t.posts[k].userId == uid)
  }

  /** Under that condition the delete keeps referential integrity. */
  lemma StudentRemovedKeepsIntegrity(t: Tables, sid: int)
    requires WellFormed(t) && Integrity(t) && sid in t.students
    requires StudentUnreferenced(t, t.students[sid].userId)
    ensures Integrity(StudentRemoved(t, sid, t.students[sid].userId))
  {
    var uid := t.students[sid].userId;
    var r := StudentRemoved(t, sid, uid);
    StudentPeopleRefs(t, r, sid, uid);
    StudentWorkRefs(t, r, sid, uid);
    StudentCourseContentRefs(t, r, sid, uid);
    StudentForumRefs(t, r, sid, uid);
  }

  lemma StudentPeopleRefs(t: Tables, r: Tables, sid: int, uid: int)
    requires WellFormed(t) && Integrity(t) && sid in t.students && uid == t.students[sid].userId
    requires StudentUnreferenced(t, uid)
    requires r == StudentRemoved(t, sid, uid)
    ensures StudentsRefOk(r) && TeachersRefOk(r) && CoursesRefOk(r)
  {
  }

  lemma StudentWorkRefs(t: Tables, r: Tables, sid: int, uid: int)
    requires Integrity(t)
    requires r == StudentRemoved(t, sid, uid)
    ensures EnrollmentsRefOk(r) && SubmissionsRefOk(r) && QuizSubmissionsRefOk(r) && CompletedRefOk(r)
  {
  }

  lemma StudentCourseContentRefs(t: Tables, r: Tables, sid: int, uid: int)
    requires Integrity(t)
    requires r == StudentRemoved(t, sid, uid)
    ensures AssignmentsRefOk(r) && FilesRefOk(r) && QuizzesRefOk(r) && QuestionsRefOk(r)
      && OptionsRefOk(r) && MaterialsRefOk(r)
  {
  }

  lemma StudentForumRefs(t: Tables, r: Tables, sid: int, uid: int)
    requires Integrity(t) && StudentUnreferenced(t, uid)
    requires r == StudentRemoved(t, sid, uid)
    ensures TopicsRefOk(r) && PostsRefOk(r) && LikesRefOk(r)
  {
  }

  /** Without that condition it does not: a like by another user on the
      student's post is left pointing at a deleted post. */
  lemma StudentRemovalCanOrphanLike()
    ensures var t := Tables(
        map[1 := User("s@x", "h", Student, "S", "T", true), 2 := User("o@x", "h", Student, "O", "P", true)],
        map[3 := StudentRow(1, "C1", "L1")], map[], map[], map[], map[], map[], map[], map[],
        map[], map[], map[], map[], map[],
        map[4 := ForumTopic(5, 2)], map[6 := ForumPost(4, 1, None)], map[7 := ForumLike(6, 2)], 8);
      !LikesRefOk(StudentRemoved(t, 3, 1))
  {
    var t := Tables(
        map[1 := User("s@x", "h", Student, "S", "T", true), 2 := User("o@x", "h", Student, "O", "P", true)],
        map[3 := StudentRow(1, "C1", "L1")], map[], map[], map[], map[], map[], map[], map[],
        map[], map[], map[], map[], map[],
        map[4 := ForumTopic(5, 2)], map[6 := ForumPost(4, 1, None)], map[7 := ForumLike(6, 2)], 8);
    var r := StudentRemoved(t, 3, 1);
    assert 7 in r.likes && r.likes[7].postId == 6;
    assert 6 !in r.posts;
  }

  /** The delete keeps fresh ids and the unique columns. */
  lemma StudentRemovedKeepsWellFormed(t: Tables, sid: int, uid: int)
    requires WellFormed(t)
    ensures WellFormed(StudentRemoved(t, sid, uid))
  {
    var r := StudentRemoved(t, sid, uid);
    assert IdsBelow(r);
  }

  /** The success message names the student. */
  lemma StudentRemovedMessageNames(name: string)
    ensures Contains(StudentRemovedMessage(name), name)
  {
    ContainsInfix("Étudiant \"", name, "\" supprimé avec succès");
  }
}
