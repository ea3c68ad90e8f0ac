/** The per-course delete sequence, statement by statement, as the course
    delete endpoints (teacher and admin) and the teacher delete endpoint run
    it. Each DELETE filters one table by a subquery evaluated on the current
    state; because children are always deleted before the rows the subquery
    reads, every subquery still sees the rows of the state before the cascade,
    and the whole sequence equals `Cascade.CoursesRemoved` for that course. */
module CascadeDelete {
  import opened Common
  import opened Schema
  import opened Cascade
  import opened StoreModule

  // One method per DELETE statement; each names the one table it changes.

  /** Step 1: submissions whose assignment belongs to course `c`. */
  method DeleteSubmissions(db: Store, c: int)
    modifies db
    ensures db.T() == old(db.T()).(submissions := Without(old(db.submissions), SubmissionsOf(old(db.T()), {c})))
  {
    var a := set k | k in db.assignments && db.assignments[k].courseId == c;
    assert a == AssignmentsOf(db.T(), {c});
    db.submissions := map k | k in db.submissions && db.submissions[k].assignmentId !in a :: db.submissions[k];
  }

  /** Step 2: files attached to the course's assignments. */
  method DeleteFiles(db: Store, c: int)
    modifies db
    ensures db.T() == old(db.T()).(files := Without(old(db.files), FilesOf(old(db.T()), {c})))
  {
    var a := set k | k in db.assignments && db.assignments[k].courseId == c;
    assert a == AssignmentsOf(db.T(), {c});
    db.files := map k | k in db.files && db.files[k].assignmentId !in a :: db.files[k];
  }

  /** Step 3: the course's assignments. */
  method DeleteAssignments(db: Store, c: int)
    modifies db
    ensures db.T() == old(db.T()).(assignments := Without(old(db.assignments), AssignmentsOf(old(db.T()), {c})))
  {
    db.assignments := map k | k in db.assignments && db.assignments[k].courseId != c :: db.assignments[k];
  }

  /** Step 4: options of the questions of the course's quizzes. */
  method DeleteOptions(db: Store, c: int)
    modifies db
    ensures db.T() == old(db.T()).(options := Without(old(db.options), OptionsOf(old(db.T()), {c})))
  {
    var q := set k | k in db.quizzes && db.quizzes[k].courseId == c;
    assert q == QuizzesOf(db.T(), {c});
    var qq := set k | k in db.questions && db.questions[k].quizId in q;
    assert qq == QuestionsOf(db.T(), {c});
    db.options := map k | k in db.options && db.options[k].questionId !in qq :: db.options[k];
  }

  /** Step 5: questions of the course's quizzes. */
  method DeleteQuestions(db: Store, c: int)
    modifies db
    ensures db.T() == old(db.T()).(questions := Without(old(db.questions), QuestionsOf(old(db.T()), {c})))
  {
    var q := set k | k in db.quizzes && db.quizzes[k].courseId == c;
    assert q == QuizzesOf(db.T(), {c});
    db.questions := map k | k in db.questions && db.questions[k].quizId !in q :: db.questions[k];
  }

  /** Step 6: submissions of the course's quizzes. */
  method DeleteQuizSubmissions(db: Store, c: int)
    modifies db
    ensures db.T() == old(db.T()).(quizSubmissions := Without(old(db.quizSubmissions), QuizSubmissionsOf(old(db.T()), {c})))
  {
    var q := set k | k in db.quizzes && db.quizzes[k].courseId == c;
    assert q == QuizzesOf(db.T(), {c});
    db.quizSubmissions := map k | k in db.quizSubmissions && db.quizSubmissions[k].quizId !in q :: db.quizSubmissions[k];
  }

  /** Step 7: the course's quizzes. */
  method DeleteQuizzes(db: Store, c: int)
    modifies db
    ensures db.T() == old(db.T()).(quizzes := Without(old(db.quizzes), QuizzesOf(old(db.T()), {c})))
  {
    db.quizzes := map k | k in db.quizzes && db.quizzes[k].courseId != c :: db.quizzes[k];
  }

  /** Step 8: completion marks of the course's materials. */
  method DeleteCompleted(db: Store, c: int)
    modifies db
    ensures db.T() == old(db.T()).(completed := Without(old(db.completed), CompletedOf(old(db.T()), {c})))
  {
    var m := set k | k in db.materials && db.materials[k].courseId == c;
    assert m == MaterialsOf(db.T(), {c});
    db.completed := map k | k in db.completed && db.completed[k].materialId !in m :: db.completed[k];
  }

  /** Step 9: the course's materials. */
  method DeleteMaterials(db: Store, c: int)
    modifies db
    ensures db.T() == old(db.T()).(materials := Without(old(db.materials), MaterialsOf(old(db.T()), {c})))
  {
    db.materials := map k | k in db.materials && db.materials[k].courseId != c :: db.materials[k];
  }

  /** Step 10a: likes on posts of the course's topics. */
  method DeleteLikes(db: Store, c: int)
    modifies db
    ensures db.T() == old(db.T()).(likes := Without(old(db.likes), LikesOf(old(db.T()), {c})))
  {
    var tp := set k | k in db.topics && db.topics[k].courseId == c;
    assert tp == TopicsOf(db.T(), {c});
    var p := set k | k in db.posts && db.posts[k].topicId in tp;
    assert p == PostsOf(db.T(), {c});
    db.likes := map k | k in db.likes && db.likes[k].postId !in p :: db.likes[k];
  }

  /** Step 10b: posts of the course's topics. */
  method DeletePosts(db: Store, c: int)
    modifies db
    ensures db.T() == old(db.T()).(posts := Without(old(db.posts), PostsOf(old(db.T()), {c})))
  {
    var tp := set k | k in db.topics && db.topics[k].courseId == c;
    assert tp == TopicsOf(db.T(), {c});
    db.posts := map k | k in db.posts && db.posts[k].topicId !in tp :: db.posts[k];
  }

  /** Step 10c: the course's topics. */
  method DeleteTopics(db: Store, c: int)
    modifies db
    ensures db.T() == old(db.T()).(topics := Without(old(db.topics), TopicsOf(old(db.T()), {c})))
  {
    db.topics := map k | k in db.topics && db.topics[k].courseId != c :: db.topics[k];
  }

  /** Step 11: the course's enrollments. */
  method DeleteEnrollments(db: Store, c: int)
    modifies db
    ensures db.T() == old(db.T()).(enrollments := Without(old(db.enrollments), EnrollmentsOf(old(db.T()), {c})))
  {
    db.enrollments := map k | k in db.enrollments && db.enrollments[k].courseId != c :: db.enrollments[k];
  }

  /** Step 12: the course row itself. */
  method DeleteCourse(db: Store, c: int)
    modifies db
    ensures db.T() == old(db.T()).(courses := Without(old(db.courses), CoursesIn(old(db.T()), {c})))
  {
    db.courses := map k | k in db.courses && k != c :: db.courses[k];
  }

  /** Steps 1-3: everything under the course's assignments. */
  method DeleteAssignmentRows(db: Store, c: int)
    modifies db
    ensures db.T() == old(db.T()).(
      submissions := Without(old(db.submissions), SubmissionsOf(old(db.T()), {c})),
      files := Without(old(db.files), FilesOf(old(db.T()), {c})),
      assignments := Without(old(db.assignments), AssignmentsOf(old(db.T()), {c})))
  {
    ghost var t0 := db.T();
    DeleteSubmissions(db, c);
    assert AssignmentsOf(db.T(), {c}) == AssignmentsOf(t0, {c});
    assert FilesOf(db.T(), {c}) == FilesOf(t0, {c});
    DeleteFiles(db, c);
    assert AssignmentsOf(db.T(), {c}) == AssignmentsOf(t0, {c});
    DeleteAssignments(db, c);
  }

  /** Steps 4-7: everything under the course's quizzes. */
  method DeleteQuizRows(db: Store, c: int)
    modifies db
    ensures db.T() == old(db.T()).(
      options := Without(old(db.options), OptionsOf(old(db.T()), {c})),
      questions := Without(old(db.questions), QuestionsOf(old(db.T()), {c})),
      quizSubmissions := Without(old(db.quizSubmissions), QuizSubmissionsOf(old(db.T()), {c})),
      quizzes := Without(old(db.quizzes), QuizzesOf(old(db.T()), {c})))
  {
    ghost var t0 := db.T();
    DeleteOptions(db, c);
    assert QuizzesOf(db.T(), {c}) == QuizzesOf(t0, {c});
    assert QuestionsOf(db.T(), {c}) == QuestionsOf(t0, {c});
    DeleteQuestions(db, c);
    assert QuizzesOf(db.T(), {c}) == QuizzesOf(t0, {c});
    assert QuizSubmissionsOf(db.T(), {c}) == QuizSubmissionsOf(t0, {c});
    DeleteQuizSubmissions(db, c);
    assert QuizzesOf(db.T(), {c}) == QuizzesOf(t0, {c});
    DeleteQuizzes(db, c);
  }

  /** Steps 8-9: the course's materials and their completion marks. */
  method DeleteMaterialRows(db: Store, c: int)
    modifies db
    ensures db.T() == old(db.T()).(
      completed := Without(old(db.completed), CompletedOf(old(db.T()), {c})),
      materials := Without(old(db.materials), MaterialsOf(old(db.T()), {c})))
  {
    ghost var t0 := db.T();
    DeleteCompleted(db, c);
    assert MaterialsOf(db.T(), {c}) == MaterialsOf(t0, {c});
    DeleteMaterials(db, c);
  }

  /** Step 10: the course's forum. */
  method DeleteForumRows(db: Store, c: int)
    modifies db
    ensures db.T() == old(db.T()).(
      likes := Without(old(db.likes), LikesOf(old(db.T()), {c})),
      posts := Without(old(db.posts), PostsOf(old(db.T()), {c})),
      topics := Without(old(db.topics), TopicsOf(old(db.T()), {c})))
  {
    ghost var t0 := db.T();
    DeleteLikes(db, c);
    assert TopicsOf(db.T(), {c}) == TopicsOf(t0, {c});
    assert PostsOf(db.T(), {c}) == PostsOf(t0, {c});
    DeletePosts(db, c);
    assert TopicsOf(db.T(), {c}) == TopicsOf(t0, {c});
    DeleteTopics(db, c);
  }

  /** The whole sequence for one course, in the order the endpoints run it. */
  method DeleteCourseRows(db: Store, c: int)
    modifies db
    ensures db.T() == CoursesRemoved(old(db.T()), {c})
  {
    ghost var t0 := db.T();
    DeleteAssignmentRows(db, c);
    DeleteQuizRows(db, c);
    DeleteMaterialRows(db, c);
    DeleteForumRows(db, c);
    assert EnrollmentsOf(db.T(), {c}) == EnrollmentsOf(t0, {c});
    DeleteEnrollments(db, c);
    assert CoursesIn(db.T(), {c}) == CoursesIn(t0, {c});
    DeleteCourse(db, c);
  }
}
