/** The cascade-delete routine, stated declaratively: removing a set of
    courses removes, in every dependent table, exactly the rows that belong to
    those courses in the state before the delete. Belonging is transitive:
    a submission belongs to the course of its assignment, an option to the
    course of its question's quiz, a like to the course of its post's topic. */
module Cascade {
  import opened Common
  import opened Schema

  // Maps with some keys removed, or kept.

  function Without<V>(m: map<int, V>, g: set<int>): map<int, V>
  { map k | k in m && k !in g :: m[k] }

  function Restrict<V>(m: map<int, V>, g: set<int>): map<int, V>
  { map k | k in m && k in g :: m[k] }

  /** Map union of two maps with disjoint keys. */
  predicate SplitInto<V(==)>(whole: map<int, V>, kept: map<int, V>, gone: map<int, V>)
  {
    kept.Keys !! gone.Keys && whole == kept + gone
  }

  lemma SplitWithout<V>(m: map<int, V>, g: set<int>)
    ensures SplitInto(m, Without(m, g), Restrict(m, g))
  {
    assert m == Without(m, g) + Restrict(m, g);
  }

  lemma WithoutTwice<V>(m: map<int, V>, g1: set<int>, g2: set<int>, g: set<int>)
    requires g == g1 + g2
    ensures Without(Without(m, g1), g2) == Without(m, g)
  {
  }

  lemma WithoutNone<V>(m: map<int, V>, g: set<int>)
    requires g == {}
    ensures Without(m, g) == m
  {
  }

  lemma RestrictNone<V>(m: map<int, V>, g: set<int>)
    requires g == {}
    ensures Restrict(m, g) == map[]
  {
  }

  lemma RestrictWithout<V>(m: map<int, V>, g1: set<int>, g2: set<int>)
    requires g1 !! g2
    ensures Restrict(Without(m, g1), g2) == Restrict(m, g2)
  {
  }

  // The footprint of a set of courses: in each table, the ids of the rows
  // that belong to one of them.

  function CoursesIn(t: Tables, cs: set<int>): set<int>
  { set k | k in t.courses && k in cs }

  function EnrollmentsOf(t: Tables, cs: set<int>): set<int>
  { set k | k in t.enrollments && t.enrollments[k].courseId in cs }

  function AssignmentsOf(t: Tables, cs: set<int>): set<int>
  { set k | k in t.assignments && t.assignments[k].courseId in cs }

  function SubmissionsOf(t: Tables, cs: set<int>): set<int>
  { set k | k in t.submissions && t.submissions[k].assignmentId in AssignmentsOf(t, cs) }

  function FilesOf(t: Tables, cs: set<int>): set<int>
  { set k | k in t.files && t.files[k].assignmentId in AssignmentsOf(t, cs) }

  function QuizzesOf(t: Tables, cs: set<int>): set<int>
  { set k | k in t.quizzes && t.quizzes[k].courseId in cs }

  function QuestionsOf(t: Tables, cs: set<int>): set<int>
  { set k | k in t.questions && t.questions[k].quizId in QuizzesOf(t, cs) }

  function OptionsOf(t: Tables, cs: set<int>): set<int>
  { set k | k in t.options && t.options[k].questionId in QuestionsOf(t, cs) }

  function QuizSubmissionsOf(t: Tables, cs: set<int>): set<int>
  { set k | k in t.quizSubmissions && t.quizSubmissions[k].quizId in QuizzesOf(t, cs) }

  function MaterialsOf(t: Tables, cs: set<int>): set<int>
  { set k | k in t.materials && t.materials[k].courseId in cs }

  function CompletedOf(t: Tables, cs: set<int>): set<int>
  { set k | k in t.completed && t.completed[k].materialId in MaterialsOf(t, cs) }

  function TopicsOf(t: Tables, cs: set<int>): set<int>
  { set k | k in t.topics && t.topics[k].courseId in cs }

  function PostsOf(t: Tables, cs: set<int>): set<int>
  { set k | k in t.posts && t.posts[k].topicId in TopicsOf(t, cs) }

  function LikesOf(t: Tables, cs: set<int>): set<int>
  { set k | k in t.likes && t.likes[k].postId in PostsOf(t, cs) }

  /** The rows of the courses `cs` and of everything that depends on them;
      the user, student and teacher tables have none. */
  function Slice(t: Tables, cs: set<int>): Tables
  {
    Tables(
      map[], map[], map[],
      Restrict(t.courses, CoursesIn(t, cs)),
      Restrict(t.enrollments, EnrollmentsOf(t, cs)),
      Restrict(t.assignments, AssignmentsOf(t, cs)),
      Restrict(t.submissions, SubmissionsOf(t, cs)),
      Restrict(t.files, FilesOf(t, cs)),
      Restrict(t.quizzes, QuizzesOf(t, cs)),
      Restrict(t.questions, QuestionsOf(t, cs)),
      Restrict(t.options, OptionsOf(t, cs)),
      Restrict(t.quizSubmissions, QuizSubmissionsOf(t, cs)),
      Restrict(t.materials, MaterialsOf(t, cs)),
      Restrict(t.completed, CompletedOf(t, cs)),
      Restrict(t.topics, TopicsOf(t, cs)),
      Restrict(t.posts, PostsOf(t, cs)),
      Restrict(t.likes, LikesOf(t, cs)),
      t.nextId)
  }

  /** The tables after the courses `cs` and all their dependants are deleted. */
  function CoursesRemoved(t: Tables, cs: set<int>): Tables
  {
    t.(courses := Without(t.courses, CoursesIn(t, cs)),
       enrollments := Without(t.enrollments, EnrollmentsOf(t, cs)),
       assignments := Without(t.assignments, AssignmentsOf(t, cs)),
       submissions := Without(t.submissions, SubmissionsOf(t, cs)),
       files := Without(t.files, FilesOf(t, cs)),
       quizzes := Without(t.quizzes, QuizzesOf(t, cs)),
       questions := Without(t.questions, QuestionsOf(t, cs)),
       options := Without(t.options, OptionsOf(t, cs)),
       quizSubmissions := Without(t.quizSubmissions, QuizSubmissionsOf(t, cs)),
       materials := Without(t.materials, MaterialsOf(t, cs)),
       completed := Without(t.completed, CompletedOf(t, cs)),
       topics := Without(t.topics, TopicsOf(t, cs)),
       posts := Without(t.posts, PostsOf(t, cs)),
       likes := Without(t.likes, LikesOf(t, cs)))
  }

  /** The delete splits every table into the rows kept and the rows of the
      slice, so exactly the rows belonging to `cs` are removed; the users,
      students and teachers tables and the counter are untouched. */
  lemma {:induction false} RemovedSplitsTables(t: Tables, cs: set<int>)
    ensures var r := CoursesRemoved(t, cs); var s := Slice(t, cs);
      r.users == t.users && r.students == t.students && r.teachers == t.teachers
      && r.nextId == t.nextId
      && SplitInto(t.courses, r.courses, s.courses)
      && SplitInto(t.enrollments, r.enrollments, s.enrollments)
      && SplitInto(t.assignments, r.assignments, s.assignments)
      && SplitInto(t.submissions, r.submissions, s.submissions)
      && SplitInto(t.files, r.files, s.files)
      && SplitInto(t.quizzes, r.quizzes, s.quizzes)
      && SplitInto(t.questions, r.questions, s.questions)
      && SplitInto(t.options, r.options, s.options)
      && SplitInto(t.quizSubmissions, r.quizSubmissions, s.quizSubmissions)
      && SplitInto(t.materials, r.materials, s.materials)
      && SplitInto(t.completed, r.completed, s.completed)
      && SplitInto(t.topics, r.topics, s.topics)
      && SplitInto(t.posts, r.posts, s.posts)
      && SplitInto(t.likes, r.likes, s.likes)
  {
    SplitWithout(t.courses, CoursesIn(t, cs));
    SplitWithout(t.enrollments, EnrollmentsOf(t, cs));
    SplitWithout(t.assignments, AssignmentsOf(t, cs));
    SplitWithout(t.submissions, SubmissionsOf(t, cs));
    SplitWithout(t.files, FilesOf(t, cs));
    SplitWithout(t.quizzes, QuizzesOf(t, cs));
    SplitWithout(t.questions, QuestionsOf(t, cs));
    SplitWithout(t.options, OptionsOf(t, cs));
    SplitWithout(t.quizSubmissions, QuizSubmissionsOf(t, cs));
    SplitWithout(t.materials, MaterialsOf(t, cs));
    SplitWithout(t.completed, CompletedOf(t, cs));
    SplitWithout(t.topics, TopicsOf(t, cs));
    SplitWithout(t.posts, PostsOf(t, cs));
    SplitWithout(t.likes, LikesOf(t, cs));
  }

  lemma NoAssignmentRowsLeft(t: Tables, r: Tables, cs: set<int>)
    requires r.assignments == Without(t.assignments, AssignmentsOf(t, cs))
    ensures AssignmentsOf(r, cs) == {} && SubmissionsOf(r, cs) == {} && FilesOf(r, cs) == {}
  {
    assert AssignmentsOf(r, cs) == {};
  }

  lemma NoQuizRowsLeft(t: Tables, r: Tables, cs: set<int>)
    requires r.quizzes == Without(t.quizzes, QuizzesOf(t, cs))
    ensures QuizzesOf(r, cs) == {} && QuestionsOf(r, cs) == {} && OptionsOf(r, cs) == {}
      && QuizSubmissionsOf(r, cs) == {}
  {
    assert QuizzesOf(r, cs) == {};
    assert QuestionsOf(r, cs) == {};
  }

  lemma NoForumRowsLeft(t: Tables, r: Tables, cs: set<int>)
    requires r.topics == Without(t.topics, TopicsOf(t, cs))
    ensures TopicsOf(r, cs) == {} && PostsOf(r, cs) == {} && LikesOf(r, cs) == {}
  {
    assert TopicsOf(r, cs) == {};
    assert PostsOf(r, cs) == {};
  }

  lemma NoOtherRowsLeft(t: Tables, r: Tables, cs: set<int>)
    requires r.courses == Without(t.courses, CoursesIn(t, cs))
    requires r.enrollments == Without(t.enrollments, EnrollmentsOf(t, cs))
    requires r.materials == Without(t.materials, MaterialsOf(t, cs))
    ensures CoursesIn(r, cs) == {} && EnrollmentsOf(r, cs) == {}
      && MaterialsOf(r, cs) == {} && CompletedOf(r, cs) == {}
  {
    assert MaterialsOf(r, cs) == {};
  }

  /** Nothing of the deleted courses survives: the slice of the result is empty. */
  lemma {:induction false} RemovedLeavesNoRows(t: Tables, cs: set<int>)
    ensures Slice(CoursesRemoved(t, cs), cs)
      == Tables(map[], map[], map[], map[], map[], map[], map[], map[], map[],
                map[], map[], map[], map[], map[], map[], map[], map[], t.nextId)
  {
    var r := CoursesRemoved(t, cs);
    NoAssignmentRowsLeft(t, r, cs);
    NoQuizRowsLeft(t, r, cs);
    NoForumRowsLeft(t, r, cs);
    NoOtherRowsLeft(t, r, cs);
    RestrictNone(r.courses, CoursesIn(r, cs));
    RestrictNone(r.enrollments, EnrollmentsOf(r, cs));
    RestrictNone(r.assignments, AssignmentsOf(r, cs));
    RestrictNone(r.submissions, SubmissionsOf(r, cs));
    RestrictNone(r.files, FilesOf(r, cs));
    RestrictNone(r.quizzes, QuizzesOf(r, cs));
    RestrictNone(r.questions, QuestionsOf(r, cs));
    RestrictNone(r.options, OptionsOf(r, cs));
    RestrictNone(r.quizSubmissions, QuizSubmissionsOf(r, cs));
    RestrictNone(r.materials, MaterialsOf(r, cs));
    RestrictNone(r.completed, CompletedOf(r, cs));
    RestrictNone(r.topics, TopicsOf(r, cs));
    RestrictNone(r.posts, PostsOf(r, cs));
    RestrictNone(r.likes, LikesOf(r, cs));
  }

  // The footprint of other courses is the same before and after.

  lemma CourseFootprintKept(t: Tables, cs: set<int>, ds: set<int>)
    requires cs !! ds
    ensures var r := CoursesRemoved(t, cs);
      CoursesIn(r, ds) == CoursesIn(t, ds) && EnrollmentsOf(r, ds) == EnrollmentsOf(t, ds)
      && CoursesIn(t, cs) !! CoursesIn(t, ds) && EnrollmentsOf(t, cs) !! EnrollmentsOf(t, ds)
  {
  }

  lemma AssignmentFootprintKept(t: Tables, cs: set<int>, ds: set<int>)
    requires cs !! ds
    ensures var r := CoursesRemoved(t, cs);
      AssignmentsOf(r, ds) == AssignmentsOf(t, ds) && SubmissionsOf(r, ds) == SubmissionsOf(t, ds)
      && FilesOf(r, ds) == FilesOf(t, ds)
      && AssignmentsOf(t, cs) !! AssignmentsOf(t, ds) && SubmissionsOf(t, cs) !! SubmissionsOf(t, ds)
      && FilesOf(t, cs) !! FilesOf(t, ds)
  {
    var r := CoursesRemoved(t, cs);
    assert AssignmentsOf(r, ds) == AssignmentsOf(t, ds);
  }

  lemma QuizFootprintKept(t: Tables, cs: set<int>, ds: set<int>)
    requires cs !! ds
    ensures var r := CoursesRemoved(t, cs);
      QuizzesOf(r, ds) == QuizzesOf(t, ds) && QuestionsOf(r, ds) == QuestionsOf(t, ds)
      && OptionsOf(r, ds) == OptionsOf(t, ds) && QuizSubmissionsOf(r, ds) == QuizSubmissionsOf(t, ds)
      && QuizzesOf(t, cs) !! QuizzesOf(t, ds) && QuestionsOf(t, cs) !! QuestionsOf(t, ds)
      && OptionsOf(t, cs) !! OptionsOf(t, ds) && QuizSubmissionsOf(t, cs) !! QuizSubmissionsOf(t, ds)
  {
    var r := CoursesRemoved(t, cs);
    assert QuizzesOf(r, ds) == QuizzesOf(t, ds);
    assert QuestionsOf(r, ds) == QuestionsOf(t, ds);
  }

  lemma MaterialFootprintKept(t: Tables, cs: set<int>, ds: set<int>)
    requires cs !! ds
    ensures var r := CoursesRemoved(t, cs);
      MaterialsOf(r, ds) == MaterialsOf(t, ds) && CompletedOf(r, ds) == CompletedOf(t, ds)
      && MaterialsOf(t, cs) !! MaterialsOf(t, ds) && CompletedOf(t, cs) !! CompletedOf(t, ds)
  {
    var r := CoursesRemoved(t, cs);
    assert MaterialsOf(r, ds) == MaterialsOf(t, ds);
  }

  lemma ForumFootprintKept(t: Tables, cs: set<int>, ds: set<int>)
    requires cs !! ds
    ensures var r := CoursesRemoved(t, cs);
      TopicsOf(r, ds) == TopicsOf(t, ds) && PostsOf(r, ds) == PostsOf(t, ds)
      && LikesOf(r, ds) == LikesOf(t, ds)
      && TopicsOf(t, cs) !! TopicsOf(t, ds) && PostsOf(t, cs) !! PostsOf(t, ds)
      && LikesOf(t, cs) !! LikesOf(t, ds)
  {
    var r := CoursesRemoved(t, cs);
    assert TopicsOf(r, ds) == TopicsOf(t, ds);
    assert PostsOf(r, ds) == PostsOf(t, ds);
  }

  /** Rows belonging to other courses are unchanged by the delete. */
  lemma {:induction false} RemovedKeepsOtherCourses(t: Tables, cs: set<int>, ds: set<int>)
    requires cs !! ds
    ensures Slice(CoursesRemoved(t, cs), ds) == Slice(t, ds)
  {
    CourseFootprintKept(t, cs, ds);
    AssignmentFootprintKept(t, cs, ds);
    QuizFootprintKept(t, cs, ds);
    MaterialFootprintKept(t, cs, ds);
    ForumFootprintKept(t, cs, ds);
    RestrictWithout(t.courses, CoursesIn(t, cs), CoursesIn(t, ds));
    RestrictWithout(t.enrollments, EnrollmentsOf(t, cs), EnrollmentsOf(t, ds));
    RestrictWithout(t.assignments, AssignmentsOf(t, cs), AssignmentsOf(t, ds));
    RestrictWithout(t.submissions, SubmissionsOf(t, cs), SubmissionsOf(t, ds));
    RestrictWithout(t.files, FilesOf(t, cs), FilesOf(t, ds));
    RestrictWithout(t.quizzes, QuizzesOf(t, cs), QuizzesOf(t, ds));
    RestrictWithout(t.questions, QuestionsOf(t, cs), QuestionsOf(t, ds));
    RestrictWithout(t.options, OptionsOf(t, cs), OptionsOf(t, ds));
    RestrictWithout(t.quizSubmissions, QuizSubmissionsOf(t, cs), QuizSubmissionsOf(t, ds));
    RestrictWithout(t.materials, MaterialsOf(t, cs), MaterialsOf(t, ds));
    RestrictWithout(t.completed, CompletedOf(t, cs), CompletedOf(t, ds));
    RestrictWithout(t.topics, TopicsOf(t, cs), TopicsOf(t, ds));
    RestrictWithout(t.posts, PostsOf(t, cs), PostsOf(t, ds));
    RestrictWithout(t.likes, LikesOf(t, cs), LikesOf(t, ds));
  }

  // Removing courses one group after another is removing their union.

  lemma CourseFootprintUnion(t: Tables, s1: set<int>, s2: set<int>)
    ensures var r := CoursesRemoved(t, s1);
      CoursesIn(t, s1 + s2) == CoursesIn(t, s1) + CoursesIn(r, s2)
      && EnrollmentsOf(t, s1 + s2) == EnrollmentsOf(t, s1) + EnrollmentsOf(r, s2)
  {
  }

  lemma AssignmentFootprintUnion(t: Tables, r: Tables, s1: set<int>, s2: set<int>)
    requires r.assignments == Without(t.assignments, AssignmentsOf(t, s1))
    requires r.submissions == Without(t.submissions, SubmissionsOf(t, s1))
    requires r.files == Without(t.files, FilesOf(t, s1))
    ensures AssignmentsOf(t, s1 + s2) == AssignmentsOf(t, s1) + AssignmentsOf(r, s2)
      && SubmissionsOf(t, s1 + s2) == SubmissionsOf(t, s1) + SubmissionsOf(r, s2)
      && FilesOf(t, s1 + s2) == FilesOf(t, s1) + FilesOf(r, s2)
  {
    AssignmentsUnion(t, r, s1, s2);
    SubmissionsUnion(t, r, s1, s2);
    FilesUnion(t, r, s1, s2);
  }

  lemma AssignmentsUnion(t: Tables, r: Tables, s1: set<int>, s2: set<int>)
    requires r.assignments == Without(t.assignments, AssignmentsOf(t, s1))
    ensures AssignmentsOf(t, s1 + s2) == AssignmentsOf(t, s1) + AssignmentsOf(r, s2)
  {
    assert AssignmentsOf(t, s1 + s2) == AssignmentsOf(t, s1) + AssignmentsOf(r, s2);
  }

  lemma SubmissionsUnion(t: Tables, r: Tables, s1: set<int>, s2: set<int>)
    requires r.assignments == Without(t.assignments, AssignmentsOf(t, s1))
    requires r.submissions == Without(t.submissions, SubmissionsOf(t, s1))
    requires AssignmentsOf(t, s1 + s2) == AssignmentsOf(t, s1) + AssignmentsOf(r, s2)
    ensures SubmissionsOf(t, s1 + s2) == SubmissionsOf(t, s1) + SubmissionsOf(r, s2)
  {
    assert SubmissionsOf(t, s1 + s2) == SubmissionsOf(t, s1) + SubmissionsOf(r, s2);
  }

  lemma FilesUnion(t: Tables, r: Tables, s1: set<int>, s2: set<int>)
    requires r.assignments == Without(t.assignments, AssignmentsOf(t, s1))
    requires r.files == Without(t.files, FilesOf(t, s1))
    requires AssignmentsOf(t, s1 + s2) == AssignmentsOf(t, s1) + AssignmentsOf(r, s2)
    ensures FilesOf(t, s1 + s2) == FilesOf(t, s1) + FilesOf(r, s2)
  {
    assert FilesOf(t, s1 + s2) == FilesOf(t, s1) + FilesOf(r, s2);
  }

  lemma QuizFootprintUnion(t: Tables, r: Tables, s1: set<int>, s2: set<int>)
    requires r.quizzes == Without(t.quizzes, QuizzesOf(t, s1))
    requires r.questions == Without(t.questions, QuestionsOf(t, s1))
    ensures QuizzesOf(t, s1 + s2) == QuizzesOf(t, s1) + QuizzesOf(r, s2)
      && QuestionsOf(t, s1 + s2) == QuestionsOf(t, s1) + QuestionsOf(r, s2)
  {
    assert QuizzesOf(t, s1 + s2) == QuizzesOf(t, s1) + QuizzesOf(r, s2);
  }

  lemma QuizLeafFootprintUnion(t: Tables, r: Tables, s1: set<int>, s2: set<int>)
    requires r.options == Without(t.options, OptionsOf(t, s1))
    requires r.quizSubmissions == Without(t.quizSubmissions, QuizSubmissionsOf(t, s1))
    requires QuizzesOf(t, s1 + s2) == QuizzesOf(t, s1) + QuizzesOf(r, s2)
    requires QuestionsOf(t, s1 + s2) == QuestionsOf(t, s1) + QuestionsOf(r, s2)
    ensures OptionsOf(t, s1 + s2) == OptionsOf(t, s1) + OptionsOf(r, s2)
      && QuizSubmissionsOf(t, s1 + s2) == QuizSubmissionsOf(t, s1) + QuizSubmissionsOf(r, s2)
  {
  }

  lemma MaterialFootprintUnion(t: Tables, r: Tables, s1: set<int>, s2: set<int>)
    requires r.materials == Without(t.materials, MaterialsOf(t, s1))
    requires r.completed == Without(t.completed, CompletedOf(t, s1))
    ensures MaterialsOf(t, s1 + s2) == MaterialsOf(t, s1) + MaterialsOf(r, s2)
      && CompletedOf(t, s1 + s2) == CompletedOf(t, s1) + CompletedOf(r, s2)
  {
    assert MaterialsOf(t, s1 + s2) == MaterialsOf(t, s1) + MaterialsOf(r, s2);
  }

  lemma ForumFootprintUnion(t: Tables, r: Tables, s1: set<int>, s2: set<int>)
    requires r.topics == Without(t.topics, TopicsOf(t, s1))
    requires r.posts == Without(t.posts, PostsOf(t, s1))
    ensures TopicsOf(t, s1 + s2) == TopicsOf(t, s1) + TopicsOf(r, s2)
      && PostsOf(t, s1 + s2) == PostsOf(t, s1) + PostsOf(r, s2)
  {
    assert TopicsOf(t, s1 + s2) == TopicsOf(t, s1) + TopicsOf(r, s2);
  }

  lemma LikeFootprintUnion(t: Tables, r: Tables, s1: set<int>, s2: set<int>)
    requires r.likes == Without(t.likes, LikesOf(t, s1))
    requires PostsOf(t, s1 + s2) == PostsOf(t, s1) + PostsOf(r, s2)
    ensures LikesOf(t, s1 + s2) == LikesOf(t, s1) + LikesOf(r, s2)
  {
  }

  /** Deleting `s1` and then `s2` is deleting `s1 + s2`; so the order in which
      a teacher's courses are deleted does not matter. */
  lemma {:induction false} RemovedCompose(t: Tables, s1: set<int>, s2: set<int>)
    ensures CoursesRemoved(CoursesRemoved(t, s1), s2) == CoursesRemoved(t, s1 + s2)
  {
    var r := CoursesRemoved(t, s1);
    CourseFootprintUnion(t, s1, s2);
    AssignmentFootprintUnion(t, r, s1, s2);
    QuizFootprintUnion(t, r, s1, s2);
    QuizLeafFootprintUnion(t, r, s1, s2);
    MaterialFootprintUnion(t, r, s1, s2);
    ForumFootprintUnion(t, r, s1, s2);
    LikeFootprintUnion(t, r, s1, s2);
    WithoutTwice(t.courses, CoursesIn(t, s1), CoursesIn(r, s2), CoursesIn(t, s1 + s2));
    WithoutTwice(t.enrollments, EnrollmentsOf(t, s1), EnrollmentsOf(r, s2), EnrollmentsOf(t, s1 + s2));
    WithoutTwice(t.assignments, AssignmentsOf(t, s1), AssignmentsOf(r, s2), AssignmentsOf(t, s1 + s2));
    WithoutTwice(t.submissions, SubmissionsOf(t, s1), SubmissionsOf(r, s2), SubmissionsOf(t, s1 + s2));
    WithoutTwice(t.files, FilesOf(t, s1), FilesOf(r, s2), FilesOf(t, s1 + s2));
    WithoutTwice(t.quizzes, QuizzesOf(t, s1), QuizzesOf(r, s2), QuizzesOf(t, s1 + s2));
    WithoutTwice(t.questions, QuestionsOf(t, s1), QuestionsOf(r, s2), QuestionsOf(t, s1 + s2));
    WithoutTwice(t.options, OptionsOf(t, s1), OptionsOf(r, s2), OptionsOf(t, s1 + s2));
    WithoutTwice(t.quizSubmissions, QuizSubmissionsOf(t, s1), QuizSubmissionsOf(r, s2), QuizSubmissionsOf(t, s1 + s2));
    WithoutTwice(t.materials, MaterialsOf(t, s1), MaterialsOf(r, s2), MaterialsOf(t, s1 + s2));
    WithoutTwice(t.completed, CompletedOf(t, s1), CompletedOf(r, s2), CompletedOf(t, s1 + s2));
    WithoutTwice(t.topics, TopicsOf(t, s1), TopicsOf(r, s2), TopicsOf(t, s1 + s2));
    WithoutTwice(t.posts, PostsOf(t, s1), PostsOf(r, s2), PostsOf(t, s1 + s2));
    WithoutTwice(t.likes, LikesOf(t, s1), LikesOf(r, s2), LikesOf(t, s1 + s2));
  }

  // Children go with their parents, so no surviving row is left dangling.

  lemma RemovedUpperRefs(t: Tables, cs: set<int>)
    requires Integrity(t)
    ensures var r := CoursesRemoved(t, cs);
      StudentsRefOk(r) && TeachersRefOk(r) && CoursesRefOk(r) && EnrollmentsRefOk(r)
      && AssignmentsRefOk(r) && QuizzesRefOk(r) && MaterialsRefOk(r) && TopicsRefOk(r)
  {
  }

  lemma RemovedAssignmentRefs(t: Tables, cs: set<int>)
    requires Integrity(t)
    ensures var r := CoursesRemoved(t, cs);
      SubmissionsRefOk(r) && FilesRefOk(r)
  {
    var r := CoursesRemoved(t, cs);
    var A := AssignmentsOf(t, cs);
    forall k | k in r.submissions
      ensures r.submissions[k].studentId in r.students && r.submissions[k].assignmentId in r.assignments
    {
      var a := t.submissions[k].assignmentId;
      assert a !in A && a in t.assignments;
    }
    forall k | k in r.files ensures r.files[k].assignmentId in r.assignments {
      var a := t.files[k].assignmentId;
      assert a !in A && a in t.assignments;
    }
  }

  lemma RemovedQuizRefs(t: Tables, cs: set<int>)
    requires Integrity(t)
    ensures var r := CoursesRemoved(t, cs);
      QuestionsRefOk(r) && OptionsRefOk(r) && QuizSubmissionsRefOk(r)
  {
    var r := CoursesRemoved(t, cs);
    var Q := QuizzesOf(t, cs);
    var QQ := QuestionsOf(t, cs);
    forall k | k in r.questions ensures r.questions[k].quizId in r.quizzes {
      var q := t.questions[k].quizId;
      assert q !in Q && q in t.quizzes;
    }
    forall k | k in r.options ensures r.options[k].questionId in r.questions {
      var q := t.options[k].questionId;
      assert q !in QQ && q in t.questions;
    }
    forall k | k in r.quizSubmissions
      ensures r.quizSubmissions[k].studentId in r.students && r.quizSubmissions[k].quizId in r.quizzes
    {
      var q := t.quizSubmissions[k].quizId;
      assert q !in Q && q in t.quizzes;
    }
  }

  lemma RemovedMaterialRefs(t: Tables, cs: set<int>)
    requires Integrity(t)
    ensures CompletedRefOk(CoursesRemoved(t, cs))
  {
    var r := CoursesRemoved(t, cs);
    var M := MaterialsOf(t, cs);
    forall k | k in r.completed
      ensures r.completed[k].studentId in r.students && r.completed[k].materialId in r.materials
    {
      var m := t.completed[k].materialId;
      assert m !in M && m in t.materials;
    }
  }

  lemma RemovedForumRefs(t: Tables, cs: set<int>)
    requires Integrity(t)
    ensures var r := CoursesRemoved(t, cs);
      PostsRefOk(r) && LikesRefOk(r)
  {
    var r := CoursesRemoved(t, cs);
    var TP := TopicsOf(t, cs);
    var P := PostsOf(t, cs);
    forall k | k in r.posts
      ensures r.posts[k].topicId in r.topics && r.posts[k].userId in r.users
      ensures r.posts[k].parentId.Some? ==>
            r.posts[k].parentId.value in r.posts
            && r.posts[r.posts[k].parentId.value].topicId == r.posts[k].topicId
    {
      var tp := t.posts[k].topicId;
      assert tp !in TP && tp in t.topics;
      if t.posts[k].parentId.Some? {
        var p := t.posts[k].parentId.value;
        assert p in t.posts && t.posts[p].topicId == tp;
      }
    }
    forall k | k in r.likes ensures r.likes[k].postId in r.posts && r.likes[k].userId in r.users {
      var p := t.likes[k].postId;
      assert p !in P && p in t.posts;
    }
  }

  lemma EmptyUpperFootprints(t: Tables, e: set<int>)
    requires e == {}
    ensures CoursesIn(t, e) == {} && EnrollmentsOf(t, e) == {} && AssignmentsOf(t, e) == {}
      && SubmissionsOf(t, e) == {} && FilesOf(t, e) == {}
  {
    assert AssignmentsOf(t, e) == {};
  }

  lemma EmptyQuizFootprints(t: Tables, e: set<int>)
    requires e == {}
    ensures QuizzesOf(t, e) == {} && QuestionsOf(t, e) == {} && OptionsOf(t, e) == {}
      && QuizSubmissionsOf(t, e) == {}
  {
    assert QuizzesOf(t, e) == {};
    assert QuestionsOf(t, e) == {};
  }

  lemma EmptyLowerFootprints(t: Tables, e: set<int>)
    requires e == {}
    ensures MaterialsOf(t, e) == {} && CompletedOf(t, e) == {} && TopicsOf(t, e) == {}
      && PostsOf(t, e) == {} && LikesOf(t, e) == {}
  {
    assert MaterialsOf(t, e) == {} && TopicsOf(t, e) == {};
    assert PostsOf(t, e) == {};
  }

  /** Removing no course changes nothing. */
  lemma {:induction false} RemovedNothing(t: Tables)
    ensures CoursesRemoved(t, {}) == t
  {
    var e: set<int> := {};
    EmptyUpperFootprints(t, e);
    EmptyQuizFootprints(t, e);
    EmptyLowerFootprints(t, e);
    WithoutNone(t.courses, CoursesIn(t, e));
    WithoutNone(t.enrollments, EnrollmentsOf(t, e));
    WithoutNone(t.assignments, AssignmentsOf(t, e));
    WithoutNone(t.submissions, SubmissionsOf(t, e));
    WithoutNone(t.files, FilesOf(t, e));
    WithoutNone(t.quizzes, QuizzesOf(t, e));
    WithoutNone(t.questions, QuestionsOf(t, e));
    WithoutNone(t.options, OptionsOf(t, e));
    WithoutNone(t.quizSubmissions, QuizSubmissionsOf(t, e));
    WithoutNone(t.materials, MaterialsOf(t, e));
    WithoutNone(t.completed, CompletedOf(t, e));
    WithoutNone(t.topics, TopicsOf(t, e));
    WithoutNone(t.posts, PostsOf(t, e));
    WithoutNone(t.likes, LikesOf(t, e));
  }

  /** The cascade keeps referential integrity. */
  lemma {:induction false} RemovedKeepsIntegrity(t: Tables, cs: set<int>)
    requires Integrity(t)
    ensures Integrity(CoursesRemoved(t, cs))
  {
    RemovedUpperRefs(t, cs);
    RemovedAssignmentRefs(t, cs);
    RemovedQuizRefs(t, cs);
    RemovedMaterialRefs(t, cs);
    RemovedForumRefs(t, cs);
  }

  /** The cascade keeps fresh ids and the unique columns. */
  lemma {:induction false} RemovedKeepsWellFormed(t: Tables, cs: set<int>)
    requires WellFormed(t)
    ensures WellFormed(CoursesRemoved(t, cs))
  {
    var r := CoursesRemoved(t, cs);
    assert IdsBelow(r);
  }
}
