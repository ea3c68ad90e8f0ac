/** The relational store of the platform: one record type per table, the
    tables as maps from row id to row, and the constraints the handlers rely
    on (fresh ids, unique columns, and foreign keys). */
module Schema {
  import opened Common

  datatype User = User(email: string, password: string, role: Role,
                       firstName: string, lastName: string, isActive: bool)

  /** `first_name . ' ' . last_name`, as every endpoint that shows a name builds it. */
  function FullName(u: User): string
  {
    u.firstName + " " + u.lastName
  }

  datatype StudentRow = StudentRow(userId: int, studentCard: string, year: string)

  datatype TeacherRow = TeacherRow(userId: int, specialty: string, grade: Option<string>,
                                   phone: Option<string>, bio: Option<string>)

  datatype Course = Course(teacherId: int, title: string, description: string, category: string,
                           requiresKey: bool, enrollmentKey: Option<string>,
                           maxEnrollments: int, isPublic: bool, createdAt: int)

  datatype Enrollment = Enrollment(studentId: int, courseId: int, keyUsed: Option<string>,
                                   status: EnrollmentStatus)

  datatype Assignment = Assignment(courseId: int, title: string, description: Option<string>,
                                   dueDate: Option<string>, maxPoints: int)

  /** An assignment submission; `gradedAt` and `submittedAt` are clock values. */
  datatype Submission = Submission(studentId: int, assignmentId: int, text: Option<string>,
                                   status: SubmissionStatus, grade: Option<real>,
                                   submittedAt: int, gradedAt: Option<int>)

  /** A teacher's attachment to an assignment. */
  datatype AssignmentFile = AssignmentFile(assignmentId: int, fileName: string)

  datatype Quiz = Quiz(courseId: int, title: string, description: Option<string>,
                       quizType: QuizType, timeLimit: int, passingScore: int, isPublished: bool)

  datatype Question = Question(quizId: int, text: string, qtype: QuestionType, points: int,
                               explanation: Option<string>, orderIndex: int)

  datatype QuestionOption = QuestionOption(questionId: int, text: string, isCorrect: bool)

  /** A submitted answer: one option id, a list of option ids, or free text. */
  datatype Answer = One(choice: int) | Many(choices: seq<int>) | FreeText(text: string)

  datatype QuizSubmission = QuizSubmission(studentId: int, quizId: int, answers: map<int, Answer>,
                                           score: real, timeTaken: int,
                                           status: SubmissionStatus, submittedAt: int)

  datatype Material = Material(courseId: int, title: string, fileType: string, filePath: string,
                               fileSize: int, isPublished: bool)

  datatype Completed = Completed(studentId: int, materialId: int)

  datatype ForumTopic = ForumTopic(courseId: int, userId: int)

  /** A forum post; a reply names its parent post. */
  datatype ForumPost = ForumPost(topicId: int, userId: int, parentId: Option<int>)

  datatype ForumLike = ForumLike(postId: int, userId: int)

  /** Every table, keyed by row id, and the auto-increment counter. */
  datatype Tables = Tables(
    users: map<int, User>,
    students: map<int, StudentRow>,
    teachers: map<int, TeacherRow>,
    courses: map<int, Course>,
    enrollments: map<int, Enrollment>,
    assignments: map<int, Assignment>,
    submissions: map<int, Submission>,
    files: map<int, AssignmentFile>,
    quizzes: map<int, Quiz>,
    questions: map<int, Question>,
    options: map<int, QuestionOption>,
    quizSubmissions: map<int, QuizSubmission>,
    materials: map<int, Material>,
    completed: map<int, Completed>,
    topics: map<int, ForumTopic>,
    posts: map<int, ForumPost>,
    likes: map<int, ForumLike>,
    nextId: int)

  /** Every key of a table is positive and below `n`. */
  predicate Below<V>(m: map<int, V>, n: int)
  {
    forall k :: k in m ==> 1 <= k < n
  }

  /** Every id in use is positive and below the counter, so the counter is fresh. */
  predicate IdsBelow(t: Tables)
  {
    t.nextId >= 1
    && Below(t.users, t.nextId)
    && Below(t.students, t.nextId)
    && Below(t.teachers, t.nextId)
    && Below(t.courses, t.nextId)
    && Below(t.enrollments, t.nextId)
    && Below(t.assignments, t.nextId)
    && Below(t.submissions, t.nextId)
    && Below(t.files, t.nextId)
    && Below(t.quizzes, t.nextId)
    && Below(t.questions, t.nextId)
    && Below(t.options, t.nextId)
    && Below(t.quizSubmissions, t.nextId)
    && Below(t.materials, t.nextId)
    && Below(t.completed, t.nextId)
    && Below(t.topics, t.nextId)
    && Below(t.posts, t.nextId)
    && Below(t.likes, t.nextId)
  }

  /** users.email is unique. */
  predicate UniqueEmails(t: Tables)
  {
    EmailsUnique(t.users)
  }

  predicate EmailsUnique(users: map<int, User>)
  {
    forall a, b :: a in users && b in users && users[a].email == users[b].email ==> a == b
  }

  /** A user has at most one students row and at most one teachers row, and
      student cards are unique. */
  predicate UniqueRoleRows(t: Tables)
  {
    StudentRowsUnique(t.students) && TeacherRowsUnique(t.teachers)
  }

  predicate StudentRowsUnique(students: map<int, StudentRow>)
  {
    (forall a, b :: a in students && b in students && students[a].userId == students[b].userId ==> a == b)
    && (forall a, b :: a in students && b in students && students[a].studentCard == students[b].studentCard ==> a == b)
  }

  predicate TeacherRowsUnique(teachers: map<int, TeacherRow>)
  {
    forall a, b :: a in teachers && b in teachers && teachers[a].userId == teachers[b].userId ==> a == b
  }

  /** The invariant the enrollment endpoint keeps: at most one enrollment per
      (student, course). */
  predicate OneEnrollmentPerPair(t: Tables)
  {
    forall a, b ::
      (a in t.enrollments && b in t.enrollments
       && t.enrollments[a].studentId == t.enrollments[b].studentId
       && t.enrollments[a].courseId == t.enrollments[b].courseId) ==> a == b
  }

  /** The constraints every handler may assume and must keep. */
  predicate WellFormed(t: Tables)
  {
    IdsBelow(t) && UniqueEmails(t) && UniqueRoleRows(t)
  }

  // Foreign keys, one predicate per referencing table. Each is stated on
  // the referencing table and the key sets it points into, so that a
  // change elsewhere leaves it untouched.

  predicate StudentsRefOk(t: Tables)
  { StudentRefs(t.students, t.users.Keys) }

  predicate StudentRefs(students: map<int, StudentRow>, users: set<int>)
  { forall k :: k in students ==> students[k].userId in users }

  predicate TeachersRefOk(t: Tables)
  { TeacherRefs(t.teachers, t.users.Keys) }

  predicate TeacherRefs(teachers: map<int, TeacherRow>, users: set<int>)
  { forall k :: k in teachers ==> teachers[k].userId in users }

  predicate CoursesRefOk(t: Tables)
  { CourseRefs(t.courses, t.teachers.Keys) }

  predicate CourseRefs(courses: map<int, Course>, teachers: set<int>)
  { forall k :: k in courses ==> courses[k].teacherId in teachers }

  predicate EnrollmentsRefOk(t: Tables)
  { EnrollmentRefs(t.enrollments, t.students.Keys, t.courses.Keys) }

  predicate EnrollmentRefs(enrollments: map<int, Enrollment>, students: set<int>, courses: set<int>)
  {
    forall k :: k in enrollments ==> enrollments[k].studentId in students && enrollments[k].courseId in courses
  }

  predicate AssignmentsRefOk(t: Tables)
  { AssignmentRefs(t.assignments, t.courses.Keys) }

  predicate AssignmentRefs(assignments: map<int, Assignment>, courses: set<int>)
  { forall k :: k in assignments ==> assignments[k].courseId in courses }

  predicate SubmissionsRefOk(t: Tables)
  { SubmissionRefs(t.submissions, t.students.Keys, t.assignments.Keys) }

  predicate SubmissionRefs(submissions: map<int, Submission>, students: set<int>, assignments: set<int>)
  {
    forall k :: k in submissions ==> submissions[k].studentId in students && submissions[k].assignmentId in assignments
  }

  predicate FilesRefOk(t: Tables)
  { FileRefs(t.files, t.assignments.Keys) }

  predicate FileRefs(files: map<int, AssignmentFile>, assignments: set<int>)
  { forall k :: k in files ==> files[k].assignmentId in assignments }

  predicate QuizzesRefOk(t: Tables)
  { QuizRefs(t.quizzes, t.courses.Keys) }

  predicate QuizRefs(quizzes: map<int, Quiz>, courses: set<int>)
  { forall k :: k in quizzes ==> quizzes[k].courseId in courses }

  predicate QuestionsRefOk(t: Tables)
  { QuestionRefs(t.questions, t.quizzes.Keys) }

  predicate QuestionRefs(questions: map<int, Question>, quizzes: set<int>)
  { forall k :: k in questions ==> questions[k].quizId in quizzes }

  predicate OptionsRefOk(t: Tables)
  { OptionRefs(t.options, t.questions.Keys) }

  predicate OptionRefs(options: map<int, QuestionOption>, questions: set<int>)
  { forall k :: k in options ==> options[k].questionId in questions }

  predicate QuizSubmissionsRefOk(t: Tables)
  { QuizSubmissionRefs(t.quizSubmissions, t.students.Keys, t.quizzes.Keys) }

  predicate QuizSubmissionRefs(subs: map<int, QuizSubmission>, students: set<int>, quizzes: set<int>)
  {
    forall k :: k in subs ==> subs[k].studentId in students && subs[k].quizId in quizzes
  }

  predicate MaterialsRefOk(t: Tables)
  { MaterialRefs(t.materials, t.courses.Keys) }

  predicate MaterialRefs(materials: map<int, Material>, courses: set<int>)
  { forall k :: k in materials ==> materials[k].courseId in courses }

  predicate CompletedRefOk(t: Tables)
  { CompletedRefs(t.completed, t.students.Keys, t.materials.Keys) }

  predicate CompletedRefs(completed: map<int, Completed>, students: set<int>, materials: set<int>)
  {
    forall k :: k in completed ==> completed[k].studentId in students && completed[k].materialId in materials
  }

  predicate TopicsRefOk(t: Tables)
  { TopicRefs(t.topics, t.courses.Keys, t.users.Keys) }

  predicate TopicRefs(topics: map<int, ForumTopic>, courses: set<int>, users: set<int>)
  {
    forall k :: k in topics ==> topics[k].courseId in courses && topics[k].userId in users
  }

  /** A post's topic and author exist, and a reply's parent is a post of the same topic. */
  predicate PostsRefOk(t: Tables)
  { PostRefs(t.posts, t.topics.Keys, t.users.Keys) }

  predicate PostRefs(posts: map<int, ForumPost>, topics: set<int>, users: set<int>)
  {
    forall k :: k in posts ==>
      posts[k].topicId in topics && posts[k].userId in users
      && (posts[k].parentId.Some? ==>
            posts[k].parentId.value in posts
            && posts[posts[k].parentId.value].topicId == posts[k].topicId)
  }

  predicate LikesRefOk(t: Tables)
  { LikeRefs(t.likes, t.posts.Keys, t.users.Keys) }

  predicate LikeRefs(likes: map<int, ForumLike>, posts: set<int>, users: set<int>)
  {
    forall k :: k in likes ==> likes[k].postId in posts && likes[k].userId in users
  }

  /** Referential integrity: no row references a missing row. */
  predicate Integrity(t: Tables)
  {
    StudentsRefOk(t) && TeachersRefOk(t) && CoursesRefOk(t) && EnrollmentsRefOk(t)
    && AssignmentsRefOk(t) && SubmissionsRefOk(t) && FilesRefOk(t) && QuizzesRefOk(t)
    && QuestionsRefOk(t) && OptionsRefOk(t) && QuizSubmissionsRefOk(t) && MaterialsRefOk(t)
    && CompletedRefOk(t) && TopicsRefOk(t) && PostsRefOk(t) && LikesRefOk(t)
  }

  // Lookups the handlers perform, as functions of the tables.

  /** The course `cid` is owned by the teachers row `tid`. */
  predicate Owns(t: Tables, tid: int, cid: int)
  {
    cid in t.courses && t.courses[cid].teacherId == tid
  }

  /** `SELECT id FROM students WHERE user_id = :uid`. */
  ghost function StudentOf(t: Tables, uid: int): (r: Option<int>)
    ensures r.Some? ==> r.value in t.students && t.students[r.value].userId == uid
    ensures r.None? ==> forall k :: k in t.students ==> t.students[k].userId != uid
  {
    if exists k :: k in t.students && t.students[k].userId == uid then
      var k :| k in t.students && t.students[k].userId == uid; Some(k)
    else None
  }

  /** `SELECT id FROM teachers WHERE user_id = :uid`. */
  ghost function TeacherOf(t: Tables, uid: int): (r: Option<int>)
    ensures r.Some? ==> r.value in t.teachers && t.teachers[r.value].userId == uid
    ensures r.None? ==> forall k :: k in t.teachers ==> t.teachers[k].userId != uid
  {
    if exists k :: k in t.teachers && t.teachers[k].userId == uid then
      var k :| k in t.teachers && t.teachers[k].userId == uid; Some(k)
    else None
  }

  /** A teachers row joined to a users row with this email and role teacher. */
  predicate IsTeacherWithEmail(t: Tables, k: int, email: string)
  {
    k in t.teachers && t.teachers[k].userId in t.users
    && t.users[t.teachers[k].userId].email == email
    && t.users[t.teachers[k].userId].role == Teacher
  }

  /** `SELECT t.id FROM users u JOIN teachers t ON u.id = t.user_id
      WHERE u.email = :email AND u.role = 'teacher'`. */
  ghost function TeacherByEmail(t: Tables, email: string): (r: Option<int>)
    ensures r.Some? ==> IsTeacherWithEmail(t, r.value, email)
    ensures r.None? ==> forall k :: !IsTeacherWithEmail(t, k, email)
  {
    if exists k :: IsTeacherWithEmail(t, k, email) then
      var k :| IsTeacherWithEmail(t, k, email); Some(k)
    else None
  }

  lemma StudentOfUnique(t: Tables, uid: int, k: int)
    requires WellFormed(t) && k in t.students && t.students[k].userId == uid
    ensures StudentOf(t, uid) == Some(k)
  {
  }

  lemma TeacherOfUnique(t: Tables, uid: int, k: int)
    requires WellFormed(t) && k in t.teachers && t.teachers[k].userId == uid
    ensures TeacherOf(t, uid) == Some(k)
  {
  }

  lemma TeacherByEmailUnique(t: Tables, email: string, k: int)
    requires WellFormed(t) && IsTeacherWithEmail(t, k, email)
    ensures TeacherByEmail(t, email) == Some(k)
  {
    var j := TeacherByEmail(t, email).value;
    assert t.teachers[j].userId == t.teachers[k].userId;
  }
}
