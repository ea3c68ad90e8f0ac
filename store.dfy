/** The database as a mutable object: one field per table, updated in place
    by the handlers, plus the shared auto-increment counter. `T()` reads the
    whole state as a `Tables` value so that contracts can speak about it. */
module StoreModule {
  import opened Common
  import opened Schema

  class Store {
    var users: map<int, User>
    var students: map<int, StudentRow>
    var teachers: map<int, TeacherRow>
    var courses: map<int, Course>
    var enrollments: map<int, Enrollment>
    var assignments: map<int, Assignment>
    var submissions: map<int, Submission>
    var files: map<int, AssignmentFile>
    var quizzes: map<int, Quiz>
    var questions: map<int, Question>
    var options: map<int, QuestionOption>
    var quizSubmissions: map<int, QuizSubmission>
    var materials: map<int, Material>
    var completed: map<int, Completed>
    var topics: map<int, ForumTopic>
    var posts: map<int, ForumPost>
    var likes: map<int, ForumLike>
    var nextId: int

    /** The current contents of every table. */
    function T(): Tables
      reads this
    {
      Tables(users, students, teachers, courses, enrollments, assignments, submissions,
             files, quizzes, questions, options, quizSubmissions, materials, completed,
             topics, posts, likes, nextId)
    }

    predicate Valid()
      reads this
    {
      WellFormed(T())
    }

    /** An empty database. */
    constructor()
      ensures Valid() && Integrity(T())
      ensures T() == Tables(map[], map[], map[], map[], map[], map[], map[], map[], map[],
                            map[], map[], map[], map[], map[], map[], map[], map[], 1)
    {
      users, students, teachers, courses := map[], map[], map[], map[];
      enrollments, assignments, submissions, files := map[], map[], map[], map[];
      quizzes, questions, options, quizSubmissions := map[], map[], map[], map[];
      materials, completed, topics, posts, likes := map[], map[], map[], map[], map[];
      nextId := 1;
    }

    /** `SELECT id FROM students WHERE user_id = :uid`, first row. */
    method LookupStudent(uid: int) returns (r: Option<int>)
      requires Valid()
      ensures r == StudentOf(T(), uid)
    {
      if exists k :: k in students && students[k].userId == uid {
        var k :| k in students && students[k].userId == uid;
        StudentOfUnique(T(), uid, k);
        r := Some(k);
      } else {
        r := None;
      }
    }

    /** `SELECT id FROM teachers WHERE user_id = :uid`, first row. */
    method LookupTeacher(uid: int) returns (r: Option<int>)
      requires Valid()
      ensures r == TeacherOf(T(), uid)
    {
      if exists k :: k in teachers && teachers[k].userId == uid {
        var k :| k in teachers && teachers[k].userId == uid;
        TeacherOfUnique(T(), uid, k);
        r := Some(k);
      } else {
        r := None;
      }
    }

    /** The teachers row joined to the users row with this email and role teacher. */
    method LookupTeacherByEmail(email: string) returns (r: Option<int>)
      requires Valid()
      ensures r == TeacherByEmail(T(), email)
    {
      if exists k :: k in teachers && IsTeacherWithEmail(T(), k, email) {
        var k :| k in teachers && IsTeacherWithEmail(T(), k, email);
        TeacherByEmailUnique(T(), email, k);
        r := Some(k);
      } else {
        r := None;
      }
    }
  }
}
