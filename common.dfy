/** Shared vocabulary of the platform: optional values, the JSON response
    envelope reduced to its HTTP code and status, the request context, and the
    role, status and type constants of the application. */
module Common {

  datatype Option<+T> = None | Some(value: T)

  /** The `status` field of the JSON response; `NoBody` for the empty
      answer to a CORS preflight. */
  datatype Status = Success | Error | Warning | NoBody

  /** One JSON response: the HTTP status code and the envelope's status. */
  datatype Response = Response(code: int, status: Status)

  const Ok := Response(200, Success)
  const PreflightOk := Response(200, NoBody)

  function Fail(code: int): (r: Response)
    ensures r.status == Error && r.code == code
  {
    Response(code, Error)
  }

  datatype HttpMethod = Get | Post | Delete | Options | Put

  /** The user roles. */
  datatype Role = Student | Teacher | Admin

  function RoleName(r: Role): string
  {
    match r
    case Student => "student"
    case Teacher => "teacher"
    case Admin => "admin"
  }

  function ParseRole(s: string): (r: Option<Role>)
    ensures r.Some? ==> RoleName(r.value) == s
    ensures forall x :: RoleName(x) == s ==> r == Some(x)
  {
    if s == "student" then Some(Student)
    else if s == "teacher" then Some(Teacher)
    else if s == "admin" then Some(Admin)
    else None
  }

  /** Enrollment status values. */
  datatype EnrollmentStatus = Active | Pending | Completed | Dropped

  /** Assignment submission status values (a missing row is "not submitted"). */
  datatype SubmissionStatus = Submitted | Graded

  /** Quiz types. */
  datatype QuizType = Practice | Exam | GradedQuiz

  /** Question types; the type of a new question is taken from the request
      unchecked, so any other tag is kept as it came. */
  datatype QuestionType = MultipleChoice | TrueFalse | ShortAnswer | Essay | OtherType(tag: string)

  function ParseQuestionType(s: string): QuestionType
  {
    if s == "multiple_choice" then MultipleChoice
    else if s == "true_false" then TrueFalse
    else if s == "short_answer" then ShortAnswer
    else if s == "essay" then Essay
    else OtherType(s)
  }

  /** The server-side session: `user_id`, `user_role` and `user_email`, each
      possibly unset. */
  datatype Session = Session(userId: Option<int>, role: Option<Role>, email: Option<string>)

  const NoSession := Session(None, None, None)

  /** A signed-in session whose role is teacher. */
  predicate TeacherSession(s: Session)
  {
    s.userId.Some? && s.role == Some(Teacher)
  }

  /** A required request field in the sense of PHP's `isset && !empty`:
      present and not the empty string. */
  predicate Present(o: Option<string>)
  {
    o.Some? && o.value != ""
  }

  /** The answer given to an OPTIONS preflight, or to a method the route does
      not accept; None when the request goes on to the handler. */
  function Preflight(m: HttpMethod, allowed: set<HttpMethod>): (r: Option<Response>)
    ensures m == Options ==> r == Some(PreflightOk)
    ensures m != Options && m !in allowed ==> r == Some(Fail(405))
    ensures m != Options && m in allowed ==> r == None
  {
    if m == Options then Some(PreflightOk)
    else if m !in allowed then Some(Fail(405))
    else None
  }
}
