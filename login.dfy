/** The login endpoint (backend/api/auth/login.php): the active user with
    the sanitized email, the password checked against the stored hash, the
    session opened, and the profile with the role-specific columns of the
    left joins. Password verification and token generation are parameters. */
module Login {
  import opened Common
  import opened Request
  import opened InputSanitizer
  import opened Schema
  import opened StoreModule
  import opened Register

  datatype LoginRequest = LoginRequest(verb: HttpMethod, email: Option<string>, password: Option<string>)

  /** The columns the left joins add: those of the students row for a
      student, of the teachers row for a teacher, all null when the joined
      row is absent. */
  datatype RoleInfo =
    | NoRoleInfo
    | StudentInfo(studentId: Option<int>, studentCard: Option<string>, year: Option<string>)
    | TeacherInfo(teacherId: Option<int>, specialty: Option<string>, grade: Option<string>)

  datatype LoginView = LoginView(id: int, email: string, role: Role, firstName: string, lastName: string,
                                 fullName: string, token: string, info: RoleInfo)

  datatype LoginOutcome = LoginOutcome(session: Session, resp: Response, user: Option<LoginView>)

  /** `WHERE u.email = :email AND u.is_active = 1`. */
  predicate IsActiveWithEmail(t: Tables, k: int, email: string)
  {
    k in t.users && t.users[k].email == email && t.users[k].isActive
  }

  ghost function ActiveUserByEmail(t: Tables, email: string): (r: Option<int>)
    ensures r.Some? ==> IsActiveWithEmail(t, r.value, email)
    ensures r.None? ==> forall k :: !IsActiveWithEmail(t, k, email)
  {
    if exists k :: IsActiveWithEmail(t, k, email) then
      var k :| IsActiveWithEmail(t, k, email); Some(k)
    else None
  }

  lemma ActiveUserUnique(t: Tables, email: string, k: int)
    requires UniqueEmails(t) && IsActiveWithEmail(t, k, email)
    ensures ActiveUserByEmail(t, email) == Some(k)
  {
  }

  ghost function RoleInfoOf(t: Tables, uid: int, role: Role): RoleInfo
  {
    match role
    case Student =>
      var sid := StudentOf(t, uid);
      if sid.None? then StudentInfo(None, None, None)
      else StudentInfo(sid, Some(t.students[sid.value].studentCard), Some(t.students[sid.value].year))
    case Teacher =>
      var tid := TeacherOf(t, uid);
      if tid.None? then TeacherInfo(None, None, None)
      else TeacherInfo(tid, Some(t.teachers[tid.value].specialty), t.teachers[tid.value].grade)
    case Admin => NoRoleInfo
  }

  ghost function LoginSpec(t: Tables, s: Session, rq: LoginRequest, verify: (string, string) -> bool,
                           token: string): LoginOutcome
  {
    var pre := Preflight(rq.verb, {HttpMethod.Post});
    if pre.Some? then LoginOutcome(s, pre.value, None)
    else if rq.email.None? || rq.password.None? then LoginOutcome(s, Fail(400), None)
    else
      var found := ActiveUserByEmail(t, Clean(rq.email));
      if found.None? then LoginOutcome(s, Fail(404), None)
      else
        var uid := found.value;
        var u := t.users[uid];
        if !verify(rq.password.value, u.password) then LoginOutcome(s, Fail(401), None)
        else SignedIn(t, uid, token)
  }

  /** The session and the profile of the user `uid`. */
  ghost function SignedIn(t: Tables, uid: int, token: string): LoginOutcome
    requires uid in t.users
  {
    var u := t.users[uid];
    LoginOutcome(Session(Some(uid), Some(u.role), Some(u.email)), Ok,
                 Some(LoginView(uid, u.email, u.role, u.firstName, u.lastName, FullName(u), token,
                                RoleInfoOf(t, uid, u.role))))
  }

  /** The login reads the store and writes only the session. */
  method LogIn(db: Store, s: Session, rq: LoginRequest, verify: (string, string) -> bool, token: string)
    returns (session: Session, resp: Response, user: Option<LoginView>)
    requires db.Valid()
    ensures var out := LoginSpec(db.T(), s, rq, verify, token);
      session == out.session && resp == out.resp && user == out.user
  {
    var pre := Preflight(rq.verb, {HttpMethod.Post});
    if pre.Some? {
      return s, pre.value, None;
    }
    if rq.email.None? || rq.password.None? {
      return s, Fail(400), None;
    }
    var email := Clean(rq.email);
    var found := LookupActiveUser(db, email);
    if found.None? {
      return s, Fail(404), None;
    }
    var uid := found.value;
    var u := db.users[uid];
    if !verify(rq.password.value, u.password) {
      return s, Fail(401), None;
    }
    var info := LookupRoleInfo(db, uid, u.role);
    return Session(Some(uid), Some(u.role), Some(u.email)), Ok,
           Some(LoginView(uid, u.email, u.role, u.firstName, u.lastName, FullName(u), token, info));
  }

  method LookupActiveUser(db: Store, email: string) returns (r: Option<int>)
    requires db.Valid()
    ensures r == ActiveUserByEmail(db.T(), email)
  {
    if exists k :: k in db.users && db.users[k].email == email && db.users[k].isActive {
      var k :| k in db.users && db.users[k].email == email && db.users[k].isActive;
      ActiveUserUnique(db.T(), email, k);
      r := Some(k);
    } else {
      r := None;
    }
  }

  /** The student or teacher columns of the left joins. */
  method LookupRoleInfo(db: Store, uid: int, role: Role) returns (info: RoleInfo)
    requires db.Valid()
    ensures info == RoleInfoOf(db.T(), uid, role)
  {
    match role {
      case Student =>
        var sid := db.LookupStudent(uid);
        if sid.None? {
          info := StudentInfo(None, None, None);
        } else {
          info := StudentInfo(sid, Some(db.students[sid.value].studentCard), Some(db.students[sid.value].year));
        }
      case Teacher =>
        var tid := db.LookupTeacher(uid);
        if tid.None? {
          info := TeacherInfo(None, None, None);
        } else {
          info := TeacherInfo(tid, Some(db.teachers[tid.value].specialty), db.teachers[tid.value].grade);
        }
      case Admin =>
        info := NoRoleInfo;
    }
  }

  /** A refused login leaves the session as it was. */
  lemma LoginRefusalKeepsSession(t: Tables, s: Session, rq: LoginRequest, verify: (string, string) -> bool,
                                 token: string)
    ensures var out := LoginSpec(t, s, rq, verify, token);
      out.resp != Ok ==> out.session == s && out.user.None?
  {
  }

  /** With both fields sent, the login succeeds exactly when an active user
      has the sanitized email and the password verifies against their hash;
      without an active user with that email the answer is 404, and a
      wrong password is 401. */
  lemma LoginSucceedsIff(t: Tables, s: Session, rq: LoginRequest, verify: (string, string) -> bool,
                         token: string)
    requires rq.verb == HttpMethod.Post && rq.email.Some? && rq.password.Some?
    requires UniqueEmails(t)
    ensures var out := LoginSpec(t, s, rq, verify, token);
      var email := Clean(rq.email);
      (out.resp == Ok <==> exists k :: IsActiveWithEmail(t, k, email) && verify(rq.password.value, t.users[k].password))
      && (out.resp == Fail(404) <==> forall k :: !IsActiveWithEmail(t, k, email))
      && (out.resp == Fail(401) <==>
            exists k :: IsActiveWithEmail(t, k, email) && !verify(rq.password.value, t.users[k].password))
  {
    var email := Clean(rq.email);
    var found := ActiveUserByEmail(t, email);
    if found.Some? {
      forall k | IsActiveWithEmail(t, k, email)
        ensures k == found.value
      {
        ActiveUserUnique(t, email, k);
      }
    }
  }

  /** A deactivated account cannot log in, whatever the password. */
  lemma InactiveCannotLogIn(t: Tables, s: Session, rq: LoginRequest, verify: (string, string) -> bool,
                            token: string, k: int)
    requires rq.verb == HttpMethod.Post && rq.email.Some? && rq.password.Some?
    requires UniqueEmails(t) && k in t.users && t.users[k].email == Clean(rq.email) && !t.users[k].isActive
    ensures LoginSpec(t, s, rq, verify, token).resp == Fail(404)
  {
    LoginSucceedsIff(t, s, rq, verify, token);
    assert forall j :: IsActiveWithEmail(t, j, Clean(rq.email)) ==> j == k;
  }

  /** A success opens the session of the user found and returns that
      user's row, with the full name and, for a student, the students row. */
  lemma LoginReturnsUser(t: Tables, s: Session, rq: LoginRequest, verify: (string, string) -> bool,
                         token: string)
    requires WellFormed(t)
    ensures var out := LoginSpec(t, s, rq, verify, token);
      out.resp == Ok ==>
        out.user.Some? && var v := out.user.value;
        IsActiveWithEmail(t, v.id, Clean(rq.email))
        && out.session == Session(Some(v.id), Some(t.users[v.id].role), Some(t.users[v.id].email))
        && v.email == t.users[v.id].email && v.role == t.users[v.id].role
        && v.fullName == v.firstName + " " + v.lastName && v.token == token
        && (v.role == Student && v.info.studentId.Some? ==>
              v.info.studentId.value in t.students && t.students[v.info.studentId.value].userId == v.id
              && v.info.studentCard == Some(t.students[v.info.studentId.value].studentCard))
        && (v.role == Admin <==> v.info == NoRoleInfo)
  {
    var out := LoginSpec(t, s, rq, verify, token);
    if out.resp == Ok {
      var uid := ActiveUserByEmail(t, Clean(rq.email)).value;
      assert out == SignedIn(t, uid, token);
      RoleInfoShape(t, uid, t.users[uid].role);
    }
  }

  /** The joined columns belong to the user's own students or teachers row. */
  lemma RoleInfoShape(t: Tables, uid: int, role: Role)
    ensures var info := RoleInfoOf(t, uid, role);
      (role == Admin <==> info == NoRoleInfo)
      && (role == Student ==> info.StudentInfo?)
      && (role == Teacher ==> info.TeacherInfo?)
      && (role == Student && info.studentId.Some? ==>
            info.studentId.value in t.students && t.students[info.studentId.value].userId == uid
            && info.studentCard == Some(t.students[info.studentId.value].studentCard))
  {
  }

  /** Registering and then logging in with the same email and password
      signs in the new account, under the role it registered with, as long
      as the hash verifies the password it was made from. */
  lemma RegisterThenLogIn(t: Tables, s: Session, rq: RegisterRequest, validEmail: string -> bool,
                          hash: string -> string, verify: (string, string) -> bool, token: string,
                          s2: Session, token2: string)
    requires WellFormed(t) && Integrity(t) && rq.verb == HttpMethod.Post && rq.body.Some?
    requires var reg := RegisterSpec(t, s, rq, validEmail, hash, token); reg.resp == Ok
    requires verify(TextOf(rq.body.value.password), hash(TextOf(rq.body.value.password)))
    ensures var reg := RegisterSpec(t, s, rq, validEmail, hash, token);
      var b := rq.body.value;
      var out := LoginSpec(reg.tables, s2, LoginRequest(HttpMethod.Post, b.email, b.password), verify, token2);
      out.resp == Ok && out.session == reg.session
  {
    var reg := RegisterSpec(t, s, rq, validEmail, hash, token);
    var b := rq.body.value;
    var a := CheckBody(b, validEmail).account;
    var uid := t.nextId;
    var u := NewUser(a, hash);
    assert reg.tables.users == t.users[uid := u] && reg.session == Session(Some(uid), Some(a.role), Some(a.email)) by {
      RegisterCreatesAccount(t, s, rq, validEmail, hash, token);
    }
    assert UniqueEmails(reg.tables) by {
      RegisterKeepsInvariants(t, s, rq, validEmail, hash, token);
    }
    assert b.email.Some? && b.password.Some? by {
      assert MissingField(b).None?;
    }
    assert u.email == Clean(b.email) && u.password == hash(b.password.value) by {
      CheckBodyAccount(b, validEmail);
    }
    LoginFindsUser(reg.tables, s2, uid, b.email, b.password, verify, token2);
  }

  /** The login of an active user whose password verifies. */
  lemma LoginFindsUser(t: Tables, s: Session, uid: int, email: Option<string>, password: Option<string>,
                       verify: (string, string) -> bool, token: string)
    requires UniqueEmails(t) && email.Some? && password.Some?
    requires IsActiveWithEmail(t, uid, Clean(email)) && verify(password.value, t.users[uid].password)
    ensures LoginSpec(t, s, LoginRequest(HttpMethod.Post, email, password), verify, token) == SignedIn(t, uid, token)
  {
    ActiveUserUnique(t, Clean(email), uid);
  }
}
