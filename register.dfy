/** The registration endpoint (backend/api/auth/register.php): field
    checks in a fixed order, an email uniqueness check, then a transaction
    that inserts the users row and the students or teachers row, rolled back
    when the role-specific fields are wrong. Email validation
    (`FILTER_VALIDATE_EMAIL`), password hashing and token generation are
    parameters. */
module Register {
  import opened Common
  import opened Request
  import opened InputSanitizer
  import opened Schema
  import opened StoreModule

  /** The decoded JSON body. */
  datatype RegisterBody = RegisterBody(
    email: Option<string>, password: Option<string>, firstName: Option<string>,
    lastName: Option<string>, role: Option<string>,
    studentCard: Option<string>, year: Option<string>,
    specialty: Option<string>, grade: Option<string>, phone: Option<string>, bio: Option<string>)

  /** `body` is None when the input does not decode to a non-empty JSON object. */
  datatype RegisterRequest = RegisterRequest(verb: HttpMethod, body: Option<RegisterBody>)

  /** The `data.user` part of a successful response, with the token. */
  datatype UserView = UserView(id: int, email: string, role: Role, firstName: string,
                               lastName: string, fullName: string, token: string)

  /** The outcome: the tables, the session afterwards, the response, the
      field named by a 400 for a missing field, and the new user. */
  datatype RegisterOutcome = RegisterOutcome(tables: Tables, session: Session, resp: Response,
                                             missing: Option<string>, user: Option<UserView>)

  const RequiredFields: seq<string> := ["email", "password", "firstName", "lastName", "role"]

  function RequiredValues(b: RegisterBody): seq<Option<string>>
  {
    [b.email, b.password, b.firstName, b.lastName, b.role]
  }

  /** The `foreach` over the required fields, written out: the first of
      them that is missing or empty. */
  function MissingField(b: RegisterBody): Option<string>
  {
    if !Present(b.email) then Some("email")
    else if !Present(b.password) then Some("password")
    else if !Present(b.firstName) then Some("firstName")
    else if !Present(b.lastName) then Some("lastName")
    else if !Present(b.role) then Some("role")
    else None
  }

  /** The required-field check is the generic first-missing scan over the
      five fields in their order. */
  lemma MissingFieldIsFirst(b: RegisterBody)
    ensures MissingField(b) == FirstMissing(RequiredFields, RequiredValues(b))
  {
    var v := RequiredValues(b);
    var r := FirstMissing(RequiredFields, v);
    if r.None? {
      assert Present(v[0]) && Present(v[1]) && Present(v[2]) && Present(v[3]) && Present(v[4]);
    } else {
      var i :| 0 <= i < 5 && RequiredFields[i] == r.value && !Present(v[i])
               && forall j :: 0 <= j < i ==> Present(v[j]);
      assert i == 0 || Present(v[0]);
      assert i <= 1 || Present(v[1]);
      assert i <= 2 || Present(v[2]);
      assert i <= 3 || Present(v[3]);
    }
  }

  /** Some users row has this email. */
  predicate EmailTaken(t: Tables, email: string)
  {
    exists k :: k in t.users && t.users[k].email == email
  }

  /** Some students row has this card. */
  predicate CardTaken(t: Tables, card: string)
  {
    exists k :: k in t.students && t.students[k].studentCard == card
  }

  /** The sanitized text of a field that the checks have found present. */
  function Clean(o: Option<string>): string
  {
    TextOf(Sanitize(Some(TextOf(o))))
  }

  /** The sanitized fields, as the handler computes them from the body: the
      lemmas below hold for any values of them. */
  datatype Cleaned = Cleaned(email: string, firstName: string, lastName: string, role: string,
                             studentCard: string, year: string, specialty: string,
                             grade: Option<string>, phone: Option<string>, bio: Option<string>)

  function CleanOf(b: RegisterBody): Cleaned
  {
    Cleaned(Clean(b.email), Clean(b.firstName), Clean(b.lastName), Clean(b.role),
            Clean(b.studentCard), Clean(b.year), Clean(b.specialty),
            Sanitize(b.grade), Sanitize(b.phone), Sanitize(b.bio))
  }

  /** The account fields once the body has passed its checks. */
  datatype Account = Account(email: string, password: string, firstName: string, lastName: string, role: Role)

  /** The body checks before the database is consulted. */
  datatype BodyCheck = MissingName(name: string) | Invalid | Accepted(account: Account)

  function RoleOf(roleText: string): (r: Option<Role>)
    ensures r.Some? ==> r.value != Admin && RoleName(r.value) == roleText
    ensures r.None? <==> roleText != "student" && roleText != "teacher"
  {
    if roleText == "student" then Some(Student)
    else if roleText == "teacher" then Some(Teacher)
    else None
  }

  function CheckBody(b: RegisterBody, validEmail: string -> bool): BodyCheck
  {
    CheckFields(b, CleanOf(b), validEmail)
  }

  /** The body checks on the raw body `b` and its sanitized fields `c`. */
  function CheckFields(b: RegisterBody, c: Cleaned, validEmail: string -> bool): BodyCheck
  {
    var missing := MissingField(b);
    if missing.Some? then MissingName(missing.value)
    else
      var role := RoleOf(c.role);
      if !validEmail(c.email) || role.None? then Invalid
      else Accepted(Account(c.email, TextOf(b.password), c.firstName, c.lastName, role.value))
  }

  /** The value the new users row gets for `is_active`. The INSERT leaves the
      column to its default, and the default is assumed to be 1. */
  const ActiveByDefault := true

  /** The users row of the new account. */
  function NewUser(a: Account, hash: string -> string): User
  {
    User(a.email, hash(a.password), a.role, a.firstName, a.lastName, ActiveByDefault)
  }

  /** Inside the transaction, after the users row: the role row, or the
      code the transaction is rolled back with. */
  datatype RoleStep = Insert(tables: Tables) | Rollback(code: int)

  function StudentRowOf(c: Cleaned, uid: int): StudentRow
  {
    StudentRow(uid, c.studentCard, c.year)
  }

  function TeacherRowOf(c: Cleaned, uid: int): TeacherRow
  {
    TeacherRow(uid, c.specialty, c.grade, c.phone, c.bio)
  }

  function RoleRowStep(t1: Tables, b: RegisterBody, c: Cleaned, uid: int, role: Role): RoleStep
  {
    if role == Student then
      if b.studentCard.None? || b.year.None? then Rollback(400)
      else if CardTaken(t1, c.studentCard) then Rollback(409)
      else Insert(t1.(students := t1.students[t1.nextId := StudentRowOf(c, uid)], nextId := t1.nextId + 1))
    else
      if b.specialty.None? then Rollback(400)
      else Insert(t1.(teachers := t1.teachers[t1.nextId := TeacherRowOf(c, uid)], nextId := t1.nextId + 1))
  }

  /** The tables once the users row is inserted. */
  function WithUser(t: Tables, u: User): Tables
  {
    t.(users := t.users[t.nextId := u], nextId := t.nextId + 1)
  }

  function Refused(t: Tables, s: Session, resp: Response): RegisterOutcome
  {
    RegisterOutcome(t, s, resp, None, None)
  }

  function RegisterSpec(t: Tables, s: Session, rq: RegisterRequest, validEmail: string -> bool,
                        hash: string -> string, token: string): RegisterOutcome
  {
    var pre := Preflight(rq.verb, {HttpMethod.Post});
    if pre.Some? then Refused(t, s, pre.value)
    else if rq.body.None? then Refused(t, s, Fail(400))
    else RegisterWith(t, s, rq.body.value, CleanOf(rq.body.value), validEmail, hash, token)
  }

  /** The handler once the body has decoded, with `c` the sanitized fields. */
  function RegisterWith(t: Tables, s: Session, b: RegisterBody, c: Cleaned, validEmail: string -> bool,
                        hash: string -> string, token: string): RegisterOutcome
  {
    match CheckFields(b, c, validEmail)
    case MissingName(name) => RegisterOutcome(t, s, Fail(400), Some(name), None)
    case Invalid => Refused(t, s, Fail(400))
    case Accepted(a) =>
      if EmailTaken(t, a.email) then Refused(t, s, Fail(409))
      else
        StepOutcome(t, s, RoleRowStep(WithUser(t, NewUser(a, hash)), b, c, t.nextId, a.role), a, token)
  }

  /** Commit or rollback: on commit the session and the response carry the
      new user, whose id is the one the users row took. */
  function StepOutcome(t: Tables, s: Session, step: RoleStep, a: Account, token: string): RegisterOutcome
  {
    match step
    case Rollback(code) => Refused(t, s, Fail(code))
    case Insert(t2) =>
      var uid := t.nextId;
      RegisterOutcome(t2, Session(Some(uid), Some(a.role), Some(a.email)), Ok, None,
                      Some(UserView(uid, a.email, a.role, a.firstName, a.lastName,
                                    a.firstName + " " + a.lastName, token)))
  }

  method RegisterUser(db: Store, s: Session, rq: RegisterRequest, validEmail: string -> bool,
                      hash: string -> string, token: string)
    returns (session: Session, resp: Response, missing: Option<string>, user: Option<UserView>)
    modifies db
    ensures var out := RegisterSpec(old(db.T()), s, rq, validEmail, hash, token);
      db.T() == out.tables && session == out.session && resp == out.resp
      && missing == out.missing && user == out.user
  {
    session, missing, user := s, None, None;
    var pre := Preflight(rq.verb, {HttpMethod.Post});
    if pre.Some? {
      resp := pre.value;
      return;
    }
    if rq.body.None? {
      resp := Fail(400);
      return;
    }
    var b := rq.body.value;
    missing := FindMissing(RequiredFields, RequiredValues(b));
    MissingFieldIsFirst(b);
    if missing.Some? {
      resp := Fail(400);
      return;
    }
    session, resp, user := Admit(db, s, b, CleanOf(b), validEmail, hash, token);
  }

  /** The checks after the required fields, on the sanitized fields `c`. */
  method Admit(db: Store, s: Session, b: RegisterBody, c: Cleaned, validEmail: string -> bool,
               hash: string -> string, token: string)
    returns (session: Session, resp: Response, user: Option<UserView>)
    requires MissingField(b).None?
    modifies db
    ensures var out := RegisterWith(old(db.T()), s, b, c, validEmail, hash, token);
      db.T() == out.tables && session == out.session && resp == out.resp
      && user == out.user && out.missing.None?
  {
    var role := RoleOf(c.role);
    if !validEmail(c.email) || role.None? {
      return s, Fail(400), None;
    }
    var a := Account(c.email, TextOf(b.password), c.firstName, c.lastName, role.value);
    assert CheckFields(b, c, validEmail) == Accepted(a);
    if exists k :: k in db.users && db.users[k].email == c.email {
      return s, Fail(409), None;
    }
    assert !EmailTaken(old(db.T()), a.email);
    var uid := db.nextId;
    var code := Transaction(db, b, c, NewUser(a, hash));
    if code.Some? {
      return s, Fail(code.value), None;
    }
    session := Session(Some(uid), Some(a.role), Some(a.email));
    resp := Ok;
    user := Some(UserView(uid, a.email, a.role, a.firstName, a.lastName, a.firstName + " " + a.lastName, token));
  }

  /** `beginTransaction` to `commit`: the users row, then the role row, on
      copies of the tables that are written back only when every step
      succeeds; a rollback leaves the store untouched. */
  method Transaction(db: Store, b: RegisterBody, c: Cleaned, u: User) returns (code: Option<int>)
    modifies db
    ensures match RoleRowStep(WithUser(old(db.T()), u), b, c, old(db.nextId), u.role)
      case Rollback(k) => code == Some(k) && db.T() == old(db.T())
      case Insert(t2) => code.None? && db.T() == t2
  {
    var uid := db.nextId;
    ghost var t1 := WithUser(db.T(), u);
    if u.role == Student {
      if b.studentCard.None? || b.year.None? {
        return Some(400);
      }
      if exists k :: k in db.students && db.students[k].studentCard == c.studentCard {
        assert CardTaken(t1, c.studentCard);
        return Some(409);
      }
      assert !CardTaken(t1, c.studentCard);
      InsertWithStudent(db, u, StudentRowOf(c, uid));
    } else {
      if b.specialty.None? {
        return Some(400);
      }
      InsertWithTeacher(db, u, TeacherRowOf(c, uid));
    }
    code := None;
  }

  /** The two inserts of a student account. */
  method InsertWithStudent(db: Store, u: User, row: StudentRow)
    modifies db
    ensures var t1 := WithUser(old(db.T()), u);
      db.T() == t1.(students := t1.students[t1.nextId := row], nextId := t1.nextId + 1)
  {
    db.users := db.users[db.nextId := u];
    db.students := db.students[db.nextId + 1 := row];
    db.nextId := db.nextId + 2;
  }

  /** The two inserts of a teacher account. */
  method InsertWithTeacher(db: Store, u: User, row: TeacherRow)
    modifies db
    ensures var t1 := WithUser(old(db.T()), u);
      db.T() == t1.(teachers := t1.teachers[t1.nextId := row], nextId := t1.nextId + 1)
  {
    db.users := db.users[db.nextId := u];
    db.teachers := db.teachers[db.nextId + 1 := row];
    db.nextId := db.nextId + 2;
  }

  // Refusals.

  /** A request that is not a POST gets the preflight answer or 405, one
      whose body does not decode gets 400; otherwise the handler runs on the
      body and its sanitized fields. */
  lemma RegisterRequestChecks(t: Tables, s: Session, rq: RegisterRequest, validEmail: string -> bool,
                              hash: string -> string, token: string)
    ensures var out := RegisterSpec(t, s, rq, validEmail, hash, token);
      (rq.verb == Options ==> out == Refused(t, s, PreflightOk))
      && (rq.verb != Options && rq.verb != HttpMethod.Post ==> out == Refused(t, s, Fail(405)))
      && (rq.verb == HttpMethod.Post && rq.body.None? ==> out == Refused(t, s, Fail(400)))
      && (rq.verb == HttpMethod.Post && rq.body.Some? ==>
            out == RegisterWith(t, s, rq.body.value, CleanOf(rq.body.value), validEmail, hash, token))
  {
  }

  /** Every refusal, the rolled-back ones included, leaves the store and the
      session as they were. */
  lemma RegisterRefusalWritesNothing(t: Tables, s: Session, rq: RegisterRequest, validEmail: string -> bool,
                                     hash: string -> string, token: string)
    ensures var out := RegisterSpec(t, s, rq, validEmail, hash, token);
      out.resp != Ok ==> out.tables == t && out.session == s && out.user.None?
  {
    if Preflight(rq.verb, {HttpMethod.Post}).None? && rq.body.Some? {
      RefusalWith(t, s, rq.body.value, CleanOf(rq.body.value), validEmail, hash, token);
    }
  }

  lemma RefusalWith(t: Tables, s: Session, b: RegisterBody, c: Cleaned, validEmail: string -> bool,
                    hash: string -> string, token: string)
    ensures var out := RegisterWith(t, s, b, c, validEmail, hash, token);
      out.resp != Ok ==> out.tables == t && out.session == s && out.user.None?
  {
    match CheckFields(b, c, validEmail)
    case MissingName(_) =>
    case Invalid =>
    case Accepted(a) =>
      if !EmailTaken(t, a.email) {
        match RoleRowStep(WithUser(t, NewUser(a, hash)), b, c, t.nextId, a.role)
        case Rollback(_) =>
        case Insert(_) =>
      }
  }

  /** A 400 for a missing field names the first of email, password,
      firstName, lastName and role that is missing or empty. */
  lemma RegisterNamesFirstMissing(t: Tables, s: Session, rq: RegisterRequest, validEmail: string -> bool,
                                  hash: string -> string, token: string)
    requires rq.verb == HttpMethod.Post && rq.body.Some?
    ensures var out := RegisterSpec(t, s, rq, validEmail, hash, token);
      var v := RequiredValues(rq.body.value);
      (out.missing.Some? ==>
         out.resp == Fail(400)
         && exists i :: 0 <= i < 5 && RequiredFields[i] == out.missing.value && !Present(v[i])
                        && forall j :: 0 <= j < i ==> Present(v[j]))
      && (out.missing.None? ==> forall i :: 0 <= i < 5 ==> Present(v[i]))
  {
    var b := rq.body.value;
    MissingFieldIsFirst(b);
    MissingWith(t, s, b, CleanOf(b), validEmail, hash, token);
  }

  lemma MissingWith(t: Tables, s: Session, b: RegisterBody, c: Cleaned, validEmail: string -> bool,
                    hash: string -> string, token: string)
    ensures var out := RegisterWith(t, s, b, c, validEmail, hash, token);
      out.missing == MissingField(b) && (out.missing.Some? ==> out.resp == Fail(400))
  {
    match CheckFields(b, c, validEmail)
    case MissingName(_) =>
    case Invalid =>
    case Accepted(a) =>
      if !EmailTaken(t, a.email) {
        match RoleRowStep(WithUser(t, NewUser(a, hash)), b, c, t.nextId, a.role)
        case Rollback(_) =>
        case Insert(_) =>
      }
  }

  /** The checks on the sanitized fields: a role other than student or
      teacher (admin included) and an email the validator rejects are refused
      with 400; otherwise the account takes the role named. */
  lemma CheckFieldsRefusals(b: RegisterBody, c: Cleaned, validEmail: string -> bool)
    requires MissingField(b).None?
    ensures (CheckFields(b, c, validEmail) == Invalid)
            <==> (!validEmail(c.email) || c.role !in {"student", "teacher"})
    ensures CheckFields(b, c, validEmail).Accepted? ==>
      RoleName(CheckFields(b, c, validEmail).account.role) == c.role
  {
  }

  /** An accepted body gives the account its sanitized fields and the
      password as sent, which only the hash will see. */
  lemma CheckBodyAccount(b: RegisterBody, validEmail: string -> bool)
    ensures var c := CheckBody(b, validEmail);
      c.Accepted? ==>
        c.account == Account(Clean(b.email), TextOf(b.password), Clean(b.firstName), Clean(b.lastName), c.account.role)
        && c.account.role != Admin && validEmail(c.account.email)
  {
    var c := CheckBody(b, validEmail);
    if c.Accepted? {
      var f := CleanOf(b);
      assert c == CheckFields(b, f, validEmail);
      assert MissingField(b).None?;
      var role := RoleOf(f.role);
      assert role.Some? && validEmail(f.email);
      assert c == Accepted(Account(f.email, TextOf(b.password), f.firstName, f.lastName, role.value));
    }
  }

  /** An email already in use is refused with 409, whatever the role fields. */
  lemma RegisterDuplicateEmail(t: Tables, s: Session, b: RegisterBody, c: Cleaned, validEmail: string -> bool,
                               hash: string -> string, token: string)
    requires CheckFields(b, c, validEmail).Accepted? && EmailTaken(t, c.email)
    ensures RegisterWith(t, s, b, c, validEmail, hash, token) == Refused(t, s, Fail(409))
  {
    assert CheckFields(b, c, validEmail).account.email == c.email;
  }

  /** For a student, a missing card or year gives 400 and a card already in
      use gives 409; for a teacher a missing specialty gives 400; each time
      the users row already inserted is rolled back. */
  lemma RegisterRoleRollbacks(t: Tables, s: Session, b: RegisterBody, c: Cleaned, validEmail: string -> bool,
                              hash: string -> string, token: string)
    requires CheckFields(b, c, validEmail).Accepted? && !EmailTaken(t, c.email)
    ensures var role := CheckFields(b, c, validEmail).account.role;
      var out := RegisterWith(t, s, b, c, validEmail, hash, token);
      ((role == Student && (b.studentCard.None? || b.year.None?)) ==> out == Refused(t, s, Fail(400)))
      && ((role == Student && b.studentCard.Some? && b.year.Some? && CardTaken(t, c.studentCard))
          ==> out == Refused(t, s, Fail(409)))
      && ((role == Teacher && b.specialty.None?) ==> out == Refused(t, s, Fail(400)))
  {
    var a := CheckFields(b, c, validEmail).account;
    assert a.email == c.email;
    var t1 := WithUser(t, NewUser(a, hash));
    assert RegisterWith(t, s, b, c, validEmail, hash, token) == StepOutcome(t, s, RoleRowStep(t1, b, c, t.nextId, a.role), a, token);
    if a.role == Student && b.studentCard.Some? && b.year.Some? && CardTaken(t, c.studentCard) {
      var k :| k in t.students && t.students[k].studentCard == c.studentCard;
      assert CardTaken(t1, c.studentCard) by {
        assert k in t1.students;
      }
    }
  }

  /** A success adds exactly one users row, under the fresh id, with the
      sanitized fields, the role and the hashed password, and exactly one
      students or teachers row (under the next id) pointing to it, with the
      optional teacher fields null when absent; nothing else changes, and the
      session holds the new user, who is never an admin. */
  lemma RegisterCreatesAccount(t: Tables, s: Session, rq: RegisterRequest, validEmail: string -> bool,
                               hash: string -> string, token: string)
    ensures var out := RegisterSpec(t, s, rq, validEmail, hash, token);
      out.resp == Ok ==>
        var b := rq.body.value;
        var c := CleanOf(b);
        var a := CheckBody(b, validEmail).account;
        var uid := t.nextId;
        var u := NewUser(a, hash);
        u == User(c.email, hash(TextOf(b.password)), a.role, c.firstName, c.lastName, true)
        && a.role != Admin
        && out.tables.users == t.users[uid := u]
        && out.tables.nextId == uid + 2
        && (a.role == Student ==>
              out.tables == t.(users := out.tables.users, nextId := uid + 2,
                               students := t.students[uid + 1 := StudentRow(uid, c.studentCard, c.year)]))
        && (a.role == Teacher ==>
              out.tables == t.(users := out.tables.users, nextId := uid + 2,
                               teachers := t.teachers[uid + 1 := TeacherRow(uid, c.specialty, c.grade, c.phone, c.bio)]))
        && out.session == Session(Some(uid), Some(a.role), Some(a.email))
        && out.user == Some(UserView(uid, u.email, u.role, u.firstName, u.lastName,
                                     u.firstName + " " + u.lastName, token))
  {
    var out := RegisterSpec(t, s, rq, validEmail, hash, token);
    if out.resp == Ok {
      RegisterRefusalWritesNothing(t, s, rq, validEmail, hash, token);
      var b := rq.body.value;
      assert Preflight(rq.verb, {HttpMethod.Post}).None? && rq.body.Some?;
      CreatesWith(t, s, b, CleanOf(b), validEmail, hash, token);
    }
  }

  lemma CreatesWith(t: Tables, s: Session, b: RegisterBody, c: Cleaned, validEmail: string -> bool,
                    hash: string -> string, token: string)
    ensures var out := RegisterWith(t, s, b, c, validEmail, hash, token);
      out.resp == Ok ==>
        var a := CheckFields(b, c, validEmail).account;
        var uid := t.nextId;
        var u := NewUser(a, hash);
        u == User(c.email, hash(TextOf(b.password)), a.role, c.firstName, c.lastName, true)
        && a.role != Admin
        && out.tables.users == t.users[uid := u]
        && out.tables.nextId == uid + 2
        && (a.role == Student ==>
              out.tables == t.(users := out.tables.users, nextId := uid + 2,
                               students := t.students[uid + 1 := StudentRow(uid, c.studentCard, c.year)]))
        && (a.role == Teacher ==>
              out.tables == t.(users := out.tables.users, nextId := uid + 2,
                               teachers := t.teachers[uid + 1 := TeacherRow(uid, c.specialty, c.grade, c.phone, c.bio)]))
        && out.session == Session(Some(uid), Some(a.role), Some(a.email))
        && out.user == Some(UserView(uid, u.email, u.role, u.firstName, u.lastName,
                                     u.firstName + " " + u.lastName, token))
  {
    var out := RegisterWith(t, s, b, c, validEmail, hash, token);
    if out.resp == Ok {
      var a := CheckFields(b, c, validEmail).account;
      var t1 := WithUser(t, NewUser(a, hash));
      var step := RoleRowStep(t1, b, c, t.nextId, a.role);
      assert out == StepOutcome(t, s, step, a, token);
      RoleStepTables(t, NewUser(a, hash), b, c, a.role);
    }
  }

  /** The tables a committed transaction leaves, written against the
      tables before it. */
  lemma RoleStepTables(t: Tables, u: User, b: RegisterBody, c: Cleaned, role: Role)
    ensures var step := RoleRowStep(WithUser(t, u), b, c, t.nextId, role);
      var uid := t.nextId;
      step.Insert? ==>
        step.tables.users == t.users[uid := u] && step.tables.nextId == uid + 2
        && (role == Student ==>
              step.tables == t.(users := t.users[uid := u], nextId := uid + 2,
                                students := t.students[uid + 1 := StudentRowOf(c, uid)]))
        && (role != Student ==>
              step.tables == t.(users := t.users[uid := u], nextId := uid + 2,
                                teachers := t.teachers[uid + 1 := TeacherRowOf(c, uid)]))
  {
  }

  /** Registration keeps the store's invariants and referential integrity. */
  lemma RegisterKeepsInvariants(t: Tables, s: Session, rq: RegisterRequest, validEmail: string -> bool,
                                hash: string -> string, token: string)
    requires WellFormed(t) && Integrity(t)
    ensures var out := RegisterSpec(t, s, rq, validEmail, hash, token);
      WellFormed(out.tables) && Integrity(out.tables)
  {
    if Preflight(rq.verb, {HttpMethod.Post}).None? && rq.body.Some? {
      KeepsWith(t, s, rq.body.value, CleanOf(rq.body.value), validEmail, hash, token);
    }
  }

  lemma KeepsWith(t: Tables, s: Session, b: RegisterBody, c: Cleaned, validEmail: string -> bool,
                  hash: string -> string, token: string)
    requires WellFormed(t) && Integrity(t)
    ensures var out := RegisterWith(t, s, b, c, validEmail, hash, token);
      WellFormed(out.tables) && Integrity(out.tables)
  {
    var out := RegisterWith(t, s, b, c, validEmail, hash, token);
    if out.resp == Ok {
      var a := CheckFields(b, c, validEmail).account;
      assert !EmailTaken(t, a.email);
      var u := NewUser(a, hash);
      var t1 := WithUser(t, u);
      var step := RoleRowStep(t1, b, c, t.nextId, a.role);
      assert out == StepOutcome(t, s, step, a, token);
      NewUserKeeps(t, t1, u);
      NewUserHasNoRoleRow(t, t1, u);
      RoleRowKeeps(t1, b, c, t.nextId, a.role);
    } else {
      RefusalWith(t, s, b, c, validEmail, hash, token);
    }
  }

  /** The role row inserted for a user without one keeps the invariants. */
  lemma RoleRowKeeps(t1: Tables, b: RegisterBody, c: Cleaned, uid: int, role: Role)
    requires WellFormed(t1) && Integrity(t1) && uid in t1.users
    requires forall k :: k in t1.students ==> t1.students[k].userId != uid
    requires forall k :: k in t1.teachers ==> t1.teachers[k].userId != uid
    ensures var step := RoleRowStep(t1, b, c, uid, role);
      step.Insert? ==> WellFormed(step.tables) && Integrity(step.tables)
  {
    var step := RoleRowStep(t1, b, c, uid, role);
    if step.Insert? {
      if role == Student {
        NewStudentKeeps(t1, step.tables, StudentRowOf(c, uid));
      } else {
        NewTeacherKeeps(t1, step.tables, TeacherRowOf(c, uid));
      }
    }
  }

  /** After the users row: invariants kept. */
  lemma NewUserKeeps(t: Tables, t1: Tables, u: User)
    requires WellFormed(t) && Integrity(t) && !EmailTaken(t, u.email)
    requires t1 == WithUser(t, u)
    ensures WellFormed(t1) && Integrity(t1)
  {
    NewUserIdsBelow(t, t1, u);
    NewUserUnique(t, t1, u);
    NewUserRefs(t, t1, u);
  }

  lemma NewUserIdsBelow(t: Tables, t1: Tables, u: User)
    requires IdsBelow(t) && t1 == WithUser(t, u)
    ensures IdsBelow(t1)
  {
  }

  lemma NewUserUnique(t: Tables, t1: Tables, u: User)
    requires IdsBelow(t) && UniqueEmails(t) && UniqueRoleRows(t) && !EmailTaken(t, u.email)
    requires t1 == WithUser(t, u)
    ensures UniqueEmails(t1) && UniqueRoleRows(t1)
  {
    assert t.nextId !in t.users;
  }

  lemma NewUserRefs(t: Tables, t1: Tables, u: User)
    requires Integrity(t) && t1 == WithUser(t, u)
    ensures Integrity(t1)
  {
    assert StudentsRefOk(t1) && TeachersRefOk(t1) && CoursesRefOk(t1);
    assert TopicsRefOk(t1) && PostsRefOk(t1) && LikesRefOk(t1);
    assert EnrollmentsRefOk(t1) && AssignmentsRefOk(t1) && SubmissionsRefOk(t1) && FilesRefOk(t1);
    assert QuizzesRefOk(t1) && QuestionsRefOk(t1) && OptionsRefOk(t1) && QuizSubmissionsRefOk(t1);
    assert MaterialsRefOk(t1) && CompletedRefOk(t1);
  }

  /** The fresh user id appears in no students or teachers row. */
  lemma NewUserHasNoRoleRow(t: Tables, t1: Tables, u: User)
    requires IdsBelow(t) && Integrity(t) && t1 == WithUser(t, u)
    ensures forall k :: k in t1.students ==> t1.students[k].userId != t.nextId
    ensures forall k :: k in t1.teachers ==> t1.teachers[k].userId != t.nextId
  {
  }

  lemma NewStudentKeeps(t1: Tables, t2: Tables, row: StudentRow)
    requires WellFormed(t1) && Integrity(t1) && row.userId in t1.users
    requires forall k :: k in t1.students ==> t1.students[k].userId != row.userId
    requires !CardTaken(t1, row.studentCard)
    requires t2 == t1.(students := t1.students[t1.nextId := row], nextId := t1.nextId + 1)
    ensures WellFormed(t2) && Integrity(t2)
  {
    NewRowIdsBelow(t1, t2);
    NewStudentUnique(t1, t2, row);
    NewStudentRefs(t1, t2, row);
  }

  lemma NewRowIdsBelow(t1: Tables, t2: Tables)
    requires IdsBelow(t1) && t2.nextId == t1.nextId + 1
    requires t2 == t1.(students := t2.students, teachers := t2.teachers, nextId := t2.nextId)
    requires forall k :: k in t2.students ==> k in t1.students || k == t1.nextId
    requires forall k :: k in t2.teachers ==> k in t1.teachers || k == t1.nextId
    ensures IdsBelow(t2)
  {
  }

  lemma NewStudentUnique(t1: Tables, t2: Tables, row: StudentRow)
    requires IdsBelow(t1) && UniqueRoleRows(t1) && UniqueEmails(t1)
    requires forall k :: k in t1.students ==> t1.students[k].userId != row.userId
    requires !CardTaken(t1, row.studentCard)
    requires t2 == t1.(students := t1.students[t1.nextId := row], nextId := t1.nextId + 1)
    ensures UniqueRoleRows(t2) && UniqueEmails(t2)
  {
    assert t1.nextId !in t1.students;
  }

  lemma NewStudentRefs(t1: Tables, t2: Tables, row: StudentRow)
    requires Integrity(t1) && row.userId in t1.users
    requires t2 == t1.(students := t1.students[t1.nextId := row], nextId := t1.nextId + 1)
    ensures Integrity(t2)
  {
    assert StudentsRefOk(t2);
    assert EnrollmentsRefOk(t2) && SubmissionsRefOk(t2) && QuizSubmissionsRefOk(t2) && CompletedRefOk(t2);
  }

  lemma NewTeacherKeeps(t1: Tables, t2: Tables, row: TeacherRow)
    requires WellFormed(t1) && Integrity(t1) && row.userId in t1.users
    requires forall k :: k in t1.teachers ==> t1.teachers[k].userId != row.userId
    requires t2 == t1.(teachers := t1.teachers[t1.nextId := row], nextId := t1.nextId + 1)
    ensures WellFormed(t2) && Integrity(t2)
  {
    NewRowIdsBelow(t1, t2);
    NewTeacherUnique(t1, t2, row);
    NewTeacherRefs(t1, t2, row);
  }

  lemma NewTeacherUnique(t1: Tables, t2: Tables, row: TeacherRow)
    requires IdsBelow(t1) && UniqueRoleRows(t1) && UniqueEmails(t1)
    requires forall k :: k in t1.teachers ==> t1.teachers[k].userId != row.userId
    requires t2 == t1.(teachers := t1.teachers[t1.nextId := row], nextId := t1.nextId + 1)
    ensures UniqueRoleRows(t2) && UniqueEmails(t2)
  {
    assert t1.nextId !in t1.teachers;
  }

  lemma NewTeacherRefs(t1: Tables, t2: Tables, row: TeacherRow)
    requires Integrity(t1) && row.userId in t1.users
    requires t2 == t1.(teachers := t1.teachers[t1.nextId := row], nextId := t1.nextId + 1)
    ensures Integrity(t2)
  {
    assert TeachersRefOk(t2);
    assert CoursesRefOk(t2);
  }
}
