/** The enrollment dialog of the catalogue page (frontend/js/script.js) and
    of the student dashboard (frontend/js/student.js): the selected course
    kept between opening the dialog and confirming it, the key guard, and
    the request a confirmation sends to the enrollment endpoint. Only what
    is decided before the request leaves is modelled; its answer is the
    endpoint's. */
module EnrollModal {
  import opened Common
  import opened Text
  import opened Request
  import opened InputSanitizer
  import opened Schema
  import opened Enroll
  import opened StoreModule
  import RegisterForm

  /** The JSON body both pages post: `course_id` and `enrollment_key`
      (null when the course needs no key). */
  datatype EnrollBody = EnrollBody(courseId: int, enrollmentKey: Option<string>)

  /** A request as it leaves the page: the `Authorization` header and the body. */
  datatype EnrollCall = EnrollCall(authorization: string, body: EnrollBody)

  /** What a click on the confirm button does: nothing, the key error shown,
      the dialog closed and the browser sent to sign in, or a request sent. */
  datatype Confirm = Ignored | KeyMissing | SignInFirst | Send(call: EnrollCall)

  /** `!selectedCourseId`: null, or the id 0. */
  predicate NoCourse(id: Option<int>)
  {
    id.None? || id.value == 0
  }

  /** `!token` on the catalogue page: absent or empty. */
  predicate NoToken(token: Option<string>)
  {
    token.None? || token.value == ""
  }

  /** `'Bearer ' + token`, where JavaScript writes an absent token as "null". */
  function BearerHeader(token: Option<string>): (h: string)
    ensures token.Some? ==> h == "Bearer " + token.value
    ensures token.None? ==> h == "Bearer null"
  {
    "Bearer " + if token.Some? then token.value else "null"
  }

  /** The key field's value after `trim`; "" when the page has no key field
      (the dashboard's `input ? input.value.trim() : ''`). */
  function TypedKey(keyInput: Option<string>): (k: string)
    ensures k != [] ==> !IsJsSpace(k[0]) && !IsJsSpace(k[|k| - 1])
  {
    if keyInput.Some? then JsTrim(keyInput.value) else ""
  }

  /** The body of a confirmation that gets through the guards. */
  function BodyFor(cid: int, requiresKey: bool, keyInput: Option<string>): EnrollBody
  {
    EnrollBody(cid, if requiresKey then Some(TypedKey(keyInput)) else None)
  }

  /** `confirmEnrollment` of the student dashboard: no course selected does
      nothing; a key-required course with a blank key shows the key error;
      otherwise the request goes out with whatever token is stored. */
  function DashboardConfirm(id: Option<int>, requiresKey: bool, token: Option<string>,
                            keyInput: Option<string>): (c: Confirm)
    ensures c != SignInFirst
    ensures c == Ignored <==> NoCourse(id)
    ensures c == KeyMissing <==> !NoCourse(id) && requiresKey && TypedKey(keyInput) == []
    ensures c.Send? ==> c.call.authorization == BearerHeader(token) && c.call.body.courseId == id.value
    ensures c.Send? ==> (c.call.body.enrollmentKey.Some? <==> requiresKey)
    ensures c.Send? && requiresKey ==> c.call.body.enrollmentKey == Some(TypedKey(keyInput)) && TypedKey(keyInput) != []
  {
    if NoCourse(id) then Ignored
    else if requiresKey && TypedKey(keyInput) == [] then KeyMissing
    else Send(EnrollCall(BearerHeader(token), BodyFor(id.value, requiresKey, keyInput)))
  }

  /** `confirmEnrollment` of the catalogue page: as on the dashboard, except
      that without a token the visitor is sent to sign in, before the key is
      looked at. */
  function CatalogueConfirm(id: Option<int>, requiresKey: bool, token: Option<string>,
                            keyInput: Option<string>): (c: Confirm)
    ensures c == Ignored <==> NoCourse(id)
    ensures c == SignInFirst <==> !NoCourse(id) && NoToken(token)
    ensures c == KeyMissing <==> !NoCourse(id) && !NoToken(token) && requiresKey && TypedKey(keyInput) == []
    ensures c.Send? ==> c.call.authorization == "Bearer " + token.value && c.call.body.courseId == id.value
    ensures c.Send? ==> (c.call.body.enrollmentKey.Some? <==> requiresKey)
    ensures c.Send? && requiresKey ==> c.call.body.enrollmentKey == Some(TypedKey(keyInput)) && TypedKey(keyInput) != []
  {
    if NoCourse(id) then Ignored
    else if NoToken(token) then SignInFirst
    else if requiresKey && TypedKey(keyInput) == [] then KeyMissing
    else Send(EnrollCall(BearerHeader(token), BodyFor(id.value, requiresKey, keyInput)))
  }

  /** The dialog's state: the globals `selectedCourseId` and
      `selectedCourseRequiresKey` of either page. */
  class EnrollmentModal {
    var selectedCourseId: Option<int>
    var selectedCourseRequiresKey: bool

    constructor ()
      ensures selectedCourseId == None && !selectedCourseRequiresKey
    {
      selectedCourseId := None;
      selectedCourseRequiresKey := false;
    }

    /** `openEnrollmentModal`: remembers the course and whether it needs a key. */
    method Open(courseId: int, requiresKey: bool)
      modifies this
      ensures selectedCourseId == Some(courseId) && selectedCourseRequiresKey == requiresKey
    {
      selectedCourseId := Some(courseId);
      selectedCourseRequiresKey := requiresKey;
    }

    /** `closeEnrollmentModal`: forgets the course. */
    method Close()
      modifies this
      ensures selectedCourseId == None && !selectedCourseRequiresKey
    {
      selectedCourseId := None;
      selectedCourseRequiresKey := false;
    }

    /** The dashboard's confirmation; it changes nothing. */
    method ConfirmOnDashboard(token: Option<string>, keyInput: Option<string>) returns (c: Confirm)
      ensures c == DashboardConfirm(selectedCourseId, selectedCourseRequiresKey, token, keyInput)
    {
      if selectedCourseId.None? || selectedCourseId.value == 0 {
        return Ignored;
      }
      var key: Option<string> := None;
      if selectedCourseRequiresKey {
        var typed := if keyInput.Some? then JsTrim(keyInput.value) else "";
        if typed == [] {
          return KeyMissing;
        }
        key := Some(typed);
      }
      c := Send(EnrollCall(BearerHeader(token), EnrollBody(selectedCourseId.value, key)));
    }

    /** The catalogue's confirmation; without a token it also closes the
        dialog. */
    method ConfirmOnCatalogue(token: Option<string>, keyInput: Option<string>) returns (c: Confirm)
      modifies this
      ensures c == CatalogueConfirm(old(selectedCourseId), old(selectedCourseRequiresKey), token, keyInput)
      ensures c == SignInFirst ==> selectedCourseId == None && !selectedCourseRequiresKey
      ensures c != SignInFirst ==> selectedCourseId == old(selectedCourseId)
                                   && selectedCourseRequiresKey == old(selectedCourseRequiresKey)
    {
      if selectedCourseId.None? || selectedCourseId.value == 0 {
        return Ignored;
      }
      if token.None? || token.value == "" {
        Close();
        return SignInFirst;
      }
      var key: Option<string> := None;
      if selectedCourseRequiresKey {
        var typed := if keyInput.Some? then JsTrim(keyInput.value) else "";
        if typed == [] {
          return KeyMissing;
        }
        key := Some(typed);
      }
      c := Send(EnrollCall("Bearer " + token.value, EnrollBody(selectedCourseId.value, key)));
    }
  }

  /** The key guard of both pages: the key error is shown exactly when the
      course needs a key and the field holds nothing but whitespace. */
  lemma KeyGuard(id: Option<int>, requiresKey: bool, token: Option<string>, keyInput: Option<string>)
    ensures DashboardConfirm(id, requiresKey, token, keyInput) == KeyMissing <==>
      !NoCourse(id) && requiresKey && !(keyInput.Some? && RegisterForm.Filled(keyInput.value))
    ensures CatalogueConfirm(id, requiresKey, token, keyInput) == KeyMissing <==>
      !NoCourse(id) && !NoToken(token) && requiresKey && !(keyInput.Some? && RegisterForm.Filled(keyInput.value))
  {
    if keyInput.Some? {
      RegisterForm.FilledIsTrimmed(keyInput.value);
    }
  }

  /** With a stored token the two pages decide alike. */
  lemma PagesAgree(id: Option<int>, requiresKey: bool, token: Option<string>, keyInput: Option<string>)
    requires !NoToken(token)
    ensures CatalogueConfirm(id, requiresKey, token, keyInput) == DashboardConfirm(id, requiresKey, token, keyInput)
  {
  }

  /** The request the endpoint receives for a call that leaves the page. */
  function AsRequest(call: EnrollCall): (rq: EnrollRequest)
    ensures rq.verb == Post && rq.authorization == Some(call.authorization)
    ensures rq.courseId == Some(call.body.courseId) && rq.enrollmentKey == call.body.enrollmentKey
  {
    EnrollRequest(Post, Some(call.authorization), Some(call.body.courseId), call.body.enrollmentKey)
  }

  /** A key `sanitize` leaves as typed: no NUL at either end (the one
      character PHP's `trim` strips and JavaScript's keeps) and no backslash
      or markup character. */
  predicate PlainKey(k: string)
  {
    (k == [] || (k[0] != '\0' && k[|k| - 1] != '\0'))
    && forall i :: 0 <= i < |k| ==> k[i] !in {'\\', '&', '<', '>', '"', '\''}
  }

  /** A key that got past the page's guard reaches the key check unchanged. */
  lemma {:induction false} SentKeyUnchanged(k: string)
    requires k != [] && !IsJsSpace(k[0]) && !IsJsSpace(k[|k| - 1])
    requires PlainKey(k)
    ensures Sanitize(Some(k)) == Some(k) && Present(Sanitize(Some(k)))
  {
    PhpTrimNoop(k);
    SanitizePlainUnchanged(k);
  }

  /** A request the dashboard sends for a course, with a plain key, is never
      refused by the endpoint as missing its key or its course: it is not
      answered 400, whatever the tables and the session. */
  lemma {:induction false} DashboardRequestNotMalformed(t: Tables, s: Session, id: Option<int>, token: Option<string>,
                                                        keyInput: Option<string>, requiresKey: bool, call: EnrollCall)
    requires DashboardConfirm(id, requiresKey, token, keyInput) == Send(call)
    requires call.body.courseId in t.courses ==> t.courses[call.body.courseId].requiresKey == requiresKey
    requires PlainKey(TypedKey(keyInput))
    ensures EnrollSpec(t, s, AsRequest(call)).resp != Fail(400)
    ensures call.body.courseId in t.courses ==>
      (KeyRefusal(t.courses[call.body.courseId], Sanitize(call.body.enrollmentKey)).None? <==>
         !requiresKey || Some(TypedKey(keyInput)) == t.courses[call.body.courseId].enrollmentKey)
  {
    if requiresKey {
      SentKeyUnchanged(TypedKey(keyInput));
    }
    NotMalformed(t, s, AsRequest(call));
  }

  /** The endpoint answers 400 only for a missing course id, or for a course
      needing a key when the sanitized key is missing or empty. */
  lemma NotMalformed(t: Tables, s: Session, rq: EnrollRequest)
    requires rq.verb == Post && rq.courseId.Some?
    requires rq.courseId.value in t.courses && t.courses[rq.courseId.value].requiresKey ==>
      Present(Sanitize(rq.enrollmentKey))
    ensures EnrollSpec(t, s, rq).resp != Fail(400)
  {
  }

  /** The same for the catalogue page, by way of the dashboard. */
  lemma {:induction false} CatalogueRequestNotMalformed(t: Tables, s: Session, id: Option<int>, token: Option<string>,
                                                        keyInput: Option<string>, requiresKey: bool, call: EnrollCall)
    requires CatalogueConfirm(id, requiresKey, token, keyInput) == Send(call)
    requires call.body.courseId in t.courses ==> t.courses[call.body.courseId].requiresKey == requiresKey
    requires PlainKey(TypedKey(keyInput))
    ensures EnrollSpec(t, s, AsRequest(call)).resp != Fail(400)
  {
    PagesAgree(id, requiresKey, token, keyInput);
    DashboardRequestNotMalformed(t, s, id, token, keyInput, requiresKey, call);
  }

  /** The dashboard sends a request even with no stored token: the header
      reads "Bearer null", which the endpoint takes as the token "null". */
  lemma MissingTokenSentAsNull(id: Option<int>, keyInput: Option<string>, requiresKey: bool)
    requires !NoCourse(id) && !(requiresKey && TypedKey(keyInput) == [])
    ensures DashboardConfirm(id, requiresKey, None, keyInput).Send?
    ensures DashboardConfirm(id, requiresKey, None, keyInput).call.authorization == "Bearer null"
    ensures BearerToken(Some(DashboardConfirm(id, requiresKey, None, keyInput).call.authorization)) == Some("null")
    ensures HasToken(Some(DashboardConfirm(id, requiresKey, None, keyInput).call.authorization))
  {
    NoSchemeIn("null");
    BearerTokenOf("null");
  }

  lemma NoSchemeIn(tok: string)
    requires |tok| < 7
    ensures !Contains(tok, "Bearer ")
    decreases |tok|
  {
    if tok != [] {
      NoSchemeIn(tok[1..]);
    }
  }

  /** The two `trim`s part ways on NUL: a key made of one NUL character is
      sent by the page and answered 400 by the endpoint. */
  lemma NulKeyRefused(c: Course)
    requires c.requiresKey
    ensures DashboardConfirm(Some(1), true, Some("t"), Some("\0")) ==
      Send(EnrollCall("Bearer t", EnrollBody(1, Some("\0"))))
    ensures KeyRefusal(c, Sanitize(Some("\0"))) == Some(Fail(400))
  {
    var k := "\0";
    assert !IsJsSpace(k[0]);
    assert TrimStart(k, IsJsSpace) == k;
    assert TrimEnd(k, IsJsSpace) == k;
    assert TypedKey(Some(k)) == k;
    assert IsPhpSpace(k[0]);
    assert TrimStart(k[1..], IsPhpSpace) == [];
    assert PhpTrim(k) == [];
    assert StripSlashes([]) == [] && HtmlSpecialChars([]) == [];
  }
}
