/** The authentication helpers of the shared page script
    (frontend/js/script.js): the session the pages keep in the browser's
    local storage, the gate a protected page runs before it renders, the
    redirect to a user's own page, and the default length of `truncateText`.
    Local storage is a value handed in and handed back; `JSON.parse` is a
    parameter. */
module ScriptPage {
  import opened Common
  import opened Text
  import StudentPage

  /** `truncateText(text, maxLength = 100)`: the function of the student
      page, with this default length. */
  const DefaultMaxLength := 100

  /** With the default length a text of at most 100 characters is shown
      whole, and a longer one as a part of its first 100 characters followed
      by "...", 103 characters at most. */
  lemma DefaultTruncation(text: string)
    ensures |text| <= DefaultMaxLength ==> StudentPage.TruncateText(text, DefaultMaxLength) == text
    ensures |text| > DefaultMaxLength ==>
      var r := StudentPage.TruncateText(text, DefaultMaxLength);
      |r| <= DefaultMaxLength + 3 && r[|r| - 3..] == "..." && Contains(text[..DefaultMaxLength], r[..|r| - 3])
  {
    if |text| > DefaultMaxLength {
      StudentPage.TruncateShortens(text, DefaultMaxLength, StudentPage.TruncateText(text, DefaultMaxLength));
    }
  }

  /** The two local-storage entries: `token`, and `user`, the user record as
      JSON text. None is an entry that is not there. */
  datatype Storage = Storage(token: Option<string>, user: Option<string>)

  /** The part of the stored user record the pages read; None is a record
      without a `role`. */
  datatype UserInfo = UserInfo(role: Option<string>)

  /** The pages the helpers send the browser to. */
  datatype Page = IndexPage | LoginPage | StudentHome | TeacherHome | AdminHome

  function PageFile(p: Page): (f: string)
    ensures |f| > 5 && f[|f| - 5..] == ".html"
  {
    match p
    case IndexPage => "index.html"
    case LoginPage => "login.html"
    case StudentHome => "student.html"
    case TeacherHome => "teacher.html"
    case AdminHome => "admin.html"
  }

  /** `isLoggedIn`: a token entry is there and is not the text "undefined"
      (an empty token counts as logged in). */
  predicate IsLoggedIn(st: Storage)
  {
    st.token.Some? && st.token.value != "undefined"
  }

  /** `getUserInfo`: an absent or empty entry gives null; otherwise whatever
      `parse` gives, where `parse` stands for `JSON.parse` and gives None on
      a syntax error (caught) or on text that parses to null. */
  function UserInfoOf(st: Storage, parse: string -> Option<UserInfo>): (r: Option<UserInfo>)
    ensures r.Some? ==> st.user.Some? && st.user.value != "" && r == parse(st.user.value)
  {
    if st.user.None? || st.user.value == "" then None else parse(st.user.value)
  }

  /** `clearAuthData`: both entries removed (and the browser sent to the
      index page). */
  const Cleared := Storage(None, None)

  /** `allowedRoles.length > 0 && !allowedRoles.includes(user.role)` fails:
      an empty list admits every role, a record without a role is admitted by
      no non-empty list. */
  predicate RoleAdmitted(role: Option<string>, allowedRoles: seq<string>)
  {
    allowedRoles == [] || (role.Some? && role.value in allowedRoles)
  }

  /** What `checkAuth` decides: its answer, the page it sends the browser to
      (None: the page stays), and local storage afterwards. */
  datatype Gate = Gate(allowed: bool, redirect: Option<Page>, storage: Storage)

  /** `checkAuth(allowedRoles)`. Not logged in: to the login page. No user
      record: storage cleared and to the index page. A role outside a
      non-empty list: to the index page. Otherwise admitted. */
  function CheckAuth(st: Storage, allowedRoles: seq<string>, parse: string -> Option<UserInfo>): (g: Gate)
    ensures g.allowed <==> IsLoggedIn(st) && UserInfoOf(st, parse).Some?
                           && RoleAdmitted(UserInfoOf(st, parse).value.role, allowedRoles)
    ensures g.allowed <==> g.redirect.None?
    ensures !IsLoggedIn(st) ==> g.redirect == Some(LoginPage)
    ensures IsLoggedIn(st) && !g.allowed ==> g.redirect == Some(IndexPage)
    ensures g.storage == st || g.storage == Cleared
    ensures g.storage != st ==> IsLoggedIn(st) && UserInfoOf(st, parse).None?
  {
    if !IsLoggedIn(st) then Gate(false, Some(LoginPage), st)
    else
      var user := UserInfoOf(st, parse);
      if user.None? then Gate(false, Some(IndexPage), Cleared)
      else if |allowedRoles| > 0 && !(user.value.role.Some? && user.value.role.value in allowedRoles) then
        Gate(false, Some(IndexPage), st)
      else Gate(true, None, st)
  }

  /** A token with no user record is cleared, so the next protected page
      sends the browser to the login page. */
  lemma ClearedThenLogin(st: Storage, allowedRoles: seq<string>, parse: string -> Option<UserInfo>,
                         next: seq<string>, parse2: string -> Option<UserInfo>)
    requires IsLoggedIn(st) && UserInfoOf(st, parse).None?
    ensures CheckAuth(st, allowedRoles, parse).storage == Cleared
    ensures CheckAuth(CheckAuth(st, allowedRoles, parse).storage, next, parse2) == Gate(false, Some(LoginPage), Cleared)
  {
  }

  /** A gate that lists no roles admits every logged-in user whose record
      parses; adding roles to a non-empty list never turns away a user it
      admitted. */
  lemma GateMonotone(st: Storage, a: seq<string>, b: seq<string>, parse: string -> Option<UserInfo>)
    requires a != [] && forall x :: x in a ==> x in b
    ensures CheckAuth(st, a, parse).allowed ==> CheckAuth(st, b, parse).allowed
    ensures IsLoggedIn(st) && UserInfoOf(st, parse).Some? ==> CheckAuth(st, [], parse).allowed
  {
  }

  /** Each role's own page. */
  function HomeOf(r: Role): (p: Page)
    ensures p != IndexPage && p != LoginPage
    ensures p == StudentHome <==> r == Student
    ensures p == TeacherHome <==> r == Teacher
    ensures p == AdminHome <==> r == Admin
  {
    match r
    case Student => StudentHome
    case Teacher => TeacherHome
    case Admin => AdminHome
  }

  /** `redirectBasedOnRole`: nothing without a user record; the page of
      the role when the record names one of the three roles; the index page
      otherwise, including a record without a role. */
  function RedirectBasedOnRole(user: Option<UserInfo>): (r: Option<Page>)
    ensures r.None? <==> user.None?
    ensures user.Some? && user.value.role.Some? && ParseRole(user.value.role.value).Some? ==>
      r == Some(HomeOf(ParseRole(user.value.role.value).value))
    ensures user.Some? && (user.value.role.None? || ParseRole(user.value.role.value).None?) ==>
      r == Some(IndexPage)
  {
    if user.None? then None
    else if user.value.role == Some("student") then Some(StudentHome)
    else if user.value.role == Some("teacher") then Some(TeacherHome)
    else if user.value.role == Some("admin") then Some(AdminHome)
    else Some(IndexPage)
  }

  /** A user sent to their own page passes that page's gate for their role,
      and two roles never share a page. */
  lemma {:induction false} RedirectPassesGate(st: Storage, parse: string -> Option<UserInfo>, r: Role)
    requires IsLoggedIn(st)
    requires RedirectBasedOnRole(UserInfoOf(st, parse)) == Some(HomeOf(r))
    ensures UserInfoOf(st, parse) == Some(UserInfo(Some(RoleName(r))))
    ensures CheckAuth(st, [RoleName(r)], parse).allowed
    ensures forall x :: x != r ==> !CheckAuth(st, [RoleName(x)], parse).allowed
  {
    var u := UserInfoOf(st, parse).value;
    assert u.role.Some? && ParseRole(u.role.value).Some?;
    assert u.role.value == RoleName(r);
  }
}
