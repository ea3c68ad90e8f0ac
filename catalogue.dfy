/** The public course catalogue: the paginated, filtered listing
    (backend/api/courses/index.php) and the free-text search
    (backend/api/courses/search.php). Both are read-only and are modelled as
    functions of the tables. */
module Catalogue {
  import opened Common
  import opened Request
  import opened Text
  import opened InputSanitizer
  import opened Schema
  import opened Sorting
  import opened Enroll

  /** PHP truthiness of an optional text: null and "" are false. */
  function Truthy(o: Option<string>): (r: Option<string>)
    ensures r.Some? <==> Present(o)
    ensures r.Some? ==> r == o
  {
    if Present(o) then o else None
  }

  /** The course's teachers row and its users row both exist, as the
      listing's inner joins require. */
  predicate Joined(t: Tables, k: int)
  {
    k in t.courses && t.courses[k].teacherId in t.teachers
    && t.teachers[t.courses[k].teacherId].userId in t.users
  }

  /** The teacher's users row of a joined course. */
  function TeacherUser(t: Tables, k: int): User
    requires Joined(t, k)
  {
    t.users[t.teachers[t.courses[k].teacherId].userId]
  }

  /** `ORDER BY c.created_at DESC` as an ascending key. */
  function CreatedOrder(t: Tables): map<int, int>
  {
    map k | k in t.courses :: -t.courses[k].createdAt
  }

  /** The given course ids, newest first; ties stay in ascending id order. */
  function NewestFirst(t: Tables, ids: set<int>): (r: seq<int>)
    requires forall k :: k in ids ==> k in t.courses
    ensures forall x :: x in r <==> x in ids
    ensures |r| == |ids|
    ensures forall i :: 0 <= i < |r| ==> r[i] in t.courses
    ensures forall i, j :: 0 <= i < j < |r| ==> t.courses[r[i]].createdAt >= t.courses[r[j]].createdAt
    ensures forall i, j :: 0 <= i < j < |r| && t.courses[r[i]].createdAt == t.courses[r[j]].createdAt ==> r[i] < r[j]
  {
    var s := SortedIds(ids);
    var r := SortByKey(CreatedOrder(t), s);
    NewestTies(t, s, r);
    assert forall x :: x in r <==> x in s by {
      forall x ensures x in r <==> x in s {
        assert x in r <==> x in multiset(r);
        assert x in s <==> x in multiset(s);
      }
    }
    assert |r| == |multiset(r)| == |multiset(s)| == |s|;
    r
  }

  /** Courses created at the same time keep the ascending order of their ids. */
  lemma NewestTies(t: Tables, s: seq<int>, r: seq<int>)
    requires forall i :: 0 <= i < |s| ==> s[i] in t.courses
    requires StrictlySorted(s) && r == SortByKey(CreatedOrder(t), s)
    ensures forall i :: 0 <= i < |r| ==> r[i] in t.courses
    ensures forall i, j :: 0 <= i < j < |r| && t.courses[r[i]].createdAt == t.courses[r[j]].createdAt ==> r[i] < r[j]
  {
    var o := CreatedOrder(t);
    SortByKeyTiesAscending(o, s);
    assert forall i :: 0 <= i < |r| ==> r[i] in t.courses;
    forall i, j | 0 <= i < j < |r| && t.courses[r[i]].createdAt == t.courses[r[j]].createdAt
      ensures r[i] < r[j]
    {
      assert o[r[i]] == o[r[j]];
    }
  }

  // ---- The listing ----

  datatype CatalogueQuery = CatalogueQuery(
    verb: HttpMethod, page: Option<int>, limit: Option<int>,
    category: Option<string>, search: Option<string>, teacherId: Option<int>)

  /** The filters in force: each one only when its parameter is truthy. */
  datatype CourseFilter = CourseFilter(category: Option<string>, search: Option<string>, teacherId: Option<int>)

  function FilterOf(q: CatalogueQuery): CourseFilter
  {
    CourseFilter(Truthy(Sanitize(q.category)), Truthy(Sanitize(q.search)),
                 if IntOr(q.teacherId, 0) != 0 then q.teacherId else None)
  }

  /** The `WHERE` clause: public, and each filter in force. */
  predicate Eligible(c: Course, f: CourseFilter)
  {
    c.isPublic
    && (f.category.Some? ==> c.category == f.category.value)
    && (f.search.Some? ==> Contains(c.title, f.search.value) || Contains(c.description, f.search.value))
    && (f.teacherId.Some? ==> c.teacherId == f.teacherId.value)
  }

  /** The rows the `COUNT(*)` counts: no join. */
  function EligibleIds(t: Tables, f: CourseFilter): set<int>
  {
    set k | k in t.courses && Eligible(t.courses[k], f)
  }

  /** The rows the listing query selects before `LIMIT`: with the joins. */
  function ListedIds(t: Tables, f: CourseFilter): set<int>
  {
    set k | k in t.courses && Eligible(t.courses[k], f) && Joined(t, k)
  }

  /** `LIMIT limit OFFSET offset` on an ordered list. */
  function PageOf(s: seq<int>, offset: nat, limit: nat): seq<int>
  {
    var lo := if offset < |s| then offset else |s|;
    var hi := if offset + limit < |s| then offset + limit else |s|;
    s[lo..hi]
  }

  /** `ceil(n / d)` on non-negative integers. */
  function CeilDiv(n: nat, d: nat): nat
    requires d > 0
  {
    (n + d - 1) / d
  }

  /** One element of the `data` array. */
  datatype CourseView = CourseView(
    id: int, title: string, description: string, category: string, teacher: string,
    specialty: string, requiresKey: bool, enrollmentKey: Option<string>, maxEnrollments: int,
    isPublic: bool, enrollmentCount: nat, createdAt: int)

  function ViewOf(t: Tables, k: int): CourseView
    requires Joined(t, k)
  {
    var c := t.courses[k];
    CourseView(k, c.title, c.description, c.category, FullName(TeacherUser(t, k)),
               t.teachers[c.teacherId].specialty, c.requiresKey, c.enrollmentKey, c.maxEnrollments,
               c.isPublic, ActiveCount(t, k), c.createdAt)
  }

  datatype Pagination = Pagination(page: int, limit: int, total: nat, totalPages: nat)

  datatype CatalogueOutcome = CatalogueOutcome(resp: Response, rows: seq<CourseView>, pagination: Option<Pagination>)

  /** The eligible, joined courses, newest first. */
  function Ordered(t: Tables, f: CourseFilter): seq<int>
  {
    NewestFirst(t, ListedIds(t, f))
  }

  function Views(t: Tables, ids: seq<int>): (r: seq<CourseView>)
    requires forall i :: 0 <= i < |ids| ==> Joined(t, ids[i])
    ensures |r| == |ids|
    ensures forall i :: 0 <= i < |r| ==> r[i] == ViewOf(t, ids[i])
  {
    seq(|ids|, i requires 0 <= i < |ids| => ViewOf(t, ids[i]))
  }

  /** The listing. A negative offset or limit makes the query fail, and the
      caught exception gives a 500. A zero limit is answered 500 here too,
      although in PHP the page count's division by zero raises an error the
      handler does not catch. */
  function ListCourses(t: Tables, q: CatalogueQuery): CatalogueOutcome
  {
    var pre := Preflight(q.verb, {Get});
    if pre.Some? then CatalogueOutcome(pre.value, [], None)
    else
      var page := IntOr(q.page, 1);
      var limit := IntOr(q.limit, 10);
      var offset := (page - 1) * limit;
      if limit <= 0 || offset < 0 then CatalogueOutcome(Fail(500), [], None)
      else
        var f := FilterOf(q);
        var total := |EligibleIds(t, f)|;
        CatalogueOutcome(Ok, PageViews(t, f, offset, limit),
                         Some(Pagination(page, limit, total, CeilDiv(total, limit))))
  }

  /** The rows of one page of the listing. */
  function PageViews(t: Tables, f: CourseFilter, offset: nat, limit: nat): seq<CourseView>
  {
    var all := Ordered(t, f);
    var ids := PageOf(all, offset, limit);
    assert forall i :: 0 <= i < |ids| ==> ids[i] in all;
    Views(t, ids)
  }

  /** Only GET lists; OPTIONS is the preflight and anything else is 405. */
  lemma ListRejectsOtherVerbs(t: Tables, q: CatalogueQuery)
    ensures q.verb == Options ==> ListCourses(t, q).resp == PreflightOk
    ensures q.verb != Options && q.verb != Get ==> ListCourses(t, q).resp == Fail(405)
    ensures ListCourses(t, q).resp != Ok ==> ListCourses(t, q).rows == []
  {
  }

  /** Without paging parameters the first ten rows of the ordered listing
      come back, as page 1 of limit 10. */
  lemma ListDefaults(t: Tables, q: CatalogueQuery)
    requires q.verb == Get && q.page.None? && q.limit.None?
    ensures var out := ListCourses(t, q);
      var all := Ordered(t, FilterOf(q));
      out.resp == Ok && out.pagination.Some?
      && out.pagination.value.page == 1 && out.pagination.value.limit == 10
      && |out.rows| == (if |all| < 10 then |all| else 10)
      && forall i :: 0 <= i < |out.rows| ==> out.rows[i].id == all[i]
  {
  }

  /** The listing answers exactly when the limit is positive and the
      offset `(page - 1) * limit` is not negative. */
  lemma ListAnswersIff(t: Tables, q: CatalogueQuery)
    requires q.verb == Get
    ensures var limit := IntOr(q.limit, 10);
      ListCourses(t, q).resp == Ok <==> limit > 0 && (IntOr(q.page, 1) - 1) * limit >= 0
    ensures ListCourses(t, q).resp != Ok ==> ListCourses(t, q).resp == Fail(500)
  {
  }

  /** A page is the run of the list from its offset, at most `limit` long. */
  lemma PageOfAt(s: seq<int>, offset: nat, limit: nat)
    ensures |PageOf(s, offset, limit)| <= limit
    ensures forall i :: 0 <= i < |PageOf(s, offset, limit)| ==>
      offset + i < |s| && PageOf(s, offset, limit)[i] == s[offset + i]
  {
  }

  /** The rows of a page are the ordered listing from `offset` on, at most
      `limit` of them, each an eligible course shown with its teacher's name;
      they are newest first. */
  lemma PageViewsArePage(t: Tables, f: CourseFilter, offset: nat, limit: nat)
    ensures var rows := PageViews(t, f, offset, limit);
      var all := Ordered(t, f);
      |rows| <= limit
      && (forall i :: 0 <= i < |rows| ==>
            offset + i < |all| && rows[i].id == all[offset + i]
            && rows[i].id in EligibleIds(t, f) && Joined(t, rows[i].id)
            && rows[i].teacher == FullName(TeacherUser(t, rows[i].id)))
      && (forall i, j :: 0 <= i < j < |rows| ==> rows[i].createdAt >= rows[j].createdAt)
  {
    var all := Ordered(t, f);
    var ids := PageOf(all, offset, limit);
    PageIdsListed(t, f, offset, limit);
    var rows := PageViews(t, f, offset, limit);
    assert rows == Views(t, ids);
  }

  /** The courses of a page are listed ones, in the listing's order. */
  lemma PageIdsListed(t: Tables, f: CourseFilter, offset: nat, limit: nat)
    ensures var all := Ordered(t, f);
      var ids := PageOf(all, offset, limit);
      |ids| <= limit
      && (forall i :: 0 <= i < |ids| ==>
            offset + i < |all| && ids[i] == all[offset + i] && ids[i] in ListedIds(t, f))
      && (forall i, j :: 0 <= i < j < |ids| ==> t.courses[ids[i]].createdAt >= t.courses[ids[j]].createdAt)
  {
    var all := Ordered(t, f);
    var ids := PageOf(all, offset, limit);
    PageOfAt(all, offset, limit);
    PageWithin(all, offset, limit);
    PageKeepsOrder(t.courses, all, offset, limit);
  }

  /** Every course of a page is on the list. */
  lemma PageWithin(s: seq<int>, offset: nat, limit: nat)
    ensures forall i :: 0 <= i < |PageOf(s, offset, limit)| ==> PageOf(s, offset, limit)[i] in s
  {
    var p := PageOf(s, offset, limit);
    PageOfAt(s, offset, limit);
    forall i | 0 <= i < |p| ensures p[i] in s {
      var k := offset + i;
      assert p[i] == s[k];
    }
  }

  /** A page of a list ordered newest first is itself newest first. */
  lemma PageKeepsOrder(courses: map<int, Course>, s: seq<int>, offset: nat, limit: nat)
    requires forall i :: 0 <= i < |s| ==> s[i] in courses
    requires forall i, j :: 0 <= i < j < |s| ==> courses[s[i]].createdAt >= courses[s[j]].createdAt
    ensures var p := PageOf(s, offset, limit);
      forall i, j :: 0 <= i < j < |p| ==>
        p[i] in courses && p[j] in courses && courses[p[i]].createdAt >= courses[p[j]].createdAt
  {
    var p := PageOf(s, offset, limit);
    PageOfAt(s, offset, limit);
    forall i, j | 0 <= i < j < |p|
      ensures p[i] in courses && p[j] in courses && courses[p[i]].createdAt >= courses[p[j]].createdAt
    {
      var ki, kj := offset + i, offset + j;
      assert p[i] == s[ki] && p[j] == s[kj];
    }
  }

  /** A listing that answers returns the page at `offset = (page - 1) * limit`,
      and counts every eligible course into `total`. */
  lemma ListedRowsArePage(t: Tables, q: CatalogueQuery)
    requires q.verb == Get
    ensures var out := ListCourses(t, q);
      var limit := IntOr(q.limit, 10);
      var offset := (IntOr(q.page, 1) - 1) * limit;
      out.resp == Ok ==>
        offset >= 0 && limit > 0
        && out.rows == PageViews(t, FilterOf(q), offset, limit)
        && out.pagination.Some? && out.pagination.value.total == |EligibleIds(t, FilterOf(q))|
        && out.pagination.value.totalPages == CeilDiv(|EligibleIds(t, FilterOf(q))|, limit)
  {
    var out := ListCourses(t, q);
    var page := IntOr(q.page, 1);
    var limit := IntOr(q.limit, 10);
    var offset := (page - 1) * limit;
    if out.resp == Ok {
      var f := FilterOf(q);
      assert !(limit <= 0 || offset < 0);
      var total := |EligibleIds(t, f)|;
      assert out == CatalogueOutcome(Ok, PageViews(t, f, offset, limit),
                                     Some(Pagination(page, limit, total, CeilDiv(total, limit))));
    }
  }

  /** A course passes the filter exactly when it is public and matches every
      filter in force; with no filter every public course passes. */
  lemma EligibleMeans(q: CatalogueQuery, c: Course)
    ensures Eligible(c, FilterOf(q)) <==>
      c.isPublic
      && (Present(Sanitize(q.category)) ==> c.category == Sanitize(q.category).value)
      && (Present(Sanitize(q.search)) ==>
            Contains(c.title, Sanitize(q.search).value) || Contains(c.description, Sanitize(q.search).value))
      && (IntOr(q.teacherId, 0) != 0 ==> c.teacherId == q.teacherId.value)
    ensures q.category.None? && q.search.None? && q.teacherId.None? ==> (Eligible(c, FilterOf(q)) <==> c.isPublic)
  {
  }

  /** The count runs without the joins; with referential integrity it counts
      exactly the rows the listing pages through. */
  lemma TotalCountsListing(t: Tables, f: CourseFilter)
    requires CoursesRefOk(t) && TeachersRefOk(t)
    ensures ListedIds(t, f) == EligibleIds(t, f)
    ensures |Ordered(t, f)| == |EligibleIds(t, f)|
  {
  }

  /** `ceil(n / d)`: enough pages for every row, and no empty page beyond the
      last one. */
  lemma CeilDivIsCeiling(n: nat, d: nat)
    requires d > 0
    ensures CeilDiv(n, d) * d >= n
    ensures n > 0 ==> (CeilDiv(n, d) - 1) * d < n
    ensures CeilDiv(n, d) == 0 <==> n == 0
  {
    var r := CeilDiv(n, d);
    var m := (n + d - 1) % d;
    assert n + d - 1 == r * d + m && 0 <= m < d;
    assert r * d == n + d - 1 - m;
    assert (r - 1) * d == r * d - d;
  }

  /** The pages from `offset` on, `k` of them, one after another. */
  function PagesFrom(s: seq<int>, offset: nat, limit: nat, k: nat): seq<int>
    decreases k
  {
    if k == 0 then [] else PageOf(s, offset, limit) + PagesFrom(s, offset + limit, limit, k - 1)
  }

  /** The number of positions `k` pages of `limit` rows span. */
  function Span(k: nat, limit: nat): nat
  {
    if k == 0 then 0 else limit + Span(k - 1, limit)
  }

  lemma {:induction false} SpanIsProduct(k: nat, limit: nat)
    ensures Span(k, limit) == k * limit
  {
    if k > 0 {
      SpanIsProduct(k - 1, limit);
      assert k * limit == (k - 1) * limit + limit;
    }
  }

  /** Consecutive pages continue each other: `k` pages from `offset` are
      the slice from `offset` to `offset + k * limit`. */
  lemma {:induction false} PagesFromSlice(s: seq<int>, offset: nat, limit: nat, k: nat)
    ensures var lo := if offset < |s| then offset else |s|;
      var hi := if offset + Span(k, limit) < |s| then offset + Span(k, limit) else |s|;
      PagesFrom(s, offset, limit, k) == s[lo..hi]
    decreases k
  {
    if k > 0 {
      PagesFromSlice(s, offset + limit, limit, k - 1);
      var n := |s|;
      var lo := if offset < n then offset else n;
      var mid := if offset + limit < n then offset + limit else n;
      var hi := if offset + Span(k, limit) < n then offset + Span(k, limit) else n;
      assert offset + Span(k, limit) == offset + limit + Span(k - 1, limit);
      assert PageOf(s, offset, limit) == s[lo..mid];
      SlicesJoin(s, lo, mid, hi);
    }
  }

  lemma SlicesJoin(s: seq<int>, lo: nat, mid: nat, hi: nat)
    requires lo <= mid <= hi <= |s|
    ensures s[lo..mid] + s[mid..hi] == s[lo..hi]
  {
  }

  /** Pages 1 to `total_pages` hold every listed course exactly once, in
      order. */
  lemma PagesCoverListing(s: seq<int>, limit: nat)
    requires limit > 0
    ensures PagesFrom(s, 0, limit, CeilDiv(|s|, limit)) == s
  {
    CeilDivIsCeiling(|s|, limit);
    SpanIsProduct(CeilDiv(|s|, limit), limit);
    PagesFromSlice(s, 0, limit, CeilDiv(|s|, limit));
  }

  /** Fifteen listed courses with limit 10 make two pages, the second
      holding five. */
  lemma FifteenCoursesTwoPages(s: seq<int>)
    requires |s| == 15
    ensures CeilDiv(|s|, 10) == 2
    ensures |PageOf(s, (2 - 1) * 10, 10)| == 5
  {
  }

  // ---- The search ----

  datatype SearchQuery = SearchQuery(verb: HttpMethod, q: Option<string>, category: Option<string>)

  /** One row of the search: the course and its teacher's names and specialty. */
  datatype SearchRow = SearchRow(id: int, course: Course, teacherFirstName: string,
                                 teacherLastName: string, specialty: string)

  datatype SearchOutcome = SearchOutcome(resp: Response, rows: seq<SearchRow>, count: nat)

  /** The sanitized search text, "" when absent. */
  function SearchText(q: SearchQuery): string
  {
    if q.q.Some? then Sanitize(q.q).value else ""
  }

  /** The search's `WHERE` clause. */
  predicate Matches(t: Tables, k: int, text: string, category: Option<string>)
  {
    Joined(t, k) && t.courses[k].isPublic
    && (Contains(t.courses[k].title, text) || Contains(t.courses[k].description, text)
        || Contains(TeacherUser(t, k).firstName, text) || Contains(TeacherUser(t, k).lastName, text))
    && (category.Some? ==> t.courses[k].category == category.value)
  }

  function SearchIds(t: Tables, text: string, category: Option<string>): set<int>
  {
    set k | k in t.courses && Matches(t, k, text, category)
  }

  function SearchRowOf(t: Tables, k: int): SearchRow
    requires Joined(t, k)
  {
    SearchRow(k, t.courses[k], TeacherUser(t, k).firstName, TeacherUser(t, k).lastName,
              t.teachers[t.courses[k].teacherId].specialty)
  }

  /** The found courses' rows, newest first. */
  function FoundRows(t: Tables, found: set<int>): (rows: seq<SearchRow>)
    requires forall k :: k in found ==> Joined(t, k)
  {
    assert forall k :: k in found ==> k in t.courses by {
      forall k | k in found ensures k in t.courses {
        assert Joined(t, k);
      }
    }
    var ids := NewestFirst(t, found);
    assert forall i :: 0 <= i < |ids| ==> Joined(t, ids[i]) by {
      forall i | 0 <= i < |ids| ensures Joined(t, ids[i]) {
        assert ids[i] in ids;
      }
    }
    seq(|ids|, i requires 0 <= i < |ids| => SearchRowOf(t, ids[i]))
  }

  /** Each found course comes back once, with its row as stored, newest first. */
  lemma FoundRowsAreFound(t: Tables, found: set<int>)
    requires forall k :: k in found ==> Joined(t, k)
    ensures var rows := FoundRows(t, found);
      |rows| == |found|
      && (forall k :: (exists i :: 0 <= i < |rows| && rows[i].id == k) <==> k in found)
      && (forall i :: 0 <= i < |rows| ==> rows[i].id in found && rows[i].course == t.courses[rows[i].id])
      && (forall i, j :: 0 <= i < j < |rows| ==> rows[i].course.createdAt >= rows[j].course.createdAt)
  {
    var ids := NewestFirst(t, found);
    var rows := FoundRows(t, found);
    assert forall k :: k in found ==> k in t.courses by {
      forall k | k in found ensures k in t.courses {
        assert Joined(t, k);
      }
    }
    FoundRowsFollowIds(t, found);
    forall k | k in found ensures exists i :: 0 <= i < |rows| && rows[i].id == k {
      var i :| 0 <= i < |ids| && ids[i] == k;
      assert rows[i].id == k;
    }
    forall i | 0 <= i < |rows| ensures rows[i].id in found {
      assert rows[i].id == ids[i];
      assert ids[i] in ids;
    }
  }

  /** Row `i` of the search is the row of the `i`-th newest found course. */
  lemma FoundRowsFollowIds(t: Tables, found: set<int>)
    requires forall k :: k in found ==> Joined(t, k)
    requires forall k :: k in found ==> k in t.courses
    ensures var ids := NewestFirst(t, found);
      var rows := FoundRows(t, found);
      |rows| == |ids|
      && forall i :: 0 <= i < |rows| ==> rows[i].id == ids[i] && rows[i].course == t.courses[ids[i]]
  {
  }

  function SearchCourses(t: Tables, q: SearchQuery): SearchOutcome
  {
    var pre := Preflight(q.verb, {Get});
    if pre.Some? then SearchOutcome(pre.value, [], 0)
    else
      var rows := FoundRows(t, SearchIds(t, SearchText(q), Truthy(Sanitize(q.category))));
      SearchOutcome(Ok, rows, |rows|)
  }

  /** The search answers every GET with the rows of the matching courses,
      and `count` is the number of rows. */
  lemma SearchAnswers(t: Tables, q: SearchQuery)
    requires q.verb == Get
    ensures var out := SearchCourses(t, q);
      out.resp == Ok && out.count == |out.rows|
      && out.rows == FoundRows(t, SearchIds(t, SearchText(q), Truthy(Sanitize(q.category))))
  {
  }

  /** Only public courses match, and a truthy category only its own courses. */
  lemma SearchOnlyPublic(t: Tables, k: int, text: string, category: Option<string>)
    requires k in SearchIds(t, text, category)
    ensures t.courses[k].isPublic
    ensures category.Some? ==> t.courses[k].category == category.value
    ensures Contains(t.courses[k].title, text) || Contains(t.courses[k].description, text)
            || Contains(TeacherUser(t, k).firstName, text) || Contains(TeacherUser(t, k).lastName, text)
  {
  }

  /** With no search text every public course with its joins matches, and
      a truthy category keeps exactly the courses of that category. */
  lemma SearchEmptyQueryMatchesAll(t: Tables, k: int, category: Option<string>)
    requires Joined(t, k)
    ensures Matches(t, k, "", category) <==>
      t.courses[k].isPublic && (category.Some? ==> t.courses[k].category == category.value)
  {
    ContainsEmpty(t.courses[k].title);
  }

  /** An absent `q` is the empty search. */
  lemma SearchDefaultIsEmpty(q: SearchQuery)
    requires q.q.None?
    ensures SearchText(q) == ""
  {
  }
}
