/** The student dashboard of the front end (frontend/js/student.js): text
    truncation, the quiz countdown, the status shown on quiz and assignment
    rows, the list of courses still open to the student, and the answers
    collected when a quiz is submitted. JSON values received from the
    backend are kept with their JavaScript type, because the page compares
    some of them with `===`. */
module StudentPage {
  import opened Common
  import opened Text

  /** A value of a field of a JSON response. */
  datatype JsValue = JsNull | JsBool(b: bool) | JsNum(n: int) | JsStr(s: string)

  /** JavaScript truthiness: `null`, `false`, `0` and `''` are false. */
  predicate Truthy(v: JsValue)
  {
    match v
    case JsNull => false
    case JsBool(b) => b
    case JsNum(n) => n != 0
    case JsStr(s) => s != []
  }

  // Truncation.

  /** `text.substring(0, m)` for `m < |text|`: a negative end counts as 0. */
  function FirstChars(text: string, m: int): (r: string)
    requires m < |text|
    ensures |r| == (if m < 0 then 0 else m) && r == text[..|r|]
  {
    if m < 0 then [] else text[..m]
  }

  /** `truncateText(text, maxLength)`. */
  function TruncateText(text: string, maxLength: int): string
  {
    if text == [] || |text| <= maxLength then text
    else JsTrim(FirstChars(text, maxLength)) + "..."
  }

  /** A text that fits is returned as it is. */
  lemma TruncateKeepsShort(text: string, maxLength: int)
    requires |text| <= maxLength
    ensures TruncateText(text, maxLength) == text
  {
  }

  /** A longer text becomes a part of its first `maxLength` characters (none
      when `maxLength` is negative), with no whitespace at either end,
      followed by "...". */
  lemma {:induction false} TruncateShortens(text: string, maxLength: int, r: string)
    requires text != [] && |text| > maxLength
    requires r == TruncateText(text, maxLength)
    ensures |r| >= 3 && r[|r| - 3..] == "..."
    ensures maxLength >= 0 ==> |r| <= maxLength + 3 && Contains(text[..maxLength], r[..|r| - 3])
    ensures maxLength < 0 ==> r == "..."
    ensures |r| > 3 ==> !IsJsSpace(r[0]) && !IsJsSpace(r[|r| - 4])
  {
    var cut := FirstChars(text, maxLength);
    var t := JsTrim(cut);
    TrimmedCore(cut, t);
    Ellipsis(r, t);
    if maxLength >= 0 {
      assert cut == text[..maxLength];
    }
  }

  /** What `trim` leaves: a part of the string, without whitespace at its ends. */
  lemma TrimmedCore(cut: string, t: string)
    requires t == JsTrim(cut)
    ensures |t| <= |cut| && Contains(cut, t)
    ensures t != [] ==> !IsJsSpace(t[0]) && !IsJsSpace(t[|t| - 1])
  {
    TrimOccurs(cut, IsJsSpace);
  }

  lemma Ellipsis(r: string, t: string)
    requires r == t + "..."
    ensures |r| == |t| + 3 && r[..|r| - 3] == t && r[|r| - 3..] == "..."
    ensures |r| > 3 ==> r[0] == t[0] && r[|r| - 4] == t[|t| - 1]
  {
  }

  // The quiz countdown.

  /** `String(n).padStart(2, '0')` of the minutes, ':', and of the seconds. */
  function Clock(remaining: nat): string
  {
    Pad2(remaining / 60) + ":" + Pad2(remaining % 60)
  }

  /** What the timer shows after `elapsed` of `seconds` seconds: "00:00" and
      the quiz is submitted once nothing remains; otherwise MM:SS, in the
      warning colour under a minute. */
  datatype TimerTick = Expired | Running(display: string, warning: bool)

  function Tick(seconds: int, elapsed: int): TimerTick
  {
    var remaining := seconds - elapsed;
    if remaining <= 0 then Expired
    else Running(Clock(remaining), remaining < 60)
  }

  /** Reads a display back: digits for the minutes, ':', and two digits for
      the seconds below 60. */
  function ReadClock(c: string): Option<nat>
  {
    if |c| >= 5 && c[|c| - 3] == ':' && AllDigits(c[..|c| - 3]) && AllDigits(c[|c| - 2..])
       && DecimalValue(c[|c| - 2..]) < 60
    then Some(60 * DecimalValue(c[..|c| - 3]) + DecimalValue(c[|c| - 2..]))
    else None
  }

  lemma SecondsTwoDigits(n: nat)
    requires n < 60
    ensures |Pad2(n)| == 2
  {
    if n >= 10 {
      assert |DecimalString(n / 10)| == 1;
    }
  }

  /** The clock is the minutes, zero-padded to at least two digits, a ':',
      and the seconds in exactly two digits, and it reads back as the
      remaining time. */
  lemma ClockReadsBack(remaining: nat)
    ensures ReadClock(Clock(remaining)) == Some(remaining)
  {
    var mm, ss := Pad2(remaining / 60), Pad2(remaining % 60);
    SecondsTwoDigits(remaining % 60);
    var c := mm + ":" + ss;
    assert c[..|c| - 3] == mm && c[|c| - 2..] == ss && c[|c| - 3] == ':' by {
      assert |c| - 3 == |mm|;
    }
    assert remaining == 60 * (remaining / 60) + remaining % 60;
  }

  /** The timer submits exactly when nothing remains, shows the clock of the
      remaining time otherwise, and turns to the warning colour in the last
      minute. */
  lemma TickShows(seconds: int, elapsed: int)
    ensures Tick(seconds, elapsed).Expired? <==> seconds - elapsed <= 0
    ensures seconds - elapsed > 0 ==>
      Tick(seconds, elapsed).display == Clock(seconds - elapsed)
      && (Tick(seconds, elapsed).warning <==> seconds - elapsed < 60)
  {
  }

  /** The text shown when time is up. */
  const ExpiredDisplay := "00:00"

  lemma ExpiredIsClockZero()
    ensures Clock(0) == ExpiredDisplay
  {
  }

  /** Different remaining times show different texts, so the display can be
      read back; in particular a running timer never shows "00:00". */
  lemma ClockInjective(a: nat, b: nat)
    requires Clock(a) == Clock(b)
    ensures a == b
  {
    ClockReadsBack(a);
    ClockReadsBack(b);
    assert Some(a) == ReadClock(Clock(a)) == ReadClock(Clock(b)) == Some(b);
  }

  lemma RunningNeverShowsZero(seconds: int, elapsed: int)
    requires seconds - elapsed > 0
    ensures Tick(seconds, elapsed).display != ExpiredDisplay
  {
    if Clock(seconds - elapsed) == ExpiredDisplay {
      ExpiredIsClockZero();
      ClockInjective(seconds - elapsed, 0);
    }
  }

  /** Under 100 minutes the display has the five characters of MM:SS. */
  lemma ClockWidth(remaining: nat)
    requires remaining < 6000
    ensures |Clock(remaining)| == 5
  {
  }

  /** What JavaScript's `ToNumber` gives for the values a response carries:
      a whole number, or NaN. */
  datatype JsNumber = Whole(n: int) | NaN

  /** `Number(s)` on a string: the whitespace around it is ignored, a blank
      string is 0, and an optional sign followed by decimal digits is that
      integer; anything else is NaN. */
  function StringToNumber(s: string): JsNumber
  {
    var t := JsTrim(s);
    if t == [] then Whole(0)
    else if (t[0] == '-' || t[0] == '+') && |t| > 1 && AllDigits(t[1..]) then
      var v: int := DecimalValue(t[1..]);
      Whole(if t[0] == '-' then -v else v)
    else if AllDigits(t) then Whole(DecimalValue(t))
    else NaN
  }

  /** `ToNumber`: null is 0, a boolean 1 or 0, a string as `Number` reads it. */
  function ToNumber(v: JsValue): JsNumber
  {
    match v
    case JsNull => Whole(0)
    case JsBool(b) => Whole(if b then 1 else 0)
    case JsNum(n) => Whole(n)
    case JsStr(s) => StringToNumber(s)
  }

  /** Printing a natural number and reading it back with `Number` gives the
      number, whatever whitespace surrounds it. */
  lemma DecimalTextToNumber(k: nat)
    ensures StringToNumber(DecimalString(k)) == Whole(k)
  {
    var d := DecimalString(k);
    TrimStartNoop(d, IsJsSpace);
    assert TrimEnd(d, IsJsSpace) == d;
    DecimalRoundTrip(k);
  }

  /** `if (quiz.time_limit) startQuizTimer(quiz.time_limit * 60)`: the
      countdown starts exactly for a truthy time limit, from `ToNumber` of it
      times 60, which is NaN when the limit does not read as a number. */
  function TimerSeconds(timeLimit: JsValue): (r: Option<JsNumber>)
    ensures r.Some? <==> Truthy(timeLimit)
    ensures r == Some(NaN) <==> Truthy(timeLimit) && ToNumber(timeLimit).NaN?
    ensures r.Some? && r.value.Whole? ==>
      ToNumber(timeLimit).Whole? && r.value.n == ToNumber(timeLimit).n * 60
  {
    if !Truthy(timeLimit) then None
    else match ToNumber(timeLimit)
      case Whole(n) => Some(Whole(n * 60))
      case NaN => Some(NaN)
  }

  /** A time limit sent as a number or as its decimal text starts a countdown
      of that many minutes. */
  lemma {:induction false} TimerFromMinutes(k: nat)
    ensures k != 0 ==> TimerSeconds(JsNum(k)) == Some(Whole(60 * k))
    ensures TimerSeconds(JsStr(DecimalString(k))) == Some(Whole(60 * k))
  {
    DecimalTextToNumber(k);
    TextTimer(DecimalString(k), k);
  }

  lemma TextTimer(s: string, n: int)
    requires s != [] && StringToNumber(s) == Whole(n)
    ensures TimerSeconds(JsStr(s)) == Some(Whole(60 * n))
  {
  }

  /** `true` starts a countdown of one minute; 0, "", false and null start
      none. */
  lemma TimerOfOtherValues()
    ensures TimerSeconds(JsBool(true)) == Some(Whole(60))
    ensures TimerSeconds(JsNum(0)) == None && TimerSeconds(JsStr("")) == None
    ensures TimerSeconds(JsNull) == None && TimerSeconds(JsBool(false)) == None
  {
  }

  /** The text "0" is truthy, so a quiz whose time limit arrives as "0"
      starts a countdown of 0 seconds, and the first tick submits it. */
  lemma ZeroTextSubmitsAtOnce(elapsed: int)
    requires elapsed >= 0
    ensures TimerSeconds(JsStr("0")) == Some(Whole(0))
    ensures Tick(0, elapsed) == Expired
  {
    DecimalTextToNumber(0);
  }

  /** What a tick of `startQuizTimer(seconds)` shows when `seconds` may be
      NaN: NaN is never `<= 0` nor `< 60`, and `String(NaN)` is "NaN". */
  function CountdownTick(seconds: JsNumber, elapsed: int): (r: TimerTick)
    ensures seconds.Whole? ==> r == Tick(seconds.n, elapsed)
  {
    match seconds
    case Whole(n) => Tick(n, elapsed)
    case NaN => Running("NaN:NaN", false)
  }

  /** A time limit that does not read as a number gives a countdown that
      never expires, so the quiz is never submitted by the timer. */
  lemma NaNTimerNeverSubmits(timeLimit: JsValue, elapsed: int)
    requires Truthy(timeLimit) && ToNumber(timeLimit).NaN?
    ensures TimerSeconds(timeLimit) == Some(NaN)
    ensures CountdownTick(TimerSeconds(timeLimit).value, elapsed) != Expired
  {
  }

  // Status shown on the rows.

  /** The badge of a row: done ("Complété" or "Soumis"), waiting ("En
      attente" or "À faire"), late ("En retard"), or none. */
  datatype Badge = Done | Waiting | Late | NoBadge

  /** A row's badge, whether it has an action button, and whether the score
      or grade is shown next to the badge. */
  datatype RowView = RowView(badge: Badge, button: bool, showsMark: bool)

  predicate HasSubmission(status: JsValue)
  {
    status == JsStr("submitted") || status == JsStr("graded")
  }

  /** `quiz.is_published === 1 || quiz.is_published === true`. */
  predicate IsPublishedFlag(v: JsValue)
  {
    v == JsNum(1) || v == JsBool(true)
  }

  /** The rule of `renderQuizzes`. */
  function QuizRow(isPublished: JsValue, submissionStatus: JsValue, score: JsValue): (r: RowView)
    ensures r.button <==> !HasSubmission(submissionStatus) && IsPublishedFlag(isPublished)
    ensures r.badge == Done <==> HasSubmission(submissionStatus)
    ensures r.showsMark ==> r.badge == Done
  {
    if HasSubmission(submissionStatus) then RowView(Done, false, Truthy(score))
    else if IsPublishedFlag(isPublished) then RowView(Waiting, true, false)
    else RowView(NoBadge, false, false)
  }

  /** The rule of `renderAssignments`; `overdue` is the comparison of the due
      date with the clock. */
  function AssignmentRow(submissionStatus: JsValue, overdue: bool, allowLate: JsValue, grade: JsValue): (r: RowView)
    ensures r.badge == Done <==> HasSubmission(submissionStatus)
    ensures r.badge == Late <==> !HasSubmission(submissionStatus) && overdue
    ensures r.badge == Waiting <==> !HasSubmission(submissionStatus) && !overdue
    ensures r.button <==> !HasSubmission(submissionStatus) && (!overdue || Truthy(allowLate))
    ensures r.showsMark ==> r.badge == Done
  {
    if HasSubmission(submissionStatus) then RowView(Done, false, Truthy(grade))
    else if overdue then RowView(Late, Truthy(allowLate), false)
    else RowView(Waiting, true, false)
  }

  /** The flag is compared by type: a published quiz whose flag arrives as
      the string "1" gets no start button. */
  lemma StringFlagHidesQuiz()
    ensures !QuizRow(JsStr("1"), JsNull, JsNull).button
    ensures QuizRow(JsNum(1), JsNull, JsNull).button
  {
  }

  // Courses open to the student.

  /** A course card of the catalogue, with its id already read by `parseInt`. */
  datatype CourseCard = CourseCard(id: int, title: string, teacher: string, requiresKey: bool)

  function CardIds(cards: seq<CourseCard>): (r: seq<int>)
    ensures |r| == |cards| && forall i :: 0 <= i < |cards| ==> r[i] == cards[i].id
  {
    if cards == [] then [] else [cards[0].id] + CardIds(cards[1..])
  }

  /** The filter of `loadAvailableCourses`: the catalogue cards whose id is
      not among `enrolledIds`, in catalogue order. */
  function Available(catalogue: seq<CourseCard>, enrolledIds: seq<int>): (r: seq<CourseCard>)
    ensures |r| <= |catalogue|
    ensures forall c :: c in r <==> c in catalogue && c.id !in enrolledIds
  {
    if catalogue == [] then []
    else if catalogue[0].id in enrolledIds then Available(catalogue[1..], enrolledIds)
    else [catalogue[0]] + Available(catalogue[1..], enrolledIds)
  }

  /** The available courses of a student enrolled in `enrolled`. */
  function AvailableFor(catalogue: seq<CourseCard>, enrolled: seq<CourseCard>): (r: seq<CourseCard>)
    ensures forall c :: c in r <==> c in catalogue && forall e :: e in enrolled ==> e.id != c.id
  {
    var ids := CardIds(enrolled);
    assert forall k :: k in ids <==> exists e :: e in enrolled && e.id == k by {
      forall k ensures k in ids <==> exists e :: e in enrolled && e.id == k {
        if k in ids {
          var i :| 0 <= i < |ids| && ids[i] == k;
          assert enrolled[i] in enrolled;
        }
      }
    }
    Available(catalogue, ids)
  }

  /** With nothing enrolled the whole catalogue is open. */
  lemma {:induction false} AvailableWhenNoneEnrolled(catalogue: seq<CourseCard>)
    ensures Available(catalogue, []) == catalogue
  {
    if catalogue != [] {
      AvailableWhenNoneEnrolled(catalogue[1..]);
    }
  }

  /** Enrolling in one more course removes exactly that course from the
      list and keeps the order of the rest. */
  lemma {:induction false} AvailableAfterEnrolling(catalogue: seq<CourseCard>, enrolledIds: seq<int>, k: int)
    ensures Available(catalogue, enrolledIds + [k]) == Available(Available(catalogue, enrolledIds), [k])
  {
    if catalogue != [] {
      AvailableAfterEnrolling(catalogue[1..], enrolledIds, k);
      var c := catalogue[0];
      var rest := Available(catalogue[1..], enrolledIds);
      if c.id !in enrolledIds {
        assert Available(catalogue, enrolledIds) == [c] + rest;
        assert ([c] + rest)[1..] == rest;
      }
    }
  }

  // Collecting the answers of a quiz.

  /** A question of the quiz being taken. */
  datatype QuizQuestion = QuizQuestion(id: int, qtype: QuestionType)

  /** Questions answered with a checked radio button. */
  predicate IsChoice(q: QuizQuestion)
  {
    q.qtype == MultipleChoice || q.qtype == TrueFalse
  }

  /** The form: `checked` maps a question id to the value of its checked
      radio button, `texts` maps it to the content of its text area. */
  datatype QuizForm = QuizForm(checked: map<int, string>, texts: map<int, string>)

  predicate Answered(q: QuizQuestion, f: QuizForm)
  {
    if IsChoice(q) then q.id in f.checked else q.id in f.texts
  }

  function AnswerOf(q: QuizQuestion, f: QuizForm): string
    requires Answered(q, f)
  {
    if IsChoice(q) then f.checked[q.id] else f.texts[q.id]
  }

  /** One step of the `forEach`: the answer of `q` recorded, if it has one. */
  function Record(answers: map<int, string>, q: QuizQuestion, f: QuizForm): map<int, string>
  {
    if Answered(q, f) then answers[q.id := AnswerOf(q, f)] else answers
  }

  /** The answers object after the `forEach` over `qs`. */
  function Collected(qs: seq<QuizQuestion>, f: QuizForm): map<int, string>
  {
    if qs == [] then map[] else Record(Collected(qs[..|qs| - 1], f), qs[|qs| - 1], f)
  }

  /** The loop of `submitQuiz` that fills `answers`. */
  method CollectAnswers(questions: seq<QuizQuestion>, f: QuizForm) returns (answers: map<int, string>)
    ensures answers == Collected(questions, f)
  {
    answers := map[];
    var i := 0;
    while i < |questions|
      invariant 0 <= i <= |questions|
      invariant answers == Collected(questions[..i], f)
    {
      assert questions[..i + 1][..i] == questions[..i];
      var q := questions[i];
      if IsChoice(q) {
        if q.id in f.checked {
          answers := answers[q.id := f.checked[q.id]];
        }
      } else {
        if q.id in f.texts {
          answers := answers[q.id := f.texts[q.id]];
        }
      }
      i := i + 1;
    }
    assert questions[..i] == questions;
  }

  /** A question has an entry exactly when it is answered: a choice question
      when one of its options is checked, a text question when its text area
      is there. */
  lemma {:induction false} CollectedKeys(qs: seq<QuizQuestion>, f: QuizForm)
    ensures forall k :: k in Collected(qs, f) <==> exists i :: 0 <= i < |qs| && qs[i].id == k && Answered(qs[i], f)
  {
    if qs != [] {
      var init := qs[..|qs| - 1];
      CollectedKeys(init, f);
      forall k ensures k in Collected(qs, f) <==> exists i :: 0 <= i < |qs| && qs[i].id == k && Answered(qs[i], f)
      {
        if exists i :: 0 <= i < |init| && init[i].id == k && Answered(init[i], f) {
          var i :| 0 <= i < |init| && init[i].id == k && Answered(init[i], f);
          assert qs[i] == init[i];
        }
        if exists i :: 0 <= i < |qs| && qs[i].id == k && Answered(qs[i], f) {
          var i :| 0 <= i < |qs| && qs[i].id == k && Answered(qs[i], f);
          if i < |init| {
            assert init[i] == qs[i];
          }
        }
      }
    }
  }

  predicate DistinctIds(qs: seq<QuizQuestion>)
  {
    forall i, j :: 0 <= i < j < |qs| ==> qs[i].id != qs[j].id
  }

  /** With distinct ids, every answered question's entry is its own answer. */
  lemma {:induction false} CollectedValues(qs: seq<QuizQuestion>, f: QuizForm)
    requires DistinctIds(qs)
    ensures forall i :: 0 <= i < |qs| && Answered(qs[i], f) ==>
      qs[i].id in Collected(qs, f) && Collected(qs, f)[qs[i].id] == AnswerOf(qs[i], f)
  {
    if qs != [] {
      var init := qs[..|qs| - 1];
      assert DistinctIds(init) by {
        forall i, j | 0 <= i < j < |init| ensures init[i].id != init[j].id {
          assert init[i] == qs[i] && init[j] == qs[j];
        }
      }
      CollectedValues(init, f);
      forall i | 0 <= i < |qs| && Answered(qs[i], f)
        ensures qs[i].id in Collected(qs, f) && Collected(qs, f)[qs[i].id] == AnswerOf(qs[i], f)
      {
        if i < |init| {
          assert init[i] == qs[i];
          assert qs[i].id != qs[|qs| - 1].id;
        }
      }
    }
  }

  /** Every text question whose text area is on the page is in the answers,
      even with an empty text; a choice question with nothing checked is not. */
  lemma TextAlwaysCollected(qs: seq<QuizQuestion>, f: QuizForm, i: int)
    requires 0 <= i < |qs|
    ensures !IsChoice(qs[i]) && qs[i].id in f.texts ==> qs[i].id in Collected(qs, f)
    ensures (forall j :: 0 <= j < |qs| && qs[j].id == qs[i].id ==> IsChoice(qs[j]) && qs[j].id !in f.checked)
            ==> qs[i].id !in Collected(qs, f)
  {
    CollectedKeys(qs, f);
  }
}
