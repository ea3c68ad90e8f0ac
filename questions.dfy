/** The teacher's question editor (backend/api/quizzes/questions.php): one
    endpoint that lists a quiz's questions with their options (GET), adds a
    question and its options in one transaction (POST) and removes a
    question (DELETE), each behind the teacher gate and an ownership check. */
module QuizQuestions {
  import opened Common
  import opened Request
  import opened Schema
  import opened StoreModule
  import opened Sorting

  /** One option of a POST body; `isCorrect` is None when the key is absent. */
  datatype OptionInput = OptionInput(text: string, isCorrect: Option<bool>)

  /** The fields the three methods read: the query's `quiz_id` for GET, the
      body for POST and DELETE. An absent key is None. */
  datatype QuestionsRequest = QuestionsRequest(
    verb: HttpMethod, quizId: Option<int>, question: Option<string>, questionType: Option<string>,
    points: Option<int>, explanation: Option<string>, orderIndex: Option<int>,
    options: Option<seq<OptionInput>>, questionId: Option<int>)

  datatype OptionView = OptionView(id: int, option: QuestionOption)

  /** A question row with the `options` key the GET loop adds to it. */
  datatype QuestionView = QuestionView(id: int, question: Question, options: seq<OptionView>)

  datatype QuestionsOutcome = QuestionsOutcome(tables: Tables, resp: Response,
                                               listing: Option<seq<QuestionView>>, questionId: Option<int>)

  // Ownership.

  /** `quizzes.id = :quiz_id AND course_id IN (SELECT id FROM courses WHERE
      teacher_id = :teacher_id)`; a caller without a teachers row binds null
      and owns nothing. */
  predicate OwnsQuiz(t: Tables, tid: Option<int>, qid: int)
  {
    tid.Some? && qid in t.quizzes && t.quizzes[qid].courseId in t.courses
    && t.courses[t.quizzes[qid].courseId].teacherId == tid.value
  }

  /** The join from the question through its quiz to the course's teacher. */
  predicate OwnsQuestion(t: Tables, tid: Option<int>, id: int)
  {
    id in t.questions && OwnsQuiz(t, tid, t.questions[id].quizId)
  }

  // GET.

  function OrderIndexes(t: Tables): map<int, int>
  {
    map k | k in t.questions :: t.questions[k].orderIndex
  }

  /** The quiz's question ids in listing order. */
  function ListingIds(t: Tables, qid: int): seq<int>
  {
    var ids := QuestionIdsOf(t, qid);
    SortByKey(OrderIndexes(t), ids)
  }

  /** The quiz's question ids, ascending. */
  function QuestionIdsOf(t: Tables, qid: int): (r: seq<int>)
    ensures forall i :: 0 <= i < |r| ==> r[i] in t.questions && t.questions[r[i]].quizId == qid
    ensures forall k :: k in t.questions && t.questions[k].quizId == qid ==> k in r
    ensures StrictlySorted(r)
  {
    var ids := set k | k in t.questions && t.questions[k].quizId == qid;
    var r := SortedIds(ids);
    assert forall i :: 0 <= i < |r| ==> r[i] in ids;
    r
  }

  /** The ids of the question's options, ascending. */
  function OptionIdsOf(t: Tables, id: int): (r: seq<int>)
    ensures forall i :: 0 <= i < |r| ==> r[i] in t.options && t.options[r[i]].questionId == id
    ensures forall k :: k in t.options && t.options[k].questionId == id ==> k in r
    ensures StrictlySorted(r)
  {
    var ids := set k | k in t.options && t.options[k].questionId == id;
    var r := SortedIds(ids);
    assert forall i :: 0 <= i < |r| ==> r[i] in ids;
    r
  }

  /** `SELECT * FROM question_options WHERE question_id = :question_id`. */
  function OptionsOf(t: Tables, id: int): (r: seq<OptionView>)
    ensures |r| == |OptionIdsOf(t, id)|
    ensures forall i :: 0 <= i < |r| ==> r[i].id == OptionIdsOf(t, id)[i] && r[i].option == t.options[r[i].id]
  {
    var ks := OptionIdsOf(t, id);
    seq(|ks|, i requires 0 <= i < |ks| => OptionView(ks[i], t.options[ks[i]]))
  }

  function ViewOf(t: Tables, id: int): QuestionView
    requires id in t.questions
  {
    QuestionView(id, t.questions[id], OptionsOf(t, id))
  }

  /** What the GET answers for an owned quiz: each question in order with
      its options. */
  function Listing(t: Tables, qid: int): seq<QuestionView>
  {
    var ids := ListingIds(t, qid);
    ListingIdsIn(t, qid);
    seq(|ids|, i requires 0 <= i < |ids| => ViewOf(t, ids[i]))
  }

  lemma ListingIdsIn(t: Tables, qid: int)
    ensures forall i :: 0 <= i < |ListingIds(t, qid)| ==> ListingIds(t, qid)[i] in t.questions
  {
    var ids := QuestionIdsOf(t, qid);
    var r := ListingIds(t, qid);
    forall i | 0 <= i < |r| ensures r[i] in t.questions {
      assert r[i] in multiset(r);
      assert r[i] in ids;
    }
  }

  // POST.

  /** The question row with the defaults for absent keys: type
      multiple_choice, 1 point, no explanation, position 0. */
  function NewQuestion(qid: int, rq: QuestionsRequest): Question
  {
    Question(qid, TextOf(rq.question),
             ParseQuestionType(if rq.questionType.Some? then rq.questionType.value else "multiple_choice"),
             IntOr(rq.points, 1), rq.explanation, IntOr(rq.orderIndex, 0))
  }

  /** An option row; `is_correct` is false unless given. */
  function NewOption(questionId: int, o: OptionInput): QuestionOption
  {
    QuestionOption(questionId, o.text, BoolOr(o.isCorrect, false))
  }

  /** The options table after the inserts of `ins`, the i-th under id
      `first + i`. */
  function OptionsAdded(opts: map<int, QuestionOption>, first: int, questionId: int,
                        ins: seq<OptionInput>): map<int, QuestionOption>
    decreases |ins|
  {
    if ins == [] then opts
    else OptionsAdded(opts, first, questionId, ins[..|ins| - 1])[first + |ins| - 1 := NewOption(questionId, ins[|ins| - 1])]
  }

  /** Teacher id of the session's user. */
  ghost function CallerTeacher(t: Tables, s: Session): Option<int>
  {
    if s.userId.Some? then TeacherOf(t, s.userId.value) else None
  }

  function Answer(t: Tables, resp: Response): QuestionsOutcome
  {
    QuestionsOutcome(t, resp, None, None)
  }

  ghost function QuestionsSpec(t: Tables, s: Session, rq: QuestionsRequest): QuestionsOutcome
  {
    if rq.verb == Options then Answer(t, PreflightOk)
    else if !TeacherSession(s) then Answer(t, Fail(403))
    else if rq.verb == Get then GetSpec(t, s, rq)
    else if rq.verb == HttpMethod.Post then PostSpec(t, s, rq)
    else if rq.verb == Delete then DeleteSpec(t, s, rq)
    else Answer(t, Response(200, NoBody))
  }

  ghost function GetSpec(t: Tables, s: Session, rq: QuestionsRequest): QuestionsOutcome
  {
    var qid := IntOr(rq.quizId, 0);
    if qid == 0 then Answer(t, Fail(400))
    else if !OwnsQuiz(t, CallerTeacher(t, s), qid) then Answer(t, Fail(403))
    else QuestionsOutcome(t, Ok, Some(Listing(t, qid)), None)
  }

  ghost function PostSpec(t: Tables, s: Session, rq: QuestionsRequest): QuestionsOutcome
  {
    if rq.quizId.None? || rq.question.None? || rq.options.None? then Answer(t, Fail(400))
    else
      var qid := rq.quizId.value;
      if !OwnsQuiz(t, CallerTeacher(t, s), qid) then Answer(t, Fail(403))
      else
        QuestionsOutcome(Posted(t, qid, rq.options.value, rq), Ok, None, Some(t.nextId))
  }

  /** The tables after the transaction: the question under the fresh id
      `n`, its options under the ids after it. */
  function Posted(t: Tables, qid: int, ins: seq<OptionInput>, rq: QuestionsRequest): Tables
  {
    var n := t.nextId;
    t.(questions := t.questions[n := NewQuestion(qid, rq)],
       options := OptionsAdded(t.options, n + 1, n, ins),
       nextId := n + 1 + |ins|)
  }

  ghost function DeleteSpec(t: Tables, s: Session, rq: QuestionsRequest): QuestionsOutcome
  {
    var id := IntOr(rq.questionId, 0);
    if id == 0 then Answer(t, Fail(400))
    else if !OwnsQuestion(t, CallerTeacher(t, s), id) then Answer(t, Fail(403))
    else Answer(t.(questions := t.questions - {id}), Ok)
  }

  // The endpoint.

  method HandleQuestions(db: Store, s: Session, rq: QuestionsRequest)
    returns (resp: Response, listing: Option<seq<QuestionView>>, questionId: Option<int>)
    requires db.Valid()
    modifies db
    ensures var out := QuestionsSpec(old(db.T()), s, rq);
      db.T() == out.tables && resp == out.resp && listing == out.listing && questionId == out.questionId
  {
    listing, questionId := None, None;
    if rq.verb == Options {
      resp := PreflightOk;
    } else if !(s.userId.Some? && s.role == Some(Teacher)) {
      resp := Fail(403);
    } else {
      var tid := db.LookupTeacher(s.userId.value);
      if rq.verb == Get {
        resp, listing := ListQuestions(db, s, tid, rq);
      } else if rq.verb == HttpMethod.Post {
        resp, questionId := PostQuestion(db, s, tid, rq);
      } else if rq.verb == Delete {
        resp := DeleteQuestion(db, s, tid, rq);
      } else {
        resp := Response(200, NoBody);
      }
    }
  }

  /** The GET branch; `tid` is the caller's teachers row. */
  method ListQuestions(db: Store, s: Session, tid: Option<int>, rq: QuestionsRequest)
    returns (resp: Response, listing: Option<seq<QuestionView>>)
    requires tid == CallerTeacher(db.T(), s)
    ensures var out := GetSpec(db.T(), s, rq);
      db.T() == out.tables && resp == out.resp && listing == out.listing
  {
    var qid := IntOr(rq.quizId, 0);
    if qid == 0 {
      return Fail(400), None;
    }
    if !OwnsQuiz(db.T(), tid, qid) {
      return Fail(403), None;
    }
    ListingIdsIn(db.T(), qid);
    var views := AttachOptions(db, ListingIds(db.T(), qid));
    assert views == Listing(db.T(), qid);
    return Ok, Some(views);
  }

  /** The POST branch. */
  method PostQuestion(db: Store, s: Session, tid: Option<int>, rq: QuestionsRequest)
    returns (resp: Response, questionId: Option<int>)
    requires tid == CallerTeacher(db.T(), s)
    modifies db
    ensures var out := PostSpec(old(db.T()), s, rq);
      db.T() == out.tables && resp == out.resp && questionId == out.questionId && out.listing.None?
  {
    if rq.quizId.None? || rq.question.None? || rq.options.None? {
      return Fail(400), None;
    }
    var qid := rq.quizId.value;
    if !OwnsQuiz(db.T(), tid, qid) {
      return Fail(403), None;
    }
    var n := AddQuestion(db, qid, rq, rq.options.value);
    return Ok, Some(n);
  }

  /** The DELETE branch. */
  method DeleteQuestion(db: Store, s: Session, tid: Option<int>, rq: QuestionsRequest) returns (resp: Response)
    requires tid == CallerTeacher(db.T(), s)
    modifies db
    ensures var out := DeleteSpec(old(db.T()), s, rq);
      db.T() == out.tables && resp == out.resp && out.listing.None? && out.questionId.None?
  {
    var id := IntOr(rq.questionId, 0);
    if id == 0 {
      return Fail(400);
    }
    if !OwnsQuestion(db.T(), tid, id) {
      return Fail(403);
    }
    db.questions := db.questions - {id};
    return Ok;
  }

  /** The `foreach ($questions as &$question)` loop: each fetched question
      gets its options. */
  method AttachOptions(db: Store, ids: seq<int>) returns (views: seq<QuestionView>)
    requires forall i :: 0 <= i < |ids| ==> ids[i] in db.questions
    ensures |views| == |ids| && forall i :: 0 <= i < |ids| ==> views[i] == ViewOf(db.T(), ids[i])
  {
    views := [];
    for i := 0 to |ids|
      invariant |views| == i && forall j :: 0 <= j < i ==> views[j] == ViewOf(db.T(), ids[j])
    {
      var opts := OptionsOf(db.T(), ids[i]);
      views := views + [QuestionView(ids[i], db.questions[ids[i]], opts)];
    }
  }

  /** `beginTransaction` to `commit`: the question, then its options one by
      one, under consecutive ids. */
  method AddQuestion(db: Store, qid: int, rq: QuestionsRequest, ins: seq<OptionInput>) returns (n: int)
    modifies db
    ensures n == old(db.nextId)
    ensures db.T() == old(db.T()).(questions := old(db.questions)[n := NewQuestion(qid, rq)],
                                   options := OptionsAdded(old(db.options), n + 1, n, ins),
                                   nextId := n + 1 + |ins|)
  {
    n := db.nextId;
    db.questions := db.questions[n := NewQuestion(qid, rq)];
    db.nextId := n + 1;
    ghost var t1 := db.T();
    for i := 0 to |ins|
      invariant db.T() == t1.(options := OptionsAdded(t1.options, n + 1, n, ins[..i]), nextId := n + 1 + i)
    {
      assert ins[..i + 1][..i] == ins[..i];
      db.options := db.options[db.nextId := NewOption(n, ins[i])];
      db.nextId := db.nextId + 1;
    }
    assert ins[..|ins|] == ins;
  }

  // The gate and the refusals.

  /** Every method but OPTIONS answers 403 to a caller who is not a
      logged-in teacher, and no refusal writes anything. */
  lemma QuestionsGate(t: Tables, s: Session, rq: QuestionsRequest)
    ensures var out := QuestionsSpec(t, s, rq);
      (rq.verb != Options && !TeacherSession(s) ==> out == Answer(t, Fail(403)))
      && (out.resp != Ok ==> out.tables == t && out.listing.None? && out.questionId.None?)
  {
  }

  /** GET answers 400 without a quiz id and 403 for a quiz outside the
      caller's courses; otherwise it lists, and it never writes. */
  lemma GetRefusals(t: Tables, s: Session, rq: QuestionsRequest)
    ensures var out := GetSpec(t, s, rq);
      var qid := IntOr(rq.quizId, 0);
      out.tables == t
      && (out.resp == Fail(400) <==> qid == 0)
      && (out.resp == Fail(403) <==> qid != 0 && !OwnsQuiz(t, CallerTeacher(t, s), qid))
      && (out.resp == Ok <==> qid != 0 && OwnsQuiz(t, CallerTeacher(t, s), qid))
  {
  }

  /** The listing holds every question of the quiz exactly once, in
      `order_index` order, each with exactly its own options. */
  lemma ListingIsComplete(t: Tables, qid: int)
    ensures var l := Listing(t, qid);
      (forall k :: k in t.questions && t.questions[k].quizId == qid <==> exists i :: 0 <= i < |l| && l[i].id == k)
      && (forall i, j :: 0 <= i < j < |l| ==> l[i].id != l[j].id)
      && (forall i, j :: 0 <= i < j < |l| ==> l[i].question.orderIndex <= l[j].question.orderIndex)
      && (forall i :: 0 <= i < |l| ==> l[i].question == t.questions[l[i].id] && l[i].options == OptionsOf(t, l[i].id))
      && (forall i, j :: 0 <= i < j < |l| && l[i].question.orderIndex == l[j].question.orderIndex ==> l[i].id < l[j].id)
  {
    ListingMembers(t, qid);
    ListingDistinct(t, qid);
    ListingOrdered(t, qid);
    ListingTiesById(t, qid);
  }

  /** Questions of the same order_index are listed by ascending id. */
  lemma ListingTiesById(t: Tables, qid: int)
    ensures var l := Listing(t, qid);
      forall i, j :: 0 <= i < j < |l| && l[i].question.orderIndex == l[j].question.orderIndex ==> l[i].id < l[j].id
  {
    var l := Listing(t, qid);
    var r := ListingIds(t, qid);
    var o := OrderIndexes(t);
    var ids := QuestionIdsOf(t, qid);
    assert r == SortByKey(o, ids);
    ListingAt(t, qid);
    ListingOrdered(t, qid);
    SortByKeyTiesAscending(o, ids);
    forall i, j | 0 <= i < j < |l| && l[i].question.orderIndex == l[j].question.orderIndex
      ensures l[i].id < l[j].id
    {
      assert l[i].id == r[i] && l[j].id == r[j];
      assert l[i].question == t.questions[r[i]] && l[j].question == t.questions[r[j]];
      assert o[r[i]] == o[r[j]];
    }
  }

  lemma ListingMembers(t: Tables, qid: int)
    ensures var l := Listing(t, qid);
      forall k :: k in t.questions && t.questions[k].quizId == qid <==> exists i :: 0 <= i < |l| && l[i].id == k
  {
    var l := Listing(t, qid);
    var r := ListingIds(t, qid);
    ListingIdsExact(t, qid);
    ListingAt(t, qid);
    forall k ensures k in t.questions && t.questions[k].quizId == qid <==> exists i :: 0 <= i < |l| && l[i].id == k {
      if k in r {
        var i :| 0 <= i < |r| && r[i] == k;
        assert l[i].id == k;
      }
    }
  }

  /** Entry `i` of the listing is the view of the `i`-th ordered id. */
  lemma ListingAt(t: Tables, qid: int)
    ensures var l := Listing(t, qid);
      var r := ListingIds(t, qid);
      |l| == |r| && forall i :: 0 <= i < |l| ==> r[i] in t.questions && l[i].id == r[i]
    ensures forall i :: 0 <= i < |Listing(t, qid)| ==> Listing(t, qid)[i] == ViewOf(t, ListingIds(t, qid)[i])
  {
    ListingIdsIn(t, qid);
  }

  /** The ordered ids are exactly the quiz's questions. */
  lemma ListingIdsExact(t: Tables, qid: int)
    ensures forall k :: k in ListingIds(t, qid) <==> k in t.questions && t.questions[k].quizId == qid
  {
    var ids := QuestionIdsOf(t, qid);
    var r := ListingIds(t, qid);
    forall k ensures k in r <==> k in ids {
      assert k in r <==> k in multiset(r);
      assert k in ids <==> k in multiset(ids);
    }
  }

  lemma ListingDistinct(t: Tables, qid: int)
    ensures var l := Listing(t, qid);
      forall i, j :: 0 <= i < j < |l| ==> l[i].id != l[j].id
  {
    var l := Listing(t, qid);
    var ids := QuestionIdsOf(t, qid);
    var r := ListingIds(t, qid);
    ListingIdsIn(t, qid);
    forall i, j | 0 <= i < j < |l| ensures l[i].id != l[j].id {
      assert l[i].id == r[i] && l[j].id == r[j];
      DistinctPermuted(ids, r, i, j);
    }
  }

  lemma ListingOrdered(t: Tables, qid: int)
    ensures var l := Listing(t, qid);
      (forall i, j :: 0 <= i < j < |l| ==> l[i].question.orderIndex <= l[j].question.orderIndex)
      && (forall i :: 0 <= i < |l| ==> l[i].question == t.questions[l[i].id] && l[i].options == OptionsOf(t, l[i].id))
  {
    var l := Listing(t, qid);
    var r := ListingIds(t, qid);
    ListingIdsIn(t, qid);
    var order := OrderIndexes(t);
    assert KeySorted(order, r);
    assert forall i :: 0 <= i < |l| ==> l[i] == ViewOf(t, r[i]) && order[r[i]] == l[i].question.orderIndex;
  }

  /** A permutation of a list without repeats has none either. */
  lemma DistinctPermuted(a: seq<int>, b: seq<int>, i: int, j: int)
    requires StrictlySorted(a) && multiset(a) == multiset(b) && 0 <= i < j < |b|
    ensures b[i] != b[j]
  {
    StrictlySortedMultiset(a);
    var y := b[j];
    assert multiset(a)[y] == multiset(set z | z in a)[y];
    assert multiset(b)[y] <= 1;
    assert b == b[..j] + [y] + b[j + 1..];
    assert multiset(b)[y] == multiset(b[..j])[y] + 1 + multiset(b[j + 1..])[y];
    assert b[i] == b[..j][i];
  }

  /** Each option listed under a question is one of its rows, and each of
      its rows is listed. */
  lemma OptionsOfAreOwn(t: Tables, id: int)
    ensures var os := OptionsOf(t, id);
      (forall i :: 0 <= i < |os| ==>
         os[i].id in t.options && os[i].option == t.options[os[i].id] && os[i].option.questionId == id)
      && (forall k :: k in t.options && t.options[k].questionId == id ==> exists i :: 0 <= i < |os| && os[i].id == k)
  {
    var os := OptionsOf(t, id);
    var ks := OptionIdsOf(t, id);
    forall k | k in t.options && t.options[k].questionId == id
      ensures exists i :: 0 <= i < |os| && os[i].id == k
    {
      var i :| 0 <= i < |ks| && ks[i] == k;
      assert os[i].id == k;
    }
  }

  // POST.

  /** The defaults: without `question_type`, `points`, `explanation` and
      `order_index` a question is multiple choice, worth 1, without
      explanation and at position 0; an option is incorrect unless marked. */
  lemma NewQuestionDefaults(qid: int, rq: QuestionsRequest, o: OptionInput)
    ensures rq.questionType.None? && rq.points.None? && rq.explanation.None? && rq.orderIndex.None? && rq.question.Some?
            ==> NewQuestion(qid, rq) == Question(qid, rq.question.value, MultipleChoice, 1, None, 0)
    ensures o.isCorrect.None? ==> !NewOption(qid, o).isCorrect
    ensures NewQuestion(qid, rq).quizId == qid && NewOption(qid, o).questionId == qid
  {
  }

  /** The option inserts: the i-th option under id `first + i`, and the
      rows already there untouched. */
  lemma {:induction false} OptionsAddedShape(opts: map<int, QuestionOption>, first: int, questionId: int,
                                             ins: seq<OptionInput>)
    ensures var r := OptionsAdded(opts, first, questionId, ins);
      (forall k :: k in r <==> k in opts || first <= k < first + |ins|)
      && (forall i :: 0 <= i < |ins| ==> r[first + i] == NewOption(questionId, ins[i]))
      && (forall k :: k in opts && !(first <= k < first + |ins|) ==> r[k] == opts[k])
    decreases |ins|
  {
    if ins != [] {
      var p := ins[..|ins| - 1];
      OptionsAddedShape(opts, first, questionId, p);
      assert forall i :: 0 <= i < |p| ==> p[i] == ins[i];
    }
  }

  /** POST answers 400 without quiz_id, question or options and 403 for a
      quiz outside the caller's courses; a refusal writes nothing, so the
      question and its options are stored together or not at all. */
  lemma PostRefusals(t: Tables, s: Session, rq: QuestionsRequest)
    ensures var out := PostSpec(t, s, rq);
      (out.resp == Fail(400) <==> rq.quizId.None? || rq.question.None? || rq.options.None?)
      && (out.resp == Fail(403) <==> !(rq.quizId.None? || rq.question.None? || rq.options.None?)
                                     && !OwnsQuiz(t, CallerTeacher(t, s), rq.quizId.value))
      && (out.resp != Ok ==> out.tables == t)
      && (out.resp == Ok ==> out.tables == Posted(t, rq.quizId.value, rq.options.value, rq)
                             && out.questionId == Some(t.nextId) && rq.quizId.value in t.quizzes)
  {
  }

  /** The transaction adds one question under the fresh id and, under the
      ids right after it, one option per input, all pointing to it; the
      options of the new question are exactly those, and nothing else
      changes. */
  lemma PostedAddsQuestion(t: Tables, qid: int, ins: seq<OptionInput>, rq: QuestionsRequest)
    requires t.nextId >= 1 && Below(t.questions, t.nextId) && Below(t.options, t.nextId) && OptionsRefOk(t)
    ensures var n := t.nextId;
      var r := Posted(t, qid, ins, rq);
      r.questions == t.questions[n := NewQuestion(qid, rq)]
      && r == t.(questions := r.questions, options := r.options, nextId := n + 1 + |ins|)
      && (forall k :: k in r.options && r.options[k].questionId == n <==> n + 1 <= k <= n + |ins|)
      && (forall i :: 0 <= i < |ins| ==> r.options[n + 1 + i] == NewOption(n, ins[i]))
      && (forall k :: k in r.options <==> k in t.options || n + 1 <= k <= n + |ins|)
      && (forall k :: k in t.options ==> r.options[k] == t.options[k])
  {
    PostedOptionKeys(t, qid, ins, rq);
    PostedOptionOwners(t, qid, ins, rq);
  }

  /** The option rows after a POST: the old ones unchanged, and one new row
      per input under the ids after the question's. */
  lemma PostedOptionKeys(t: Tables, qid: int, ins: seq<OptionInput>, rq: QuestionsRequest)
    requires Below(t.options, t.nextId)
    ensures var n := t.nextId;
      var r := Posted(t, qid, ins, rq);
      (forall k :: k in r.options <==> k in t.options || n + 1 <= k <= n + |ins|)
      && (forall i :: 0 <= i < |ins| ==> r.options[n + 1 + i] == NewOption(n, ins[i]))
      && (forall k :: k in t.options ==> r.options[k] == t.options[k])
  {
    var n := t.nextId;
    OptionsAddedShape(t.options, n + 1, n, ins);
    assert forall k :: k in t.options ==> !(n + 1 <= k < n + 1 + |ins|);
  }

  /** The option rows of the new question are exactly the new rows. */
  lemma PostedOptionOwners(t: Tables, qid: int, ins: seq<OptionInput>, rq: QuestionsRequest)
    requires t.nextId >= 1 && Below(t.questions, t.nextId) && Below(t.options, t.nextId) && OptionsRefOk(t)
    ensures var n := t.nextId;
      var r := Posted(t, qid, ins, rq);
      forall k :: k in r.options && r.options[k].questionId == n <==> n + 1 <= k <= n + |ins|
  {
    var n := t.nextId;
    var r := Posted(t, qid, ins, rq);
    PostedOptionKeys(t, qid, ins, rq);
    assert n !in t.questions;
    assert forall k :: k in t.options ==> t.options[k].questionId != n;
    forall k | n + 1 <= k <= n + |ins|
      ensures k in r.options && r.options[k].questionId == n
    {
      assert r.options[n + 1 + (k - n - 1)] == NewOption(n, ins[k - n - 1]);
    }
  }

  /** POST keeps the store's invariants and referential integrity. */
  lemma PostKeepsInvariants(t: Tables, s: Session, rq: QuestionsRequest)
    requires WellFormed(t) && Integrity(t)
    ensures var out := PostSpec(t, s, rq);
      WellFormed(out.tables) && Integrity(out.tables)
  {
    var out := PostSpec(t, s, rq);
    PostRefusals(t, s, rq);
    if out.resp == Ok {
      PostedKeeps(t, rq.quizId.value, rq.options.value, rq);
    }
  }

  lemma PostedKeeps(t: Tables, qid: int, ins: seq<OptionInput>, rq: QuestionsRequest)
    requires WellFormed(t) && Integrity(t) && qid in t.quizzes
    ensures WellFormed(Posted(t, qid, ins, rq)) && Integrity(Posted(t, qid, ins, rq))
  {
    var r := Posted(t, qid, ins, rq);
    PostedAddsQuestion(t, qid, ins, rq);
    PostIdsBelow(t, r, |ins|);
    PostRefs(t, r, qid);
  }

  lemma PostIdsBelow(t: Tables, r: Tables, m: nat)
    requires IdsBelow(t) && UniqueEmails(t) && UniqueRoleRows(t)
    requires r == t.(questions := r.questions, options := r.options, nextId := t.nextId + 1 + m)
    requires forall k :: k in r.questions ==> k in t.questions || k == t.nextId
    requires forall k :: k in r.options ==> k in t.options || t.nextId + 1 <= k <= t.nextId + m
    ensures WellFormed(r)
  {
  }

  lemma PostRefs(t: Tables, r: Tables, qid: int)
    requires Integrity(t) && qid in t.quizzes
    requires r == t.(questions := r.questions, options := r.options, nextId := r.nextId)
    requires forall k :: k in t.questions ==> k in r.questions
    requires forall k :: k in r.questions ==> r.questions[k].quizId in t.quizzes
    requires forall k :: k in r.options ==> r.options[k].questionId in r.questions
    ensures Integrity(r)
  {
    assert QuestionsRefOk(r);
    assert OptionsRefOk(r);
  }

  /** After a POST, listing the same quiz shows the new question with its
      options in the order they were sent. */
  lemma PostThenList(t: Tables, s: Session, rq: QuestionsRequest, get: QuestionsRequest)
    requires WellFormed(t) && Integrity(t)
    requires PostSpec(t, s, rq).resp == Ok && get.quizId == rq.quizId
    ensures var out := PostSpec(t, s, rq);
      var l := GetSpec(out.tables, s, get);
      l.resp == Ok
      && exists i :: 0 <= i < |l.listing.value| && l.listing.value[i] == PostedView(t, rq)
  {
    PostRefusals(t, s, rq);
    var qid := rq.quizId.value;
    var r := Posted(t, qid, rq.options.value, rq);
    assert CallerTeacher(r, s) == CallerTeacher(t, s) by {
      assert r.teachers == t.teachers;
    }
    assert OwnsQuiz(r, CallerTeacher(r, s), qid);
    assert qid != 0;
    PostedListed(t, qid, rq.options.value, rq);
  }

  /** The new question as the GET shows it: its row and its options, in
      the order they were sent, under the ids after its own. */
  function PostedView(t: Tables, rq: QuestionsRequest): QuestionView
    requires rq.quizId.Some? && rq.options.Some?
  {
    var n := t.nextId;
    var ins := rq.options.value;
    QuestionView(n, NewQuestion(rq.quizId.value, rq),
                 seq(|ins|, j requires 0 <= j < |ins| => OptionView(n + 1 + j, NewOption(n, ins[j]))))
  }

  lemma PostedListed(t: Tables, qid: int, ins: seq<OptionInput>, rq: QuestionsRequest)
    requires t.nextId >= 1 && Below(t.questions, t.nextId) && Below(t.options, t.nextId) && OptionsRefOk(t) && rq.quizId == Some(qid) && rq.options == Some(ins)
    ensures var l := Listing(Posted(t, qid, ins, rq), qid);
      exists i :: 0 <= i < |l| && l[i] == PostedView(t, rq)
  {
    var r := Posted(t, qid, ins, rq);
    var n := t.nextId;
    var l := Listing(r, qid);
    assert r.questions[n] == NewQuestion(qid, rq);
    assert exists i :: 0 <= i < |l| && l[i].id == n by {
      ListingMembers(r, qid);
    }
    var i :| 0 <= i < |l| && l[i].id == n;
    assert l[i].question == r.questions[n] && l[i].options == OptionsOf(r, n) by {
      ListingOrdered(r, qid);
    }
    PostedOptions(t, qid, ins, rq);
    assert l[i] == PostedView(t, rq);
  }

  /** The new question's options, as the GET fetches them. */
  lemma PostedOptions(t: Tables, qid: int, ins: seq<OptionInput>, rq: QuestionsRequest)
    requires t.nextId >= 1 && Below(t.questions, t.nextId) && Below(t.options, t.nextId) && OptionsRefOk(t) && rq.quizId == Some(qid) && rq.options == Some(ins)
    ensures OptionsOf(Posted(t, qid, ins, rq), t.nextId) == PostedView(t, rq).options
  {
    var n := t.nextId;
    PostedOptionViews(t, qid, ins, rq);
    var want := PostedView(t, rq).options;
    assert |want| == |ins|;
    ViewsInOrder(OptionsOf(Posted(t, qid, ins, rq), n), want, n, ins);
  }

  /** The listed options of the new question, one by one. */
  lemma PostedOptionViews(t: Tables, qid: int, ins: seq<OptionInput>, rq: QuestionsRequest)
    requires t.nextId >= 1 && Below(t.questions, t.nextId) && Below(t.options, t.nextId) && OptionsRefOk(t)
    ensures var os := OptionsOf(Posted(t, qid, ins, rq), t.nextId);
      |os| == |ins| && forall j :: 0 <= j < |ins| ==> os[j] == OptionView(t.nextId + 1 + j, NewOption(t.nextId, ins[j]))
  {
    var r := Posted(t, qid, ins, rq);
    var n := t.nextId;
    PostedOptionIds(t, qid, ins, rq);
    var os := OptionsOf(r, n);
    forall j | 0 <= j < |ins| ensures os[j] == OptionView(n + 1 + j, NewOption(n, ins[j])) {
      var k := n + 1 + j;
      assert os[j].id == k;
      assert r.options[k] == NewOption(n, ins[j]);
    }
  }

  lemma ViewsInOrder(os: seq<OptionView>, want: seq<OptionView>, n: int, ins: seq<OptionInput>)
    requires |os| == |ins| && forall j :: 0 <= j < |ins| ==> os[j] == OptionView(n + 1 + j, NewOption(n, ins[j]))
    requires |want| == |ins| && forall j :: 0 <= j < |ins| ==> want[j] == OptionView(n + 1 + j, NewOption(n, ins[j]))
    ensures os == want
  {
  }

  /** The options of the new question are the ids after its own, one per
      input, in order. */
  lemma PostedOptionIds(t: Tables, qid: int, ins: seq<OptionInput>, rq: QuestionsRequest)
    requires t.nextId >= 1 && Below(t.questions, t.nextId) && Below(t.options, t.nextId) && OptionsRefOk(t)
    ensures var r := Posted(t, qid, ins, rq);
      OptionIdsOf(r, t.nextId) == Range(t.nextId + 1, |ins|)
      && forall i :: 0 <= i < |ins| ==> t.nextId + 1 + i in r.options && r.options[t.nextId + 1 + i] == NewOption(t.nextId, ins[i])
  {
    var r := Posted(t, qid, ins, rq);
    PostedAddsQuestion(t, qid, ins, rq);
    StrictlySortedUnique(OptionIdsOf(r, t.nextId), Range(t.nextId + 1, |ins|));
  }

  // DELETE.

  /** DELETE answers 400 without a question id and 403 for a question
      outside the caller's quizzes; otherwise it removes exactly that
      question row and leaves its options in place. */
  lemma DeleteRemovesOne(t: Tables, s: Session, rq: QuestionsRequest)
    ensures var out := DeleteSpec(t, s, rq);
      var id := IntOr(rq.questionId, 0);
      (out.resp == Fail(400) <==> id == 0)
      && (out.resp == Fail(403) <==> id != 0 && !OwnsQuestion(t, CallerTeacher(t, s), id))
      && (out.resp == Ok ==> out.tables == t.(questions := t.questions - {id}) && id in t.questions)
      && (out.resp != Ok ==> out.tables == t)
  {
  }

  /** Removing a question keeps referential integrity exactly when it has
      no options: the options of a deleted question are left orphaned. */
  lemma DeleteOrphansOptions(t: Tables, id: int)
    requires Integrity(t)
    ensures Integrity(t.(questions := t.questions - {id}))
            <==> forall k :: k in t.options ==> t.options[k].questionId != id
  {
    var r := t.(questions := t.questions - {id});
    if forall k :: k in t.options ==> t.options[k].questionId != id {
      assert OptionsRefOk(r);
      assert QuestionsRefOk(r);
    }
  }
}
