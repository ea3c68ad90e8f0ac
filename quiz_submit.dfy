/** The quiz submission endpoint (backend/api/quizzes/submit.php): one pass
    over the quiz's questions adds up the total points and the points the
    answers earn, the percentage is computed, and one quiz_submissions row is
    appended. */
module QuizSubmit {
  import opened Common
  import opened Request
  import opened Schema
  import opened StoreModule
  import opened Sorting

  /** The decoded request body: `quiz_id`, `answers` (question id to answer)
      and `time_taken`, each possibly absent. */
  datatype QuizSubmitRequest = QuizSubmitRequest(
    verb: HttpMethod, quizId: Option<int>, answers: Option<map<int, Answer>>, timeTaken: Option<int>)

  /** The `data` part of a successful response. */
  datatype QuizResult = QuizResult(score: real, points: int, totalPoints: int)

  datatype QuizOutcome = QuizOutcome(tables: Tables, resp: Response, result: Option<QuizResult>)

  /** `SELECT id FROM quiz_questions WHERE quiz_id = :quiz_id`, in id order. */
  function QuestionIds(t: Tables, quizId: int): (qs: seq<int>)
    ensures forall i :: 0 <= i < |qs| ==> qs[i] in t.questions && t.questions[qs[i]].quizId == quizId
    ensures forall k :: k in t.questions && t.questions[k].quizId == quizId ==> k in qs
    ensures forall i, j :: 0 <= i < j < |qs| ==> qs[i] != qs[j]
  {
    var ids := set k | k in t.questions && t.questions[k].quizId == quizId;
    var qs := SortedIds(ids);
    assert forall i :: 0 <= i < |qs| ==> qs[i] in ids;
    qs
  }

  /** `SELECT id FROM question_options WHERE question_id = :question_id AND
      is_correct = 1`, in id order. */
  function CorrectOptions(t: Tables, qid: int): seq<int>
  {
    SortedIds(CorrectOptionSet(t, qid))
  }

  function CorrectOptionSet(t: Tables, qid: int): set<int>
  {
    set k | k in t.options && t.options[k].questionId == qid && t.options[k].isCorrect
  }

  /** Whether one answer earns its question's points: a list of ids must
      equal the correct ids once both are sorted; a single id must be one of
      them. */
  predicate Earns(a: Answer, correct: seq<int>)
  {
    match a
    case Many(cs) => Sort(cs) == Sort(correct)
    case One(c) => c in correct
    case FreeText(_) => false
  }

  /** The points question `qid` adds to the score. */
  function Awarded(t: Tables, qid: int, answers: map<int, Answer>): int
    requires qid in t.questions
  {
    if qid in answers && Earns(answers[qid], CorrectOptions(t, qid)) then t.questions[qid].points else 0
  }

  predicate AllQuestions(t: Tables, qs: seq<int>)
  {
    forall i :: 0 <= i < |qs| ==> qs[i] in t.questions
  }

  /** The sum of `points` over the questions `qs`. */
  function TotalPoints(t: Tables, qs: seq<int>): int
    requires AllQuestions(t, qs)
  {
    if qs == [] then 0 else TotalPoints(t, qs[..|qs| - 1]) + t.questions[qs[|qs| - 1]].points
  }

  /** The sum of what each question of `qs` is awarded. */
  function EarnedPoints(t: Tables, qs: seq<int>, answers: map<int, Answer>): int
    requires AllQuestions(t, qs)
  {
    if qs == [] then 0 else EarnedPoints(t, qs[..|qs| - 1], answers) + Awarded(t, qs[|qs| - 1], answers)
  }

  /** `$total_points > 0 ? ($score / $total_points) * 100 : 0`. */
  function Percentage(earned: int, total: int): real
  {
    if total > 0 then (earned as real / total as real) * 100.0 else 0.0
  }

  ghost function QuizSubmitSpec(t: Tables, s: Session, rq: QuizSubmitRequest, now: int): QuizOutcome
  {
    var pre := Preflight(rq.verb, {HttpMethod.Post});
    if pre.Some? then QuizOutcome(t, pre.value, None)
    else if s.userId.None? then QuizOutcome(t, Fail(401), None)
    else if rq.quizId.None? || rq.answers.None? then QuizOutcome(t, Fail(400), None)
    else
      match StudentOf(t, s.userId.value)
      case None => QuizOutcome(t, Fail(403), None)
      case Some(sid) =>
        var qs := QuestionIds(t, rq.quizId.value);
        var earned := EarnedPoints(t, qs, rq.answers.value);
        var total := TotalPoints(t, qs);
        var pct := Percentage(earned, total);
        var row := QuizSubmission(sid, rq.quizId.value, rq.answers.value, pct,
                                  IntOr(rq.timeTaken, 0), Submitted, now);
        QuizOutcome(t.(quizSubmissions := t.quizSubmissions[t.nextId := row], nextId := t.nextId + 1),
                    Ok, Some(QuizResult(pct, earned, total)))
  }

  /** The grading loop: `$score` and `$total_points` accumulated over the
      fetched questions. */
  method Grade(db: Store, qs: seq<int>, answers: map<int, Answer>) returns (score: int, total: int)
    requires AllQuestions(db.T(), qs)
    ensures score == EarnedPoints(db.T(), qs, answers)
    ensures total == TotalPoints(db.T(), qs)
  {
    score, total := 0, 0;
    for i := 0 to |qs|
      invariant score == EarnedPoints(db.T(), qs[..i], answers)
      invariant total == TotalPoints(db.T(), qs[..i])
    {
      var qid := qs[i];
      total := total + db.questions[qid].points;
      if qid in answers {
        var correct := SortedIds(set k | k in db.options && db.options[k].questionId == qid && db.options[k].isCorrect);
        assert correct == CorrectOptions(db.T(), qid);
        match answers[qid] {
          case Many(cs) =>
            if Sort(cs) == Sort(correct) {
              score := score + db.questions[qid].points;
            }
          case One(c) =>
            if c in correct {
              score := score + db.questions[qid].points;
            }
          case FreeText(_) =>
        }
      }
      assert qs[..i + 1][..i] == qs[..i];
    }
    assert qs[..|qs|] == qs;
  }

  method SubmitQuiz(db: Store, s: Session, rq: QuizSubmitRequest, now: int)
    returns (resp: Response, result: Option<QuizResult>)
    requires db.Valid()
    modifies db
    ensures var out := QuizSubmitSpec(old(db.T()), s, rq, now);
      db.T() == out.tables && resp == out.resp && result == out.result
  {
    var pre := Preflight(rq.verb, {HttpMethod.Post});
    if pre.Some? {
      return pre.value, None;
    }
    if s.userId.None? {
      return Fail(401), None;
    }
    if rq.quizId.None? || rq.answers.None? {
      return Fail(400), None;
    }
    var quizId := rq.quizId.value;
    var answers := rq.answers.value;
    var timeTaken := IntOr(rq.timeTaken, 0);
    var student := db.LookupStudent(s.userId.value);
    if student.None? {
      return Fail(403), None;
    }
    var qs := SortedIds(set k | k in db.questions && db.questions[k].quizId == quizId);
    assert qs == QuestionIds(db.T(), quizId);
    var score, total := Grade(db, qs, answers);
    var pct := Percentage(score, total);
    var row := QuizSubmission(student.value, quizId, answers, pct, timeTaken, Submitted, now);
    AppendQuizSubmission(db, row);
    return Ok, Some(QuizResult(pct, score, total));
  }

  /** The INSERT: the new row takes the next id. */
  method AppendQuizSubmission(db: Store, row: QuizSubmission)
    modifies db
    ensures db.T() == old(db.T()).(quizSubmissions := old(db.quizSubmissions)[old(db.nextId) := row],
                                   nextId := old(db.nextId) + 1)
  {
    db.quizSubmissions := db.quizSubmissions[db.nextId := row];
    db.nextId := db.nextId + 1;
  }

  // What a refused call does.

  /** Every refusal leaves the store as it was. */
  lemma QuizRefusalWritesNothing(t: Tables, s: Session, rq: QuizSubmitRequest, now: int)
    ensures var out := QuizSubmitSpec(t, s, rq, now);
      out.resp != Ok ==> out.tables == t && out.result.None?
  {
  }

  /** The refusals, in the order the endpoint checks. */
  lemma QuizRefusals(t: Tables, s: Session, rq: QuizSubmitRequest, now: int)
    requires rq.verb == HttpMethod.Post
    ensures var out := QuizSubmitSpec(t, s, rq, now);
      (s.userId.None? ==> out.resp == Fail(401))
      && (s.userId.Some? && (rq.quizId.None? || rq.answers.None?) ==> out.resp == Fail(400))
      && (s.userId.Some? && rq.quizId.Some? && rq.answers.Some?
          && (forall k :: k in t.students ==> t.students[k].userId != s.userId.value)
          ==> out.resp == Fail(403))
  {
  }

  /** A call is accepted exactly when it is a POST with a session user who
      has a students row and both fields are present: whether the quiz exists
      is not checked. */
  lemma QuizAcceptedIff(t: Tables, s: Session, rq: QuizSubmitRequest, now: int)
    ensures var out := QuizSubmitSpec(t, s, rq, now);
      out.resp == Ok <==>
        (rq.verb == HttpMethod.Post && s.userId.Some? && rq.quizId.Some? && rq.answers.Some?
         && exists k :: k in t.students && t.students[k].userId == s.userId.value)
  {
    var out := QuizSubmitSpec(t, s, rq, now);
    if rq.verb == HttpMethod.Post && s.userId.Some? && rq.quizId.Some? && rq.answers.Some? {
      if exists k :: k in t.students && t.students[k].userId == s.userId.value {
        var k :| k in t.students && t.students[k].userId == s.userId.value;
        assert StudentOf(t, s.userId.value).Some?;
      }
    }
  }

  // What one question earns.

  /** An unanswered question adds nothing. */
  lemma UnansweredEarnsNothing(t: Tables, qid: int, answers: map<int, Answer>)
    requires qid in t.questions && qid !in answers
    ensures Awarded(t, qid, answers) == 0
  {
  }

  /** A list answer earns the question's points exactly when it names every
      correct option once and nothing else. */
  lemma ListAnswerEarnsIff(t: Tables, qid: int, answers: map<int, Answer>, cs: seq<int>)
    requires qid in t.questions && qid in answers && answers[qid] == Many(cs)
    ensures Awarded(t, qid, answers)
      == if multiset(cs) == multiset(CorrectOptionSet(t, qid)) then t.questions[qid].points else 0
  {
    var ids := CorrectOptionSet(t, qid);
    SortSorted(SortedIds(ids));
    SortMatchesIds(cs, ids);
  }

  /** A single answer earns the question's points exactly when it is the id
      of a correct option of that question. */
  lemma SingleAnswerEarnsIff(t: Tables, qid: int, answers: map<int, Answer>, c: int)
    requires qid in t.questions && qid in answers && answers[qid] == One(c)
    ensures Awarded(t, qid, answers)
      == if c in t.options && t.options[c].questionId == qid && t.options[c].isCorrect
         then t.questions[qid].points else 0
  {
    assert c in CorrectOptions(t, qid) <==> c in CorrectOptionSet(t, qid);
  }

  // The totals.

  /** With points that are not negative, the earned points lie between 0
      and the total. */
  lemma {:induction false} EarnedWithinTotal(t: Tables, qs: seq<int>, answers: map<int, Answer>)
    requires AllQuestions(t, qs)
    requires forall i :: 0 <= i < |qs| ==> t.questions[qs[i]].points >= 0
    ensures 0 <= EarnedPoints(t, qs, answers) <= TotalPoints(t, qs)
  {
    if qs != [] {
      EarnedWithinTotal(t, qs[..|qs| - 1], answers);
    }
  }

  /** When every question earns, the earned points are the total. */
  lemma {:induction false} AllEarnedIsTotal(t: Tables, qs: seq<int>, answers: map<int, Answer>)
    requires AllQuestions(t, qs)
    requires forall i :: 0 <= i < |qs| ==> qs[i] in answers && Earns(answers[qs[i]], CorrectOptions(t, qs[i]))
    ensures EarnedPoints(t, qs, answers) == TotalPoints(t, qs)
  {
    if qs != [] {
      AllEarnedIsTotal(t, qs[..|qs| - 1], answers);
    }
  }

  /** With no answers at all nothing is earned, whatever the total. */
  lemma {:induction false} NoAnswersEarnNothing(t: Tables, qs: seq<int>)
    requires AllQuestions(t, qs)
    ensures EarnedPoints(t, qs, map[]) == 0
  {
    if qs != [] {
      NoAnswersEarnNothing(t, qs[..|qs| - 1]);
    }
  }

  /** The percentage lies between 0 and 100, is 0 for a quiz without points
      and 100 for full marks. */
  lemma PercentageBounds(earned: int, total: int)
    requires 0 <= earned <= total
    ensures 0.0 <= Percentage(earned, total) <= 100.0
    ensures total == 0 ==> Percentage(earned, total) == 0.0
    ensures total > 0 && earned == total ==> Percentage(earned, total) == 100.0
  {
    if total > 0 {
      var q := earned as real / total as real;
      assert q * (total as real) == earned as real;
      assert 0.0 <= q <= 1.0;
    }
  }

  // What an accepted call stores.

  /** An accepted call appends exactly one row, under a fresh id, holding the
      caller's student id, the quiz id, the answers as sent, the percentage
      and status submitted; earlier rows and every other table are kept. */
  lemma QuizSubmissionAppended(t: Tables, s: Session, rq: QuizSubmitRequest, now: int)
    requires WellFormed(t)
    ensures var out := QuizSubmitSpec(t, s, rq, now);
      out.resp == Ok ==>
        var sid := StudentOf(t, s.userId.value).value;
        var qs := QuestionIds(t, rq.quizId.value);
        t.nextId !in t.quizSubmissions
        && out.tables == t.(quizSubmissions := out.tables.quizSubmissions, nextId := t.nextId + 1)
        && out.tables.quizSubmissions.Keys == t.quizSubmissions.Keys + {t.nextId}
        && (forall k :: k in t.quizSubmissions ==> out.tables.quizSubmissions[k] == t.quizSubmissions[k])
        && out.tables.quizSubmissions[t.nextId]
           == QuizSubmission(sid, rq.quizId.value, rq.answers.value,
                             Percentage(EarnedPoints(t, qs, rq.answers.value), TotalPoints(t, qs)),
                             IntOr(rq.timeTaken, 0), Submitted, now)
        && t.students[sid].userId == s.userId.value
  {
  }

  /** With points that are not negative, the stored and returned score is a
      percentage and the points returned lie within the total. */
  lemma QuizScoreBounded(t: Tables, s: Session, rq: QuizSubmitRequest, now: int)
    requires forall k :: k in t.questions ==> t.questions[k].points >= 0
    ensures var out := QuizSubmitSpec(t, s, rq, now);
      out.resp == Ok ==>
        0.0 <= out.result.value.score <= 100.0
        && 0 <= out.result.value.points <= out.result.value.totalPoints
  {
    var out := QuizSubmitSpec(t, s, rq, now);
    if out.resp == Ok {
      var qs := QuestionIds(t, rq.quizId.value);
      EarnedWithinTotal(t, qs, rq.answers.value);
      PercentageBounds(EarnedPoints(t, qs, rq.answers.value), TotalPoints(t, qs));
    }
  }

  /** The call keeps the store's invariants, and keeps referential integrity
      when the quiz exists. */
  lemma QuizSubmitKeepsInvariants(t: Tables, s: Session, rq: QuizSubmitRequest, now: int)
    requires WellFormed(t)
    ensures var out := QuizSubmitSpec(t, s, rq, now);
      WellFormed(out.tables)
      && (Integrity(t) && (out.resp == Ok ==> rq.quizId.value in t.quizzes) ==> Integrity(out.tables))
  {
    var out := QuizSubmitSpec(t, s, rq, now);
    if out.resp == Ok {
      var sid := StudentOf(t, s.userId.value).value;
      var qs := QuestionIds(t, rq.quizId.value);
      var pct := Percentage(EarnedPoints(t, qs, rq.answers.value), TotalPoints(t, qs));
      var row := QuizSubmission(sid, rq.quizId.value, rq.answers.value, pct,
                                IntOr(rq.timeTaken, 0), Submitted, now);
      assert out.tables == t.(quizSubmissions := t.quizSubmissions[t.nextId := row], nextId := t.nextId + 1);
      QuizSubmissionInsertKeeps(t, row);
    } else {
      QuizRefusalWritesNothing(t, s, rq, now);
    }
  }

  lemma QuizSubmissionInsertKeeps(t: Tables, row: QuizSubmission)
    requires WellFormed(t)
    ensures var r := t.(quizSubmissions := t.quizSubmissions[t.nextId := row], nextId := t.nextId + 1);
      WellFormed(r)
      && (Integrity(t) && row.studentId in t.students && row.quizId in t.quizzes ==> Integrity(r))
  {
    var r := t.(quizSubmissions := t.quizSubmissions[t.nextId := row], nextId := t.nextId + 1);
    QuizSubmissionIdsBelow(t, r, row);
    if Integrity(t) && row.studentId in t.students && row.quizId in t.quizzes {
      QuizSubmissionRefs(t, r, row);
    }
  }

  lemma QuizSubmissionIdsBelow(t: Tables, r: Tables, row: QuizSubmission)
    requires IdsBelow(t)
    requires r == t.(quizSubmissions := t.quizSubmissions[t.nextId := row], nextId := t.nextId + 1)
    ensures IdsBelow(r)
  {
  }

  lemma QuizSubmissionRefs(t: Tables, r: Tables, row: QuizSubmission)
    requires Integrity(t) && row.studentId in t.students && row.quizId in t.quizzes
    requires r == t.(quizSubmissions := t.quizSubmissions[t.nextId := row], nextId := t.nextId + 1)
    ensures Integrity(r)
  {
    assert QuizSubmissionsRefOk(r);
  }
}
