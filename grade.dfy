/** The grading endpoint (backend/api/teachers/grade.php): one UPDATE of a
    submission row by id, and a `warning` answer when the statement changed
    no row. */
module Grading {
  import opened Common
  import opened Request
  import opened Schema
  import opened StoreModule

  datatype GradeRequest = GradeRequest(
    verb: HttpMethod, authorization: Option<string>, submissionId: Option<int>, grade: Option<real>)

  datatype GradeOutcome = GradeOutcome(tables: Tables, resp: Response)

  /** The answer when the UPDATE changed no row. */
  const NothingChanged := Response(200, Warning)

  /** The row after the UPDATE: the grade, status graded, the grading time. */
  function GradedRow(r: Submission, g: real, now: int): Submission
  {
    r.(grade := Some(g), status := Graded, gradedAt := Some(now))
  }

  /** `$stmt->rowCount() > 0`: the number of rows the UPDATE changed, which
      is 0 for a missing id and for a row that already held these values. */
  predicate RowChanged(t: Tables, id: int, g: real, now: int)
  {
    id in t.submissions && GradedRow(t.submissions[id], g, now) != t.submissions[id]
  }

  function GradeSpec(t: Tables, rq: GradeRequest, now: int): GradeOutcome
  {
    var pre := Preflight(rq.verb, {HttpMethod.Post});
    if pre.Some? then GradeOutcome(t, pre.value)
    else if !HasToken(rq.authorization) then GradeOutcome(t, Fail(401))
    else if rq.submissionId.None? || rq.grade.None? then GradeOutcome(t, Fail(400))
    else
      var id := rq.submissionId.value;
      var g := rq.grade.value;
      var r := if id in t.submissions then t.(submissions := t.submissions[id := GradedRow(t.submissions[id], g, now)]) else t;
      GradeOutcome(r, if RowChanged(t, id, g, now) then Ok else NothingChanged)
  }

  method GradeSubmission(db: Store, rq: GradeRequest, now: int) returns (resp: Response)
    modifies db
    ensures var out := GradeSpec(old(db.T()), rq, now);
      db.T() == out.tables && resp == out.resp
  {
    var pre := Preflight(rq.verb, {HttpMethod.Post});
    if pre.Some? {
      return pre.value;
    }
    if !HasToken(rq.authorization) {
      return Fail(401);
    }
    if rq.submissionId.None? || rq.grade.None? {
      return Fail(400);
    }
    var id := rq.submissionId.value;
    var g := rq.grade.value;
    var rowCount := 0;
    if id in db.submissions {
      var updated := GradedRow(db.submissions[id], g, now);
      if updated != db.submissions[id] {
        rowCount := 1;
      }
      db.submissions := db.submissions[id := updated];
    }
    if rowCount > 0 {
      resp := Ok;
    } else {
      resp := NothingChanged;
    }
  }

  /** The refusals write nothing: 401 without a token, 400 without an id or a grade. */
  lemma GradeRefusals(t: Tables, rq: GradeRequest, now: int)
    requires rq.verb == HttpMethod.Post
    ensures var out := GradeSpec(t, rq, now);
      (!HasToken(rq.authorization) ==> out.resp == Fail(401))
      && (HasToken(rq.authorization) && (rq.submissionId.None? || rq.grade.None?) ==> out.resp == Fail(400))
      && (out.resp.status == Error ==> out.tables == t)
  {
  }

  /** On an existing id the row gets the grade, whatever its value and
      whoever owns the assignment, and status graded; its other fields, the
      other rows and the other tables stay as they were. */
  lemma GradeSetsRow(t: Tables, rq: GradeRequest, now: int)
    requires rq.verb == HttpMethod.Post && HasToken(rq.authorization)
    requires rq.submissionId.Some? && rq.grade.Some? && rq.submissionId.value in t.submissions
    ensures var out := GradeSpec(t, rq, now);
      var id := rq.submissionId.value;
      var old_ := t.submissions[id];
      var new_ := out.tables.submissions[id];
      out.tables == t.(submissions := out.tables.submissions)
      && out.tables.submissions.Keys == t.submissions.Keys
      && new_.grade == Some(rq.grade.value) && new_.status == Graded && new_.gradedAt == Some(now)
      && new_.studentId == old_.studentId && new_.assignmentId == old_.assignmentId
      && new_.text == old_.text && new_.submittedAt == old_.submittedAt
      && (forall k :: k in t.submissions && k != id ==> out.tables.submissions[k] == t.submissions[k])
  {
  }

  /** A missing id changes nothing and answers with the warning. */
  lemma GradeMissingWarns(t: Tables, rq: GradeRequest, now: int)
    requires rq.verb == HttpMethod.Post && HasToken(rq.authorization)
    requires rq.submissionId.Some? && rq.grade.Some? && rq.submissionId.value !in t.submissions
    ensures GradeSpec(t, rq, now) == GradeOutcome(t, NothingChanged)
  {
  }

  /** Grading twice with the same value at the same time leaves the state of
      one grading, and the second call changes no row. */
  lemma GradeIdempotent(t: Tables, rq: GradeRequest, now: int)
    ensures var once := GradeSpec(t, rq, now);
      var twice := GradeSpec(once.tables, rq, now);
      twice.tables == once.tables
      && (once.resp == Ok || once.resp == NothingChanged ==> twice.resp == NothingChanged)
  {
    var once := GradeSpec(t, rq, now);
    if rq.verb == HttpMethod.Post && HasToken(rq.authorization) && rq.submissionId.Some? && rq.grade.Some? {
      var id := rq.submissionId.value;
      if id in t.submissions {
        var g := GradedRow(t.submissions[id], rq.grade.value, now);
        assert once.tables.submissions[id] == g;
        assert GradedRow(g, rq.grade.value, now) == g;
        assert once.tables.submissions[id := g] == once.tables.submissions;
      }
    }
  }

  /** Grading keeps the store's invariants and referential integrity. */
  lemma GradeKeepsInvariants(t: Tables, rq: GradeRequest, now: int)
    requires WellFormed(t)
    ensures var out := GradeSpec(t, rq, now);
      WellFormed(out.tables) && (Integrity(t) ==> Integrity(out.tables))
  {
    var out := GradeSpec(t, rq, now);
    if out.tables != t {
      var id := rq.submissionId.value;
      assert out.tables == t.(submissions := t.submissions[id := GradedRow(t.submissions[id], rq.grade.value, now)]);
      GradedRowKeeps(t, out.tables, id, GradedRow(t.submissions[id], rq.grade.value, now));
    }
  }

  lemma GradedRowKeeps(t: Tables, r: Tables, id: int, row: Submission)
    requires WellFormed(t) && id in t.submissions
    requires row.studentId == t.submissions[id].studentId && row.assignmentId == t.submissions[id].assignmentId
    requires r == t.(submissions := t.submissions[id := row])
    ensures WellFormed(r) && (Integrity(t) ==> Integrity(r))
  {
    GradedIdsBelow(t, r, id, row);
    if Integrity(t) {
      GradedRefs(t, r, id, row);
    }
  }

  lemma GradedIdsBelow(t: Tables, r: Tables, id: int, row: Submission)
    requires IdsBelow(t) && id in t.submissions && r == t.(submissions := t.submissions[id := row])
    ensures IdsBelow(r)
  {
  }

  lemma GradedRefs(t: Tables, r: Tables, id: int, row: Submission)
    requires Integrity(t) && id in t.submissions
    requires row.studentId == t.submissions[id].studentId && row.assignmentId == t.submissions[id].assignmentId
    requires r == t.(submissions := t.submissions[id := row])
    ensures Integrity(r)
  {
    assert SubmissionsRefOk(r);
  }
}
