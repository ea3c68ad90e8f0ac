/** The assignment submission endpoint (backend/api/assignments/submit.php):
    an upsert keyed by (student, assignment). An existing row is updated in
    place; otherwise one row is inserted. */
module AssignmentSubmit {
  import opened Common
  import opened InputSanitizer
  import opened Schema
  import opened StoreModule

  datatype AssignmentSubmitRequest = AssignmentSubmitRequest(
    verb: HttpMethod, assignmentId: Option<int>, submissionText: Option<string>)

  datatype SubmitOutcome = SubmitOutcome(tables: Tables, resp: Response)

  /** The ids of the rows of the pair (student, assignment). */
  function PairRows(t: Tables, sid: int, aid: int): set<int>
  {
    set k | k in t.submissions && t.submissions[k].studentId == sid && t.submissions[k].assignmentId == aid
  }

  /** A row after the UPDATE: new text, status submitted, new submission time. */
  function Resubmitted(r: Submission, text: Option<string>, now: int): Submission
  {
    r.(text := text, status := Submitted, submittedAt := now)
  }

  /** The row the INSERT adds: no grade yet. */
  function NewSubmission(sid: int, aid: int, text: Option<string>, now: int): Submission
  {
    Submission(sid, aid, text, Submitted, None, now, None)
  }

  /** The tables after the upsert. */
  function Upserted(t: Tables, sid: int, aid: int, text: Option<string>, now: int): Tables
  {
    var pair := PairRows(t, sid, aid);
    if pair != {} then
      t.(submissions := map k | k in t.submissions ::
           if k in pair then Resubmitted(t.submissions[k], text, now) else t.submissions[k])
    else
      t.(submissions := t.submissions[t.nextId := NewSubmission(sid, aid, text, now)], nextId := t.nextId + 1)
  }

  ghost function AssignmentSubmitSpec(t: Tables, s: Session, rq: AssignmentSubmitRequest, now: int): SubmitOutcome
  {
    var pre := Preflight(rq.verb, {HttpMethod.Post});
    if pre.Some? then SubmitOutcome(t, pre.value)
    else if s.userId.None? then SubmitOutcome(t, Fail(401))
    else if rq.assignmentId.None? then SubmitOutcome(t, Fail(400))
    else
      var aid := rq.assignmentId.value;
      var text := Sanitize(rq.submissionText);
      match StudentOf(t, s.userId.value)
      case None => SubmitOutcome(t, Fail(403))
      case Some(sid) => SubmitOutcome(Upserted(t, sid, aid, text, now), Ok)
  }

  method SubmitAssignment(db: Store, s: Session, rq: AssignmentSubmitRequest, now: int) returns (resp: Response)
    requires db.Valid()
    modifies db
    ensures var out := AssignmentSubmitSpec(old(db.T()), s, rq, now);
      db.T() == out.tables && resp == out.resp
  {
    var pre := Preflight(rq.verb, {HttpMethod.Post});
    if pre.Some? {
      return pre.value;
    }
    if s.userId.None? {
      return Fail(401);
    }
    if rq.assignmentId.None? {
      return Fail(400);
    }
    var aid := rq.assignmentId.value;
    var text := Sanitize(rq.submissionText);
    var student := db.LookupStudent(s.userId.value);
    if student.None? {
      return Fail(403);
    }
    var sid := student.value;
    if exists k :: k in db.submissions && db.submissions[k].studentId == sid && db.submissions[k].assignmentId == aid {
      ghost var k :| k in db.submissions && db.submissions[k].studentId == sid && db.submissions[k].assignmentId == aid;
      assert k in PairRows(db.T(), sid, aid);
      UpdatePairRows(db, sid, aid, text, now);
    } else {
      assert PairRows(db.T(), sid, aid) == {};
      InsertSubmission(db, NewSubmission(sid, aid, text, now));
    }
    return Ok;
  }

  /** The UPDATE of every row of the pair. */
  method UpdatePairRows(db: Store, sid: int, aid: int, text: Option<string>, now: int)
    modifies db
    ensures db.T() == old(db.T()).(submissions := map k | k in old(db.submissions) ::
      if k in PairRows(old(db.T()), sid, aid) then Resubmitted(old(db.submissions)[k], text, now)
      else old(db.submissions)[k])
  {
    var pair := set k | k in db.submissions && db.submissions[k].studentId == sid && db.submissions[k].assignmentId == aid;
    assert pair == PairRows(db.T(), sid, aid);
    db.submissions := map k | k in db.submissions ::
      if k in pair then Resubmitted(db.submissions[k], text, now) else db.submissions[k];
  }

  /** The INSERT: the new row takes the next id. */
  method InsertSubmission(db: Store, r: Submission)
    modifies db
    ensures db.T() == old(db.T()).(submissions := old(db.submissions)[old(db.nextId) := r],
                                   nextId := old(db.nextId) + 1)
  {
    db.submissions := db.submissions[db.nextId := r];
    db.nextId := db.nextId + 1;
  }

  // Refusals.

  /** Every refusal leaves the store as it was. */
  lemma SubmitRefusalWritesNothing(t: Tables, s: Session, rq: AssignmentSubmitRequest, now: int)
    ensures var out := AssignmentSubmitSpec(t, s, rq, now);
      out.resp != Ok ==> out.tables == t
  {
  }

  /** A call is accepted exactly when it is a POST with a session user who
      has a students row and an assignment id: neither the assignment's
      existence nor its due date is checked. */
  lemma SubmitAcceptedIff(t: Tables, s: Session, rq: AssignmentSubmitRequest, now: int)
    ensures var out := AssignmentSubmitSpec(t, s, rq, now);
      (out.resp == Ok <==>
        (rq.verb == HttpMethod.Post && s.userId.Some? && rq.assignmentId.Some?
         && exists k :: k in t.students && t.students[k].userId == s.userId.value))
      && (rq.verb == HttpMethod.Post ==>
            (s.userId.None? ==> out.resp == Fail(401))
            && (s.userId.Some? && rq.assignmentId.None? ==> out.resp == Fail(400)))
  {
    if rq.verb == HttpMethod.Post && s.userId.Some? && rq.assignmentId.Some? {
      if exists k :: k in t.students && t.students[k].userId == s.userId.value {
        var k :| k in t.students && t.students[k].userId == s.userId.value;
        assert StudentOf(t, s.userId.value).Some?;
      }
    }
  }

  // The upsert.

  /** An existing pair is updated in place: no row is added or removed, each
      row of the pair gets the new text and status submitted and keeps its
      grade, and every other row is unchanged. */
  lemma UpsertUpdatesInPlace(t: Tables, sid: int, aid: int, text: Option<string>, now: int)
    requires PairRows(t, sid, aid) != {}
    ensures var r := Upserted(t, sid, aid, text, now);
      r.submissions.Keys == t.submissions.Keys && r.nextId == t.nextId
      && (forall k :: k in PairRows(t, sid, aid) ==>
            r.submissions[k].text == text && r.submissions[k].status == Submitted
            && r.submissions[k].grade == t.submissions[k].grade
            && r.submissions[k].studentId == sid && r.submissions[k].assignmentId == aid)
      && (forall k :: k in t.submissions && k !in PairRows(t, sid, aid) ==> r.submissions[k] == t.submissions[k])
      && r == t.(submissions := r.submissions)
  {
  }

  /** A new pair gets exactly one row, under a fresh id, with status
      submitted and no grade; every earlier row is unchanged. */
  lemma UpsertInserts(t: Tables, sid: int, aid: int, text: Option<string>, now: int)
    requires IdsBelow(t) && PairRows(t, sid, aid) == {}
    ensures var r := Upserted(t, sid, aid, text, now);
      t.nextId !in t.submissions
      && r.submissions.Keys == t.submissions.Keys + {t.nextId}
      && r.submissions[t.nextId] == Submission(sid, aid, text, Submitted, None, now, None)
      && (forall k :: k in t.submissions ==> r.submissions[k] == t.submissions[k])
  {
  }

  /** After the upsert the pair has exactly one row, if it had at most one before. */
  lemma UpsertLeavesOneRow(t: Tables, sid: int, aid: int, text: Option<string>, now: int)
    requires IdsBelow(t) && |PairRows(t, sid, aid)| <= 1
    ensures |PairRows(Upserted(t, sid, aid, text, now), sid, aid)| == 1
  {
    var r := Upserted(t, sid, aid, text, now);
    if PairRows(t, sid, aid) != {} {
      UpsertUpdatesInPlace(t, sid, aid, text, now);
      forall k | k in r.submissions
        ensures k in PairRows(r, sid, aid) <==> k in PairRows(t, sid, aid)
      {
        if k !in PairRows(t, sid, aid) {
          assert r.submissions[k] == t.submissions[k];
        }
      }
      assert PairRows(r, sid, aid) == PairRows(t, sid, aid);
    } else {
      assert PairRows(r, sid, aid) == {t.nextId};
    }
  }

  /** Resubmitting a graded row brings it back to submitted and keeps its grade. */
  lemma ResubmitGradedRow(t: Tables, sid: int, aid: int, text: Option<string>, now: int, k: int)
    requires k in t.submissions && t.submissions[k].studentId == sid && t.submissions[k].assignmentId == aid
    requires t.submissions[k].status == Graded
    ensures var r := Upserted(t, sid, aid, text, now);
      k in r.submissions && r.submissions[k].status == Submitted && r.submissions[k].grade == t.submissions[k].grade
  {
    assert k in PairRows(t, sid, aid);
  }

  /** The call keeps the store's invariants, and keeps referential integrity
      when the assignment exists. */
  lemma SubmitKeepsInvariants(t: Tables, s: Session, rq: AssignmentSubmitRequest, now: int)
    requires WellFormed(t)
    ensures var out := AssignmentSubmitSpec(t, s, rq, now);
      WellFormed(out.tables)
      && (Integrity(t) && (out.resp == Ok ==> rq.assignmentId.value in t.assignments) ==> Integrity(out.tables))
  {
    var out := AssignmentSubmitSpec(t, s, rq, now);
    if out.resp == Ok {
      var sid := StudentOf(t, s.userId.value).value;
      UpsertKeeps(t, sid, rq.assignmentId.value, Sanitize(rq.submissionText), now);
    } else {
      SubmitRefusalWritesNothing(t, s, rq, now);
    }
  }

  lemma UpsertKeeps(t: Tables, sid: int, aid: int, text: Option<string>, now: int)
    requires WellFormed(t)
    ensures var r := Upserted(t, sid, aid, text, now);
      WellFormed(r) && (Integrity(t) && sid in t.students && aid in t.assignments ==> Integrity(r))
  {
    var r := Upserted(t, sid, aid, text, now);
    if PairRows(t, sid, aid) != {} {
      UpsertUpdatesInPlace(t, sid, aid, text, now);
      UpdateKeeps(t, r, sid, aid);
    } else {
      InsertKeeps(t, r, NewSubmission(sid, aid, text, now));
    }
  }

  lemma UpdateKeeps(t: Tables, r: Tables, sid: int, aid: int)
    requires WellFormed(t) && r == t.(submissions := r.submissions) && r.submissions.Keys == t.submissions.Keys
    requires forall k :: k in PairRows(t, sid, aid) ==>
      r.submissions[k].studentId == sid && r.submissions[k].assignmentId == aid
    requires forall k :: k in t.submissions && k !in PairRows(t, sid, aid) ==> r.submissions[k] == t.submissions[k]
    ensures WellFormed(r) && (Integrity(t) ==> Integrity(r))
  {
    UpdateIdsBelow(t, r);
    if Integrity(t) {
      assert SubmissionsRefOk(r) by {
        forall k | k in r.submissions
          ensures r.submissions[k].studentId in r.students && r.submissions[k].assignmentId in r.assignments
        {
          if k in PairRows(t, sid, aid) {
            assert t.submissions[k].studentId == sid && t.submissions[k].assignmentId == aid;
          }
        }
      }
    }
  }

  lemma InsertKeeps(t: Tables, r: Tables, row: Submission)
    requires WellFormed(t)
    requires r == t.(submissions := t.submissions[t.nextId := row], nextId := t.nextId + 1)
    ensures WellFormed(r)
    ensures Integrity(t) && row.studentId in t.students && row.assignmentId in t.assignments ==> Integrity(r)
  {
    InsertIdsBelow(t, r, row);
    if Integrity(t) && row.studentId in t.students && row.assignmentId in t.assignments {
      assert SubmissionsRefOk(r);
    }
  }

  lemma UpdateIdsBelow(t: Tables, r: Tables)
    requires IdsBelow(t) && r == t.(submissions := r.submissions) && r.submissions.Keys == t.submissions.Keys
    ensures IdsBelow(r)
  {
  }

  lemma InsertIdsBelow(t: Tables, r: Tables, row: Submission)
    requires IdsBelow(t)
    requires r == t.(submissions := t.submissions[t.nextId := row], nextId := t.nextId + 1)
    ensures IdsBelow(r)
  {
  }
}
