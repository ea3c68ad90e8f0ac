/** The admin endpoint that activates or deactivates an account
    (backend/api/admin/toggle-user.php): one UPDATE of `users.is_active`. */
module ToggleUser {
  import opened Common
  import opened Text
  import opened Request
  import opened Schema
  import opened StoreModule

  /** `user_id` and `action` as decoded from the body. */
  datatype ToggleRequest = ToggleRequest(
    verb: HttpMethod, authorization: Option<string>, userId: Option<int>, action: Option<string>)

  /** The response, its `data.is_active` and its message. */
  datatype ToggleOutcome = ToggleOutcome(tables: Tables, resp: Response, isActive: Option<int>,
                                         message: Option<string>)

  function ToggledMessage(name: string, activate: bool): string
  {
    "Utilisateur \"" + name + "\" " + (if activate then "activé" else "désactivé") + " avec succès"
  }

  function ToggleSpec(t: Tables, rq: ToggleRequest): ToggleOutcome
  {
    var pre := Preflight(rq.verb, {HttpMethod.Post});
    if pre.Some? then ToggleOutcome(t, pre.value, None, None)
    else if !HasToken(rq.authorization) then ToggleOutcome(t, Fail(401), None, None)
    else
      var uid := IntOr(rq.userId, 0);
      var action := if rq.action.Some? then rq.action.value else "";
      if uid == 0 || action !in {"activate", "deactivate"} then ToggleOutcome(t, Fail(400), None, None)
      else if uid !in t.users then ToggleOutcome(t, Fail(404), None, None)
      else
        var activate := action == "activate";
        var u := t.users[uid];
        ToggleOutcome(t.(users := t.users[uid := u.(isActive := activate)]), Ok,
                      Some(if activate then 1 else 0), Some(ToggledMessage(FullName(u), activate)))
  }

  method ToggleUserActive(db: Store, rq: ToggleRequest) returns (resp: Response, isActive: Option<int>, message: Option<string>)
    modifies db
    ensures var out := ToggleSpec(old(db.T()), rq);
      db.T() == out.tables && resp == out.resp && isActive == out.isActive && message == out.message
  {
    var pre := Preflight(rq.verb, {HttpMethod.Post});
    if pre.Some? {
      return pre.value, None, None;
    }
    if !HasToken(rq.authorization) {
      return Fail(401), None, None;
    }
    var uid := IntOr(rq.userId, 0);
    var action := if rq.action.Some? then rq.action.value else "";
    if uid == 0 || !(action == "activate" || action == "deactivate") {
      return Fail(400), None, None;
    }
    if uid !in db.users {
      return Fail(404), None, None;
    }
    var u := db.users[uid];
    var name := FullName(u);
    var newStatus := if action == "activate" then 1 else 0;
    db.users := db.users[uid := u.(isActive := newStatus == 1)];
    return Ok, Some(newStatus), Some(ToggledMessage(name, action == "activate"));
  }

  /** The refusals, none of which writes: 401 without a token, 400 for a
      missing or zero id or an unknown action, 404 for an unknown user. */
  lemma ToggleRefusals(t: Tables, rq: ToggleRequest)
    requires rq.verb == HttpMethod.Post
    ensures var out := ToggleSpec(t, rq);
      (!HasToken(rq.authorization) ==> out.resp == Fail(401))
      && ((HasToken(rq.authorization) && (IntOr(rq.userId, 0) == 0 || rq.action.None?
                                           || rq.action.value !in {"activate", "deactivate"}))
          ==> out.resp == Fail(400))
      && (HasToken(rq.authorization) && IntOr(rq.userId, 0) != 0 && rq.action.Some?
          && rq.action.value in {"activate", "deactivate"} && IntOr(rq.userId, 0) !in t.users
          ==> out.resp == Fail(404))
      && (out.resp != Ok ==> out.tables == t)
  {
  }

  /** On success the flag is set from the action, whatever it was before;
      the response reports the stored value; nothing else changes. */
  lemma ToggleSetsFlag(t: Tables, rq: ToggleRequest)
    ensures var out := ToggleSpec(t, rq);
      out.resp == Ok ==>
        var uid := rq.userId.value;
        var activate := rq.action.value == "activate";
        uid in t.users
        && out.tables == t.(users := out.tables.users)
        && out.tables.users.Keys == t.users.Keys
        && out.tables.users[uid] == t.users[uid].(isActive := activate)
        && (forall k :: k in t.users && k != uid ==> out.tables.users[k] == t.users[k])
        && out.isActive == Some(if out.tables.users[uid].isActive then 1 else 0)
  {
  }

  /** The same action twice gives the state of one, and after a success the
      second call answers exactly as the first. */
  lemma ToggleIdempotent(t: Tables, rq: ToggleRequest)
    ensures var once := ToggleSpec(t, rq);
      once.resp == Ok ==> ToggleSpec(once.tables, rq) == once
    ensures ToggleSpec(ToggleSpec(t, rq).tables, rq).tables == ToggleSpec(t, rq).tables
  {
    var once := ToggleSpec(t, rq);
    if once.resp == Ok {
      var uid := rq.userId.value;
      var u := t.users[uid].(isActive := rq.action.value == "activate");
      assert once.tables.users[uid] == u;
      assert FullName(u) == FullName(t.users[uid]);
      assert once.tables.users[uid := u.(isActive := rq.action.value == "activate")] == once.tables.users;
    }
  }

  /** The message names the user. */
  lemma ToggledMessageNames(name: string, activate: bool)
    ensures Contains(ToggledMessage(name, activate), name)
  {
    var tail := "\" " + (if activate then "activé" else "désactivé") + " avec succès";
    assert ToggledMessage(name, activate) == "Utilisateur \"" + name + tail;
    ContainsInfix("Utilisateur \"", name, tail);
  }

  /** The toggle keeps the store's invariants and referential integrity. */
  lemma ToggleKeepsInvariants(t: Tables, rq: ToggleRequest)
    requires WellFormed(t)
    ensures var out := ToggleSpec(t, rq);
      WellFormed(out.tables) && (Integrity(t) ==> Integrity(out.tables))
  {
    var out := ToggleSpec(t, rq);
    ToggleShape(t, rq);
    if out.resp == Ok {
      var uid := rq.userId.value;
      FlagKeeps(t, out.tables, uid, t.users[uid].(isActive := rq.action.value == "activate"));
    }
  }

  /** A refusal writes nothing; a success writes only the user's flag. */
  lemma ToggleShape(t: Tables, rq: ToggleRequest)
    ensures var out := ToggleSpec(t, rq);
      out.resp != Ok ==> out.tables == t
    ensures var out := ToggleSpec(t, rq);
      out.resp == Ok ==>
        rq.userId.Some? && rq.action.Some? && rq.userId.value in t.users
        && out.tables == t.(users := t.users[rq.userId.value := t.users[rq.userId.value].(isActive := rq.action.value == "activate")])
  {
  }

  lemma FlagKeeps(t: Tables, r: Tables, uid: int, u: User)
    requires WellFormed(t) && uid in t.users && u.email == t.users[uid].email
    requires r == t.(users := t.users[uid := u])
    ensures WellFormed(r) && (Integrity(t) ==> Integrity(r))
  {
    FlagIdsBelow(t, r, uid, u);
    assert UniqueEmails(r);
    if Integrity(t) {
      FlagRefs(t, r, uid, u);
    }
  }

  lemma FlagIdsBelow(t: Tables, r: Tables, uid: int, u: User)
    requires IdsBelow(t) && uid in t.users && r == t.(users := t.users[uid := u])
    ensures IdsBelow(r)
  {
  }

  lemma FlagRefs(t: Tables, r: Tables, uid: int, u: User)
    requires Integrity(t) && uid in t.users && r == t.(users := t.users[uid := u])
    ensures Integrity(r)
  {
  }
}
