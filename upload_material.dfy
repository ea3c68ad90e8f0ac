/** The material upload endpoint (backend/api/teachers/upload-material.php):
    a teacher uploads a file to one of their courses; the stored name is the
    upload's name with every unsafe character replaced, behind a unique
    prefix, and a published course_materials row is added once the file has
    been moved into place. */
module MaterialUpload {
  import opened Common
  import opened InputSanitizer
  import opened Schema
  import opened StoreModule

  // ---- File names ----

  /** The characters `[a-zA-Z0-9.-]` that the stored name keeps. */
  predicate SafeChar(c: char)
  {
    ('a' <= c <= 'z') || ('A' <= c <= 'Z') || ('0' <= c <= '9') || c == '.' || c == '-'
  }

  /** `preg_replace('/[^a-zA-Z0-9.-]/', '_', name)`. */
  function SafeName(name: string): (r: string)
    ensures |r| == |name|
  {
    if name == [] then []
    else [if SafeChar(name[0]) then name[0] else '_'] + SafeName(name[1..])
  }

  /** Each character is kept if it is safe and becomes '_' otherwise. */
  lemma {:induction false} SafeNameAt(name: string, i: int)
    requires 0 <= i < |name|
    ensures SafeName(name)[i] == (if SafeChar(name[i]) then name[i] else '_')
    decreases |name|
  {
    if i > 0 {
      SafeNameAt(name[1..], i - 1);
    }
  }

  /** The stored name holds safe characters and '_' only. */
  lemma SafeNameIsSafe(name: string)
    ensures forall i :: 0 <= i < |SafeName(name)| ==> SafeChar(SafeName(name)[i]) || SafeName(name)[i] == '_'
  {
    forall i | 0 <= i < |SafeName(name)| ensures SafeChar(SafeName(name)[i]) || SafeName(name)[i] == '_' {
      SafeNameAt(name, i);
    }
  }

  /** A name is left unchanged exactly when it holds nothing but safe
      characters and '_'. */
  lemma SafeNameFixesSafe(name: string)
    ensures SafeName(name) == name <==> forall i :: 0 <= i < |name| ==> SafeChar(name[i]) || name[i] == '_'
  {
    forall i | 0 <= i < |name| ensures SafeName(name)[i] == (if SafeChar(name[i]) then name[i] else '_') {
      SafeNameAt(name, i);
    }
    if forall i :: 0 <= i < |name| ==> SafeChar(name[i]) || name[i] == '_' {
      assert SafeName(name) == name;
    }
  }

  /** Replacing twice is replacing once. */
  lemma SafeNameIdempotent(name: string)
    ensures SafeName(SafeName(name)) == SafeName(name)
  {
    SafeNameIsSafe(name);
    SafeNameFixesSafe(SafeName(name));
  }

  /** The position of the last '.', if any. */
  function LastDot(s: string): (r: Option<nat>)
    ensures r.Some? ==> r.value < |s| && s[r.value] == '.' && '.' !in s[r.value + 1..]
    ensures r.None? ==> '.' !in s
  {
    if s == [] then None
    else if s[|s| - 1] == '.' then Some(|s| - 1)
    else
      var r := LastDot(s[..|s| - 1]);
      assert s == s[..|s| - 1] + [s[|s| - 1]];
      if r.Some? then
        assert s[r.value + 1..] == s[..|s| - 1][r.value + 1..] + [s[|s| - 1]];
        r
      else r
  }

  /** `pathinfo(name, PATHINFO_EXTENSION)` for an upload's name, which
      carries no directory part: what follows the last '.', or "" when there
      is no '.'. */
  function Extension(name: string): string
  {
    match LastDot(name)
    case None => ""
    case Some(i) => name[i + 1..]
  }

  /** The extension holds no '.' and is exactly the text after the last '.'
      of the name; a name without '.' has none. */
  lemma ExtensionIsSuffix(name: string)
    ensures '.' !in Extension(name)
    ensures '.' !in name ==> Extension(name) == ""
    ensures '.' in name ==>
      exists stem :: name == stem + "." + Extension(name)
  {
    var d := LastDot(name);
    if d.Some? {
      var stem := name[..d.value];
      assert name == stem + "." + Extension(name);
    }
  }

  /** The `uniqid() . '_' . name` file name. */
  function StoredName(unique: string, name: string): string
  {
    unique + "_" + SafeName(name)
  }

  const UploadDir := "../../uploads/materials/"

  // ---- The endpoint ----

  /** `$_FILES['file']`: the client's name and the size. */
  datatype UploadedFile = UploadedFile(name: string, size: int)

  datatype UploadRequest = UploadRequest(
    verb: HttpMethod, file: Option<UploadedFile>, courseId: Option<int>, title: Option<string>)

  /** The `data` of the success response. */
  datatype UploadReceipt = UploadReceipt(materialId: int, fileName: string)

  datatype UploadOutcome = UploadOutcome(tables: Tables, resp: Response, receipt: Option<UploadReceipt>)

  /** The new row: the sanitized title, or else the upload's name as it came;
      the extension as type; published. */
  function NewMaterial(cid: int, f: UploadedFile, title: Option<string>, unique: string): Material
  {
    Material(cid, if title.Some? then Sanitize(title).value else f.name,
             Extension(f.name), UploadDir + StoredName(unique, f.name), f.size, true)
  }

  function AddMaterial(t: Tables, m: Material): Tables
  {
    t.(materials := t.materials[t.nextId := m], nextId := t.nextId + 1)
  }

  /** The endpoint; `unique` is the value of `uniqid()` and `moved` whether
      `move_uploaded_file` succeeded. */
  ghost function UploadSpec(t: Tables, s: Session, rq: UploadRequest, unique: string, moved: bool): UploadOutcome
  {
    var pre := Preflight(rq.verb, {HttpMethod.Post});
    if pre.Some? then UploadOutcome(t, pre.value, None)
    else if !TeacherSession(s) then UploadOutcome(t, Fail(403), None)
    else if rq.file.None? || rq.courseId.None? then UploadOutcome(t, Fail(400), None)
    else
      var cid := rq.courseId.value;
      match TeacherOf(t, s.userId.value)
      case None => UploadOutcome(t, Fail(403), None)
      case Some(tid) =>
        if !Owns(t, tid, cid) then UploadOutcome(t, Fail(403), None)
        else if !moved then UploadOutcome(t, Fail(500), None)
        else
          UploadOutcome(AddMaterial(t, NewMaterial(cid, rq.file.value, rq.title, unique)), Ok,
                        Some(UploadReceipt(t.nextId, StoredName(unique, rq.file.value.name))))
  }

  method InsertMaterial(db: Store, m: Material) returns (id: int)
    modifies db
    ensures db.T() == AddMaterial(old(db.T()), m) && id == old(db.nextId)
  {
    id := db.nextId;
    db.materials := db.materials[db.nextId := m];
    db.nextId := db.nextId + 1;
  }

  method Upload(db: Store, s: Session, rq: UploadRequest, unique: string, moved: bool)
    returns (resp: Response, receipt: Option<UploadReceipt>)
    requires db.Valid()
    modifies db
    ensures var out := UploadSpec(old(db.T()), s, rq, unique, moved);
      db.T() == out.tables && resp == out.resp && receipt == out.receipt
  {
    var pre := Preflight(rq.verb, {HttpMethod.Post});
    if pre.Some? {
      return pre.value, None;
    }
    if !(s.userId.Some? && s.role == Some(Teacher)) {
      return Fail(403), None;
    }
    if rq.file.None? || rq.courseId.None? {
      return Fail(400), None;
    }
    var cid := rq.courseId.value;
    var teacher := db.LookupTeacher(s.userId.value);
    if teacher.None? {
      return Fail(403), None;
    }
    if !(cid in db.courses && db.courses[cid].teacherId == teacher.value) {
      return Fail(403), None;
    }
    var f := rq.file.value;
    var fileName := StoredName(unique, f.name);
    if !moved {
      return Fail(500), None;
    }
    var id := InsertMaterial(db, NewMaterial(cid, f, rq.title, unique));
    return Ok, Some(UploadReceipt(id, fileName));
  }

  /** Every refusal, the failed move included, leaves the store as it was. */
  lemma UploadRefusalWritesNothing(t: Tables, s: Session, rq: UploadRequest, unique: string, moved: bool)
    ensures var out := UploadSpec(t, s, rq, unique, moved);
      out.resp != Ok ==> out.tables == t && out.receipt.None?
  {
  }

  /** The refusals in order: the session's role (403), the file and the course
      id (400), ownership (403), then the move (500). */
  lemma UploadRefusals(t: Tables, s: Session, rq: UploadRequest, unique: string, moved: bool)
    requires WellFormed(t) && rq.verb == HttpMethod.Post
    ensures var out := UploadSpec(t, s, rq, unique, moved);
      (!TeacherSession(s) ==> out.resp == Fail(403))
      && (TeacherSession(s) && (rq.file.None? || rq.courseId.None?) ==> out.resp == Fail(400))
      && (TeacherSession(s) && rq.file.Some? && rq.courseId.Some?
          ==> (out.resp == Fail(403) <==>
                 !exists k :: k in t.teachers && t.teachers[k].userId == s.userId.value
                              && Owns(t, k, rq.courseId.value)))
      && (TeacherSession(s) && rq.file.Some? && rq.courseId.Some? && out.resp != Fail(403)
          ==> (out.resp == Ok <==> moved) && (!moved ==> out.resp == Fail(500)))
  {
    if TeacherSession(s) && rq.file.Some? && rq.courseId.Some? {
      if exists k :: k in t.teachers && t.teachers[k].userId == s.userId.value && Owns(t, k, rq.courseId.value) {
        var k :| k in t.teachers && t.teachers[k].userId == s.userId.value && Owns(t, k, rq.courseId.value);
        TeacherOfUnique(t, s.userId.value, k);
      }
    }
  }

  /** A successful upload adds exactly one published material, under a fresh
      id, to the teacher's course: titled by the request or else by the
      upload's name, typed by the extension, stored under the unique prefix
      and the safe name. */
  lemma UploadAddsMaterial(t: Tables, s: Session, rq: UploadRequest, unique: string, moved: bool)
    requires WellFormed(t)
    ensures var out := UploadSpec(t, s, rq, unique, moved);
      out.resp == Ok ==>
        var f := rq.file.value;
        var m := out.tables.materials[t.nextId];
        moved && t.nextId !in t.materials && t.nextId in out.tables.materials
        && out.tables == AddMaterial(t, m)
        && m.courseId == rq.courseId.value && m.courseId in t.courses
        && t.courses[m.courseId].teacherId in t.teachers
        && t.teachers[t.courses[m.courseId].teacherId].userId == s.userId.value
        && m.title == (if rq.title.Some? then Sanitize(rq.title).value else f.name)
        && m.fileType == Extension(f.name)
        && m.filePath == UploadDir + unique + "_" + SafeName(f.name)
        && m.fileSize == f.size && m.isPublished
        && out.receipt == Some(UploadReceipt(t.nextId, unique + "_" + SafeName(f.name)))
  {
    var out := UploadSpec(t, s, rq, unique, moved);
    if out.resp == Ok {
      var tid := TeacherOf(t, s.userId.value).value;
      var m := NewMaterial(rq.courseId.value, rq.file.value, rq.title, unique);
      assert out == UploadOutcome(AddMaterial(t, m), Ok,
                                  Some(UploadReceipt(t.nextId, StoredName(unique, rq.file.value.name))));
    }
  }

  lemma UploadKeepsInvariants(t: Tables, s: Session, rq: UploadRequest, unique: string, moved: bool)
    requires WellFormed(t) && Integrity(t)
    ensures var out := UploadSpec(t, s, rq, unique, moved);
      WellFormed(out.tables) && Integrity(out.tables)
  {
    var out := UploadSpec(t, s, rq, unique, moved);
    UploadRefusalWritesNothing(t, s, rq, unique, moved);
    if out.resp == Ok {
      var m := NewMaterial(rq.courseId.value, rq.file.value, rq.title, unique);
      assert out.tables == AddMaterial(t, m);
      MaterialKeeps(t, m);
    }
  }

  lemma MaterialKeeps(t: Tables, m: Material)
    requires WellFormed(t) && Integrity(t) && m.courseId in t.courses
    ensures WellFormed(AddMaterial(t, m)) && Integrity(AddMaterial(t, m))
  {
    MaterialAddedWellFormed(t, AddMaterial(t, m));
    MaterialAddedRefs(t, AddMaterial(t, m));
  }

  lemma MaterialAddedWellFormed(t: Tables, r: Tables)
    requires WellFormed(t)
    requires r == t.(materials := r.materials, nextId := t.nextId + 1)
    requires forall k :: k in r.materials ==> k in t.materials || k == t.nextId
    ensures WellFormed(r)
  {
  }

  lemma MaterialAddedRefs(t: Tables, r: Tables)
    requires Integrity(t)
    requires r == t.(materials := r.materials, nextId := r.nextId)
    requires forall k :: k in t.materials ==> k in r.materials
    requires forall k :: k in r.materials ==> r.materials[k].courseId in t.courses
    ensures Integrity(r)
  {
    assert MaterialsRefOk(r);
    assert CompletedRefOk(r);
  }
}
