/** When an upload ends in ConflictError, over all interleavings. */
module UploadConflicts {
  import opened Common
  import opened UploadTables
  import opened UploadProtocol
  import opened UploadStorage
  import opened UploadRuns
  import opened UploadAgreement

  /** The request lost an insert, so a constraint is taken and stays taken. */
  predicate Refused(p: Phase) {
    p.CleaningUp? || p.FindingKey? || p.FindingContent?
  }

  predicate ConflictOk(t: Tables, p: Phase) {
    && (Refused(p) ==> ContentTaken(t, p.r) || KeyTaken(t, p.r))
    && (p.FindingContent? ==> ContentTaken(t, p.r))
    && (p.Done? && p.result == Conflict ==> ContentDeleted(t, p.r))
  }

  ghost predicate ConflictInv(s: State) {
    forall id | id in s.requests :: ConflictOk(s.t, s.requests[id])
  }

  /** Rows only ever change from live to deleted. */
  lemma TakenStays(s: State, a: Action, r: Request)
    requires InFlightInv(s) && CanDo(s, a)
    ensures ContentTaken(s.t, r) ==> ContentTaken(Do(s, a).t, r)
    ensures KeyTaken(s.t, r) ==> KeyTaken(Do(s, a).t, r)
    ensures ContentDeleted(s.t, r) ==> ContentDeleted(Do(s, a).t, r)
  {
    var t' := Do(s, a).t;
    assert a.Insert? ==> HoldsObject(s, a.id);
    if d :| d in s.t.docs && s.t.docs[d].tenant == r.tenant && s.t.docs[d].content == r.content {
      assert d in t'.docs && t'.docs[d].tenant == r.tenant && t'.docs[d].content == r.content;
    }
    if j :| j in s.t.jobs && s.t.jobs[j].tenant == r.tenant && s.t.jobs[j].key == r.key {
      assert j in t'.jobs && t'.jobs[j].tenant == r.tenant && t'.jobs[j].key == r.key;
    }
    if d :| d in s.t.docs && s.t.docs[d].tenant == r.tenant && s.t.docs[d].content == r.content && s.t.docs[d].deleted {
      assert d in t'.docs && t'.docs[d].tenant == r.tenant && t'.docs[d].content == r.content && t'.docs[d].deleted;
    }
  }

  lemma TakenButNotFound(t: Tables, r: Request)
    requires Paired(t) && ContentTaken(t, r) && !HasContent(t, r)
    ensures ContentDeleted(t, r)
  {
    TakenMeansFindable(t, r);
  }

  lemma StepConflict(s: State, a: Action, id: RequestId)
    requires Paired(s.t) && InFlightInv(s) && CanDo(s, a) && id in Do(s, a).requests
    requires id in s.requests ==> ConflictOk(s.t, s.requests[id])
    ensures ConflictOk(Do(s, a).t, Do(s, a).requests[id])
  {
    var p := Do(s, a).requests[id];
    if Refused(p) || p.Done? {
      TakenStays(s, a, p.r);
      if a.id == id {
        TakenMeansFindable(s.t, p.r);
        if a.FindContent? && a.hit.None? {
          TakenButNotFound(s.t, p.r);
        }
      }
    }
  }

  lemma {:induction false} RunConflict(s: State, acts: seq<Action>)
    requires Inv(s) && ConflictInv(s) && Run(s, acts)
    ensures ConflictInv(Final(s, acts))
    decreases |acts|
  {
    if acts != [] {
      var s' := Do(s, acts[0]);
      forall id | id in s'.requests ensures ConflictOk(s'.t, s'.requests[id]) {
        StepConflict(s, acts[0], id);
      }
      StepInv(s, acts[0]);
      RunConflict(s', acts[1..]);
    }
  }

  /** An upload that ended in ConflictError has a soft-deleted document with its content. */
  lemma ConflictMeansDeleted(s: State, acts: seq<Action>, id: RequestId)
    requires Init(s) && Run(s, acts) && id in Final(s, acts).requests
    requires Final(s, acts).requests[id].Done? && Final(s, acts).requests[id].result == Conflict
    ensures ContentDeleted(Final(s, acts).t, Final(s, acts).requests[id].r)
  {
    RunConflict(s, acts);
    assert ConflictOk(Final(s, acts).t, Final(s, acts).requests[id]);
  }

  /** So without soft deletes no upload, with any key or content, ends in ConflictError. */
  lemma NoConflict(s: State, acts: seq<Action>, id: RequestId)
    requires Init(s) && Run(s, acts) && NoDeletes(acts)
    requires id in Final(s, acts).requests && Final(s, acts).requests[id].Done?
    ensures Final(s, acts).requests[id].result != Conflict
  {
    RunWithoutDeletes(s, acts);
    if Final(s, acts).requests[id].result == Conflict {
      ConflictMeansDeleted(s, acts, id);
    }
  }

  // ---------------------------------------------------------------- the exact condition

  ghost predicate ConflictFor(s: State, id: RequestId, w: Request) {
    id in s.requests && s.requests[id].Done? && s.requests[id].result == Conflict && SameUpload(s.requests[id].r, w)
  }

  /** An upload of w that lost its insert will find w's key. */
  predicate FindsKey(t: Tables, p: Phase, w: Request) {
    Uploading(p) && SameUpload(p.r, w) ==>
      && (p.CleaningUp? || p.FindingKey? ==> KeyTaken(t, w))
      && !p.FindingContent? && !(p.Done? && p.result == Conflict)
  }

  lemma SameTaken(t: Tables, r: Request, w: Request)
    requires SameUpload(r, w)
    ensures KeyTaken(t, r) <==> KeyTaken(t, w)
    ensures ContentTaken(t, r) <==> ContentTaken(t, w)
    ensures HasKey(t, r) <==> HasKey(t, w)
  {
    assert forall j | j in t.jobs :: KeyHit(t, r, t.jobs[j].doc, j) <==> KeyHit(t, w, t.jobs[j].doc, j);
  }

  /** Where nobody else uploads w's content under another key, taken content means taken key. */
  lemma TakenByKey(t: Tables, w: Request)
    requires Paired(t) && ContentTaken(t, w)
    requires forall j | j in t.jobs :: JobOk(true, t, j, w)
    ensures KeyTaken(t, w)
  {
    var d :| d in t.docs && t.docs[d].tenant == w.tenant && t.docs[d].content == w.content;
    var j :| j in t.jobs && t.jobs[j].doc == d;
    assert JobOk(true, t, j, w);
  }

  lemma StepFindsKey(s: State, a: Action, w: Request, id: RequestId)
    requires Inv(s) && AgreementInv(true, s, w) && CanDo(s, a) && id in Do(s, a).requests
    requires id in s.requests ==> FindsKey(s.t, s.requests[id], w)
    ensures FindsKey(Do(s, a).t, Do(s, a).requests[id], w)
  {
    var p := Do(s, a).requests[id];
    if Uploading(p) && SameUpload(p.r, w) {
      TakenStays(s, a, w);
      SameTaken(s.t, p.r, w);
      TakenMeansFindable(s.t, w);
      if a.id == id && a.Insert? && ContentTaken(s.t, w) {
        TakenByKey(s.t, w);
      }
    }
  }

  lemma {:induction false} RunFindsKey(s: State, acts: seq<Action>, w: Request)
    requires Inv(s) && AgreementInv(true, s, w) && Run(s, acts) && AllOk(true, acts, w)
    requires forall id | id in s.requests :: FindsKey(s.t, s.requests[id], w)
    ensures forall id | id in Final(s, acts).requests :: FindsKey(Final(s, acts).t, Final(s, acts).requests[id], w)
    decreases |acts|
  {
    if acts != [] {
      var s' := Do(s, acts[0]);
      forall id | id in s'.requests ensures FindsKey(s'.t, s'.requests[id], w) {
        StepFindsKey(s, acts[0], w, id);
      }
      StepInv(s, acts[0]);
      StepAgreement(true, s, acts[0], w);
      RunFindsKey(s', acts[1..], w);
    }
  }

  /** r uploads the file of w under another key. */
  predicate Renames(r: Request, w: Request) {
    r.tenant == w.tenant && r.content == w.content && r.key != w.key
  }

  /** A lost insert of w that finds neither key nor content. */
  lemma LoseInsert(s: State, id: RequestId, w: Request, d: DocId, j: JobId) returns (acts: seq<Action>)
    requires id in s.requests && s.requests[id] == Storing(w) && d !in s.used && j !in s.t.jobs
    requires ContentTaken(s.t, w) && !HasKey(s.t, w) && !HasContent(s.t, w)
    ensures Run(s, acts) && SubmitsFrom(acts, iset{}) && Orderly(acts)
    ensures Final(s, acts).requests == s.requests[id := Done(w, Conflict)]
  {
    var a1, a2, a3 := Store(id, d, true), Insert(id, j), CleanUp(id, true);
    var a4, a5 := FindKey(id, None), FindContent(id, None);
    var s1 := Do(s, a1);
    SameLookups(s.t, s1.t, w);
    var s2 := Do(s1, a2);
    var s3 := Do(s2, a3);
    assert s3.t.docs == s.t.docs && s3.t.jobs == s.t.jobs;
    SameAnswers(s.t, s3.t, w);
    var s4 := Do(s3, a4);
    RunOne(s4, a5);
    RunCons(s3, a4, [a5]);
    RunCons(s2, a3, [a4] + [a5]);
    RunCons(s1, a2, [a3] + ([a4] + [a5]));
    RunCons(s, a1, [a2] + ([a3] + ([a4] + [a5])));
    acts := [a1] + ([a2] + ([a3] + ([a4] + [a5])));
    assert Do(s4, a5).requests == s.requests[id := Done(w, Conflict)];
  }

  lemma SameAnswers(t: Tables, t': Tables, r: Request)
    requires t.docs == t'.docs && t.jobs == t'.jobs
    ensures HasKey(t, r) <==> HasKey(t', r)
    ensures HasContent(t, r) <==> HasContent(t', r)
  {
    assert forall j | j in t.jobs :: KeyHit(t, r, t.jobs[j].doc, j) <==> KeyHit(t', r, t.jobs[j].doc, j);
    assert forall j | j in t.jobs :: ContentHit(t, r, t.jobs[j].doc, j) <==> ContentHit(t', r, t.jobs[j].doc, j);
  }

  /** The only document, uploaded by r and deleted. */
  lemma UploadAndDelete(r: Request) returns (s: State, acts: seq<Action>)
    ensures Init(s) && Run(s, acts) && SubmitsFrom(acts, iset{r}) && Orderly(acts)
    ensures Final(s, acts).t.docs == map[1 := DocRow(r.tenant, r.content, ObjectOf(r, 1), true)]
    ensures Final(s, acts).t.jobs == map[1 := JobRow(1, r.tenant, r.key)]
    ensures Final(s, acts).used == {1} && Final(s, acts).requests.Keys == {1, 2}
  {
    s := State(Tables(map[], map[], map[]), map[], {});
    var upload := UploadFresh(s, 1, r, 1, 1);
    var delete := DeleteFile(Final(s, upload), 2, 1);
    RunConcat(s, upload, delete);
    acts := upload + delete;
  }

  /** The file is uploaded under another key and deleted; then w is uploaded. */
  lemma RenamedConflicts(r: Request, w: Request) returns (s: State, acts: seq<Action>)
    requires Renames(r, w)
    ensures Init(s) && Run(s, acts) && SubmitsFrom(acts, iset{r, w}) && Orderly(acts)
    ensures ConflictFor(Final(s, acts), 3, w)
  {
    var before;
    s, before := UploadAndDelete(r);
    var s1 := Final(s, before);
    var check := CheckNothing(s1, 3, w);
    var s2 := Final(s1, check);
    assert s2.t.docs[1].content == w.content;
    var lose := LoseInsert(s2, 3, w, 2, 2);
    RunConcat(s1, check, lose);
    RunConcat(s, before, check + lose);
    acts := before + (check + lose);
  }

  ghost predicate NeverConflicts(rs: iset<Request>, w: Request) {
    forall s, acts, id | Init(s) && Run(s, acts) && SubmitsFrom(acts, rs) :: !ConflictFor(Final(s, acts), id, w)
  }

  /**
   Uploads of w never end in ConflictError, whatever is deleted or dies, exactly if none of the
   possible requests uploads the same file under another key.
   */
  lemma ConflictIff(rs: iset<Request>, w: Request)
    requires w in rs
    ensures NeverConflicts(rs, w) <==> !exists r :: r in rs && Renames(r, w)
  {
    if r :| r in rs && Renames(r, w) {
      var s, acts := RenamedConflicts(r, w);
      assert ConflictFor(Final(s, acts), 3, w);
    } else {
      forall s, acts, id | Init(s) && Run(s, acts) && SubmitsFrom(acts, rs)
        ensures !ConflictFor(Final(s, acts), id, w)
      {
        RunFindsKey(s, acts, w);
      }
    }
  }
}
