/** When uploads of the same file under the same key are given the same answer. */
module UploadAgreement {
  import opened Common
  import opened UploadTables
  import opened UploadProtocol
  import opened UploadStorage
  import opened UploadRuns

  /** The content of w under another key, and the key of w for another content. */
  predicate Crossing(r1: Request, r2: Request, w: Request) {
    && r1.tenant == w.tenant && r1.content == w.content && r1.key != w.key
    && r2.tenant == w.tenant && r2.key == w.key && r2.content != w.content
  }

  /** Who uploads the content of w uses its key, or who uses its key uploads its content. */
  predicate OneSided(byKey: bool, tenant: Tenant, key: Key, content: Content, w: Request) {
    tenant == w.tenant ==>
      if byKey then (content == w.content ==> key == w.key) else (key == w.key ==> content == w.content)
  }

  predicate RequestOk(byKey: bool, r: Request, w: Request) {
    OneSided(byKey, r.tenant, r.key, r.content, w)
  }

  /** The row is for w, told by its key or by its content. */
  predicate RowFor(byKey: bool, t: Tables, w: Request, d: DocId, j: JobId) {
    && d in t.docs && t.docs[d].tenant == w.tenant
    && j in t.jobs && t.jobs[j].tenant == w.tenant && t.jobs[j].doc == d
    && if byKey then t.jobs[j].key == w.key else t.docs[d].content == w.content
  }

  predicate Uploading(p: Phase) {
    !Deleting(p) && !p.Deleted? && !p.Died?
  }

  predicate PhaseOk(byKey: bool, t: Tables, p: Phase, w: Request)
    requires Uploading(p)
  {
    && RequestOk(byKey, p.r, w)
    && (SameUpload(p.r, w) && p.Done? && p.result.Found? ==> RowFor(byKey, t, w, p.result.doc, p.result.job))
  }

  predicate JobOk(byKey: bool, t: Tables, j: JobId, w: Request)
    requires j in t.jobs
  {
    && t.jobs[j].doc in t.docs
    && OneSided(byKey, t.jobs[j].tenant, t.jobs[j].key, t.docs[t.jobs[j].doc].content, w)
  }

  ghost predicate AgreementInv(byKey: bool, s: State, w: Request) {
    && (forall j | j in s.t.jobs :: JobOk(byKey, s.t, j, w))
    && (forall id | id in s.requests && Uploading(s.requests[id]) :: PhaseOk(byKey, s.t, s.requests[id], w))
  }

  lemma StepJobOk(byKey: bool, s: State, a: Action, w: Request, j: JobId)
    requires InFlightInv(s) && CanDo(s, a) && j in Do(s, a).t.jobs
    requires j in s.t.jobs ==> JobOk(byKey, s.t, j, w)
    requires a.Insert? && Uploading(s.requests[a.id]) ==> RequestOk(byKey, s.requests[a.id].r, w)
    ensures JobOk(byKey, Do(s, a).t, j, w)
  {
    assert a.Insert? ==> HoldsObject(s, a.id);
  }

  /** A row for w stays one. */
  lemma RowStays(byKey: bool, s: State, a: Action, w: Request, d: DocId, j: JobId)
    requires InFlightInv(s) && CanDo(s, a) && RowFor(byKey, s.t, w, d, j)
    ensures RowFor(byKey, Do(s, a).t, w, d, j)
  {
    assert a.Insert? ==> HoldsObject(s, a.id);
  }

  /** Whatever answers w is a row for w. */
  lemma HitIsRow(byKey: bool, t: Tables, r: Request, w: Request, d: DocId, j: JobId)
    requires Paired(t) && SameUpload(r, w) && (KeyHit(t, r, d, j) || ContentHit(t, r, d, j))
    requires JobOk(byKey, t, j, w)
    ensures RowFor(byKey, t, w, d, j)
  {
  }

  lemma StepPhaseOk(byKey: bool, s: State, a: Action, w: Request, id: RequestId)
    requires Paired(s.t) && InFlightInv(s) && CanDo(s, a)
    requires forall j | j in s.t.jobs :: JobOk(byKey, s.t, j, w)
    requires id in Do(s, a).requests && Uploading(Do(s, a).requests[id])
    requires id in s.requests && Uploading(s.requests[id]) ==> PhaseOk(byKey, s.t, s.requests[id], w)
    requires a.Submit? ==> RequestOk(byKey, a.r, w)
    ensures PhaseOk(byKey, Do(s, a).t, Do(s, a).requests[id], w)
  {
    var p := Do(s, a).requests[id];
    if p.Done? && p.result.Found? && SameUpload(p.r, w) {
      if a.id != id {
        RowStays(byKey, s, a, w, p.result.doc, p.result.job);
      } else if !a.Insert? {
        HitIsRow(byKey, s.t, p.r, w, p.result.doc, p.result.job);
      }
    }
  }

  ghost predicate AllOk(byKey: bool, acts: seq<Action>, w: Request) {
    forall i | 0 <= i < |acts| && acts[i].Submit? :: RequestOk(byKey, acts[i].r, w)
  }

  lemma StepAgreement(byKey: bool, s: State, a: Action, w: Request)
    requires Paired(s.t) && InFlightInv(s) && AgreementInv(byKey, s, w) && CanDo(s, a)
    requires a.Submit? ==> RequestOk(byKey, a.r, w)
    ensures AgreementInv(byKey, Do(s, a), w)
  {
    var s' := Do(s, a);
    forall j | j in s'.t.jobs ensures JobOk(byKey, s'.t, j, w) {
      StepJobOk(byKey, s, a, w, j);
    }
    forall id | id in s'.requests && Uploading(s'.requests[id]) ensures PhaseOk(byKey, s'.t, s'.requests[id], w) {
      StepPhaseOk(byKey, s, a, w, id);
    }
  }

  lemma {:induction false} RunAgreement(byKey: bool, s: State, acts: seq<Action>, w: Request)
    requires Inv(s) && AgreementInv(byKey, s, w) && Run(s, acts) && AllOk(byKey, acts, w)
    ensures AgreementInv(byKey, Final(s, acts), w)
    decreases |acts|
  {
    if acts != [] {
      StepInv(s, acts[0]);
      StepAgreement(byKey, s, acts[0], w);
      RunAgreement(byKey, Do(s, acts[0]), acts[1..], w);
    }
  }

  ghost predicate AnsweredFor(s: State, id: RequestId, w: Request) {
    id in s.requests && s.requests[id].Done? && s.requests[id].result.Found? && SameUpload(s.requests[id].r, w)
  }

  /** No two uploads of the run cross over w. */
  ghost predicate Uncrossed(acts: seq<Action>, w: Request) {
    forall i, k | 0 <= i < |acts| && 0 <= k < |acts| && acts[i].Submit? && acts[k].Submit? ::
      !Crossing(acts[i].r, acts[k].r, w)
  }

  lemma Side(acts: seq<Action>, w: Request) returns (byKey: bool)
    requires Uncrossed(acts, w)
    ensures AllOk(byKey, acts, w)
  {
    byKey := !exists i :: 0 <= i < |acts| && acts[i].Submit? && !RequestOk(true, acts[i].r, w);
  }

  /** The row with w's key, or with w's content, is the only one. */
  lemma RowIsUnique(byKey: bool, t: Tables, w: Request, d: DocId, j: JobId, d': DocId, j': JobId)
    requires Paired(t) && Unique(t) && RowFor(byKey, t, w, d, j) && RowFor(byKey, t, w, d', j')
    ensures d == d' && j == j'
  {
  }

  lemma AnswerIsRow(byKey: bool, s: State, acts: seq<Action>, w: Request, a: RequestId)
    requires Init(s) && Run(s, acts) && AllOk(byKey, acts, w) && AnsweredFor(Final(s, acts), a, w)
    ensures var result := Final(s, acts).requests[a].result;
      RowFor(byKey, Final(s, acts).t, w, result.doc, result.job)
  {
    RunAgreement(byKey, s, acts, w);
    assert PhaseOk(byKey, Final(s, acts).t, Final(s, acts).requests[a], w);
  }

  /**
   Unless two uploads of the run cross over w, all uploads of w's tenant, key and content return
   the same document and job. It has w's key if all uploads with w's content use that key, and
   w's content if all uploads with w's key have that content.
   */
  lemma UploadsAgree(s: State, acts: seq<Action>, w: Request, a: RequestId, b: RequestId)
    requires Init(s) && Run(s, acts) && Uncrossed(acts, w)
    requires AnsweredFor(Final(s, acts), a, w) && AnsweredFor(Final(s, acts), b, w)
    ensures Final(s, acts).requests[a].result == Final(s, acts).requests[b].result
    ensures forall byKey | AllOk(byKey, acts, w) ::
      RowFor(byKey, Final(s, acts).t, w, Final(s, acts).requests[a].result.doc, Final(s, acts).requests[a].result.job)
  {
    var t, first, second := Final(s, acts).t, Final(s, acts).requests[a].result, Final(s, acts).requests[b].result;
    var byKey := Side(acts, w);
    RunInv(s, acts);
    AnswerIsRow(byKey, s, acts, w, a);
    AnswerIsRow(byKey, s, acts, w, b);
    RowIsUnique(byKey, t, w, first.doc, first.job, second.doc, second.job);
    forall k | AllOk(k, acts, w) ensures RowFor(k, t, w, first.doc, first.job) {
      AnswerIsRow(k, s, acts, w, a);
    }
  }

  /**
   ... and, without deletes and once all requests have ended, its object is stored and is the only
   one of the tenant with w's content, but for objects that an upload left behind.
   */
  lemma OneObject(s: State, acts: seq<Action>, w: Request, a: RequestId, o: ObjectKey)
    requires Init(s) && Run(s, acts) && Uncrossed(acts, w) && NoDeletes(acts)
    requires Idle(Final(s, acts)) && AnsweredFor(Final(s, acts), a, w)
    requires AlwaysLeaksNothing(s, acts) || IsLiveFile(Final(s, acts).t, o)
    ensures var t, d := Final(s, acts).t, Final(s, acts).requests[a].result.doc;
      && d in t.docs && t.docs[d].file in t.objects
      && t.objects[t.docs[d].file] == t.docs[d].content
      && (o in t.objects && o.tenant == w.tenant && t.objects[o] == w.content ==> o == t.docs[d].file)
      && (AllOk(false, acts, w) ==> t.docs[d].content == w.content)
  {
    var s' := Final(s, acts);
    var byKey := Side(acts, w);
    var result := s'.requests[a].result;
    RunInv(s, acts);
    RunWithoutDeletes(s, acts);
    RunAgreement(byKey, s, acts, w);
    UploadsAgree(s, acts, w, a, a);
    AnswerIsRow(byKey, s, acts, w, a);
    assert FileOk(s', result.doc);
    StorageIsAccounted(s, acts, s'.t.docs[result.doc].file);
    StorageIsAccounted(s, acts, o);
    if o in s'.t.objects && o.tenant == w.tenant && s'.t.objects[o] == w.content {
      assert FileOk(s', o.doc);
      OwnerIsRow(byKey, s'.t, w, o.doc, result.doc, result.job);
    }
  }

  /** A document with w's content is the one of the row for w. */
  lemma OwnerIsRow(byKey: bool, t: Tables, w: Request, e: DocId, d: DocId, j: JobId)
    requires Paired(t) && Unique(t) && RowFor(byKey, t, w, d, j)
    requires forall i | i in t.jobs :: JobOk(byKey, t, i, w)
    requires e in t.docs && t.docs[e].tenant == w.tenant && t.docs[e].content == w.content
    ensures e == d
  {
    var i :| i in t.jobs && t.jobs[i].doc == e;
    assert JobOk(byKey, t, i, w);
  }

  // ---------------------------------------------------------------- crossing uploads

  /** After an upload of its content under another key, w is answered by content. */
  lemma AnsweredByContent(r1: Request, w: Request) returns (s: State, acts: seq<Action>)
    requires r1.tenant == w.tenant && r1.content == w.content && r1.key != w.key
    ensures Init(s) && Run(s, acts) && SubmitsFrom(acts, iset{r1, w}) && NoDeletes(acts) && Orderly(acts)
    ensures Final(s, acts).t.docs == map[1 := DocRow(w.tenant, w.content, ObjectOf(r1, 1), false)]
    ensures Final(s, acts).t.jobs == map[1 := JobRow(1, w.tenant, r1.key)] && Final(s, acts).used == {1}
    ensures Final(s, acts).requests == map[1 := Done(r1, Found(1, 1)), 2 := Done(w, Found(1, 1))]
  {
    s := State(Tables(map[], map[], map[]), map[], {});
    var upload := UploadFresh(s, 1, r1, 1, 1);
    var s1 := Final(s, upload);
    assert s1.t.jobs == map[1 := JobRow(1, w.tenant, r1.key)];
    assert ContentHit(s1.t, w, 1, 1);
    var again := UploadKnown(s1, 2, w, 1, 1);
    RunConcat(s, upload, again);
    acts := upload + again;
  }

  /** After an upload of another file under its key, w is answered by key. */
  lemma AnsweredByKey(s: State, r2: Request, w: Request) returns (acts: seq<Action>)
    requires r2.tenant == w.tenant && r2.key == w.key
    requires s.requests.Keys == {1, 2} && s.used == {1} && s.t.jobs.Keys == {1}
    requires !HasKey(s.t, r2) && !HasContent(s.t, r2) && !KeyTaken(s.t, r2) && !ContentTaken(s.t, r2)
    ensures Run(s, acts) && SubmitsFrom(acts, iset{r2, w}) && NoDeletes(acts) && Orderly(acts)
    ensures Final(s, acts).requests == s.requests[3 := Done(r2, Found(2, 2))][4 := Done(w, Found(2, 2))]
  {
    var upload := UploadFresh(s, 3, r2, 2, 2);
    var s1 := Final(s, upload);
    assert KeyHit(s1.t, w, 2, 2);
    var again := UploadKnown(s1, 4, w, 2, 2);
    RunConcat(s, upload, again);
    acts := upload + again;
  }

  /** r1, w, r2, w one after the other: w is answered by content first, by key in the end. */
  lemma CrossingDisagrees(r1: Request, r2: Request, w: Request) returns (s: State, acts: seq<Action>)
    requires Crossing(r1, r2, w)
    ensures Init(s) && Run(s, acts) && SubmitsFrom(acts, iset{r1, r2, w}) && NoDeletes(acts) && Orderly(acts)
    ensures AnsweredFor(Final(s, acts), 2, w) && AnsweredFor(Final(s, acts), 4, w)
    ensures Final(s, acts).requests[2].result != Final(s, acts).requests[4].result
  {
    var first;
    s, first := AnsweredByContent(r1, w);
    var second := AnsweredByKey(Final(s, first), r2, w);
    RunConcat(s, first, second);
    acts := first + second;
  }

  ghost predicate AlwaysAgree(rs: iset<Request>, w: Request) {
    forall s, acts, a, b |
      && Init(s) && Run(s, acts) && SubmitsFrom(acts, rs)
      && AnsweredFor(Final(s, acts), a, w) && AnsweredFor(Final(s, acts), b, w) ::
      Final(s, acts).requests[a].result == Final(s, acts).requests[b].result
  }

  /** The uploads of w agree in every run exactly if no two of the possible requests cross over w. */
  lemma AgreementIff(rs: iset<Request>, w: Request)
    requires w in rs
    ensures AlwaysAgree(rs, w) <==> !exists r1, r2 :: r1 in rs && r2 in rs && Crossing(r1, r2, w)
  {
    if r1, r2 :| r1 in rs && r2 in rs && Crossing(r1, r2, w) {
      var s, acts := CrossingDisagrees(r1, r2, w);
      assert AnsweredFor(Final(s, acts), 2, w) && AnsweredFor(Final(s, acts), 4, w);
    } else {
      forall s, acts, a, b |
        && Init(s) && Run(s, acts) && SubmitsFrom(acts, rs)
        && AnsweredFor(Final(s, acts), a, w) && AnsweredFor(Final(s, acts), b, w)
        ensures Final(s, acts).requests[a].result == Final(s, acts).requests[b].result
      {
        UploadsAgree(s, acts, w, a, b);
      }
    }
  }
}
