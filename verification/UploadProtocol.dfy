/**
 Any number of upload and delete requests over the same tables, interleaved statement by
 statement. The insert and its commit are one step: a concurrent insert of the same key or
 content waits for the commit and then fails on the constraint. A request may die at any
 point before its commit; its transaction is then rolled back, but not what it did to storage.

 `used` are the document ids drawn so far.
 */
module UploadProtocol {
  import opened Common
  import opened UploadTables

  type RequestId = int

  datatype Phase =
    | CheckingKey(r: Request)
    | CheckingContent(r: Request)
    | Storing(r: Request)
    | Inserting(r: Request, doc: DocId)    // the object is stored
    | CleaningUp(r: Request, doc: DocId)   // the insert hit a constraint
    | FindingKey(r: Request)
    | FindingContent(r: Request)
    | Done(r: Request, result: Result)
    | Marking(doc: DocId)                  // a delete request has seen the document live
    | Removing(doc: DocId)                 // deleted_at is written but not committed: row lock held
    | Removed(doc: DocId)                  // and the object is gone, or its removal has failed
    | Deleted(doc: DocId)
    | Died

  datatype State = State(t: Tables, requests: map<RequestId, Phase>, used: set<DocId>)

  datatype Action =
    | Submit(id: RequestId, r: Request)
    | CheckKey(id: RequestId, hit: Option<(DocId, JobId)>)
    | CheckContent(id: RequestId, hit: Option<(DocId, JobId)>)
    | Store(id: RequestId, doc: DocId, stored: bool)
    | Insert(id: RequestId, job: JobId)
    | CleanUp(id: RequestId, removed: bool)
    | FindKey(id: RequestId, hit: Option<(DocId, JobId)>)
    | FindContent(id: RequestId, hit: Option<(DocId, JobId)>)
    | GetDocument(id: RequestId, doc: DocId, tenant: Tenant)
    | MarkDeleted(id: RequestId)
    | RemoveObject(id: RequestId, removed: bool)
    | CommitDelete(id: RequestId)
    | Die(id: RequestId)

  predicate KeyAnswer(t: Tables, r: Request, hit: Option<(DocId, JobId)>) {
    if hit.Some? then KeyHit(t, r, hit.value.0, hit.value.1) else !HasKey(t, r)
  }

  predicate ContentAnswer(t: Tables, r: Request, hit: Option<(DocId, JobId)>) {
    if hit.Some? then ContentHit(t, r, hit.value.0, hit.value.1) else !HasContent(t, r)
  }

  predicate HoldsLock(p: Phase) {
    p.Removing? || p.Removed?
  }

  predicate RowLocked(s: State, d: DocId) {
    exists id | id in s.requests :: HoldsLock(s.requests[id]) && s.requests[id].doc == d
  }

  /** The request has been answered or has died. */
  predicate Ended(p: Phase) {
    p.Done? || p.Deleted? || p.Died?
  }

  predicate CanDo(s: State, a: Action) {
    match a
    case Submit(id, _) => id !in s.requests
    case CheckKey(id, hit) => id in s.requests && s.requests[id].CheckingKey? && KeyAnswer(s.t, s.requests[id].r, hit)
    case CheckContent(id, hit) =>
      id in s.requests && s.requests[id].CheckingContent? && ContentAnswer(s.t, s.requests[id].r, hit)
    case Store(id, doc, _) => id in s.requests && s.requests[id].Storing? && doc !in s.used
    case Insert(id, job) => id in s.requests && s.requests[id].Inserting? && job !in s.t.jobs
    case CleanUp(id, _) => id in s.requests && s.requests[id].CleaningUp?
    case FindKey(id, hit) => id in s.requests && s.requests[id].FindingKey? && KeyAnswer(s.t, s.requests[id].r, hit)
    case FindContent(id, hit) =>
      id in s.requests && s.requests[id].FindingContent? && ContentAnswer(s.t, s.requests[id].r, hit)
    case GetDocument(id, doc, tenant) =>
      id !in s.requests && doc in s.t.docs && s.t.docs[doc].tenant == tenant && !s.t.docs[doc].deleted
    case MarkDeleted(id) => id in s.requests && s.requests[id].Marking? && !RowLocked(s, s.requests[id].doc)
    case RemoveObject(id, _) => id in s.requests && s.requests[id].Removing? && s.requests[id].doc in s.t.docs
    case CommitDelete(id) => id in s.requests && s.requests[id].Removed? && s.requests[id].doc in s.t.docs
    case Die(id) => id in s.requests && !Ended(s.requests[id])
  }

  function Answered(r: Request, hit: Option<(DocId, JobId)>, otherwise: Phase): Phase {
    if hit.Some? then Done(r, Found(hit.value.0, hit.value.1)) else otherwise
  }

  function Do(s: State, a: Action): State
    requires CanDo(s, a)
  {
    match a
    case Submit(id, r) => s.(requests := s.requests[id := CheckingKey(r)])
    case CheckKey(id, hit) =>
      var r := s.requests[id].r;
      s.(requests := s.requests[id := Answered(r, hit, CheckingContent(r))])
    case CheckContent(id, hit) =>
      var r := s.requests[id].r;
      s.(requests := s.requests[id := Answered(r, hit, Storing(r))])
    case Store(id, doc, stored) =>
      var r := s.requests[id].r;
      if stored then
        s.(t := WithObject(s.t, r, doc), requests := s.requests[id := Inserting(r, doc)], used := s.used + {doc})
      else
        s.(requests := s.requests[id := Done(r, StorageError)], used := s.used + {doc})
    case Insert(id, job) =>
      var Inserting(r, doc) := s.requests[id];
      if ContentTaken(s.t, r) || KeyTaken(s.t, r) then
        s.(requests := s.requests[id := CleaningUp(r, doc)])
      else
        s.(t := WithRows(s.t, r, doc, job), requests := s.requests[id := Done(r, Found(doc, job))])
    case CleanUp(id, removed) =>
      var CleaningUp(r, doc) := s.requests[id];
      s.(t := if removed then WithoutObject(s.t, ObjectOf(r, doc)) else s.t,
         requests := s.requests[id := FindingKey(r)])
    case FindKey(id, hit) =>
      var r := s.requests[id].r;
      s.(requests := s.requests[id := Answered(r, hit, FindingContent(r))])
    case FindContent(id, hit) =>
      var r := s.requests[id].r;
      s.(requests := s.requests[id := Answered(r, hit, Done(r, Conflict))])
    case GetDocument(id, doc, _) => s.(requests := s.requests[id := Marking(doc)])
    case MarkDeleted(id) => s.(requests := s.requests[id := Removing(s.requests[id].doc)])
    case RemoveObject(id, removed) =>
      var doc := s.requests[id].doc;
      s.(t := if removed then WithoutObject(s.t, s.t.docs[doc].file) else s.t,
         requests := s.requests[id := Removed(doc)])
    case CommitDelete(id) =>
      var doc := s.requests[id].doc;
      s.(t := s.t.(docs := s.t.docs[doc := s.t.docs[doc].(deleted := true)]),
         requests := s.requests[id := Deleted(doc)])
    case Die(id) => s.(requests := s.requests[id := Died])
  }

  ghost predicate Run(s: State, acts: seq<Action>)
    decreases |acts|
  {
    acts == [] || (CanDo(s, acts[0]) && Run(Do(s, acts[0]), acts[1..]))
  }

  ghost function Final(s: State, acts: seq<Action>): State
    requires Run(s, acts)
    decreases |acts|
  {
    if acts == [] then s else Final(Do(s, acts[0]), acts[1..])
  }

  ghost predicate Init(s: State) {
    s == State(Tables(map[], map[], map[]), map[], {})
  }

  // ---------------------------------------------------------------- the invariant

  /** A request that has stored its object but not yet inserted or removed it. */
  ghost predicate HoldsObject(s: State, id: RequestId) {
    id in s.requests && (s.requests[id].Inserting? || s.requests[id].CleaningUp?)
  }

  ghost predicate Held(s: State, o: ObjectKey) {
    exists id :: HoldsObject(s, id) && ObjectOf(s.requests[id].r, s.requests[id].doc) == o
  }

  /** Its id is its own, and its object is stored. */
  ghost predicate HolderOk(s: State, id: RequestId)
    requires HoldsObject(s, id)
  {
    var p := s.requests[id];
    && p.doc in s.used && p.doc !in s.t.docs
    && ObjectOf(p.r, p.doc) in s.t.objects && s.t.objects[ObjectOf(p.r, p.doc)] == p.r.content
  }

  ghost predicate InFlightInv(s: State) {
    && (forall d | d in s.t.docs :: d in s.used)
    && (forall id | HoldsObject(s, id) :: HolderOk(s, id))
    && (forall i, k | HoldsObject(s, i) && HoldsObject(s, k) && i != k :: s.requests[i].doc != s.requests[k].doc)
  }

  ghost predicate FileOk(s: State, d: DocId)
    requires d in s.t.docs
  {
    var row := s.t.docs[d];
    && row.file.doc == d && row.file.tenant == row.tenant
    && (row.file in s.t.objects ==> s.t.objects[row.file] == row.content)
  }

  /** The object of every document that is in storage has its content. */
  ghost predicate ObjectsInv(s: State) {
    && (forall d | d in s.t.docs :: FileOk(s, d))
    && (forall o | o in s.t.objects :: o.doc in s.used)
  }

  /** Row locks: a document has at most one delete between its UPDATE and its commit. */
  ghost predicate LockInv(s: State) {
    forall i, k | i in s.requests && k in s.requests && i != k
                  && HoldsLock(s.requests[i]) && HoldsLock(s.requests[k]) ::
      s.requests[i].doc != s.requests[k].doc
  }

  ghost predicate Inv(s: State) {
    Paired(s.t) && Unique(s.t) && InFlightInv(s) && ObjectsInv(s) && LockInv(s)
  }

  lemma StepTables(s: State, a: Action)
    requires Paired(s.t) && Unique(s.t) && InFlightInv(s) && CanDo(s, a)
    ensures Paired(Do(s, a).t) && Unique(Do(s, a).t)
  {
    if a.Insert? {
      assert HoldsObject(s, a.id);
      if !ContentTaken(s.t, s.requests[a.id].r) && !KeyTaken(s.t, s.requests[a.id].r) {
        InsertKeeps(s.t, s.requests[a.id].r, s.requests[a.id].doc, a.job);
      }
    }
  }

  lemma StepHolder(s: State, a: Action, id: RequestId)
    requires CanDo(s, a) && HoldsObject(Do(s, a), id)
    requires HoldsObject(s, id) ==> HolderOk(s, id)
    requires HoldsObject(s, id) && HoldsObject(s, a.id) && a.id != id ==> s.requests[a.id].doc != s.requests[id].doc
    requires forall d | d in s.t.docs :: d in s.used && s.t.docs[d].file.doc == d
    ensures HolderOk(Do(s, a), id)
  {
    assert HoldsObject(s, id) || (a.Store? && a.id == id);
    assert a.CleanUp? || a.Insert? ==> HoldsObject(s, a.id);
  }

  lemma StepHoldersApart(s: State, a: Action, i: RequestId, k: RequestId)
    requires CanDo(s, a) && HoldsObject(Do(s, a), i) && HoldsObject(Do(s, a), k) && i != k
    requires HoldsObject(s, i) && HoldsObject(s, k) ==> s.requests[i].doc != s.requests[k].doc
    requires forall id | HoldsObject(s, id) :: s.requests[id].doc in s.used
    ensures Do(s, a).requests[i].doc != Do(s, a).requests[k].doc
  {
    assert HoldsObject(s, i) || (a.Store? && a.id == i);
    assert HoldsObject(s, k) || (a.Store? && a.id == k);
  }

  lemma StepUsed(s: State, a: Action)
    requires CanDo(s, a) && forall d | d in s.t.docs :: d in s.used
    requires HoldsObject(s, a.id) ==> s.requests[a.id].doc in s.used
    ensures forall d | d in Do(s, a).t.docs :: d in Do(s, a).used
  {
    assert a.Insert? ==> HoldsObject(s, a.id);
  }

  lemma StepInFlight(s: State, a: Action)
    requires InFlightInv(s) && CanDo(s, a)
    requires forall d | d in s.t.docs :: s.t.docs[d].file.doc == d
    ensures InFlightInv(Do(s, a))
  {
    var s' := Do(s, a);
    forall id | HoldsObject(s, id) ensures s.requests[id].doc in s.used {
      assert HolderOk(s, id);
    }
    forall id | HoldsObject(s', id) ensures HolderOk(s', id) {
      StepHolder(s, a, id);
    }
    forall i, k | HoldsObject(s', i) && HoldsObject(s', k) && i != k
      ensures s'.requests[i].doc != s'.requests[k].doc
    {
      StepHoldersApart(s, a, i, k);
    }
    StepUsed(s, a);
  }

  lemma StepFile(s: State, a: Action, d: DocId)
    requires CanDo(s, a) && d in Do(s, a).t.docs
    requires HoldsObject(s, a.id) ==> HolderOk(s, a.id)
    requires forall e | e in s.t.docs :: s.t.docs[e].file.doc == e && e in s.used
    requires d in s.t.docs ==> FileOk(s, d)
    ensures FileOk(Do(s, a), d)
  {
    assert a.Insert? || a.CleanUp? ==> HoldsObject(s, a.id);
  }

  lemma StepObjects(s: State, a: Action)
    requires InFlightInv(s) && ObjectsInv(s) && CanDo(s, a)
    ensures ObjectsInv(Do(s, a))
  {
    forall d | d in s.t.docs ensures s.t.docs[d].file.doc == d {
      assert FileOk(s, d);
    }
    forall d | d in Do(s, a).t.docs ensures FileOk(Do(s, a), d) {
      StepFile(s, a, d);
    }
  }

  lemma StepLocks(s: State, a: Action)
    requires LockInv(s) && CanDo(s, a)
    ensures LockInv(Do(s, a))
  {
    var s' := Do(s, a);
    forall i, k | i in s'.requests && k in s'.requests && i != k
                  && HoldsLock(s'.requests[i]) && HoldsLock(s'.requests[k])
      ensures s'.requests[i].doc != s'.requests[k].doc
    {
      assert a.id != i ==> RowLocked(s, s'.requests[i].doc);
      assert a.id != k ==> RowLocked(s, s'.requests[k].doc);
    }
  }

  lemma StepInv(s: State, a: Action)
    requires Inv(s) && CanDo(s, a)
    ensures Inv(Do(s, a))
  {
    StepTables(s, a);
    forall d | d in s.t.docs ensures s.t.docs[d].file.doc == d {
      assert FileOk(s, d);
    }
    StepInFlight(s, a);
    StepObjects(s, a);
    StepLocks(s, a);
  }

  lemma {:induction false} RunInv(s: State, acts: seq<Action>)
    requires Inv(s) && Run(s, acts)
    ensures Inv(Final(s, acts))
    decreases |acts|
  {
    if acts != [] {
      StepInv(s, acts[0]);
      RunInv(Do(s, acts[0]), acts[1..]);
    }
  }

  // ---------------------------------------------------------------- laws of every run

  /**
   Documents and jobs are in bijection within their tenants, both unique constraints hold, and
   what storage has under a document's key is its content.
   */
  lemma TablesStaySound(s: State, acts: seq<Action>)
    requires Init(s) && Run(s, acts)
    ensures Paired(Final(s, acts).t) && Unique(Final(s, acts).t)
    ensures forall d | d in Final(s, acts).t.docs ::
      var t, row := Final(s, acts).t, Final(s, acts).t.docs[d];
      row.file in t.objects ==> t.objects[row.file] == row.content
  {
    RunInv(s, acts);
    var t := Final(s, acts).t;
    forall d | d in t.docs && t.docs[d].file in t.objects ensures t.objects[t.docs[d].file] == t.docs[d].content {
      assert FileOk(Final(s, acts), d);
    }
  }

  ghost predicate Idle(s: State) {
    forall id | id in s.requests :: Ended(s.requests[id])
  }

  // ---------------------------------------------------------------- runs put together

  lemma {:induction false} RunConcat(s: State, a: seq<Action>, b: seq<Action>)
    requires Run(s, a) && Run(Final(s, a), b)
    ensures Run(s, a + b) && Final(s, a + b) == Final(Final(s, a), b)
    decreases |a|
  {
    if a == [] {
      assert a + b == b;
    } else {
      assert (a + b)[0] == a[0] && (a + b)[1..] == a[1..] + b;
      RunConcat(Do(s, a[0]), a[1..], b);
    }
  }

  lemma RunCons(s: State, a: Action, acts: seq<Action>)
    requires CanDo(s, a) && Run(Do(s, a), acts)
    ensures Run(s, [a] + acts) && Final(s, [a] + acts) == Final(Do(s, a), acts)
  {
    assert ([a] + acts)[1..] == acts;
  }

  lemma RunOne(s: State, a: Action)
    requires CanDo(s, a)
    ensures Run(s, [a]) && Final(s, [a]) == Do(s, a)
  {
    assert [a][0] == a && [a][1..] == [];
    assert Run(Do(s, a), [a][1..]);
  }
}
