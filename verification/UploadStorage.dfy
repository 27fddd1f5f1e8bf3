/**
 When storage holds what the documents table says: exactly which steps of an upload or a delete
 cost a live document its file, and which leave an object behind that nobody will use.
 */
module UploadStorage {
  import opened Common
  import opened UploadTables
  import opened UploadProtocol

  predicate IsLiveFile(t: Tables, o: ObjectKey) {
    o.doc in t.docs && t.docs[o.doc].file == o && !t.docs[o.doc].deleted
  }

  // ---------------------------------------------------------------- live documents have their files

  /** A delete of the document has had its turn in storage and is still open. */
  ghost predicate BeingRemoved(s: State, d: DocId) {
    exists id :: id in s.requests && s.requests[id].Removed? && s.requests[id].doc == d
  }

  ghost predicate HasFile(s: State, d: DocId)
    requires d in s.t.docs
  {
    !s.t.docs[d].deleted ==> s.t.docs[d].file in s.t.objects || BeingRemoved(s, d)
  }

  ghost predicate FilesKept(s: State) {
    forall d | d in s.t.docs :: HasFile(s, d)
  }

  /** The step is not the rollback of a delete that has already removed a live document's object. */
  predicate LosesNoFile(s: State, a: Action)
    requires CanDo(s, a)
  {
    a.Die? && s.requests[a.id].Removed? && s.requests[a.id].doc in s.t.docs ==>
      var row := s.t.docs[s.requests[a.id].doc]; row.deleted || row.file in s.t.objects
  }

  lemma StepHasFile(s: State, a: Action, d: DocId)
    requires CanDo(s, a) && LosesNoFile(s, a) && d in Do(s, a).t.docs
    requires HoldsObject(s, a.id) ==> HolderOk(s, a.id)
    requires forall e | e in s.t.docs :: s.t.docs[e].file.doc == e
    requires d in s.t.docs ==> HasFile(s, d)
    ensures HasFile(Do(s, a), d)
  {
    var s' := Do(s, a);
    assert a.Insert? || a.CleanUp? ==> HoldsObject(s, a.id);
    if d in s.t.docs && !s'.t.docs[d].deleted {
      if s.t.docs[d].file in s.t.objects {
        if a.RemoveObject? && s.requests[a.id].doc == d {
          assert s'.requests[a.id].Removed?;
        }
      } else {
        var id :| id in s.requests && s.requests[id].Removed? && s.requests[id].doc == d;
        assert s'.requests[id].Removed?;
      }
    }
  }

  lemma RollbackLosesFile(s: State, a: Action)
    requires LockInv(s) && CanDo(s, a) && !LosesNoFile(s, a)
    ensures !FilesKept(Do(s, a))
  {
    var d := s.requests[a.id].doc;
    if BeingRemoved(Do(s, a), d) {
      var id :| id in Do(s, a).requests && Do(s, a).requests[id].Removed? && Do(s, a).requests[id].doc == d;
      assert id != a.id && HoldsLock(s.requests[id]);
    }
    assert !HasFile(Do(s, a), d);
  }

  lemma StepFilesKept(s: State, a: Action)
    requires Inv(s) && CanDo(s, a) && FilesKept(s)
    ensures FilesKept(Do(s, a)) <==> LosesNoFile(s, a)
  {
    if LosesNoFile(s, a) {
      forall d | d in s.t.docs ensures s.t.docs[d].file.doc == d {
        assert FileOk(s, d);
      }
      forall d | d in Do(s, a).t.docs ensures HasFile(Do(s, a), d) {
        StepHasFile(s, a, d);
      }
    } else {
      RollbackLosesFile(s, a);
    }
  }

  ghost predicate AlwaysFilesKept(s: State, acts: seq<Action>)
    requires Run(s, acts)
    decreases |acts|
  {
    FilesKept(s) && (acts != [] ==> AlwaysFilesKept(Do(s, acts[0]), acts[1..]))
  }

  ghost predicate AlwaysLosesNoFile(s: State, acts: seq<Action>)
    requires Run(s, acts)
    decreases |acts|
  {
    acts == [] || (LosesNoFile(s, acts[0]) && AlwaysLosesNoFile(Do(s, acts[0]), acts[1..]))
  }

  lemma {:induction false} RunFilesKept(s: State, acts: seq<Action>)
    requires Inv(s) && FilesKept(s) && Run(s, acts)
    ensures AlwaysFilesKept(s, acts) <==> AlwaysLosesNoFile(s, acts)
    ensures AlwaysFilesKept(s, acts) ==> FilesKept(Final(s, acts))
    decreases |acts|
  {
    if acts != [] {
      StepInv(s, acts[0]);
      StepFilesKept(s, acts[0]);
      if LosesNoFile(s, acts[0]) {
        RunFilesKept(Do(s, acts[0]), acts[1..]);
      }
    }
  }

  /**
   Every live document has its file at all times, or a delete that is still open, exactly in the
   runs where no delete is rolled back after it has removed a live document's object.
   */
  lemma FilesKeptIff(s: State, acts: seq<Action>)
    requires Init(s) && Run(s, acts)
    ensures AlwaysFilesKept(s, acts) <==> AlwaysLosesNoFile(s, acts)
  {
    RunFilesKept(s, acts);
  }

  // ---------------------------------------------------------------- no object is left behind

  /** The object belongs to a live document, or to an upload that will insert or remove it. */
  ghost predicate Owned(s: State, o: ObjectKey) {
    IsLiveFile(s.t, o) || Held(s, o)
  }

  ghost predicate NoOrphan(s: State) {
    forall o | o in s.t.objects :: Owned(s, o)
  }

  /** The removal of an unused object succeeds, and no upload dies that has stored one. */
  predicate LeaksNothing(s: State, a: Action)
    requires CanDo(s, a)
  {
    match a
    case CleanUp(_, removed) => removed
    case CommitDelete(id) => s.t.docs[s.requests[id].doc].file !in s.t.objects
    case Die(id) => !s.requests[id].Inserting? && !s.requests[id].CleaningUp?
    case _ => true
  }

  lemma StepOwned(s: State, a: Action, o: ObjectKey)
    requires CanDo(s, a) && LeaksNothing(s, a)
    requires HoldsObject(s, a.id) ==> HolderOk(s, a.id)
    requires o in Do(s, a).t.objects && (o in s.t.objects ==> Owned(s, o))
    ensures Owned(Do(s, a), o)
  {
    var s' := Do(s, a);
    assert a.Insert? ==> HoldsObject(s, a.id);
    if o !in s.t.objects {
      assert HoldsObject(s', a.id) && ObjectOf(s'.requests[a.id].r, s'.requests[a.id].doc) == o;
    } else if Held(s, o) {
      var id :| HoldsObject(s, id) && ObjectOf(s.requests[id].r, s.requests[id].doc) == o;
      if id != a.id || s'.requests[id].CleaningUp? {
        assert HoldsObject(s', id) && ObjectOf(s'.requests[id].r, s'.requests[id].doc) == o;
      }
    }
  }

  /** What a request leaves behind has no owner: its id was its own. */
  lemma LeakIsOrphan(s: State, a: Action)
    requires InFlightInv(s) && CanDo(s, a) && !LeaksNothing(s, a)
    requires forall d | d in s.t.docs :: s.t.docs[d].file.doc == d
    ensures !NoOrphan(Do(s, a))
  {
    var s', p := Do(s, a), s.requests[a.id];
    var o := if a.CommitDelete? then s.t.docs[p.doc].file else ObjectOf(p.r, p.doc);
    assert !a.CommitDelete? ==> HoldsObject(s, a.id);
    if Held(s', o) {
      var id :| HoldsObject(s', id) && ObjectOf(s'.requests[id].r, s'.requests[id].doc) == o;
      assert id != a.id && HoldsObject(s, id);
    }
    assert o in s'.t.objects && !Owned(s', o);
  }

  lemma StepNoOrphan(s: State, a: Action)
    requires Inv(s) && CanDo(s, a) && NoOrphan(s)
    ensures NoOrphan(Do(s, a)) <==> LeaksNothing(s, a)
  {
    forall d | d in s.t.docs ensures s.t.docs[d].file.doc == d {
      assert FileOk(s, d);
    }
    if LeaksNothing(s, a) {
      forall o | o in Do(s, a).t.objects ensures Owned(Do(s, a), o) {
        StepOwned(s, a, o);
      }
    } else {
      LeakIsOrphan(s, a);
    }
  }

  ghost predicate AlwaysNoOrphan(s: State, acts: seq<Action>)
    requires Run(s, acts)
    decreases |acts|
  {
    NoOrphan(s) && (acts != [] ==> AlwaysNoOrphan(Do(s, acts[0]), acts[1..]))
  }

  ghost predicate AlwaysLeaksNothing(s: State, acts: seq<Action>)
    requires Run(s, acts)
    decreases |acts|
  {
    acts == [] || (LeaksNothing(s, acts[0]) && AlwaysLeaksNothing(Do(s, acts[0]), acts[1..]))
  }

  lemma {:induction false} RunNoOrphan(s: State, acts: seq<Action>)
    requires Inv(s) && NoOrphan(s) && Run(s, acts)
    ensures AlwaysNoOrphan(s, acts) <==> AlwaysLeaksNothing(s, acts)
    ensures AlwaysNoOrphan(s, acts) ==> NoOrphan(Final(s, acts))
    decreases |acts|
  {
    if acts != [] {
      StepInv(s, acts[0]);
      StepNoOrphan(s, acts[0]);
      if LeaksNothing(s, acts[0]) {
        RunNoOrphan(Do(s, acts[0]), acts[1..]);
      }
    }
  }

  /**
   Every stored object has an owner at all times exactly in the runs where no removal of an
   unused object fails and no upload dies between storing its object and inserting its rows.
   */
  lemma NoOrphanIff(s: State, acts: seq<Action>)
    requires Init(s) && Run(s, acts)
    ensures AlwaysNoOrphan(s, acts) <==> AlwaysLeaksNothing(s, acts)
  {
    RunNoOrphan(s, acts);
  }

  // ---------------------------------------------------------------- idle storage

  /**
   With nothing in flight, storage holds all files of live documents if none was lost, and no
   other object if none was leaked.
   */
  lemma StorageIsAccounted(s: State, acts: seq<Action>, o: ObjectKey)
    requires Init(s) && Run(s, acts) && Idle(Final(s, acts))
    ensures AlwaysLosesNoFile(s, acts) && IsLiveFile(Final(s, acts).t, o) ==> o in Final(s, acts).t.objects
    ensures AlwaysLeaksNothing(s, acts) && o in Final(s, acts).t.objects ==> IsLiveFile(Final(s, acts).t, o)
  {
    RunFilesKept(s, acts);
    RunNoOrphan(s, acts);
    if AlwaysLosesNoFile(s, acts) && IsLiveFile(Final(s, acts).t, o) {
      assert HasFile(Final(s, acts), o.doc);
    }
  }

  /** No request dies, and no removal fails. */
  ghost predicate Orderly(acts: seq<Action>) {
    forall i | 0 <= i < |acts| ::
      !acts[i].Die? && (acts[i].CleanUp? || acts[i].RemoveObject? ==> acts[i].removed)
  }

  predicate Deleting(p: Phase) {
    p.Marking? || p.Removing? || p.Removed?
  }

  ghost predicate RemovalsDone(s: State) {
    forall id | id in s.requests && Deleting(s.requests[id]) ::
      && s.requests[id].doc in s.t.docs
      && (s.requests[id].Removed? ==> s.t.docs[s.requests[id].doc].file !in s.t.objects)
  }

  lemma StepRemovalsDone(s: State, a: Action)
    requires InFlightInv(s) && RemovalsDone(s) && CanDo(s, a) && Orderly([a])
    requires forall d | d in s.t.docs :: s.t.docs[d].file.doc == d
    ensures RemovalsDone(Do(s, a)) && LosesNoFile(s, a) && LeaksNothing(s, a)
  {
    assert [a][0] == a;
    assert a.Insert? ==> HoldsObject(s, a.id);
  }

  lemma {:induction false} OrderlyRuns(s: State, acts: seq<Action>)
    requires Inv(s) && RemovalsDone(s) && Run(s, acts) && Orderly(acts)
    ensures AlwaysLosesNoFile(s, acts) && AlwaysLeaksNothing(s, acts)
    decreases |acts|
  {
    if acts != [] {
      forall d | d in s.t.docs ensures s.t.docs[d].file.doc == d {
        assert FileOk(s, d);
      }
      StepInv(s, acts[0]);
      StepRemovalsDone(s, acts[0]);
      OrderlyRuns(Do(s, acts[0]), acts[1..]);
    }
  }

  /** So an orderly run leaves exactly the live documents' files in storage. */
  lemma NoOrphans(s: State, acts: seq<Action>, o: ObjectKey)
    requires Init(s) && Run(s, acts) && Idle(Final(s, acts)) && Orderly(acts)
    ensures o in Final(s, acts).t.objects <==> IsLiveFile(Final(s, acts).t, o)
  {
    OrderlyRuns(s, acts);
    StorageIsAccounted(s, acts, o);
  }
}
