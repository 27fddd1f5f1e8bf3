/** Whole requests as runs of UploadProtocol, and runs without deletes. */
module UploadRuns {
  import opened Common
  import opened UploadTables
  import opened UploadProtocol
  import opened UploadStorage

  predicate SameUpload(r: Request, w: Request) {
    r.tenant == w.tenant && r.key == w.key && r.content == w.content
  }

  /** All uploads come from this set of requests. */
  ghost predicate SubmitsFrom(acts: seq<Action>, rs: iset<Request>) {
    forall i | 0 <= i < |acts| && acts[i].Submit? :: acts[i].r in rs
  }

  ghost predicate NoDeletes(acts: seq<Action>) {
    forall i | 0 <= i < |acts| :: !acts[i].GetDocument?
  }

  ghost predicate NothingDeleted(s: State) {
    && (forall d | d in s.t.docs :: !s.t.docs[d].deleted)
    && (forall id | id in s.requests :: !Deleting(s.requests[id]))
  }

  lemma {:induction false} RunWithoutDeletes(s: State, acts: seq<Action>)
    requires NothingDeleted(s) && Run(s, acts) && NoDeletes(acts)
    ensures NothingDeleted(Final(s, acts)) && AlwaysLosesNoFile(s, acts)
    decreases |acts|
  {
    if acts != [] {
      RunWithoutDeletes(Do(s, acts[0]), acts[1..]);
    }
  }

  // ---------------------------------------------------------------- one request after the other

  /** An upload that nothing answers and nothing blocks, from start to end. */
  lemma UploadFresh(s: State, id: RequestId, r: Request, d: DocId, j: JobId) returns (acts: seq<Action>)
    requires id !in s.requests && d !in s.used && j !in s.t.jobs
    requires !HasKey(s.t, r) && !HasContent(s.t, r) && !KeyTaken(s.t, r) && !ContentTaken(s.t, r)
    ensures Run(s, acts) && SubmitsFrom(acts, iset{r}) && NoDeletes(acts) && Orderly(acts)
    ensures Final(s, acts) ==
      s.(t := WithRows(WithObject(s.t, r, d), r, d, j), requests := s.requests[id := Done(r, Found(d, j))],
         used := s.used + {d})
  {
    var check := CheckNothing(s, id, r);
    var s3 := Final(s, check);
    var a3, a4 := Store(id, d, true), Insert(id, j);
    var s4 := Do(s3, a3);
    SameLookups(s.t, s4.t, r);
    RunOne(s4, a4);
    RunCons(s3, a3, [a4]);
    RunConcat(s, check, [a3] + [a4]);
    acts := check + ([a3] + [a4]);
    assert Do(s4, a4).requests == s.requests[id := Done(r, Found(d, j))];
  }

  /** The two look-ups of an upload that nothing answers. */
  lemma CheckNothing(s: State, id: RequestId, r: Request) returns (acts: seq<Action>)
    requires id !in s.requests && !HasKey(s.t, r) && !HasContent(s.t, r)
    ensures Run(s, acts) && SubmitsFrom(acts, iset{r}) && NoDeletes(acts) && Orderly(acts)
    ensures Final(s, acts) == s.(requests := s.requests[id := Storing(r)])
  {
    var a0, a1, a2 := Submit(id, r), CheckKey(id, None), CheckContent(id, None);
    var s1 := Do(s, a0);
    var s2 := Do(s1, a1);
    RunOne(s2, a2);
    RunCons(s1, a1, [a2]);
    RunCons(s, a0, [a1] + [a2]);
    acts := [a0] + ([a1] + [a2]);
    assert Do(s2, a2).requests == s.requests[id := Storing(r)];
  }

  /** The constraints look at the rows only. */
  lemma SameLookups(t: Tables, t': Tables, r: Request)
    requires t.docs == t'.docs && t.jobs == t'.jobs
    ensures KeyTaken(t, r) <==> KeyTaken(t', r)
    ensures ContentTaken(t, r) <==> ContentTaken(t', r)
  {
  }

  /** An upload that one of the two look-ups answers. */
  lemma UploadKnown(s: State, id: RequestId, r: Request, d: DocId, j: JobId) returns (acts: seq<Action>)
    requires id !in s.requests
    requires KeyHit(s.t, r, d, j) || (!HasKey(s.t, r) && ContentHit(s.t, r, d, j))
    ensures Run(s, acts) && SubmitsFrom(acts, iset{r}) && NoDeletes(acts) && Orderly(acts)
    ensures Final(s, acts) == s.(requests := s.requests[id := Done(r, Found(d, j))])
  {
    var a0 := Submit(id, r);
    var s1 := Do(s, a0);
    if KeyHit(s.t, r, d, j) {
      var a1 := CheckKey(id, Some((d, j)));
      RunOne(s1, a1);
      RunCons(s, a0, [a1]);
      acts := [a0] + [a1];
    } else {
      var a1, a2 := CheckKey(id, None), CheckContent(id, Some((d, j)));
      var s2 := Do(s1, a1);
      RunOne(s2, a2);
      RunCons(s1, a1, [a2]);
      RunCons(s, a0, [a1] + [a2]);
      acts := [a0] + ([a1] + [a2]);
    }
    assert Final(s, acts).requests == s.requests[id := Done(r, Found(d, j))];
  }

  /** A delete up to its commit or its death. */
  lemma RemoveFile(s: State, id: RequestId, d: DocId) returns (acts: seq<Action>)
    requires id !in s.requests && d in s.t.docs && !s.t.docs[d].deleted && !RowLocked(s, d)
    ensures Run(s, acts) && SubmitsFrom(acts, iset{}) && Orderly(acts)
    ensures Final(s, acts) ==
      s.(t := WithoutObject(s.t, s.t.docs[d].file), requests := s.requests[id := Removed(d)])
  {
    var a1, a2, a3 := GetDocument(id, d, s.t.docs[d].tenant), MarkDeleted(id), RemoveObject(id, true);
    var s1 := Do(s, a1);
    assert !RowLocked(s1, d);
    var s2 := Do(s1, a2);
    RunOne(s2, a3);
    RunCons(s1, a2, [a3]);
    RunCons(s, a1, [a2] + [a3]);
    acts := [a1] + ([a2] + [a3]);
    assert Do(s2, a3).requests == s.requests[id := Removed(d)];
  }

  lemma DeleteFile(s: State, id: RequestId, d: DocId) returns (acts: seq<Action>)
    requires id !in s.requests && d in s.t.docs && !s.t.docs[d].deleted && !RowLocked(s, d)
    ensures Run(s, acts) && SubmitsFrom(acts, iset{}) && Orderly(acts)
    ensures Final(s, acts).t.docs == s.t.docs[d := s.t.docs[d].(deleted := true)]
    ensures Final(s, acts).t.jobs == s.t.jobs && Final(s, acts).used == s.used
    ensures Final(s, acts).requests == s.requests[id := Deleted(d)]
  {
    var remove := RemoveFile(s, id, d);
    var s1 := Final(s, remove);
    RunOne(s1, CommitDelete(id));
    RunConcat(s, remove, [CommitDelete(id)]);
    acts := remove + [CommitDelete(id)];
    assert Do(s1, CommitDelete(id)).requests == s.requests[id := Deleted(d)];
  }

  /** A live document can lose its file: the object goes, then the delete dies. */
  lemma RolledBackDeleteLosesFile(r: Request) returns (s: State, acts: seq<Action>)
    ensures Init(s) && Run(s, acts) && Idle(Final(s, acts))
    ensures var t := Final(s, acts).t;
      1 in t.docs && !t.docs[1].deleted && t.docs[1].file !in t.objects
  {
    s := State(Tables(map[], map[], map[]), map[], {});
    var upload := UploadFresh(s, 1, r, 1, 1);
    var s1 := Final(s, upload);
    var remove := RemoveFile(s1, 2, 1);
    var s2 := Final(s1, remove);
    RunOne(s2, Die(2));
    RunConcat(s1, remove, [Die(2)]);
    RunConcat(s, upload, remove + [Die(2)]);
    acts := upload + (remove + [Die(2)]);
  }
}
