/**
 src/documents/service.py as one request executes it. `past` records the protocol actions
 performed, so the laws of UploadProtocol are about this code.
 */
module DocumentStores {
  import opened Common
  import opened UploadTables
  import Protocol = UploadProtocol

  /** What an upload returns at once: the key's job first, then a live document's. */
  predicate Answer(t: Tables, r: Request, d: DocId, j: JobId) {
    KeyHit(t, r, d, j) || (!HasKey(t, r) && ContentHit(t, r, d, j))
  }

  lemma AnswerIsUnique(t: Tables, r: Request, d: DocId, j: JobId, d': DocId, j': JobId)
    requires Paired(t) && Unique(t) && Answer(t, r, d, j) && Answer(t, r, d', j')
    ensures d == d' && j == j'
  {
    assert KeyHit(t, r, d, j) ==> HasKey(t, r);
    assert KeyHit(t, r, d', j') ==> HasKey(t, r);
  }

  lemma AnswerDecides(t: Tables, r: Request)
    requires Paired(t) && Unique(t)
    ensures forall d, j :: Answer(t, r, d, j) ==> KeyTaken(t, r) || HasContent(t, r)
    ensures forall d, j, d', j' :: Answer(t, r, d, j) && Answer(t, r, d', j') ==> d == d' && j == j'
    ensures !HasKey(t, r) ==> !KeyTaken(t, r)
    ensures ContentDeleted(t, r) <==> ContentTaken(t, r) && !HasContent(t, r)
  {
    TakenMeansFindable(t, r);
    forall d, j, d', j' | Answer(t, r, d, j) && Answer(t, r, d', j') ensures d == d' && j == j' {
      AnswerIsUnique(t, r, d, j, d', j');
    }
  }

  class DocumentStore {
    var docs: map<DocId, DocRow>
    var jobs: map<JobId, JobRow>
    var objects: map<ObjectKey, Content>
    ghost const start: Protocol.State
    ghost var past: seq<Protocol.Action>

    function Contents(): Tables
      reads this
    {
      Tables(docs, jobs, objects)
    }

    ghost function Now(): Protocol.State
      requires Protocol.Run(start, past)
      reads this
    {
      Protocol.Final(start, past)
    }

    ghost predicate Valid()
      reads this
    {
      && Protocol.Init(start) && Protocol.Run(start, past)
      && Now().t == Contents() && Protocol.Idle(Now())
    }

    constructor ()
      ensures Valid() && Contents() == Tables(map[], map[], map[])
      ensures Now().used == {} && Now().requests == map[]
    {
      docs, jobs, objects := map[], map[], map[];
      start := Protocol.State(Tables(map[], map[], map[]), map[], {});
      past := [];
    }

    ghost method Record(a: Protocol.Action)
      requires Protocol.Run(start, past) && Protocol.CanDo(Now(), a)
      modifies this`past
      ensures Protocol.Run(start, past) && Now() == Protocol.Do(old(Now()), a)
    {
      Protocol.RunOne(Now(), a);
      Protocol.RunConcat(start, past, [a]);
      past := past + [a];
    }

    /** Request `id` is at phase p and the other requests are `others`. */
    ghost predicate At(id: Protocol.RequestId, p: Protocol.Phase, others: map<Protocol.RequestId, Protocol.Phase>)
      reads this
    {
      && Protocol.Init(start) && Protocol.Run(start, past)
      && Now().t == Contents() && Now().requests == others[id := p]
    }

    method FindByKey(r: Request) returns (hit: Option<(DocId, JobId)>)
      ensures Protocol.KeyAnswer(Contents(), r, hit)
    {
      if j :| j in jobs && KeyHit(Contents(), r, jobs[j].doc, j) {
        hit := Some((jobs[j].doc, j));
      } else {
        hit := None;
      }
    }

    method FindByContent(r: Request) returns (hit: Option<(DocId, JobId)>)
      ensures Protocol.ContentAnswer(Contents(), r, hit)
    {
      if j :| j in jobs && ContentHit(Contents(), r, jobs[j].doc, j) {
        hit := Some((jobs[j].doc, j));
      } else {
        hit := None;
      }
    }

    /** The two look-ups before anything is stored. */
    method CheckExisting(r: Request, ghost id: Protocol.RequestId, ghost others: map<Protocol.RequestId,
                         Protocol.Phase>)
      returns (hit: Option<(DocId, JobId)>)
      requires At(id, Protocol.CheckingKey(r), others)
      modifies this`past
      ensures hit.Some? ==>
        && Answer(Contents(), r, hit.value.0, hit.value.1)
        && At(id, Protocol.Done(r, Found(hit.value.0, hit.value.1)), others)
      ensures hit.None? ==>
        && !HasKey(Contents(), r) && !HasContent(Contents(), r)
        && At(id, Protocol.Storing(r), others)
      ensures Protocol.Run(start, past) && Now().used == old(Now().used)
    {
      hit := FindByKey(r);
      Record(Protocol.CheckKey(id, hit));
      if hit.None? {
        hit := FindByContent(r);
        Record(Protocol.CheckContent(id, hit));
      }
    }

    /** _find_existing_upload: the same two look-ups after a lost insert. */
    method FindExistingUpload(r: Request, ghost id: Protocol.RequestId, ghost others: map<Protocol.RequestId,
                              Protocol.Phase>)
      returns (hit: Option<(DocId, JobId)>)
      requires At(id, Protocol.FindingKey(r), others)
      modifies this`past
      ensures hit.Some? ==>
        && Answer(Contents(), r, hit.value.0, hit.value.1)
        && At(id, Protocol.Done(r, Found(hit.value.0, hit.value.1)), others)
      ensures hit.None? ==>
        && !HasKey(Contents(), r) && !HasContent(Contents(), r)
        && At(id, Protocol.Done(r, Conflict), others)
      ensures Protocol.Run(start, past) && Now().used == old(Now().used)
    {
      hit := FindByKey(r);
      Record(Protocol.FindKey(id, hit));
      if hit.None? {
        hit := FindByContent(r);
        Record(Protocol.FindContent(id, hit));
      }
    }

    /** Both rows or neither, with the object already stored. */
    method InsertRows(r: Request, doc: DocId, job: JobId,
                      ghost id: Protocol.RequestId, ghost others: map<Protocol.RequestId, Protocol.Phase>)
      returns (ok: bool)
      requires At(id, Protocol.Inserting(r, doc), others) && job !in jobs
      modifies this`past, this`docs, this`jobs
      ensures ok == !(ContentTaken(old(Contents()), r) || KeyTaken(old(Contents()), r))
      ensures Contents() == if ok then WithRows(old(Contents()), r, doc, job) else old(Contents())
      ensures ok ==>
        && docs == old(docs)[doc := DocRow(r.tenant, r.content, ObjectKey(r.tenant, doc, r.filename), false)]
        && jobs == old(jobs)[job := JobRow(doc, r.tenant, r.key)]
      ensures At(id, if ok then Protocol.Done(r, Found(doc, job)) else Protocol.CleaningUp(r, doc), others)
      ensures Now().used == old(Now().used)
    {
      Record(Protocol.Insert(id, job));
      ok := !(ContentTaken(Contents(), r) || KeyTaken(Contents(), r));
      if ok {
        docs := docs[doc := DocRow(r.tenant, r.content, ObjectOf(r, doc), false)];
        jobs := jobs[job := JobRow(doc, r.tenant, r.key)];
      }
    }

    method PutObject(r: Request, doc: DocId, ghost id: Protocol.RequestId, ghost others: map<Protocol.RequestId,
                     Protocol.Phase>)
      requires At(id, Protocol.Storing(r), others) && doc !in Now().used
      modifies this`past, this`objects
      ensures Contents() == WithObject(old(Contents()), r, doc)
      ensures objects == old(objects)[ObjectKey(r.tenant, doc, r.filename) := r.content]
      ensures At(id, Protocol.Inserting(r, doc), others)
      ensures Now().used == old(Now().used) + {doc}
    {
      Record(Protocol.Store(id, doc, true));
      objects := objects[ObjectOf(r, doc) := r.content];
    }

    /** The removal of the object after a lost insert, whose own failure is only logged. */
    method TakeBack(r: Request, doc: DocId, removed: bool,
                    ghost id: Protocol.RequestId, ghost others: map<Protocol.RequestId, Protocol.Phase>)
      requires At(id, Protocol.CleaningUp(r, doc), others)
      modifies this`past, this`objects
      ensures Contents() == if removed then WithoutObject(old(Contents()), ObjectOf(r, doc)) else old(Contents())
      ensures At(id, Protocol.FindingKey(r), others)
      ensures Now().used == old(Now().used)
    {
      Record(Protocol.CleanUp(id, removed));
      if removed {
        objects := objects - {ObjectOf(r, doc)};
      }
    }

    /** Put the object, insert the rows; if a constraint is hit, take the object back. */
    method StoreAndInsert(r: Request, doc: DocId, job: JobId, removed: bool,
                          ghost id: Protocol.RequestId, ghost others: map<Protocol.RequestId, Protocol.Phase>)
      returns (ok: bool)
      requires At(id, Protocol.Storing(r), others)
      requires doc !in Now().used && job !in jobs && ObjectOf(r, doc) !in objects
      modifies this
      ensures ok == !(ContentTaken(old(Contents()), r) || KeyTaken(old(Contents()), r))
      ensures ok ==> Contents() == WithRows(WithObject(old(Contents()), r, doc), r, doc, job)
      ensures !ok ==> Contents() == if removed then old(Contents()) else WithObject(old(Contents()), r, doc)
      ensures At(id, if ok then Protocol.Done(r, Found(doc, job)) else Protocol.FindingKey(r), others)
      ensures Now().used == old(Now().used) + {doc}
    {
      ghost var before := Contents();
      PutObject(r, doc, id, others);
      assert Contents() == WithObject(before, r, doc);
      ok := InsertRows(r, doc, job, id, others);
      if !ok {
        TakeBack(r, doc, removed, id, others);
        if removed {
          assert objects == before.objects;
        }
      }
    }

    lemma Sound()
      requires Valid()
      ensures Paired(Contents()) && Unique(Contents())
      ensures forall o | o in objects :: o.doc in Now().used
    {
      Protocol.RunInv(start, past);
    }

    /** The part of an upload that nothing existing answers. */
    method UploadNew(r: Request, doc: DocId, job: JobId, stored: bool, removed: bool,
                     ghost id: Protocol.RequestId, ghost others: map<Protocol.RequestId, Protocol.Phase>)
      returns (result: Result)
      requires At(id, Protocol.Storing(r), others)
      requires doc !in Now().used && job !in jobs && ObjectOf(r, doc) !in objects
      requires !KeyTaken(Contents(), r) && !HasContent(Contents(), r)
      modifies this
      ensures At(id, Protocol.Done(r, result), others)
      ensures Now().used == old(Now().used) + {doc}
      ensures result ==
        if !stored then StorageError else if ContentTaken(old(Contents()), r) then Conflict else Found(doc, job)
      ensures Contents() ==
        match result
        case Found(_, _) => WithRows(WithObject(old(Contents()), r, doc), r, doc, job)
        case Conflict => if removed then old(Contents()) else WithObject(old(Contents()), r, doc)
        case StorageError => old(Contents())
    {
      if !stored {
        Record(Protocol.Store(id, doc, false));
        return StorageError;
      }
      ghost var before := Contents();
      var ok := StoreAndInsert(r, doc, job, removed, id, others);
      if ok {
        return Found(doc, job);
      }
      assert Contents().jobs == before.jobs && Contents().docs == before.docs;
      var hit := FindExistingUpload(r, id, others);
      assert hit.None?;
      result := Conflict;
    }

    /**
     `doc` and `job` are the fresh ids, `stored` and `removed` tell whether the storage calls
     got through, `id` is a name for the request.
     */
    method UploadDocument(r: Request, doc: DocId, job: JobId, stored: bool, removed: bool, ghost id: Protocol.RequestId)
      returns (result: Result)
      requires Valid()
      requires doc !in Now().used && job !in jobs && id !in Now().requests
      modifies this
      ensures Valid()
      ensures Now().used <= old(Now().used) + {doc} && Now().requests.Keys == old(Now().requests.Keys) + {id}
      ensures forall d, j :: Answer(old(Contents()), r, d, j) ==>
        result == Found(d, j) && Contents() == old(Contents())
      ensures result.Found? ==> Answer(Contents(), r, result.doc, result.job)
      ensures result == Conflict <==> stored && !KeyTaken(old(Contents()), r) && ContentDeleted(old(Contents()), r)
      ensures result == StorageError <==>
        !stored && !KeyTaken(old(Contents()), r) && !HasContent(old(Contents()), r)
      ensures !result.Found? ==>
        (Contents() == if result == Conflict && !removed then WithObject(old(Contents()), r, doc) else old(Contents()))
      ensures result.Found? && !KeyTaken(old(Contents()), r) && !HasContent(old(Contents()), r) ==>
        result == Found(doc, job) && Contents() == WithRows(WithObject(old(Contents()), r, doc), r, doc, job)
      ensures result.Found? && docs != old(docs) ==>
        && docs == old(docs)[doc := DocRow(r.tenant, r.content, ObjectKey(r.tenant, doc, r.filename), false)]
        && jobs == old(jobs)[job := JobRow(doc, r.tenant, r.key)]
        && objects == old(objects)[ObjectKey(r.tenant, doc, r.filename) := r.content]
      ensures forall j | j in old(jobs) && old(jobs)[j].tenant == r.tenant && old(jobs)[j].key == r.key ::
        result == Found(old(jobs)[j].doc, j) && Contents() == old(Contents())
    {
      ghost var others := Now().requests;
      Sound();
      AnswerDecides(Contents(), r);
      Record(Protocol.Submit(id, r));
      var hit := CheckExisting(r, id, others);
      if hit.Some? {
        return Found(hit.value.0, hit.value.1);
      }
      result := UploadNew(r, doc, job, stored, removed, id, others);
      if result.Found? {
        assert KeyHit(Contents(), r, doc, job);
      }
    }

    /** The document is read and its deleted_at written; the row lock keeps other deletes away. */
    ghost method MarkDeleted(doc: DocId, tenant: Tenant, id: Protocol.RequestId,
                             others: map<Protocol.RequestId, Protocol.Phase>)
      requires Valid() && id !in Now().requests && others == Now().requests
      requires doc in docs && docs[doc].tenant == tenant && !docs[doc].deleted
      modifies this`past
      ensures At(id, Protocol.Removing(doc), others)
    {
      Record(Protocol.GetDocument(id, doc, tenant));
      Record(Protocol.MarkDeleted(id));
    }

    /** The row stays and keeps its content taken; the file goes if the storage call gets through. */
    method SoftDeleteDocument(doc: DocId, tenant: Tenant, removed: bool, ghost id: Protocol.RequestId)
      returns (found: bool)
      requires Valid() && id !in Now().requests
      modifies this
      ensures Valid()
      ensures found == (doc in old(docs) && old(docs)[doc].tenant == tenant && !old(docs)[doc].deleted)
      ensures !found ==> Contents() == old(Contents())
      ensures found ==>
        && jobs == old(jobs)
        && docs == old(docs)[doc := old(docs)[doc].(deleted := true)]
        && objects == if removed then old(objects) - {docs[doc].file} else old(objects)
    {
      found := doc in docs && docs[doc].tenant == tenant && !docs[doc].deleted;
      if !found {
        return;
      }
      ghost var others := Now().requests;
      MarkDeleted(doc, tenant, id, others);
      Record(Protocol.RemoveObject(id, removed));
      if removed {
        objects := objects - {docs[doc].file};
      }
      Record(Protocol.CommitDelete(id));
      docs := docs[doc := docs[doc].(deleted := true)];
    }
  }
}
