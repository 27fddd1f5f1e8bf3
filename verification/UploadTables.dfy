/**
 The rows and objects that src/documents/service.py reads and writes when a document is
 uploaded or deleted. A file is identified with its SHA-256 digest, so `content` is both the
 bytes stored and the content_hash column.
 */
module UploadTables {
  type DocId = int
  type JobId = int
  type Tenant = int
  type Key = string
  type Content = int

  datatype Request = Request(tenant: Tenant, key: Key, content: Content, filename: string)

  /** "{tenant_id}/{doc_id}/{filename}" */
  datatype ObjectKey = ObjectKey(tenant: Tenant, doc: DocId, filename: string)

  datatype DocRow = DocRow(tenant: Tenant, content: Content, file: ObjectKey, deleted: bool)

  datatype JobRow = JobRow(doc: DocId, tenant: Tenant, key: Key)

  datatype Tables = Tables(docs: map<DocId, DocRow>, jobs: map<JobId, JobRow>, objects: map<ObjectKey, Content>)

  datatype Result = Found(doc: DocId, job: JobId) | Conflict | StorageError

  function ObjectOf(r: Request, doc: DocId): ObjectKey {
    ObjectKey(r.tenant, doc, r.filename)
  }

  /** A job of the tenant carries the idempotency key. Its document may be soft-deleted. */
  predicate KeyHit(t: Tables, r: Request, d: DocId, j: JobId) {
    && j in t.jobs && t.jobs[j].tenant == r.tenant && t.jobs[j].key == r.key
    && t.jobs[j].doc == d && d in t.docs
  }

  predicate HasKey(t: Tables, r: Request) {
    exists j | j in t.jobs :: KeyHit(t, r, t.jobs[j].doc, j)
  }

  /** A live document of the tenant has the content, and a job. */
  predicate ContentHit(t: Tables, r: Request, d: DocId, j: JobId) {
    && d in t.docs && t.docs[d].tenant == r.tenant && t.docs[d].content == r.content && !t.docs[d].deleted
    && j in t.jobs && t.jobs[j].doc == d && t.jobs[j].tenant == r.tenant
  }

  predicate HasContent(t: Tables, r: Request) {
    exists j | j in t.jobs :: ContentHit(t, r, t.jobs[j].doc, j)
  }

  /** uq_documents_tenant_content does not look at deleted_at. */
  predicate ContentTaken(t: Tables, r: Request) {
    exists d | d in t.docs :: t.docs[d].tenant == r.tenant && t.docs[d].content == r.content
  }

  /** uq_jobs_tenant_idempotency */
  predicate KeyTaken(t: Tables, r: Request) {
    exists j | j in t.jobs :: t.jobs[j].tenant == r.tenant && t.jobs[j].key == r.key
  }

  /** The tenant's document with this content has been soft-deleted. */
  predicate ContentDeleted(t: Tables, r: Request) {
    exists d | d in t.docs :: t.docs[d].tenant == r.tenant && t.docs[d].content == r.content && t.docs[d].deleted
  }

  function WithObject(t: Tables, r: Request, doc: DocId): Tables {
    t.(objects := t.objects[ObjectOf(r, doc) := r.content])
  }

  function WithoutObject(t: Tables, o: ObjectKey): Tables {
    t.(objects := t.objects - {o})
  }

  /** The document and its job, inserted under one savepoint. */
  function WithRows(t: Tables, r: Request, doc: DocId, job: JobId): Tables {
    t.(docs := t.docs[doc := DocRow(r.tenant, r.content, ObjectOf(r, doc), false)],
       jobs := t.jobs[job := JobRow(doc, r.tenant, r.key)])
  }

  // ---------------------------------------------------------------- what every run keeps

  /** Documents and jobs pair off within a tenant. */
  ghost predicate Paired(t: Tables) {
    && (forall j | j in t.jobs :: t.jobs[j].doc in t.docs && t.docs[t.jobs[j].doc].tenant == t.jobs[j].tenant)
    && (forall i, j | i in t.jobs && j in t.jobs && i != j :: t.jobs[i].doc != t.jobs[j].doc)
    && (forall d | d in t.docs :: exists j :: j in t.jobs && t.jobs[j].doc == d)
  }

  ghost predicate Unique(t: Tables) {
    && (forall d, e | d in t.docs && e in t.docs && d != e ::
          t.docs[d].tenant != t.docs[e].tenant || t.docs[d].content != t.docs[e].content)
    && (forall i, j | i in t.jobs && j in t.jobs && i != j ::
          t.jobs[i].tenant != t.jobs[j].tenant || t.jobs[i].key != t.jobs[j].key)
  }

  lemma InsertKeeps(t: Tables, r: Request, doc: DocId, job: JobId)
    requires Paired(t) && Unique(t) && doc !in t.docs && job !in t.jobs
    requires !ContentTaken(t, r) && !KeyTaken(t, r)
    ensures Paired(WithRows(t, r, doc, job)) && Unique(WithRows(t, r, doc, job))
  {
    var t' := WithRows(t, r, doc, job);
    forall d | d in t'.docs ensures exists j :: j in t'.jobs && t'.jobs[j].doc == d {
      if d == doc {
        assert job in t'.jobs && t'.jobs[job].doc == d;
      } else {
        var j :| j in t.jobs && t.jobs[j].doc == d;
        assert j in t'.jobs && t'.jobs[j].doc == d;
      }
    }
  }

  /** A refused insert means one of the two look-ups has something to find. */
  lemma TakenMeansFindable(t: Tables, r: Request)
    requires Paired(t)
    ensures KeyTaken(t, r) <==> HasKey(t, r)
    ensures HasContent(t, r) <==>
            exists d :: && d in t.docs && t.docs[d].tenant == r.tenant && t.docs[d].content == r.content
                        && !t.docs[d].deleted
  {
    if j :| j in t.jobs && t.jobs[j].tenant == r.tenant && t.jobs[j].key == r.key {
      assert KeyHit(t, r, t.jobs[j].doc, j);
    }
    if d :| d in t.docs && t.docs[d].tenant == r.tenant && t.docs[d].content == r.content && !t.docs[d].deleted {
      var j :| j in t.jobs && t.jobs[j].doc == d;
      assert ContentHit(t, r, t.jobs[j].doc, j);
    }
  }
}
