/**
 What the rows of jobs and documents look like in every run of the atomic queue: who holds a
 job and since when, how long a claim lasts, and what the status of a document says.
 */
module RowLaws {
  import opened Common
  import opened JobTables
  import opened AtomicQueue

  // ---------------------------------------------------------------- the shape of a job row

  /** A queued job has no worker, a claimed one has; a job that was never claimed is queued. */
  predicate RowShape(row: Job) {
    && (row.status == Queued ==> row.worker == None && row.claimedAt == None)
    && (row.status == Claimed ==> row.worker != None && row.claimedAt != None)
    && (row.attempts == 0 ==> row.status == Queued && row.version == 1)
  }

  ghost predicate ShapeInv(q: Queue) {
    forall j | j in q.db.jobs :: RowShape(q.db.jobs[j])
  }

  lemma StepShape(q: Queue, e: Event, j: JobId)
    requires TokensInv(q) && Enabled(q, e) && j in Apply(q, e).db.jobs
    requires j in q.db.jobs ==> RowShape(q.db.jobs[j])
    ensures RowShape(Apply(q, e).db.jobs[j])
  {
    if e.Complete? || e.Fail? {
      assert Holds(q, e.worker) && TokenOk(q.db, q.slots[e.worker].token);
    }
  }

  lemma {:induction false} RunShape(q: Queue, es: seq<Event>)
    requires TokensInv(q) && ShapeInv(q) && Legal(q, es)
    ensures ShapeInv(After(q, es))
    decreases |es|
  {
    if es != [] {
      forall j | j in Apply(q, es[0]).db.jobs ensures RowShape(Apply(q, es[0]).db.jobs[j]) {
        StepShape(q, es[0], j);
      }
      StepTokens(q, es[0]);
      RunShape(Apply(q, es[0]), es[1..]);
    }
  }

  // ---------------------------------------------------------------- how long a claim lasts

  /** Of the events, only resets of older claims and failures of other jobs. */
  ghost predicate LeavesClaim(q: Queue, es: seq<Event>, j: JobId, since: Time)
    requires Legal(q, es)
    decreases |es|
  {
    es == [] ||
    (&& (es[0].Reset? && es[0].job == j ==> es[0].cutoff <= since)
     && (es[0].Fail? ==> q.slots[es[0].worker].token.job != j)
     && LeavesClaim(Apply(q, es[0]), es[1..], j, since))
  }

  /** The claim is in force, or has led to a completion. */
  predicate InForce(db: Db, j: JobId, w: WorkerId, since: Time) {
    && j in db.jobs && db.jobs[j].status in {Claimed, Completed}
    && db.jobs[j].worker == Some(w) && db.jobs[j].claimedAt == Some(since)
  }

  /** A claim is taken over by a reset with a later cutoff or a fail_job of its job, and by nothing else. */
  lemma {:induction false} ClaimIsKept(q: Queue, es: seq<Event>, j: JobId, w: WorkerId, since: Time)
    requires Legal(q, es) && LeavesClaim(q, es, j, since) && InForce(q.db, j, w, since)
    ensures InForce(After(q, es).db, j, w, since)
    ensures Claims(After(q, es).issued, j) == Claims(q.issued, j)
    decreases |es|
  {
    if es != [] {
      StepCounts(q, es[0], j);
      ClaimIsKept(Apply(q, es[0]), es[1..], j, w, since);
    }
  }

  // ---------------------------------------------------------------- the status of a document

  /** What was last said about a document: by a commit, or by a fail_job that gave its job up. */
  datatype Verdict = Nothing | Committed | GivenUp

  function VerdictAfter(q: Queue, e: Event, d: DocId, v: Verdict): Verdict
    requires Enabled(q, e)
  {
    if e.Complete? && q.slots[e.worker].token.doc == d then Committed
    else if e.Fail? && q.slots[e.worker].token.doc == d
            && q.slots[e.worker].token.attempt >= q.slots[e.worker].token.maxAttempts then GivenUp
    else v
  }

  ghost function LastVerdict(q: Queue, es: seq<Event>, d: DocId, v: Verdict): Verdict
    requires Legal(q, es)
    decreases |es|
  {
    if es == [] then v else LastVerdict(Apply(q, es[0]), es[1..], d, VerdictAfter(q, es[0], d, v))
  }

  ghost predicate StatusSays(db: Db, d: DocId, v: Verdict) {
    && (v == Nothing && d in db.docs ==> db.docs[d].status == Pending)
    && (v == Committed ==> d in db.docs && db.docs[d].status == Ready)
    && (v == GivenUp ==> d in db.docs && db.docs[d].status == DocFailed)
  }

  lemma StepStatus(q: Queue, e: Event, d: DocId, v: Verdict)
    requires TokensInv(q) && DocsInv(q) && Enabled(q, e) && StatusSays(q.db, d, v)
    ensures StatusSays(Apply(q, e).db, d, VerdictAfter(q, e, d, v))
  {
    if e.Complete? || e.Fail? {
      var t := q.slots[e.worker].token;
      assert Holds(q, e.worker) && TokenOk(q.db, t) && DocInv(q, t.job);
    }
  }

  lemma {:induction false} RunStatus(q: Queue, es: seq<Event>, d: DocId, v: Verdict)
    requires Inv(q) && Legal(q, es) && StatusSays(q.db, d, v)
    ensures StatusSays(After(q, es).db, d, LastVerdict(q, es, d, v))
    decreases |es|
  {
    if es != [] {
      StepInv(q, es[0]);
      StepStatus(q, es[0], d, v);
      RunStatus(Apply(q, es[0]), es[1..], d, VerdictAfter(q, es[0], d, v));
    }
  }

  ghost predicate CommitNames(q: Queue, d: DocId) {
    exists c :: c in q.commits && c.token.doc == d
  }

  /** A document about which a commit was the last word has a commit. */
  lemma {:induction false} CommittedHasCommit(q: Queue, es: seq<Event>, d: DocId, v: Verdict)
    requires Legal(q, es) && (v == Committed ==> CommitNames(q, d))
    ensures LastVerdict(q, es, d, v) == Committed ==> CommitNames(After(q, es), d)
    decreases |es|
  {
    if es != [] {
      var q', v' := Apply(q, es[0]), VerdictAfter(q, es[0], d, v);
      if v' == Committed {
        if es[0].Complete? && q.slots[es[0].worker].token.doc == d {
          assert q'.commits[|q.commits|] in q'.commits;
        } else {
          var c :| c in q.commits && c.token.doc == d;
          assert c in q'.commits;
        }
      }
      CommittedHasCommit(q', es[1..], d, v');
    }
  }
}
