/** What holds in every run of the atomic queue, and the exact conditions for what does not. */
module QueueLaws {
  import opened Common
  import opened JobTables
  import opened AtomicQueue

  /** The total number of claims is the sum of the attempt counts, so the attempt limits bound it. */
  lemma ClaimsAreBounded(q: Queue)
    requires Inv(q)
    ensures forall i | 0 <= i < |q.enqueued| :: q.enqueued[i] in q.db.jobs
    ensures |q.issued| == SumAttempts(q.enqueued, q.db.jobs) <= SumMaxAttempts(q.enqueued, q.db.jobs)
  {
    forall i | 0 <= i < |q.enqueued|
      ensures q.enqueued[i] in q.db.jobs && RowInv(q, q.enqueued[i])
    {
      assert q.enqueued[i] in q.enqueued;
    }
    SumAttemptsAtMost(q.enqueued, q.db.jobs);
  }

  /** A completion comes from the newest claim of its job, and is that claim's first. */
  lemma CompletionIsFenced(q: Queue, w: WorkerId, contents: seq<string>, acknowledged: bool)
    requires Inv(q) && Enabled(q, Complete(w, contents, acknowledged))
    ensures forall u | u in q.issued && u.job == q.slots[w].token.job :: u.attempt <= q.slots[w].token.attempt
    ensures forall c | c in q.commits :: c.token != q.slots[w].token
  {
    var t := q.slots[w].token;
    assert Holds(q, w) && TokenOk(q.db, t);
    forall u | u in q.issued && u.job == t.job ensures u.attempt <= t.attempt {
      assert TokenOk(q.db, u);
    }
  }

  ghost predicate Superseded(q: Queue, t: Token) {
    t in q.issued && exists u :: u in q.issued && u.job == t.job && t.attempt < u.attempt
  }

  lemma StepSuperseded(q: Queue, e: Event, t: Token)
    requires TokensInv(q) && Enabled(q, e) && Superseded(q, t)
    ensures Superseded(Apply(q, e), t)
    ensures Apply(q, e).commits == q.commits ||
            (|Apply(q, e).commits| == |q.commits| + 1 && q.commits <= Apply(q, e).commits &&
             Apply(q, e).commits[|q.commits|].token != t)
  {
    var u :| u in q.issued && u.job == t.job && t.attempt < u.attempt;
    assert q.issued <= Apply(q, e).issued;
    assert t in Apply(q, e).issued && u in Apply(q, e).issued;
    if e.Complete? {
      assert Holds(q, e.worker) && TokenOk(q.db, q.slots[e.worker].token) && TokenOk(q.db, u);
    }
  }

  /** Once a newer claim of the job exists, an old token adds no commit in any continuation. */
  lemma {:induction false} SupersededNeverCommits(q: Queue, es: seq<Event>, t: Token)
    requires TokensInv(q) && Legal(q, es) && Superseded(q, t)
    ensures q.commits <= After(q, es).commits
    ensures forall i | |q.commits| <= i < |After(q, es).commits| :: After(q, es).commits[i].token != t
    decreases |es|
  {
    if es != [] {
      StepTokens(q, es[0]);
      StepSuperseded(q, es[0], t);
      SupersededNeverCommits(Apply(q, es[0]), es[1..], t);
    }
  }

  /** What is fixed about a job for good once it has been dead. */
  ghost predicate SameIngestion(q: Queue, q': Queue, j: JobId) {
    && j in q.db.jobs && j in q'.db.jobs
    && var row, row' := q.db.jobs[j], q'.db.jobs[j];
    && row'.doc == row.doc && row'.attempts == row.attempts && row'.maxAttempts == row.maxAttempts
    && row'.version == row.version
    && Claims(q'.issued, j) == Claims(q.issued, j)
    && Written(q'.commits, j) == Written(q.commits, j)
  }

  lemma StepBuriedJob(q: Queue, e: Event, j: JobId)
    requires BuriedInv(q) && Enabled(q, e) && j in q.buried
    ensures j in Apply(q, e).buried && SameIngestion(q, Apply(q, e), j)
  {
    var q' := Apply(q, e);
    if e.Claim? {
      assert q'.issued[..|q'.issued| - 1] == q.issued;
    }
    if e.Complete? {
      assert q'.commits[..|q'.commits| - 1] == q.commits;
    }
  }

  /** Whatever fail_job, reset or crash does later, a job that was ever dead is finished. */
  lemma {:induction false} DeadIsFinal(q: Queue, es: seq<Event>, j: JobId)
    requires Inv(q) && Legal(q, es) && j in q.buried
    ensures SameIngestion(q, After(q, es), j)
    ensures q.db.jobs[j].attempts == q.db.jobs[j].maxAttempts
    decreases |es|
  {
    if es != [] {
      StepInv(q, es[0]);
      StepBuriedJob(q, es[0], j);
      DeadIsFinal(Apply(q, es[0]), es[1..], j);
    }
  }

  /** Nothing claimed and nothing to claim: every job is completed, dead, or out of attempts. */
  ghost predicate Quiescent(q: Queue) {
    forall j | j in q.db.jobs :: q.db.jobs[j].status != Claimed && !Claimable(q.db.jobs[j])
  }

  lemma QuiescentJobs(q: Queue, j: JobId)
    requires Inv(q) && Quiescent(q) && j in q.db.jobs
    ensures var row := q.db.jobs[j];
      || row.status == Completed
      || (row.status in {Queued, Dead} && row.attempts == row.maxAttempts)
  {
    assert RowInv(q, j);
  }

  /** Queued with its attempts used up, and no worker left that could complete or bury it. */
  ghost predicate Stranded(q: Queue, j: JobId) {
    && j in q.db.jobs && q.db.jobs[j].status == Queued && q.db.jobs[j].attempts >= q.db.jobs[j].maxAttempts
    && forall w | Holds(q, w) :: q.slots[w].token.job != j
  }

  lemma StepStranded(q: Queue, e: Event, j: JobId)
    requires Enabled(q, e) && Stranded(q, j)
    ensures Stranded(Apply(q, e), j) && Apply(q, e).db.jobs[j] == q.db.jobs[j]
    ensures Written(Apply(q, e).commits, j) == Written(q.commits, j)
  {
    var q' := Apply(q, e);
    if e.Complete? {
      assert Holds(q, e.worker);
      assert q'.commits[..|q'.commits| - 1] == q.commits;
    }
    assert e.Fail? ==> Holds(q, e.worker);
    forall w | Holds(q', w) ensures q'.slots[w].token.job != j {
      assert Holds(q, w) || (e.Claim? && e.worker == w);
    }
  }

  /** Nothing ever happens to a stranded job. */
  lemma {:induction false} StrandedStays(q: Queue, es: seq<Event>, j: JobId)
    requires Legal(q, es) && Stranded(q, j)
    ensures Stranded(After(q, es), j) && After(q, es).db.jobs[j] == q.db.jobs[j]
    ensures Written(After(q, es).commits, j) == Written(q.commits, j)
    decreases |es|
  {
    if es != [] {
      StepStranded(q, es[0], j);
      StrandedStays(Apply(q, es[0]), es[1..], j);
    }
  }

  // ---------------------------------------------------------------- when queued jobs can be claimed

  ghost predicate QueuedIsClaimable(db: Db) {
    forall j | j in db.jobs && db.jobs[j].status == Queued :: Claimable(db.jobs[j])
  }

  /** The step puts no job into the queue that has used up its attempts. */
  predicate QueuesWithinLimit(q: Queue, e: Event)
    requires Enabled(q, e)
  {
    match e
    case Enqueue(_, _, m, _) => m > 0
    case Reset(j, _) => q.db.jobs[j].attempts < q.db.jobs[j].maxAttempts
    case Fail(w) =>
      var t := q.slots[w].token;
      t.attempt < t.maxAttempts && t.job in q.db.jobs ==> q.db.jobs[t.job].attempts < q.db.jobs[t.job].maxAttempts
    case _ => true
  }

  lemma StepClaimable(q: Queue, e: Event)
    requires Enabled(q, e) && QueuedIsClaimable(q.db)
    ensures QueuedIsClaimable(Apply(q, e).db) <==> QueuesWithinLimit(q, e)
  {
    var db' := Apply(q, e).db;
    match e
    case Enqueue(j, _, _, _) => assert j in db'.jobs;
    case Reset(j, _) => assert j in db'.jobs;
    case Fail(w) => assert q.slots[w].token.job in q.db.jobs ==> q.slots[w].token.job in db'.jobs;
    case _ =>
  }

  ghost predicate AlwaysClaimable(q: Queue, es: seq<Event>)
    requires Legal(q, es)
    decreases |es|
  {
    QueuedIsClaimable(q.db) && (es != [] ==> AlwaysClaimable(Apply(q, es[0]), es[1..]))
  }

  ghost predicate AlwaysWithinLimit(q: Queue, es: seq<Event>)
    requires Legal(q, es)
    decreases |es|
  {
    es == [] || (QueuesWithinLimit(q, es[0]) && AlwaysWithinLimit(Apply(q, es[0]), es[1..]))
  }

  /** Every queued job can be claimed at all times exactly if no step queues an exhausted one. */
  lemma {:induction false} ClaimableIff(q: Queue, es: seq<Event>)
    requires Legal(q, es) && QueuedIsClaimable(q.db)
    ensures AlwaysClaimable(q, es) <==> AlwaysWithinLimit(q, es)
    ensures AlwaysClaimable(q, es) ==> QueuedIsClaimable(After(q, es).db)
    decreases |es|
  {
    if es != [] {
      StepClaimable(q, es[0]);
      if QueuesWithinLimit(q, es[0]) {
        ClaimableIff(Apply(q, es[0]), es[1..]);
      }
    }
  }

  // ---------------------------------------------------------------- runs without a stale reset

  ghost predicate NoReset(es: seq<Event>) {
    forall i | 0 <= i < |es| :: !es[i].Reset? && (es[i].Enqueue? ==> es[i].maxAttempts >= 1)
  }

  /** Without resets a queued job has attempts left and no worker holds a token for it. */
  ghost predicate OneHolder(q: Queue) {
    && (forall j | j in q.db.jobs && q.db.jobs[j].status == Queued :: Claimable(q.db.jobs[j]))
    && (forall w | Holds(q, w) ::
          && q.slots[w].token.job in q.db.jobs
          && q.slots[w].token.maxAttempts == q.db.jobs[q.slots[w].token.job].maxAttempts
          && q.slots[w].token.attempt == q.db.jobs[q.slots[w].token.job].attempts
          && q.db.jobs[q.slots[w].token.job].status != Queued)
    && (forall w, v | Holds(q, w) && Holds(q, v) && w != v :: q.slots[w].token.job != q.slots[v].token.job)
  }

  lemma StepOneHolder(q: Queue, e: Event)
    requires TokensInv(q) && OneHolder(q) && Enabled(q, e) && NoReset([e])
    ensures OneHolder(Apply(q, e))
  {
    var q' := Apply(q, e);
    assert [e][0] == e;
    forall w | Holds(q', w)
      ensures && q'.slots[w].token.job in q'.db.jobs
              && q'.slots[w].token.maxAttempts == q'.db.jobs[q'.slots[w].token.job].maxAttempts
              && q'.slots[w].token.attempt == q'.db.jobs[q'.slots[w].token.job].attempts
              && q'.db.jobs[q'.slots[w].token.job].status != Queued
    {
      assert e.Fail? ==> Holds(q, e.worker);
      assert e.Complete? ==> Holds(q, e.worker);
      assert Holds(q, w) || (e.Claim? && e.worker == w);
    }
    forall w, v | Holds(q', w) && Holds(q', v) && w != v ensures q'.slots[w].token.job != q'.slots[v].token.job {
      assert Holds(q, w) || (e.Claim? && e.worker == w);
      assert Holds(q, v) || (e.Claim? && e.worker == v);
    }
    assert e.Fail? ==> Holds(q, e.worker);
  }

  /** A run without stale resets never queues an exhausted job: who fails a job is its only holder. */
  lemma {:induction false} NoResetStaysClaimable(q: Queue, es: seq<Event>)
    requires TokensInv(q) && OneHolder(q) && Legal(q, es) && NoReset(es)
    ensures AlwaysClaimable(q, es)
    decreases |es|
  {
    if es != [] {
      StepTokens(q, es[0]);
      StepOneHolder(q, es[0]);
      NoResetStaysClaimable(Apply(q, es[0]), es[1..]);
    }
  }

  // ---------------------------------------------------------------- when a completed job stays completed

  ghost predicate StillCompleted(q: Queue, q': Queue) {
    forall j | j in q.db.jobs && q.db.jobs[j].status == Completed ::
      j in q'.db.jobs && q'.db.jobs[j].status == Completed
  }

  ghost predicate CompletedIsFinal(q: Queue, es: seq<Event>)
    requires Legal(q, es)
    decreases |es|
  {
    es == [] || (StillCompleted(q, Apply(q, es[0])) && CompletedIsFinal(Apply(q, es[0]), es[1..]))
  }

  /** What fail_job would have to test: the row it is about to overwrite is not completed. */
  ghost predicate FailsOpenJob(q: Queue, e: Event)
    requires Enabled(q, e)
  {
    e.Fail? ==> var j := q.slots[e.worker].token.job; j in q.db.jobs ==> q.db.jobs[j].status != Completed
  }

  ghost predicate FailsOnlyOpenJobs(q: Queue, es: seq<Event>)
    requires Legal(q, es)
    decreases |es|
  {
    es == [] || (FailsOpenJob(q, es[0]) && FailsOnlyOpenJobs(Apply(q, es[0]), es[1..]))
  }

  /** Each fail_job runs while the row still carries the version of the failing worker's claim. */
  ghost predicate FailsInTime(q: Queue, es: seq<Event>)
    requires Legal(q, es)
    decreases |es|
  {
    es == [] ||
    (&& (es[0].Fail? ==> VersionMatches(q.db, q.slots[es[0].worker].token.job, q.slots[es[0].worker].token.version))
     && FailsInTime(Apply(q, es[0]), es[1..]))
  }

  lemma {:induction false} InTimeIsOpen(q: Queue, es: seq<Event>)
    requires Inv(q) && Legal(q, es) && FailsInTime(q, es)
    ensures FailsOnlyOpenJobs(q, es)
    decreases |es|
  {
    if es != [] {
      if es[0].Fail? {
        assert Holds(q, es[0].worker) && TokenOk(q.db, q.slots[es[0].worker].token);
      }
      StepInv(q, es[0]);
      InTimeIsOpen(Apply(q, es[0]), es[1..]);
    }
  }

  lemma StepCompleted(q: Queue, e: Event)
    requires TokensInv(q) && Enabled(q, e)
    ensures StillCompleted(q, Apply(q, e)) <==> FailsOpenJob(q, e)
  {
    if e.Fail? {
      var t := q.slots[e.worker].token;
      assert Holds(q, e.worker) && TokenOk(q.db, t);
      assert Apply(q, e).db.jobs[t.job].status != Completed;
    } else if e.Complete? {
      assert Holds(q, e.worker) && TokenOk(q.db, q.slots[e.worker].token);
    }
  }

  /** Completed is final exactly in the runs where no fail_job hits a completed row. */
  lemma {:induction false} CompletedIsFinalIff(q: Queue, es: seq<Event>)
    requires Inv(q) && Legal(q, es)
    ensures CompletedIsFinal(q, es) <==> FailsOnlyOpenJobs(q, es)
    decreases |es|
  {
    if es != [] {
      StepInv(q, es[0]);
      StepCompleted(q, es[0]);
      CompletedIsFinalIff(Apply(q, es[0]), es[1..]);
    }
  }

  /** A job has been completed once if it is completed now, and never otherwise. */
  ghost predicate OnceInv(q: Queue) {
    forall j | j in q.db.jobs :: Completions(q.commits, j) == if q.db.jobs[j].status == Completed then 1 else 0
  }

  lemma StepOnceJob(q: Queue, e: Event, j: JobId)
    requires Enabled(q, e) && FailsOpenJob(q, e) && j in Apply(q, e).db.jobs
    requires e.Complete? && q.slots[e.worker].token.job == j ==> j in q.db.jobs && q.db.jobs[j].status != Completed
    requires Completions(q.commits, j) == if j in q.db.jobs && q.db.jobs[j].status == Completed then 1 else 0
    ensures Completions(Apply(q, e).commits, j) == if Apply(q, e).db.jobs[j].status == Completed then 1 else 0
  {
    StepCounts(q, e, j);
  }

  lemma StepOnce(q: Queue, e: Event)
    requires TokensInv(q) && CommitsInv(q) && OnceInv(q) && Enabled(q, e) && FailsOpenJob(q, e)
    ensures OnceInv(Apply(q, e))
  {
    if e.Complete? {
      assert Holds(q, e.worker) && TokenOk(q.db, q.slots[e.worker].token);
    }
    forall j | j in Apply(q, e).db.jobs
      ensures Completions(Apply(q, e).commits, j) == if Apply(q, e).db.jobs[j].status == Completed then 1 else 0
    {
      if j !in q.db.jobs {
        NothingHappenedYet(q, j);
      }
      StepOnceJob(q, e, j);
    }
  }

  lemma {:induction false} RunOnce(q: Queue, es: seq<Event>)
    requires Inv(q) && OnceInv(q) && Legal(q, es) && FailsOnlyOpenJobs(q, es)
    ensures OnceInv(After(q, es))
    decreases |es|
  {
    if es != [] {
      StepInv(q, es[0]);
      StepOnce(q, es[0]);
      RunOnce(Apply(q, es[0]), es[1..]);
    }
  }

  lemma {:induction false} WrittenOnce(commits: seq<Commit>, j: JobId, d: DocId)
    requires forall c | c in commits && c.token.job == j :: c.token.doc == d
    requires Completions(commits, j) <= 1
    ensures |Written(commits, j)| == LastSize(commits, j)
    ensures forall i | 0 <= i < |Written(commits, j)| ::
      Written(commits, j)[i].doc == d && Written(commits, j)[i].index == i
    ensures Completions(commits, j) == 0 ==> Written(commits, j) == []
  {
    if commits != [] {
      WrittenOnce(commits[..|commits| - 1], j, d);
    }
  }

  /** A document whose chunk_count is right: that many rows, numbered from 0 without a gap. */
  ghost predicate Ingested(db: Db, d: DocId)
    requires d in db.docs
  {
    Counted(RowsOf(db.chunks, d), d, db.docs[d].chunkCount)
  }

  ghost predicate Counted(rows: seq<ChunkRow>, d: DocId, count: nat) {
    |rows| == count && forall i | 0 <= i < |rows| :: rows[i].doc == d && rows[i].index == i
  }

  lemma OnceMeansIngested(q: Queue, j: JobId)
    requires Inv(q) && OnceInv(q) && j in q.db.jobs
    ensures q.db.jobs[j].doc in q.db.docs && Ingested(q.db, q.db.jobs[j].doc)
  {
    assert DocInv(q, j);
    forall c | c in q.commits && c.token.job == j ensures c.token.doc == q.db.jobs[j].doc {
      assert TokenOk(q.db, c.token);
    }
    WrittenOnce(q.commits, j, q.db.jobs[j].doc);
  }

  // ---------------------------------------------------------------- when every chunk_count is right

  ghost predicate AllIngested(db: Db) {
    forall d | d in db.docs :: Ingested(db, d)
  }

  /** What complete_job would have to test: the document has no rows yet. */
  ghost predicate FindsNoRows(q: Queue, e: Event)
    requires Enabled(q, e)
  {
    e.Complete? ==> RowsOf(q.db.chunks, q.slots[e.worker].token.doc) == []
  }

  lemma CompleteIngests(q: Queue, e: Event, d: DocId)
    requires Enabled(q, e) && e.Complete? && d in q.db.docs && Ingested(q.db, d)
    ensures d in Apply(q, e).db.docs
    ensures Ingested(Apply(q, e).db, d) <==> d != q.slots[e.worker].token.doc || RowsOf(q.db.chunks, d) == []
  {
    var t, before := q.slots[e.worker].token, RowsOf(q.db.chunks, d);
    RowsAfterComplete(q, e, d);
    if d == t.doc {
      NewRowsCount(before, d, e.contents);
    }
  }

  lemma RowsAfterComplete(q: Queue, e: Event, d: DocId)
    requires Enabled(q, e) && e.Complete?
    ensures RowsOf(Apply(q, e).db.chunks, d) ==
            RowsOf(q.db.chunks, d) + (if d == q.slots[e.worker].token.doc then Rows(d, e.contents) else [])
  {
    var rows := Rows(q.slots[e.worker].token.doc, e.contents);
    RowsOfAppend(q.db.chunks, rows, d);
    RowsOfOneDoc(rows, q.slots[e.worker].token.doc, d);
  }

  lemma NewRowsCount(before: seq<ChunkRow>, d: DocId, contents: seq<string>)
    ensures Counted(before + Rows(d, contents), d, |contents|) <==> before == []
  {
    if before == [] {
      assert before + Rows(d, contents) == Rows(d, contents);
    }
  }

  lemma StepIngested(q: Queue, e: Event)
    requires TokensInv(q) && DocsInv(q) && Enabled(q, e) && AllIngested(q.db)
    ensures AllIngested(Apply(q, e).db) <==> FindsNoRows(q, e)
  {
    var db' := Apply(q, e).db;
    if e.Complete? {
      var t := q.slots[e.worker].token;
      assert Holds(q, e.worker) && TokenOk(q.db, t) && DocInv(q, t.job);
      CompleteIngests(q, e, t.doc);
      forall d | d in db'.docs && d != t.doc ensures Ingested(db', d) {
        CompleteIngests(q, e, d);
      }
    } else {
      if e.Enqueue? {
        NoRows(q.db.chunks, e.doc);
      }
      forall d | d in db'.docs ensures Ingested(db', d) {
        assert d in q.db.docs ==> Ingested(q.db, d);
      }
    }
  }

  ghost predicate AlwaysIngested(q: Queue, es: seq<Event>)
    requires Legal(q, es)
    decreases |es|
  {
    AllIngested(q.db) && (es != [] ==> AlwaysIngested(Apply(q, es[0]), es[1..]))
  }

  ghost predicate AlwaysFindsNoRows(q: Queue, es: seq<Event>)
    requires Legal(q, es)
    decreases |es|
  {
    es == [] || (FindsNoRows(q, es[0]) && AlwaysFindsNoRows(Apply(q, es[0]), es[1..]))
  }

  /** Every chunk_count is right at all times exactly if every completion finds its document empty. */
  lemma {:induction false} IngestedIff(q: Queue, es: seq<Event>)
    requires Inv(q) && Legal(q, es) && AllIngested(q.db)
    ensures AlwaysIngested(q, es) <==> AlwaysFindsNoRows(q, es)
    decreases |es|
  {
    if es != [] {
      StepInv(q, es[0]);
      StepIngested(q, es[0]);
      if FindsNoRows(q, es[0]) {
        IngestedIff(Apply(q, es[0]), es[1..]);
      }
    }
  }

  lemma OpenFindsNoRows(q: Queue, e: Event)
    requires TokensInv(q) && DocsInv(q) && OnceInv(q) && Enabled(q, e)
    ensures FindsNoRows(q, e)
  {
    if e.Complete? {
      var t := q.slots[e.worker].token;
      assert Holds(q, e.worker) && TokenOk(q.db, t) && DocInv(q, t.job);
      NothingWritten(q.commits, t.job);
    }
  }

  lemma {:induction false} NothingWritten(commits: seq<Commit>, j: JobId)
    requires Completions(commits, j) == 0
    ensures Written(commits, j) == []
  {
    if commits != [] {
      NothingWritten(commits[..|commits| - 1], j);
    }
  }

  /** If completed is final in the run, its completions find their documents empty. */
  lemma {:induction false} FinalMeansNoRows(q: Queue, es: seq<Event>)
    requires Inv(q) && OnceInv(q) && Legal(q, es) && FailsOnlyOpenJobs(q, es)
    ensures AlwaysFindsNoRows(q, es)
    decreases |es|
  {
    if es != [] {
      StepInv(q, es[0]);
      StepOnce(q, es[0]);
      OpenFindsNoRows(q, es[0]);
      FinalMeansNoRows(Apply(q, es[0]), es[1..]);
    }
  }
}
