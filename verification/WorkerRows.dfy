/** The laws of RowLaws and of the claim order, for every interleaving of the workers. */
module WorkerRows {
  import opened Common
  import opened JobTables
  import opened WorkerProtocol
  import Atomic = AtomicQueue
  import Laws = RowLaws

  // ---------------------------------------------------------------- claims

  /** A claim passes over an older job only if its row is locked or busy. */
  lemma OldestFirst(s: System, w: WorkerId, j: JobId, now: Time, busy: set<JobId>, older: JobId)
    requires CanDo(s, ClaimNext(w, j, now, busy)) && older in s.db.jobs
    requires s.db.jobs[older].status == Queued && s.db.jobs[older].attempts < s.db.jobs[older].maxAttempts
    requires s.db.jobs[older].createdAt < s.db.jobs[j].createdAt
    ensures older in busy
  {
  }

  /** After a claim at `now` a reset of the job is possible exactly if its cutoff is later. */
  lemma ClaimGoesStaleIff(s: System, w: WorkerId, j: JobId, now: Time, busy: set<JobId>, cutoff: Time)
    requires CanDo(s, ClaimNext(w, j, now, busy))
    ensures CanDo(Do(s, ClaimNext(w, j, now, busy)), ResetStale(j, cutoff)) <==> now < cutoff
  {
    var s' := Do(s, ClaimNext(w, j, now, busy));
    if Locked(s', j) {
      var v :| v in s'.phases && s'.phases[v].InTransaction? && s'.phases[v].token.job == j;
      assert v != w && Locked(s, j);
    }
  }

  ghost predicate LeavesClaim(s: System, acts: seq<Action>, j: JobId, since: Time)
    requires Run(s, acts)
    decreases |acts|
  {
    acts == [] ||
    (&& (acts[0].ResetStale? && acts[0].job == j ==> acts[0].cutoff <= since)
     && (acts[0].FailJob? ==> s.phases[acts[0].worker].token.job != j)
     && LeavesClaim(Do(s, acts[0]), acts[1..], j, since))
  }

  lemma {:induction false} TraceOfClaim(s: System, acts: seq<Action>, j: JobId, since: Time)
    requires LockInv(s) && Run(s, acts)
    ensures Atomic.Legal(Abstract(s), Trace(s, acts))
    ensures LeavesClaim(s, acts, j, since) <==> Laws.LeavesClaim(Abstract(s), Trace(s, acts), j, since)
    decreases |acts|
  {
    RunRefines(s, acts);
    if acts != [] {
      StepLock(s, acts[0]);
      StepRefines(s, acts[0]);
      TraceOfClaim(Do(s, acts[0]), acts[1..], j, since);
      TraceStep(s, acts);
    }
  }

  /**
   As long as no reset of the job has a cutoff later than the claim and nobody fails the job, the
   claim is not superseded: the row keeps its worker and time, and no token is issued.
   */
  lemma ClaimIsKept(s: System, acts: seq<Action>, w: WorkerId, j: JobId, now: Time, busy: set<JobId>, more: seq<Action>)
    requires Init(s) && Run(s, acts) && CanDo(Final(s, acts), ClaimNext(w, j, now, busy))
    requires var claimed := Do(Final(s, acts), ClaimNext(w, j, now, busy));
      Run(claimed, more) && LeavesClaim(claimed, more, j, now)
    ensures var claimed := Do(Final(s, acts), ClaimNext(w, j, now, busy));
      var end := Final(claimed, more);
      && j in end.db.jobs && end.db.jobs[j].status in {Claimed, Completed}
      && end.db.jobs[j].worker == Some(w) && end.db.jobs[j].claimedAt == Some(now)
      && Atomic.Claims(end.issued, j) == Atomic.Claims(claimed.issued, j)
  {
    var claimed := Do(Final(s, acts), ClaimNext(w, j, now, busy));
    RunRefines(s, acts);
    StepLock(Final(s, acts), ClaimNext(w, j, now, busy));
    RunRefines(claimed, more);
    TraceOfClaim(claimed, more, j, now);
    Laws.ClaimIsKept(Abstract(claimed), Trace(claimed, more), j, w, now);
  }

  /** In every run a queued job has no worker, a claimed one has, and a job never claimed is queued. */
  lemma RowsHaveShape(s: System, acts: seq<Action>, j: JobId)
    requires Init(s) && Run(s, acts) && j in Final(s, acts).db.jobs
    ensures var row := Final(s, acts).db.jobs[j];
      && (row.status == Queued ==> row.worker == None && row.claimedAt == None)
      && (row.status == Claimed ==> row.worker != None && row.claimedAt != None)
      && (row.attempts == 0 ==> row.status == Queued && row.version == 1)
  {
    RunRefines(s, acts);
    Atomic.InitInv(Abstract(s));
    Laws.RunShape(Abstract(s), Trace(s, acts));
  }

  // ---------------------------------------------------------------- documents

  function VerdictAfter(s: System, a: Action, d: DocId, v: Laws.Verdict): Laws.Verdict
    requires CanDo(s, a)
  {
    if a.Commit? && s.phases[a.worker].token.doc == d then Laws.Committed
    else if a.FailJob? && s.phases[a.worker].token.doc == d
            && s.phases[a.worker].token.attempt >= s.phases[a.worker].token.maxAttempts then Laws.GivenUp
    else v
  }

  /** Whether a commit or a fail_job that gave the job up was the last to speak of the document. */
  ghost function LastVerdict(s: System, acts: seq<Action>, d: DocId, v: Laws.Verdict): Laws.Verdict
    requires Run(s, acts)
    decreases |acts|
  {
    if acts == [] then v else LastVerdict(Do(s, acts[0]), acts[1..], d, VerdictAfter(s, acts[0], d, v))
  }

  lemma {:induction false} TraceOfVerdicts(s: System, acts: seq<Action>, d: DocId, v: Laws.Verdict)
    requires LockInv(s) && Run(s, acts)
    ensures Atomic.Legal(Abstract(s), Trace(s, acts))
    ensures LastVerdict(s, acts, d, v) == Laws.LastVerdict(Abstract(s), Trace(s, acts), d, v)
    decreases |acts|
  {
    RunRefines(s, acts);
    if acts != [] {
      StepLock(s, acts[0]);
      StepRefines(s, acts[0]);
      TraceOfVerdicts(Do(s, acts[0]), acts[1..], d, VerdictAfter(s, acts[0], d, v));
      TraceStep(s, acts);
    }
  }

  /**
   A document is ready exactly if a commit had the last word, failed exactly if a fail_job in
   the last attempt had it, and pending if neither ever spoke.
   */
  lemma StatusIsLastVerdict(s: System, acts: seq<Action>, d: DocId)
    requires Init(s) && Run(s, acts) && d in Final(s, acts).db.docs
    ensures var status, v := Final(s, acts).db.docs[d].status, LastVerdict(s, acts, d, Laws.Nothing);
      && (status == Pending <==> v == Laws.Nothing)
      && (status == Ready <==> v == Laws.Committed)
      && (status == DocFailed <==> v == Laws.GivenUp)
      && (status == Ready ==> exists c :: c in Final(s, acts).commits && c.token.doc == d)
  {
    var q, es := Abstract(s), Trace(s, acts);
    RunRefines(s, acts);
    TraceOfVerdicts(s, acts, d, Laws.Nothing);
    Atomic.InitInv(q);
    Laws.RunStatus(q, es, d, Laws.Nothing);
    Laws.CommittedHasCommit(q, es, d, Laws.Nothing);
    if LastVerdict(s, acts, d, Laws.Nothing) == Laws.Committed {
      assert Laws.CommitNames(Abstract(Final(s, acts)), d);
    }
  }

  /** In particular the fail_job that makes the job dead leaves the document failed. */
  lemma GivingUpFailsDocument(s: System, acts: seq<Action>, w: WorkerId)
    requires Init(s) && Run(s, acts) && CanDo(Final(s, acts), FailJob(w))
    requires var t := Final(s, acts).phases[w].token; t.attempt >= t.maxAttempts
    ensures var t, db := Final(s, acts).phases[w].token, Do(Final(s, acts), FailJob(w)).db;
      && t.job in db.jobs && db.jobs[t.job].status == Dead
      && t.doc in db.docs && db.docs[t.doc].status == DocFailed
  {
    var s' := Final(s, acts);
    var t := s'.phases[w].token;
    RunFromInit(s, acts);
    assert Atomic.Holds(Abstract(s'), w);
    assert Atomic.TokenOk(s'.db, t) && Atomic.DocInv(Abstract(s'), t.job);
  }
}
