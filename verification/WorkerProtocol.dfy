/**
 N workers of src/ingestion/worker.py over one job table, step by step: the claim commits on
 its own; mark_running opens a transaction and keeps the row lock until commit or rollback;
 fail_job is a third transaction; a worker may crash between any two steps. Every
 interleaving is a run of the atomic queue, which carries its laws over.
 */
module WorkerProtocol {
  import opened Common
  import opened JobTables
  import Atomic = AtomicQueue
  import Laws = QueueLaws

  datatype Phase =
    | Idle
    | Assigned(token: Token)                  // claimed, processing transaction not begun
    | InTransaction(token: Token, row: Job)   // mark_running has written `row`, not yet committed
    | Recovering(token: Token)                // an exception was caught, fail_job comes next

  datatype System = System(
    db: Db,
    phases: map<WorkerId, Phase>,
    enqueued: seq<JobId>,
    issued: seq<Token>,
    commits: seq<Atomic.Commit>,
    buried: set<JobId>)

  datatype Action =
    | Upload(job: JobId, doc: DocId, maxAttempts: nat, createdAt: Time)
    | ResetStale(job: JobId, cutoff: Time)
    | ClaimNext(worker: WorkerId, job: JobId, now: Time, busy: set<JobId>)
    | MarkRunning(worker: WorkerId)
    | Commit(worker: WorkerId, contents: seq<string>, acknowledged: bool)
    | Raise(worker: WorkerId)
    | FailJob(worker: WorkerId)
    | Crash(worker: WorkerId)

  predicate Locked(s: System, j: JobId) {
    exists w | w in s.phases :: s.phases[w].InTransaction? && s.phases[w].token.job == j
  }

  /**
   UPDATE waits for a row lock, so it can only run on an unlocked row; the claim skips locked
   rows. `busy` may name further rows, those a concurrent claim has locked for a moment.
   */
  predicate CanDo(s: System, a: Action) {
    match a
    case Upload(j, d, _, _) => j !in s.db.jobs && d !in s.db.docs
    case ResetStale(j, cutoff) => j in s.db.jobs && !Locked(s, j) && IsStale(s.db.jobs[j], cutoff)
    case ClaimNext(w, j, _, busy) =>
      && w in s.phases && s.phases[w].Idle?
      && (forall k | k in s.db.jobs && Locked(s, k) :: k in busy)
      && IsNext(s.db.jobs, busy, j)
    case MarkRunning(w) => w in s.phases && s.phases[w].Assigned? && !Locked(s, s.phases[w].token.job)
    case Commit(w, _, _) => w in s.phases && s.phases[w].InTransaction?
    case Raise(w) => w in s.phases && (s.phases[w].Assigned? || s.phases[w].InTransaction?)
    case FailJob(w) => w in s.phases && s.phases[w].Recovering? && !Locked(s, s.phases[w].token.job)
    case Crash(w) => w in s.phases && !s.phases[w].Idle?
  }

  function Do(s: System, a: Action): System
    requires CanDo(s, a)
  {
    match a
    case Upload(j, d, m, created) =>
      s.(db := s.db.(jobs := s.db.jobs[j := Job(d, Queued, 0, m, 1, None, None, created)],
                     docs := s.db.docs[d := Doc(Pending, 0)]),
         enqueued := s.enqueued + [j])
    case ResetStale(j, _) =>
      s.(db := s.db.(jobs := s.db.jobs[j := ResetRow(s.db.jobs[j])]))
    case ClaimNext(w, j, now, _) =>
      var row := ClaimRow(s.db.jobs[j], w, now);
      s.(db := s.db.(jobs := s.db.jobs[j := row]),
         phases := s.phases[w := Assigned(TokenOf(j, row))],
         issued := s.issued + [TokenOf(j, row)])
    case MarkRunning(w) =>
      var t := s.phases[w].token;
      if VersionMatches(s.db, t.job, t.version) then
        s.(phases := s.phases[w := InTransaction(t, JobTables.MarkRunning(s.db, t.job, t.version).jobs[t.job])])
      else
        s.(phases := s.phases[w := Idle])
    case Commit(w, contents, acknowledged) =>
      var InTransaction(t, row) := s.phases[w];
      s.(db := CompleteJob(s.db.(jobs := s.db.jobs[t.job := row]), t.job, t.doc, contents),
         phases := s.phases[w := if acknowledged then Idle else Recovering(t)],
         commits := s.commits + [Atomic.Commit(t, contents)])
    case Raise(w) => s.(phases := s.phases[w := Recovering(s.phases[w].token)])
    case FailJob(w) =>
      var t := s.phases[w].token;
      s.(db := JobTables.FailJob(s.db, t.job, t.doc, t.attempt, t.maxAttempts),
         phases := s.phases[w := Idle],
         buried := if t.attempt >= t.maxAttempts then s.buried + {t.job} else s.buried)
    case Crash(w) => s.(phases := s.phases[w := Idle])
  }

  ghost predicate Run(s: System, acts: seq<Action>)
    decreases |acts|
  {
    acts == [] || (CanDo(s, acts[0]) && Run(Do(s, acts[0]), acts[1..]))
  }

  ghost function Final(s: System, acts: seq<Action>): System
    requires Run(s, acts)
    decreases |acts|
  {
    if acts == [] then s else Final(Do(s, acts[0]), acts[1..])
  }

  ghost predicate Init(s: System) {
    && s.db == Db(map[], map[], [])
    && (forall w | w in s.phases :: s.phases[w].Idle?)
    && s.enqueued == [] && s.issued == [] && s.commits == [] && s.buried == {}
  }

  // ---------------------------------------------------------------- what the row locks give

  /** The uncommitted row still extends the committed one, and no two transactions share a row. */
  ghost predicate LockInv(s: System) {
    && (forall w | w in s.phases && s.phases[w].InTransaction? ::
          && VersionMatches(s.db, s.phases[w].token.job, s.phases[w].token.version)
          && s.phases[w].row ==
             s.db.jobs[s.phases[w].token.job].(status := Running, version := s.phases[w].token.version + 1))
    && (forall w, v | w in s.phases && v in s.phases && w != v
                      && s.phases[w].InTransaction? && s.phases[v].InTransaction? ::
          s.phases[w].token.job != s.phases[v].token.job)
  }

  lemma StepLock(s: System, a: Action)
    requires LockInv(s) && CanDo(s, a)
    ensures LockInv(Do(s, a))
  {
    var s' := Do(s, a);
    forall w | w in s'.phases && s'.phases[w].InTransaction?
      ensures && VersionMatches(s'.db, s'.phases[w].token.job, s'.phases[w].token.version)
              && s'.phases[w].row ==
                 s'.db.jobs[s'.phases[w].token.job].(status := Running, version := s'.phases[w].token.version + 1)
    {
      if w in s.phases && s.phases[w].InTransaction? {
        assert Locked(s, s.phases[w].token.job);
      }
    }
    forall w, v | w in s'.phases && v in s'.phases && w != v
                  && s'.phases[w].InTransaction? && s'.phases[v].InTransaction?
      ensures s'.phases[w].token.job != s'.phases[v].token.job
    {
      assert s.phases[w].InTransaction? ==> Locked(s, s.phases[w].token.job);
      assert s.phases[v].InTransaction? ==> Locked(s, s.phases[v].token.job);
    }
  }

  // ---------------------------------------------------------------- refinement

  function SlotOf(p: Phase): Atomic.Slot {
    match p
    case Idle => Atomic.Empty
    case Assigned(t) => Atomic.Holding(t)
    case InTransaction(t, _) => Atomic.Holding(t)
    case Recovering(t) => Atomic.Raised(t)
  }

  /** Locks and open transactions disappear: an in-flight row is no row at all. */
  function Abstract(s: System): Atomic.Queue {
    Atomic.Queue(s.db, map w | w in s.phases :: SlotOf(s.phases[w]), s.enqueued, s.issued, s.commits, s.buried)
  }

  /** The atomic steps an action amounts to: one, or none for a mark_running that succeeds. */
  function Image(s: System, a: Action): seq<Atomic.Event>
    requires CanDo(s, a)
  {
    match a
    case Upload(j, d, m, created) => [Atomic.Enqueue(j, d, m, created)]
    case ResetStale(j, cutoff) => [Atomic.Reset(j, cutoff)]
    case ClaimNext(w, j, now, _) => [Atomic.Claim(w, j, now)]
    case MarkRunning(w) =>
      if VersionMatches(s.db, s.phases[w].token.job, s.phases[w].token.version) then [] else [Atomic.LoseRace(w)]
    case Commit(w, contents, acknowledged) => [Atomic.Complete(w, contents, acknowledged)]
    case Raise(w) => [Atomic.Abort(w)]
    case FailJob(w) => [Atomic.Fail(w)]
    case Crash(w) => [Atomic.Drop(w)]
  }

  ghost function Trace(s: System, acts: seq<Action>): seq<Atomic.Event>
    requires Run(s, acts)
    decreases |acts|
  {
    if acts == [] then [] else Image(s, acts[0]) + Trace(Do(s, acts[0]), acts[1..])
  }

  /** The commit of a transaction that saw its version under the lock is one compare-and-swap. */
  lemma CommitIsSwap(s: System, a: Action)
    requires LockInv(s) && CanDo(s, a) && a.Commit?
    ensures var t := s.phases[a.worker].token;
      VersionMatches(s.db, t.job, t.version) && Do(s, a).db == Atomic.Swap(s.db, t, a.contents)
  {
    var t := s.phases[a.worker].token;
    assert Do(s, a).db.jobs == Atomic.Swap(s.db, t, a.contents).jobs;
  }

  lemma StepRefines(s: System, a: Action)
    requires LockInv(s) && CanDo(s, a)
    ensures Image(s, a) == [] ==> Abstract(Do(s, a)) == Abstract(s)
    ensures Image(s, a) != [] ==>
      |Image(s, a)| == 1 && Atomic.Enabled(Abstract(s), Image(s, a)[0]) &&
      Atomic.Apply(Abstract(s), Image(s, a)[0]) == Abstract(Do(s, a))
  {
    if a.Commit? {
      CommitIsSwap(s, a);
    }
    if Image(s, a) != [] {
      var q' := Atomic.Apply(Abstract(s), Image(s, a)[0]);
      assert q'.slots == Abstract(Do(s, a)).slots;
    } else {
      assert Abstract(Do(s, a)).slots == Abstract(s).slots;
    }
  }

  lemma {:induction false} RunRefines(s: System, acts: seq<Action>)
    requires LockInv(s) && Run(s, acts)
    ensures LockInv(Final(s, acts))
    ensures Atomic.Legal(Abstract(s), Trace(s, acts))
    ensures Atomic.After(Abstract(s), Trace(s, acts)) == Abstract(Final(s, acts))
    decreases |acts|
  {
    if acts != [] {
      StepLock(s, acts[0]);
      StepRefines(s, acts[0]);
      RunRefines(Do(s, acts[0]), acts[1..]);
      TraceStep(s, acts);
    }
  }

  // ---------------------------------------------------------------- laws of every interleaving

  lemma RunFromInit(s: System, acts: seq<Action>)
    requires Init(s) && Run(s, acts)
    ensures LockInv(Final(s, acts)) && Atomic.Inv(Abstract(Final(s, acts)))
  {
    RunRefines(s, acts);
    Atomic.InitInv(Abstract(s));
    Atomic.RunInv(Abstract(s), Trace(s, acts));
  }

  /** No claim token is issued twice, and no token commits twice. */
  lemma TokensAreUnique(s: System, acts: seq<Action>)
    requires Init(s) && Run(s, acts)
    ensures forall i, k | 0 <= i < k < |Final(s, acts).issued| ::
      (Final(s, acts).issued[i].job, Final(s, acts).issued[i].version)
      != (Final(s, acts).issued[k].job, Final(s, acts).issued[k].version)
    ensures forall i, k | 0 <= i < k < |Final(s, acts).commits| ::
      Final(s, acts).commits[i].token != Final(s, acts).commits[k].token
    ensures forall c | c in Final(s, acts).commits :: c.token in Final(s, acts).issued
  {
    RunFromInit(s, acts);
  }

  /** A transaction that can commit holds its job's newest claim, which has not committed yet. */
  lemma CommitIsFenced(s: System, acts: seq<Action>, w: WorkerId)
    requires Init(s) && Run(s, acts)
    requires w in Final(s, acts).phases && Final(s, acts).phases[w].InTransaction?
    ensures var s', t := Final(s, acts), Final(s, acts).phases[w].token;
      && t in s'.issued
      && (forall u | u in s'.issued && u.job == t.job :: u.attempt <= t.attempt)
      && (forall c | c in s'.commits :: c.token != t)
      && t.job in s'.db.jobs && s'.db.jobs[t.job].status != Completed
  {
    var s' := Final(s, acts);
    RunFromInit(s, acts);
    StepRefines(s', Commit(w, [], true));
    Laws.CompletionIsFenced(Abstract(s'), w, [], true);
    assert Atomic.Holds(Abstract(s'), w);
    assert Atomic.TokenOk(s'.db, s'.phases[w].token);
  }

  /** A worker whose claim was superseded never commits, whatever happens next. */
  lemma SupersededNeverCommits(s: System, acts: seq<Action>, more: seq<Action>, t: Token, u: Token)
    requires Init(s) && Run(s, acts) && Run(Final(s, acts), more)
    requires t in Final(s, acts).issued && u in Final(s, acts).issued
    requires t.job == u.job && t.attempt < u.attempt
    ensures var before, after := Final(s, acts).commits, Final(Final(s, acts), more).commits;
      before <= after && forall i | |before| <= i < |after| :: after[i].token != t
  {
    var mid := Final(s, acts);
    RunFromInit(s, acts);
    RunRefines(mid, more);
    Laws.SupersededNeverCommits(Abstract(mid), Trace(mid, more), t);
  }

  /**
   The version counts claims and completions, attempts never pass the limit, and no committed
   row is ever 'running' or 'failed'.
   */
  lemma CounterLaw(s: System, acts: seq<Action>, j: JobId)
    requires Init(s) && Run(s, acts) && j in Final(s, acts).db.jobs
    ensures var s', row := Final(s, acts), Final(s, acts).db.jobs[j];
      && row.version == 1 + row.attempts + Atomic.Completions(s'.commits, j)
      && row.attempts == Atomic.Claims(s'.issued, j)
      && row.attempts <= row.maxAttempts
      && row.status != Running && row.status != Failed
  {
    RunFromInit(s, acts);
    assert Atomic.RowInv(Abstract(Final(s, acts)), j);
  }

  /** All workers together claim no more often than the attempt limits add up to. */
  lemma ClaimsAreBounded(s: System, acts: seq<Action>)
    requires Init(s) && Run(s, acts)
    ensures forall i | 0 <= i < |Final(s, acts).enqueued| :: Final(s, acts).enqueued[i] in Final(s, acts).db.jobs
    ensures |Final(s, acts).issued| <= Atomic.SumMaxAttempts(Final(s, acts).enqueued, Final(s, acts).db.jobs)
  {
    RunFromInit(s, acts);
    Laws.ClaimsAreBounded(Abstract(Final(s, acts)));
    forall i | 0 <= i < |Final(s, acts).enqueued| ensures Final(s, acts).enqueued[i] in Final(s, acts).db.jobs {
      assert Final(s, acts).enqueued[i] in Final(s, acts).enqueued;
    }
  }

  ghost predicate Quiescent(s: System) {
    forall j | j in s.db.jobs :: s.db.jobs[j].status != Claimed && !Claimable(s.db.jobs[j])
  }

  /** When the queue has drained, a job is completed or has used all its attempts. */
  lemma DrainedJobs(s: System, acts: seq<Action>, j: JobId)
    requires Init(s) && Run(s, acts) && Quiescent(Final(s, acts)) && j in Final(s, acts).db.jobs
    ensures var row := Final(s, acts).db.jobs[j];
      row.status == Completed || (row.status in {Queued, Dead} && row.attempts == row.maxAttempts)
  {
    RunFromInit(s, acts);
    Laws.QuiescentJobs(Abstract(Final(s, acts)), j);
  }

  ghost predicate NoReset(acts: seq<Action>) {
    forall i | 0 <= i < |acts| :: !acts[i].ResetStale? && (acts[i].Upload? ==> acts[i].maxAttempts >= 1)
  }

  lemma {:induction false} TraceNoReset(s: System, acts: seq<Action>)
    requires Run(s, acts) && NoReset(acts)
    ensures Laws.NoReset(Trace(s, acts))
    decreases |acts|
  {
    if acts != [] {
      TraceNoReset(Do(s, acts[0]), acts[1..]);
    }
  }

  /** The step puts no job into the queue that has used up its attempts. */
  predicate QueuesWithinLimit(s: System, a: Action)
    requires CanDo(s, a)
  {
    match a
    case Upload(_, _, m, _) => m > 0
    case ResetStale(j, _) => s.db.jobs[j].attempts < s.db.jobs[j].maxAttempts
    case FailJob(w) =>
      var t := s.phases[w].token;
      t.attempt < t.maxAttempts && t.job in s.db.jobs ==> s.db.jobs[t.job].attempts < s.db.jobs[t.job].maxAttempts
    case _ => true
  }

  ghost predicate AlwaysWithinLimit(s: System, acts: seq<Action>)
    requires Run(s, acts)
    decreases |acts|
  {
    acts == [] || (QueuesWithinLimit(s, acts[0]) && AlwaysWithinLimit(Do(s, acts[0]), acts[1..]))
  }

  ghost predicate AlwaysClaimable(s: System, acts: seq<Action>)
    requires Run(s, acts)
    decreases |acts|
  {
    Laws.QueuedIsClaimable(s.db) && (acts != [] ==> AlwaysClaimable(Do(s, acts[0]), acts[1..]))
  }

  lemma {:induction false} TraceOfQueuing(s: System, acts: seq<Action>)
    requires LockInv(s) && Run(s, acts)
    ensures Atomic.Legal(Abstract(s), Trace(s, acts))
    ensures AlwaysWithinLimit(s, acts) <==> Laws.AlwaysWithinLimit(Abstract(s), Trace(s, acts))
    ensures AlwaysClaimable(s, acts) <==> Laws.AlwaysClaimable(Abstract(s), Trace(s, acts))
    decreases |acts|
  {
    RunRefines(s, acts);
    if acts != [] {
      StepLock(s, acts[0]);
      StepRefines(s, acts[0]);
      TraceOfQueuing(Do(s, acts[0]), acts[1..]);
      TraceStep(s, acts);
    }
  }

  lemma TraceStep(s: System, acts: seq<Action>)
    requires Run(s, acts) && acts != []
    ensures var image, rest := Image(s, acts[0]), Trace(Do(s, acts[0]), acts[1..]);
      && (image == [] ==> Trace(s, acts) == rest)
      && (|image| == 1 ==> Trace(s, acts) != [] && Trace(s, acts)[0] == image[0] && Trace(s, acts)[1..] == rest)
  {
  }

  /** Every queued job can be claimed at all times exactly if no step queues an exhausted one. */
  lemma ClaimableIff(s: System, acts: seq<Action>)
    requires Init(s) && Run(s, acts)
    ensures AlwaysClaimable(s, acts) <==> AlwaysWithinLimit(s, acts)
  {
    TraceOfQueuing(s, acts);
    Laws.ClaimableIff(Abstract(s), Trace(s, acts));
  }

  /** In those runs, with stale resets or without, a drained queue has only completed and dead jobs. */
  lemma DrainedWithinLimit(s: System, acts: seq<Action>)
    requires Init(s) && Run(s, acts) && AlwaysWithinLimit(s, acts) && Quiescent(Final(s, acts))
    ensures forall j | j in Final(s, acts).db.jobs :: Final(s, acts).db.jobs[j].status in {Completed, Dead}
  {
    var s' := Final(s, acts);
    RunRefines(s, acts);
    TraceOfQueuing(s, acts);
    Laws.ClaimableIff(Abstract(s), Trace(s, acts));
    forall j | j in s'.db.jobs ensures s'.db.jobs[j].status in {Completed, Dead} {
      DrainedJobs(s, acts, j);
    }
  }

  /** Without stale resets every run is one of those. */
  lemma NoResetWithinLimit(s: System, acts: seq<Action>)
    requires Init(s) && Run(s, acts) && NoReset(acts)
    ensures AlwaysWithinLimit(s, acts)
  {
    TraceOfQueuing(s, acts);
    TraceNoReset(s, acts);
    Atomic.InitInv(Abstract(s));
    Laws.NoResetStaysClaimable(Abstract(s), Trace(s, acts));
    Laws.ClaimableIff(Abstract(s), Trace(s, acts));
  }

  /** Queued with its attempts used up, and no worker that still has a token for it. */
  ghost predicate Stranded(s: System, j: JobId) {
    && j in s.db.jobs && s.db.jobs[j].status == Queued && s.db.jobs[j].attempts == s.db.jobs[j].maxAttempts
    && forall w | w in s.phases && !s.phases[w].Idle? :: s.phases[w].token.job != j
  }

  /** A stranded job stays queued for good and its document gains no chunk. */
  lemma StrandedStays(s: System, acts: seq<Action>, more: seq<Action>, j: JobId)
    requires Init(s) && Run(s, acts) && Run(Final(s, acts), more) && Stranded(Final(s, acts), j)
    ensures var mid, end := Final(s, acts), Final(Final(s, acts), more);
      && Stranded(end, j) && end.db.jobs[j] == mid.db.jobs[j]
      && Atomic.RowsOf(end.db.chunks, end.db.jobs[j].doc) == Atomic.RowsOf(mid.db.chunks, mid.db.jobs[j].doc)
  {
    var mid := Final(s, acts);
    var end := Final(mid, more);
    RunFromInit(s, acts);
    RunRefines(mid, more);
    Laws.StrandedStays(Abstract(mid), Trace(mid, more), j);
    Atomic.RunInv(Abstract(mid), Trace(mid, more));
    assert Atomic.DocInv(Abstract(mid), j) && Atomic.DocInv(Abstract(end), j);
    forall w | w in end.phases && !end.phases[w].Idle? ensures end.phases[w].token.job != j {
      assert Atomic.Holds(Abstract(end), w);
    }
  }

  /** It takes one crash in the last attempt: the stale reset queues a job that no claim accepts. */
  lemma ResetStrandsJob() returns (s: System, acts: seq<Action>)
    ensures Init(s) && Run(s, acts) && Stranded(Final(s, acts), 7)
  {
    s := System(Db(map[], map[], []), map[1 := Idle], [], [], [], {});
    var a0, a1, a2, a3 := Upload(7, 10, 1, 0), ClaimNext(1, 7, 5, {}), Crash(1), ResetStale(7, 6);
    var s1 := Do(s, a0);
    ClaimSoleJob(s1, 1, 7, 5);
    var s2 := Do(s1, a1);
    var s3 := Do(s2, a2);
    RunOne(s3, a3);
    RunCons(s2, a2, [a3]);
    RunCons(s1, a1, [a2] + [a3]);
    RunCons(s, a0, [a1] + ([a2] + [a3]));
    acts := [a0] + ([a1] + ([a2] + [a3]));
  }

  /** A job that was ever dead is never claimed again and its document gains no chunk. */
  lemma DeadIsFinal(s: System, acts: seq<Action>, more: seq<Action>, j: JobId)
    requires Init(s) && Run(s, acts) && Run(Final(s, acts), more)
    requires j in Final(s, acts).db.jobs && Final(s, acts).db.jobs[j].status == Dead
    ensures var mid, end := Final(s, acts), Final(Final(s, acts), more);
      && j in end.db.jobs
      && mid.db.jobs[j].attempts == end.db.jobs[j].attempts == end.db.jobs[j].maxAttempts
      && Atomic.Claims(end.issued, j) == Atomic.Claims(mid.issued, j)
      && end.db.jobs[j].doc == mid.db.jobs[j].doc
      && Atomic.RowsOf(end.db.chunks, end.db.jobs[j].doc) == Atomic.RowsOf(mid.db.chunks, mid.db.jobs[j].doc)
  {
    var mid := Final(s, acts);
    var end := Final(mid, more);
    RunFromInit(s, acts);
    RunRefines(mid, more);
    Laws.DeadIsFinal(Abstract(mid), Trace(mid, more), j);
    Atomic.RunInv(Abstract(mid), Trace(mid, more));
    assert Atomic.DocInv(Abstract(mid), j) && Atomic.DocInv(Abstract(end), j);
  }

  // ---------------------------------------------------------------- exactly-once ingestion

  ghost predicate FailsOpenJob(s: System, a: Action)
    requires CanDo(s, a)
  {
    a.FailJob? ==> var j := s.phases[a.worker].token.job; j in s.db.jobs ==> s.db.jobs[j].status != Completed
  }

  ghost predicate FailsOnlyOpenJobs(s: System, acts: seq<Action>)
    requires Run(s, acts)
    decreases |acts|
  {
    acts == [] || (FailsOpenJob(s, acts[0]) && FailsOnlyOpenJobs(Do(s, acts[0]), acts[1..]))
  }

  ghost predicate FailsInTime(s: System, acts: seq<Action>)
    requires Run(s, acts)
    decreases |acts|
  {
    acts == [] ||
    (&& (acts[0].FailJob? ==>
           VersionMatches(s.db, s.phases[acts[0].worker].token.job, s.phases[acts[0].worker].token.version))
     && FailsInTime(Do(s, acts[0]), acts[1..]))
  }

  ghost predicate StillCompleted(s: System, s': System) {
    forall j | j in s.db.jobs && s.db.jobs[j].status == Completed ::
      j in s'.db.jobs && s'.db.jobs[j].status == Completed
  }

  ghost predicate CompletedIsFinal(s: System, acts: seq<Action>)
    requires Run(s, acts)
    decreases |acts|
  {
    acts == [] || (StillCompleted(s, Do(s, acts[0])) && CompletedIsFinal(Do(s, acts[0]), acts[1..]))
  }

  lemma {:induction false} TraceOfFails(s: System, acts: seq<Action>)
    requires LockInv(s) && Run(s, acts)
    ensures Atomic.Legal(Abstract(s), Trace(s, acts))
    ensures FailsOnlyOpenJobs(s, acts) <==> Laws.FailsOnlyOpenJobs(Abstract(s), Trace(s, acts))
    ensures FailsInTime(s, acts) <==> Laws.FailsInTime(Abstract(s), Trace(s, acts))
    ensures CompletedIsFinal(s, acts) <==> Laws.CompletedIsFinal(Abstract(s), Trace(s, acts))
    decreases |acts|
  {
    RunRefines(s, acts);
    if acts != [] {
      StepLock(s, acts[0]);
      StepRefines(s, acts[0]);
      TraceOfFails(Do(s, acts[0]), acts[1..]);
      TraceStep(s, acts);
    }
  }

  /** Completed is final exactly in the runs where no fail_job overwrites a completed row. */
  lemma CompletedIsFinalIff(s: System, acts: seq<Action>)
    requires Init(s) && Run(s, acts)
    ensures CompletedIsFinal(s, acts) <==> FailsOnlyOpenJobs(s, acts)
  {
    TraceOfFails(s, acts);
    Atomic.InitInv(Abstract(s));
    Laws.CompletedIsFinalIff(Abstract(s), Trace(s, acts));
  }

  /** A fail_job that runs while its version is current never finds the job completed. */
  lemma InTimeIsOpen(s: System, acts: seq<Action>)
    requires Init(s) && Run(s, acts) && FailsInTime(s, acts)
    ensures FailsOnlyOpenJobs(s, acts)
  {
    TraceOfFails(s, acts);
    Atomic.InitInv(Abstract(s));
    Laws.InTimeIsOpen(Abstract(s), Trace(s, acts));
  }

  /**
   If no fail_job overwrites a completed row, a job has committed once when it is completed and
   never otherwise, and its document has exactly chunk_count rows, numbered from 0.
   */
  lemma ExactlyOnce(s: System, acts: seq<Action>, j: JobId)
    requires Init(s) && Run(s, acts) && FailsOnlyOpenJobs(s, acts)
    requires j in Final(s, acts).db.jobs
    ensures var s', row := Final(s, acts), Final(s, acts).db.jobs[j];
      && Atomic.Completions(s'.commits, j) == (if row.status == Completed then 1 else 0)
      && row.doc in s'.db.docs && Laws.Ingested(s'.db, row.doc)
  {
    var q, es := Abstract(s), Trace(s, acts);
    RunRefines(s, acts);
    TraceOfFails(s, acts);
    Atomic.InitInv(q);
    Atomic.RunInv(q, es);
    Laws.RunOnce(q, es);
    Laws.OnceMeansIngested(Atomic.After(q, es), j);
  }

  /** What complete_job would have to test: the document has no rows yet. */
  ghost predicate FindsNoRows(s: System, a: Action)
    requires CanDo(s, a)
  {
    a.Commit? ==> Atomic.RowsOf(s.db.chunks, s.phases[a.worker].token.doc) == []
  }

  ghost predicate AlwaysFindsNoRows(s: System, acts: seq<Action>)
    requires Run(s, acts)
    decreases |acts|
  {
    acts == [] || (FindsNoRows(s, acts[0]) && AlwaysFindsNoRows(Do(s, acts[0]), acts[1..]))
  }

  ghost predicate AlwaysIngested(s: System, acts: seq<Action>)
    requires Run(s, acts)
    decreases |acts|
  {
    Laws.AllIngested(s.db) && (acts != [] ==> AlwaysIngested(Do(s, acts[0]), acts[1..]))
  }

  lemma {:induction false} TraceOfCommits(s: System, acts: seq<Action>)
    requires LockInv(s) && Run(s, acts)
    ensures Atomic.Legal(Abstract(s), Trace(s, acts))
    ensures AlwaysFindsNoRows(s, acts) <==> Laws.AlwaysFindsNoRows(Abstract(s), Trace(s, acts))
    ensures AlwaysIngested(s, acts) <==> Laws.AlwaysIngested(Abstract(s), Trace(s, acts))
    decreases |acts|
  {
    RunRefines(s, acts);
    if acts != [] {
      StepLock(s, acts[0]);
      StepRefines(s, acts[0]);
      TraceOfCommits(Do(s, acts[0]), acts[1..]);
      TraceStep(s, acts);
    }
  }

  /**
   Every document has chunk_count rows, numbered from 0, at all times exactly in the runs where
   every commit finds its document without rows.
   */
  lemma IngestedIff(s: System, acts: seq<Action>)
    requires Init(s) && Run(s, acts)
    ensures AlwaysIngested(s, acts) <==> AlwaysFindsNoRows(s, acts)
  {
    TraceOfCommits(s, acts);
    Atomic.InitInv(Abstract(s));
    Laws.IngestedIff(Abstract(s), Trace(s, acts));
  }

  /** The runs in which completed is final are among them. */
  lemma FinalMeansIngested(s: System, acts: seq<Action>)
    requires Init(s) && Run(s, acts) && CompletedIsFinal(s, acts)
    ensures AlwaysIngested(s, acts)
  {
    CompletedIsFinalIff(s, acts);
    TraceOfFails(s, acts);
    TraceOfCommits(s, acts);
    Atomic.InitInv(Abstract(s));
    Laws.FinalMeansNoRows(Abstract(s), Trace(s, acts));
    IngestedIff(s, acts);
  }

  lemma {:induction false} RunConcat(s: System, a: seq<Action>, b: seq<Action>)
    requires Run(s, a) && Run(Final(s, a), b)
    ensures Run(s, a + b) && Final(s, a + b) == Final(Final(s, a), b)
    decreases |a|
  {
    if a == [] {
      assert a + b == b;
    } else {
      assert (a + b)[0] == a[0] && (a + b)[1..] == a[1..] + b;
      RunConcat(Do(s, a[0]), a[1..], b);
    }
  }

  lemma RunCons(s: System, a: Action, acts: seq<Action>)
    requires CanDo(s, a) && Run(Do(s, a), acts)
    ensures Run(s, [a] + acts) && Final(s, [a] + acts) == Final(Do(s, a), acts)
  {
    assert ([a] + acts)[1..] == acts;
  }

  lemma RunOne(s: System, a: Action)
    requires CanDo(s, a)
    ensures Run(s, [a]) && Final(s, [a]) == Do(s, a)
  {
    assert [a][0] == a && [a][1..] == [];
    assert Run(Do(s, a), [a][1..]);
  }

  /** The only job is queued and nobody is inside a transaction. */
  ghost predicate SoleJobQueued(s: System, w: WorkerId, j: JobId) {
    && s.db.jobs.Keys == {j} && Claimable(s.db.jobs[j])
    && w in s.phases && s.phases[w].Idle?
    && forall v | v in s.phases :: !s.phases[v].InTransaction?
  }

  lemma ClaimSoleJob(s: System, w: WorkerId, j: JobId, now: Time)
    requires SoleJobQueued(s, w, j)
    ensures CanDo(s, ClaimNext(w, j, now, {}))
    ensures var t := TokenOf(j, ClaimRow(s.db.jobs[j], w, now));
      && Do(s, ClaimNext(w, j, now, {})).phases == s.phases[w := Assigned(t)]
      && Do(s, ClaimNext(w, j, now, {})).db.jobs == map[j := ClaimRow(s.db.jobs[j], w, now)]
  {
  }

  /** Claim, run and commit without interruption. */
  lemma IngestSoleJob(s: System, w: WorkerId, j: JobId, now: Time, contents: seq<string>) returns (acts: seq<Action>)
    requires SoleJobQueued(s, w, j) && s.db.jobs[j].doc in s.db.docs
    ensures Run(s, acts)
    ensures var row, s' := ClaimRow(s.db.jobs[j], w, now), Final(s, acts);
      && s'.db.jobs == map[j := row.(status := Completed, version := row.version + 1)]
      && s'.db.docs == s.db.docs[row.doc := Doc(Ready, |contents|)]
      && s'.db.chunks == s.db.chunks + Rows(row.doc, contents)
      && s'.phases == s.phases
  {
    ClaimSoleJob(s, w, j, now);
    var s1 := Do(s, ClaimNext(w, j, now, {}));
    var s2 := Do(s1, MarkRunning(w));
    var s3 := Do(s2, Commit(w, contents, true));
    RunOne(s2, Commit(w, contents, true));
    RunCons(s1, MarkRunning(w), [Commit(w, contents, true)]);
    RunCons(s, ClaimNext(w, j, now, {}), [MarkRunning(w)] + [Commit(w, contents, true)]);
    acts := [ClaimNext(w, j, now, {})] + ([MarkRunning(w)] + [Commit(w, contents, true)]);
    assert s3.phases == s.phases;
  }

  /** Worker 1 claims the only job, raises, and its claim goes stale before fail_job has run. */
  lemma Stall() returns (s: System, acts: seq<Action>)
    ensures Init(s) && Run(s, acts)
    ensures var s' := Final(s, acts);
      && SoleJobQueued(s', 2, 7)
      && s'.db == Db(map[7 := Job(10, Queued, 1, 3, 2, None, None, 0)], map[10 := Doc(Pending, 0)], [])
      && s'.phases == map[1 := Recovering(Token(7, 10, 2, 1, 3)), 2 := Idle]
  {
    s := System(Db(map[], map[], []), map[1 := Idle, 2 := Idle], [], [], [], {});
    var a0, a1, a2, a3 := Upload(7, 10, 3, 0), ClaimNext(1, 7, 5, {}), Raise(1), ResetStale(7, 6);
    var s1 := Do(s, a0);
    ClaimSoleJob(s1, 1, 7, 5);
    var s2 := Do(s1, a1);
    var s3 := Do(s2, a2);
    var s4 := Do(s3, a3);
    RunOne(s3, a3);
    RunCons(s2, a2, [a3]);
    RunCons(s1, a1, [a2] + [a3]);
    RunCons(s, a0, [a1] + ([a2] + [a3]));
    acts := [a0] + ([a1] + ([a2] + [a3]));
  }

  /**
   Exactly-once needs its hypothesis. Worker 1 stalls, worker 2 completes the job, worker 1's
   fail_job queues it again and worker 2 ingests it again: two rows, chunk_count 1.
   */
  lemma LateFailDuplicatesChunks() returns (s: System, acts: seq<Action>)
    ensures Init(s) && Run(s, acts)
    ensures !CompletedIsFinal(s, acts)
    ensures 10 in Final(s, acts).db.docs && !Laws.Ingested(Final(s, acts).db, 10)
  {
    var stall, first, second;
    s, stall := Stall();
    var s1 := Final(s, stall);
    first := IngestSoleJob(s1, 2, 7, 8, ["text"]);
    var s2 := Final(s1, first);
    var late := FailJob(1);
    var s3 := Do(s2, late);
    second := IngestSoleJob(s3, 2, 7, 9, ["text"]);
    var s4 := Final(s3, second);
    RunOne(s2, late);
    RunConcat(s2, [late], second);
    RunConcat(s1, first, [late] + second);
    RunConcat(s, stall, first + ([late] + second));
    acts := stall + (first + ([late] + second));
    Atomic.RowsOfOneDoc(s4.db.chunks, 10, 10);
    if CompletedIsFinal(s, acts) {
      CompletedIsFinalIff(s, acts);
      ExactlyOnce(s, acts, 7);
    }
  }
}
