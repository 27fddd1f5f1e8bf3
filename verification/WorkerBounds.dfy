/**
 Every run of the workers ends: a potential that each action but an upload lowers bounds the
 number of actions by the attempt limits of the jobs.
 */
module WorkerBounds {
  import opened Common
  import opened JobTables
  import opened WorkerProtocol
  import Atomic = AtomicQueue

  /** The actions a job can still cause by further claims, and by a stale reset. */
  function JobCost(row: Job): int {
    5 * (row.maxAttempts - row.attempts) + (if row.status == Claimed then 1 else 0)
  }

  /** The actions its worker can still take before it is idle. */
  function PhaseCost(p: Phase): nat {
    match p
    case Idle => 0
    case Assigned(_) => 3
    case InTransaction(_, _) => 2
    case Recovering(_) => 1
  }

  function JobCosts(ids: seq<JobId>, jobs: map<JobId, Job>): int
    requires forall i | 0 <= i < |ids| :: ids[i] in jobs
  {
    if ids == [] then 0 else JobCosts(ids[..|ids| - 1], jobs) + JobCost(jobs[ids[|ids| - 1]])
  }

  function PhaseCosts(ws: seq<WorkerId>, phases: map<WorkerId, Phase>): nat
    requires forall i | 0 <= i < |ws| :: ws[i] in phases
  {
    if ws == [] then 0 else PhaseCosts(ws[..|ws| - 1], phases) + PhaseCost(phases[ws[|ws| - 1]])
  }

  ghost predicate Distinct(ids: seq<int>) {
    forall i, k | 0 <= i < k < |ids| :: ids[i] != ids[k]
  }

  ghost predicate Lists(ids: seq<int>, all: set<int>) {
    Distinct(ids) && (forall i | 0 <= i < |ids| :: ids[i] in all) && (forall x | x in all :: x in ids)
  }

  lemma {:induction false} JobCostsUpdate(ids: seq<JobId>, jobs: map<JobId, Job>, j: JobId, row: Job)
    requires Distinct(ids) && forall i | 0 <= i < |ids| :: ids[i] in jobs
    ensures JobCosts(ids, jobs[j := row])
         == JobCosts(ids, jobs) + (if j in ids then JobCost(row) - JobCost(jobs[j]) else 0)
  {
    if ids != [] {
      var n := |ids| - 1;
      JobCostsUpdate(ids[..n], jobs, j, row);
      assert j in ids <==> j in ids[..n] || j == ids[n];
    }
  }

  lemma {:induction false} PhaseCostsUpdate(ws: seq<WorkerId>, phases: map<WorkerId, Phase>, w: WorkerId, p: Phase)
    requires Distinct(ws) && forall i | 0 <= i < |ws| :: ws[i] in phases
    ensures PhaseCosts(ws, phases[w := p])
         == PhaseCosts(ws, phases) + (if w in ws then PhaseCost(p) - PhaseCost(phases[w]) else 0)
  {
    if ws != [] {
      var n := |ws| - 1;
      PhaseCostsUpdate(ws[..n], phases, w, p);
      assert w in ws <==> w in ws[..n] || w == ws[n];
    }
  }

  lemma {:induction false} SumMaxFrame(ids: seq<JobId>, jobs: map<JobId, Job>, jobs': map<JobId, Job>)
    requires forall i | 0 <= i < |ids| ::
      ids[i] in jobs && ids[i] in jobs' && jobs[ids[i]].maxAttempts == jobs'[ids[i]].maxAttempts
    ensures Atomic.SumMaxAttempts(ids, jobs) == Atomic.SumMaxAttempts(ids, jobs')
  {
    if ids != [] {
      SumMaxFrame(ids[..|ids| - 1], jobs, jobs');
    }
  }

  lemma {:induction false} JobCostsAreNatural(ids: seq<JobId>, jobs: map<JobId, Job>)
    requires forall i | 0 <= i < |ids| :: ids[i] in jobs && jobs[ids[i]].attempts <= jobs[ids[i]].maxAttempts
    ensures JobCosts(ids, jobs) >= 0
  {
    if ids != [] {
      JobCostsAreNatural(ids[..|ids| - 1], jobs);
    }
  }

  lemma {:induction false} IdleCosts(ws: seq<WorkerId>, phases: map<WorkerId, Phase>)
    requires forall i | 0 <= i < |ws| :: ws[i] in phases && phases[ws[i]].Idle?
    ensures PhaseCosts(ws, phases) == 0
  {
    if ws != [] {
      IdleCosts(ws[..|ws| - 1], phases);
    }
  }

  lemma {:induction false} Enumerate(all: set<WorkerId>) returns (ws: seq<WorkerId>)
    ensures Lists(ws, all)
    decreases |all|
  {
    ws := [];
    if w :| w in all {
      var rest := Enumerate(all - {w});
      ws := rest + [w];
    }
  }

  // ---------------------------------------------------------------- one action

  /** `ws` lists the workers. */
  ghost predicate Counts(s: System, ws: seq<WorkerId>) {
    Lists(ws, s.phases.Keys) && Lists(s.enqueued, s.db.jobs.Keys)
  }

  ghost function Potential(s: System, ws: seq<WorkerId>): int
    requires Counts(s, ws)
  {
    JobCosts(s.enqueued, s.db.jobs) + PhaseCosts(ws, s.phases)
  }

  ghost function Budget(s: System, ws: seq<WorkerId>): nat
    requires Counts(s, ws)
  {
    |s.enqueued| + 5 * Atomic.SumMaxAttempts(s.enqueued, s.db.jobs)
  }

  /** An action on the job row j and the worker w. */
  lemma UpdateCosts(s: System, s': System, ws: seq<WorkerId>, j: JobId, row: Job, w: WorkerId, p: Phase)
    requires Counts(s, ws) && j in s.db.jobs && w in s.phases && row.maxAttempts == s.db.jobs[j].maxAttempts
    requires s'.db.jobs == s.db.jobs[j := row] && s'.phases == s.phases[w := p] && s'.enqueued == s.enqueued
    ensures Counts(s', ws) && Budget(s', ws) == Budget(s, ws)
    ensures Potential(s', ws)
         == Potential(s, ws) + JobCost(row) - JobCost(s.db.jobs[j]) + PhaseCost(p) - PhaseCost(s.phases[w])
  {
    JobCostsUpdate(s.enqueued, s.db.jobs, j, row);
    PhaseCostsUpdate(ws, s.phases, w, p);
    SumMaxFrame(s.enqueued, s.db.jobs, s'.db.jobs);
  }

  lemma UploadCosts(s: System, a: Action, ws: seq<WorkerId>)
    requires Counts(s, ws) && CanDo(s, a) && a.Upload?
    ensures Counts(Do(s, a), ws)
    ensures Potential(Do(s, a), ws) == Potential(s, ws) + 5 * a.maxAttempts
    ensures Budget(Do(s, a), ws) == Budget(s, ws) + 1 + 5 * a.maxAttempts
  {
    var s' := Do(s, a);
    assert s'.enqueued[..|s'.enqueued| - 1] == s.enqueued;
    JobCostsUpdate(s.enqueued, s.db.jobs, a.job, s'.db.jobs[a.job]);
    SumMaxFrame(s.enqueued, s.db.jobs, s'.db.jobs);
  }

  /** A reset gives up the claim that it undoes. */
  lemma ResetCosts(s: System, a: Action, ws: seq<WorkerId>)
    requires Counts(s, ws) && CanDo(s, a) && a.ResetStale?
    ensures Counts(Do(s, a), ws) && Budget(Do(s, a), ws) == Budget(s, ws)
    ensures Potential(Do(s, a), ws) < Potential(s, ws)
  {
    JobCostsUpdate(s.enqueued, s.db.jobs, a.job, ResetRow(s.db.jobs[a.job]));
    SumMaxFrame(s.enqueued, s.db.jobs, Do(s, a).db.jobs);
  }

  /** Claim, mark_running, commit, failure, crash: the worker comes closer to being idle. */
  lemma WorkerCosts(s: System, a: Action, ws: seq<WorkerId>)
    requires Counts(s, ws) && CanDo(s, a) && !a.Upload? && !a.ResetStale?
    requires a.ClaimNext? || s.phases[a.worker].token.job in s.db.jobs
    requires a.Commit? ==> s.phases[a.worker].row.maxAttempts == s.db.jobs[s.phases[a.worker].token.job].maxAttempts
    requires a.Commit? ==> s.phases[a.worker].row.attempts == s.db.jobs[s.phases[a.worker].token.job].attempts
    ensures Counts(Do(s, a), ws) && Budget(Do(s, a), ws) == Budget(s, ws)
    ensures Potential(Do(s, a), ws) < Potential(s, ws)
  {
    var s', w := Do(s, a), a.worker;
    var j := if a.ClaimNext? then a.job else s.phases[w].token.job;
    assert s.db.jobs[j := s'.db.jobs[j]] == s'.db.jobs;
    UpdateCosts(s, s', ws, j, s'.db.jobs[j], w, s'.phases[w]);
  }

  lemma StepCosts(s: System, a: Action, ws: seq<WorkerId>)
    requires LockInv(s) && Atomic.Inv(Abstract(s)) && Counts(s, ws) && CanDo(s, a)
    ensures Counts(Do(s, a), ws)
    ensures Potential(Do(s, a), ws) - Budget(Do(s, a), ws) < Potential(s, ws) - Budget(s, ws)
  {
    if a.Upload? {
      UploadCosts(s, a, ws);
    } else if a.ResetStale? {
      ResetCosts(s, a, ws);
    } else {
      if !a.ClaimNext? {
        assert Atomic.Holds(Abstract(s), a.worker);
        assert Atomic.TokenOk(s.db, s.phases[a.worker].token);
      }
      WorkerCosts(s, a, ws);
    }
  }

  // ---------------------------------------------------------------- whole runs

  lemma {:induction false} RunCosts(s: System, acts: seq<Action>, ws: seq<WorkerId>)
    requires LockInv(s) && Atomic.Inv(Abstract(s)) && Counts(s, ws) && Run(s, acts)
    ensures Counts(Final(s, acts), ws)
    ensures |acts| + Potential(Final(s, acts), ws) - Budget(Final(s, acts), ws) <= Potential(s, ws) - Budget(s, ws)
    decreases |acts|
  {
    if acts != [] {
      StepCosts(s, acts[0], ws);
      StepLock(s, acts[0]);
      StepRefines(s, acts[0]);
      if Image(s, acts[0]) != [] {
        Atomic.StepInv(Abstract(s), Image(s, acts[0])[0]);
      }
      RunCosts(Do(s, acts[0]), acts[1..], ws);
    }
  }

  lemma InitCosts(s: System, ws: seq<WorkerId>)
    requires Init(s) && Counts(s, ws)
    ensures Potential(s, ws) == 0 && Budget(s, ws) == 0
  {
    forall i | 0 <= i < |ws| ensures ws[i] in s.phases && s.phases[ws[i]].Idle? {
      var w := ws[i];
      assert w in s.phases.Keys;
      assert s.phases[w].Idle?;
    }
    IdleCosts(ws, s.phases);
  }

  /**
   Whatever the workers do, with resets and crashes, a run has at most one action for each upload
   and five for each attempt that the jobs allow. So the queue always comes to rest.
   */
  lemma RunsAreBounded(s: System, acts: seq<Action>)
    requires Init(s) && Run(s, acts)
    ensures forall i | 0 <= i < |Final(s, acts).enqueued| :: Final(s, acts).enqueued[i] in Final(s, acts).db.jobs
    ensures var ids, jobs := Final(s, acts).enqueued, Final(s, acts).db.jobs;
      |acts| <= |ids| + 5 * Atomic.SumMaxAttempts(ids, jobs)
  {
    var s' := Final(s, acts);
    var ws := Enumerate(s.phases.Keys);
    Atomic.InitInv(Abstract(s));
    RunCosts(s, acts, ws);
    InitCosts(s, ws);
    RunFromInit(s, acts);
    forall i | 0 <= i < |s'.enqueued|
      ensures s'.db.jobs[s'.enqueued[i]].attempts <= s'.db.jobs[s'.enqueued[i]].maxAttempts
    {
      assert s'.enqueued[i] in s'.enqueued;
      assert Atomic.RowInv(Abstract(s'), s'.enqueued[i]);
    }
    JobCostsAreNatural(s'.enqueued, s'.db.jobs);
  }
}
