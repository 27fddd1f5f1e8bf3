/**
 The atomic queue: what the workers of src/ingestion/worker.py amount to once row locks and
 transactions are forgotten. A worker holds at most one token, and completing a job is one
 compare-and-swap on (job, version). WorkerProtocol shows that every interleaving of the real
 steps is a run of this queue. The invariant of its runs is proved here, their laws in QueueLaws.

 `enqueued`, `issued`, `commits` and `buried` record the past and are never read by a step.
 */
module AtomicQueue {
  import opened Common
  import opened JobTables

  datatype Slot =
    | Empty
    | Holding(token: Token)  // may still complete the job
    | Raised(token: Token)   // has raised: fail_job is all that is left

  datatype Commit = Commit(token: Token, contents: seq<string>)

  datatype Queue = Queue(
    db: Db,
    slots: map<WorkerId, Slot>,
    enqueued: seq<JobId>,
    issued: seq<Token>,
    commits: seq<Commit>,
    buried: set<JobId>)

  datatype Event =
    | Enqueue(job: JobId, doc: DocId, maxAttempts: nat, createdAt: Time)
    | Reset(job: JobId, cutoff: Time)
    | Claim(worker: WorkerId, job: JobId, now: Time)
    | Complete(worker: WorkerId, contents: seq<string>, acknowledged: bool)
    | LoseRace(worker: WorkerId)
    | Abort(worker: WorkerId)
    | Fail(worker: WorkerId)
    | Drop(worker: WorkerId)

  // ---------------------------------------------------------------- one step

  predicate Holds(q: Queue, w: WorkerId) {
    w in q.slots && !q.slots[w].Empty?
  }

  predicate Enabled(q: Queue, e: Event) {
    match e
    case Enqueue(j, d, _, _) => j !in q.db.jobs && d !in q.db.docs
    case Reset(j, cutoff) => j in q.db.jobs && IsStale(q.db.jobs[j], cutoff)
    case Claim(w, j, _) => w in q.slots && q.slots[w].Empty? && j in q.db.jobs && Claimable(q.db.jobs[j])
    case Complete(w, _, _) => w in q.slots && q.slots[w].Holding? &&
      VersionMatches(q.db, q.slots[w].token.job, q.slots[w].token.version)
    case LoseRace(w) => w in q.slots && q.slots[w].Holding? &&
      !VersionMatches(q.db, q.slots[w].token.job, q.slots[w].token.version)
    case Abort(w) => w in q.slots && q.slots[w].Holding?
    case Fail(w) => w in q.slots && q.slots[w].Raised?
    case Drop(w) => Holds(q, w)
  }

  /** The compare-and-swap: one write to the job row, the document row and the chunks. */
  function Swap(db: Db, t: Token, contents: seq<string>): Db
    requires VersionMatches(db, t.job, t.version)
  {
    Db(db.jobs[t.job := db.jobs[t.job].(status := Completed, version := t.version + 1)],
       if t.doc in db.docs then db.docs[t.doc := Doc(Ready, |contents|)] else db.docs,
       db.chunks + Rows(t.doc, contents))
  }

  function Apply(q: Queue, e: Event): Queue
    requires Enabled(q, e)
  {
    match e
    case Enqueue(j, d, m, created) =>
      q.(db := q.db.(jobs := q.db.jobs[j := Job(d, Queued, 0, m, 1, None, None, created)],
                     docs := q.db.docs[d := Doc(Pending, 0)]),
         enqueued := q.enqueued + [j])
    case Reset(j, _) =>
      q.(db := q.db.(jobs := q.db.jobs[j := ResetRow(q.db.jobs[j])]))
    case Claim(w, j, now) =>
      var row := ClaimRow(q.db.jobs[j], w, now);
      q.(db := q.db.(jobs := q.db.jobs[j := row]),
         slots := q.slots[w := Holding(TokenOf(j, row))],
         issued := q.issued + [TokenOf(j, row)])
    case Complete(w, contents, acknowledged) =>
      var t := q.slots[w].token;
      q.(db := Swap(q.db, t, contents),
         slots := q.slots[w := if acknowledged then Empty else Raised(t)],
         commits := q.commits + [Commit(t, contents)])
    case LoseRace(w) => q.(slots := q.slots[w := Empty])
    case Abort(w) => q.(slots := q.slots[w := Raised(q.slots[w].token)])
    case Fail(w) =>
      var t := q.slots[w].token;
      q.(db := FailJob(q.db, t.job, t.doc, t.attempt, t.maxAttempts),
         slots := q.slots[w := Empty],
         buried := if t.attempt >= t.maxAttempts then q.buried + {t.job} else q.buried)
    case Drop(w) => q.(slots := q.slots[w := Empty])
  }

  // ---------------------------------------------------------------- runs

  ghost predicate Legal(q: Queue, es: seq<Event>)
    decreases |es|
  {
    es == [] || (Enabled(q, es[0]) && Legal(Apply(q, es[0]), es[1..]))
  }

  ghost function After(q: Queue, es: seq<Event>): Queue
    requires Legal(q, es)
    decreases |es|
  {
    if es == [] then q else After(Apply(q, es[0]), es[1..])
  }

  ghost predicate Init(q: Queue) {
    && q.db == Db(map[], map[], [])
    && (forall w | w in q.slots :: q.slots[w].Empty?)
    && q.enqueued == [] && q.issued == [] && q.commits == [] && q.buried == {}
  }

  // ---------------------------------------------------------------- counting the past

  function Claims(issued: seq<Token>, j: JobId): nat {
    if issued == [] then 0
    else Claims(issued[..|issued| - 1], j) + (if issued[|issued| - 1].job == j then 1 else 0)
  }

  function Completions(commits: seq<Commit>, j: JobId): nat {
    if commits == [] then 0
    else Completions(commits[..|commits| - 1], j) + (if commits[|commits| - 1].token.job == j then 1 else 0)
  }

  /** Every row ever written for a job, in order. */
  function Written(commits: seq<Commit>, j: JobId): seq<ChunkRow> {
    if commits == [] then []
    else
      var c := commits[|commits| - 1];
      Written(commits[..|commits| - 1], j) + (if c.token.job == j then Rows(c.token.doc, c.contents) else [])
  }

  /** The number of rows the last commit of a job wrote. */
  function LastSize(commits: seq<Commit>, j: JobId): nat {
    if commits == [] then 0
    else if commits[|commits| - 1].token.job == j then |commits[|commits| - 1].contents|
    else LastSize(commits[..|commits| - 1], j)
  }

  function RowsOf(chunks: seq<ChunkRow>, d: DocId): seq<ChunkRow> {
    if chunks == [] then []
    else RowsOf(chunks[..|chunks| - 1], d) + (if chunks[|chunks| - 1].doc == d then [chunks[|chunks| - 1]] else [])
  }

  function SumAttempts(ids: seq<JobId>, jobs: map<JobId, Job>): nat
    requires forall i | 0 <= i < |ids| :: ids[i] in jobs
  {
    if ids == [] then 0 else SumAttempts(ids[..|ids| - 1], jobs) + jobs[ids[|ids| - 1]].attempts
  }

  function SumMaxAttempts(ids: seq<JobId>, jobs: map<JobId, Job>): nat
    requires forall i | 0 <= i < |ids| :: ids[i] in jobs
  {
    if ids == [] then 0 else SumMaxAttempts(ids[..|ids| - 1], jobs) + jobs[ids[|ids| - 1]].maxAttempts
  }

  lemma {:induction false} RowsOfAppend(a: seq<ChunkRow>, b: seq<ChunkRow>, d: DocId)
    ensures RowsOf(a + b, d) == RowsOf(a, d) + RowsOf(b, d)
    decreases |b|
  {
    if b == [] {
      assert a + b == a;
    } else {
      assert (a + b)[..|a + b| - 1] == a + b[..|b| - 1];
      RowsOfAppend(a, b[..|b| - 1], d);
    }
  }

  lemma {:induction false} RowsOfOneDoc(rows: seq<ChunkRow>, e: DocId, d: DocId)
    requires forall i | 0 <= i < |rows| :: rows[i].doc == e
    ensures RowsOf(rows, d) == if e == d then rows else []
    decreases |rows|
  {
    if rows != [] {
      var n := |rows| - 1;
      RowsOfOneDoc(rows[..n], e, d);
      assert rows == rows[..n] + [rows[n]];
    }
  }

  lemma {:induction false} SumAttemptsFrame(ids: seq<JobId>, jobs: map<JobId, Job>, jobs': map<JobId, Job>)
    requires forall i | 0 <= i < |ids| ::
      ids[i] in jobs && ids[i] in jobs' && jobs[ids[i]].attempts == jobs'[ids[i]].attempts
    ensures SumAttempts(ids, jobs) == SumAttempts(ids, jobs')
  {
    if ids != [] {
      SumAttemptsFrame(ids[..|ids| - 1], jobs, jobs');
    }
  }

  lemma {:induction false} SumAttemptsBump(ids: seq<JobId>, jobs: map<JobId, Job>, j: JobId, row: Job)
    requires forall i | 0 <= i < |ids| :: ids[i] in jobs
    requires forall i, k | 0 <= i < k < |ids| :: ids[i] != ids[k]
    requires j in ids && row.attempts == jobs[j].attempts + 1
    ensures SumAttempts(ids, jobs[j := row]) == SumAttempts(ids, jobs) + 1
  {
    var n := |ids| - 1;
    if ids[n] == j {
      SumAttemptsFrame(ids[..n], jobs, jobs[j := row]);
    } else {
      assert j in ids[..n];
      SumAttemptsBump(ids[..n], jobs, j, row);
    }
  }

  lemma {:induction false} SumAttemptsAtMost(ids: seq<JobId>, jobs: map<JobId, Job>)
    requires forall i | 0 <= i < |ids| :: ids[i] in jobs && jobs[ids[i]].attempts <= jobs[ids[i]].maxAttempts
    ensures SumAttempts(ids, jobs) <= SumMaxAttempts(ids, jobs)
  {
    if ids != [] {
      SumAttemptsAtMost(ids[..|ids| - 1], jobs);
    }
  }

  // ---------------------------------------------------------------- the invariant

  /** A token names a claim of its job, and only the newest one while its version is current. */
  ghost predicate TokenOk(db: Db, t: Token) {
    && t.job in db.jobs
    && var row := db.jobs[t.job];
    && t.doc == row.doc && t.maxAttempts == row.maxAttempts
    && 1 <= t.attempt <= row.attempts
    && t.version <= row.version
    && (t.version == row.version ==> t.attempt == row.attempts && row.status != Completed)
  }

  /** Later claims of a job carry larger versions and attempt counts. */
  ghost predicate Increasing(issued: seq<Token>) {
    forall i, k | 0 <= i < k < |issued| && issued[i].job == issued[k].job ::
      issued[i].version < issued[k].version && issued[i].attempt < issued[k].attempt
  }

  ghost predicate TokensInv(q: Queue) {
    && (forall t | t in q.issued :: TokenOk(q.db, t))
    && Increasing(q.issued)
    && (forall w | Holds(q, w) :: q.slots[w].token in q.issued)
    && (forall w, v | Holds(q, w) && Holds(q, v) && w != v :: q.slots[w].token != q.slots[v].token)
  }

  /** A commit has made its token's version a past one. */
  ghost predicate CommitOk(q: Queue, c: Commit) {
    c.token in q.issued && c.token.job in q.db.jobs && c.token.version < q.db.jobs[c.token.job].version
  }

  ghost predicate CommitsInv(q: Queue) {
    && (forall c | c in q.commits :: CommitOk(q, c))
    && (forall i, k | 0 <= i < k < |q.commits| && q.commits[i].token.job == q.commits[k].token.job ::
          q.commits[i].token.version < q.commits[k].token.version)
  }

  /** The version counts claims and completions, and attempts are claims within the limit. */
  ghost predicate RowCounts(row: Job, claims: nat, completions: nat) {
    && row.version == 1 + row.attempts + completions
    && row.attempts == claims
    && row.attempts <= row.maxAttempts
    && row.status in {Queued, Claimed, Completed, Dead}
  }

  ghost predicate RowInv(q: Queue, j: JobId)
    requires j in q.db.jobs
  {
    RowCounts(q.db.jobs[j], Claims(q.issued, j), Completions(q.commits, j))
  }

  ghost predicate CountersInv(q: Queue) {
    && (forall j | j in q.db.jobs :: RowInv(q, j))
    && (forall j :: j in q.enqueued <==> j in q.db.jobs)
    && (forall i, k | 0 <= i < k < |q.enqueued| :: q.enqueued[i] != q.enqueued[k])
    && |q.issued| == SumAttempts(q.enqueued, q.db.jobs)
  }

  ghost predicate BuriedInv(q: Queue) {
    && (forall j | j in q.db.jobs && q.db.jobs[j].status == Dead :: j in q.buried)
    && (forall j | j in q.buried :: j in q.db.jobs && q.db.jobs[j].attempts == q.db.jobs[j].maxAttempts)
    && (forall w | w in q.slots && q.slots[w].Holding? && q.slots[w].token.job in q.buried ::
          !VersionMatches(q.db, q.slots[w].token.job, q.slots[w].token.version))
  }

  ghost predicate DocInv(q: Queue, j: JobId)
    requires j in q.db.jobs
  {
    var d := q.db.jobs[j].doc;
    && d in q.db.docs
    && q.db.docs[d].chunkCount == LastSize(q.commits, j)
    && RowsOf(q.db.chunks, d) == Written(q.commits, j)
  }

  ghost predicate DocsInv(q: Queue) {
    && (forall j | j in q.db.jobs :: DocInv(q, j))
    && (forall i, j | i in q.db.jobs && j in q.db.jobs && i != j :: q.db.jobs[i].doc != q.db.jobs[j].doc)
    && (forall i | 0 <= i < |q.db.chunks| :: q.db.chunks[i].doc in q.db.docs)
  }

  ghost predicate Inv(q: Queue) {
    TokensInv(q) && CommitsInv(q) && CountersInv(q) && BuriedInv(q) && DocsInv(q)
  }

  lemma NewTokenIsNewest(q: Queue, w: WorkerId, j: JobId, now: Time)
    requires TokensInv(q) && Enabled(q, Claim(w, j, now))
    ensures Increasing(Apply(q, Claim(w, j, now)).issued)
  {
    var issued := Apply(q, Claim(w, j, now)).issued;
    forall i, k | 0 <= i < k < |issued| && issued[i].job == issued[k].job
      ensures issued[i].version < issued[k].version && issued[i].attempt < issued[k].attempt
    {
      assert issued[i] == q.issued[i] && q.issued[i] in q.issued;
    }
  }

  lemma StepToken(q: Queue, e: Event, t: Token)
    requires Enabled(q, e) && t in Apply(q, e).issued
    requires t in q.issued ==> TokenOk(q.db, t)
    ensures TokenOk(Apply(q, e).db, t)
  {
  }

  lemma StepHolders(q: Queue, e: Event, w: WorkerId, v: WorkerId)
    requires Enabled(q, e) && Holds(Apply(q, e), w) && Holds(Apply(q, e), v) && w != v
    requires Holds(q, w) ==> TokenOk(q.db, q.slots[w].token)
    requires Holds(q, v) ==> TokenOk(q.db, q.slots[v].token)
    requires Holds(q, w) && Holds(q, v) ==> q.slots[w].token != q.slots[v].token
    ensures Apply(q, e).slots[w].token != Apply(q, e).slots[v].token
  {
  }

  lemma StepTokens(q: Queue, e: Event)
    requires TokensInv(q) && Enabled(q, e)
    ensures TokensInv(Apply(q, e))
  {
    var q' := Apply(q, e);
    forall t | t in q'.issued ensures TokenOk(q'.db, t) {
      StepToken(q, e, t);
    }
    if e.Claim? {
      NewTokenIsNewest(q, e.worker, e.job, e.now);
    }
    forall w | Holds(q', w) ensures q'.slots[w].token in q'.issued {
      assert Holds(q, w) ==> q.slots[w].token in q.issued;
    }
    forall w, v | Holds(q', w) && Holds(q', v) && w != v ensures q'.slots[w].token != q'.slots[v].token {
      StepHolders(q, e, w, v);
    }
  }

  lemma StepCommit(q: Queue, e: Event, c: Commit)
    requires Enabled(q, e) && TokenOk(q.db, c.token) && c.token in q.issued
    requires CommitOk(q, c) || (e.Complete? && c.token == q.slots[e.worker].token)
    ensures CommitOk(Apply(q, e), c)
  {
  }

  lemma StepCommits(q: Queue, e: Event)
    requires TokensInv(q) && CommitsInv(q) && Enabled(q, e)
    ensures CommitsInv(Apply(q, e))
  {
    var q' := Apply(q, e);
    forall c | c in q'.commits ensures CommitOk(q', c) {
      assert c in q.commits || (e.Complete? && Holds(q, e.worker) && c.token == q.slots[e.worker].token);
      StepCommit(q, e, c);
    }
    if e.Complete? {
      forall i, k | 0 <= i < k < |q'.commits| && q'.commits[i].token.job == q'.commits[k].token.job
        ensures q'.commits[i].token.version < q'.commits[k].token.version
      {
        assert q'.commits[i] == q.commits[i] && q.commits[i] in q.commits && CommitOk(q, q.commits[i]);
      }
    }
  }

  lemma {:induction false} NoClaims(issued: seq<Token>, j: JobId)
    requires forall t | t in issued :: t.job != j
    ensures Claims(issued, j) == 0
  {
    if issued != [] {
      NoClaims(issued[..|issued| - 1], j);
    }
  }

  lemma {:induction false} NoCommits(commits: seq<Commit>, j: JobId)
    requires forall c | c in commits :: c.token.job != j
    ensures Completions(commits, j) == 0 && Written(commits, j) == [] && LastSize(commits, j) == 0
  {
    if commits != [] {
      NoCommits(commits[..|commits| - 1], j);
    }
  }

  lemma NothingHappenedYet(q: Queue, j: JobId)
    requires TokensInv(q) && CommitsInv(q) && j !in q.db.jobs
    ensures Claims(q.issued, j) == 0 && Completions(q.commits, j) == 0
    ensures Written(q.commits, j) == [] && LastSize(q.commits, j) == 0
  {
    forall t | t in q.issued ensures t.job != j {
      assert TokenOk(q.db, t);
    }
    NoClaims(q.issued, j);
    NoCommits(q.commits, j);
  }

  lemma StepCounts(q: Queue, e: Event, j: JobId)
    requires Enabled(q, e)
    ensures Claims(Apply(q, e).issued, j) == Claims(q.issued, j) + (if e.Claim? && e.job == j then 1 else 0)
    ensures Completions(Apply(q, e).commits, j) ==
            Completions(q.commits, j) + (if e.Complete? && q.slots[e.worker].token.job == j then 1 else 0)
  {
    var q' := Apply(q, e);
    if e.Claim? {
      assert q'.issued[..|q'.issued| - 1] == q.issued;
    }
    if e.Complete? {
      assert q'.commits[..|q'.commits| - 1] == q.commits;
    }
  }

  lemma StepRowCounts(q: Queue, e: Event, j: JobId, claims: nat, completions: nat)
    requires Enabled(q, e) && j in Apply(q, e).db.jobs
    requires if j in q.db.jobs then RowCounts(q.db.jobs[j], claims, completions) else claims == 0 && completions == 0
    ensures RowCounts(Apply(q, e).db.jobs[j], claims + (if e.Claim? && e.job == j then 1 else 0),
                      completions + (if e.Complete? && q.slots[e.worker].token.job == j then 1 else 0))
  {
  }

  lemma StepRow(q: Queue, e: Event, j: JobId)
    requires Enabled(q, e) && j in Apply(q, e).db.jobs
    requires if j in q.db.jobs then RowInv(q, j) else Claims(q.issued, j) == 0 && Completions(q.commits, j) == 0
    ensures RowInv(Apply(q, e), j)
  {
    StepCounts(q, e, j);
    StepRowCounts(q, e, j, Claims(q.issued, j), Completions(q.commits, j));
  }

  lemma StepCounters(q: Queue, e: Event)
    requires TokensInv(q) && CommitsInv(q) && CountersInv(q) && Enabled(q, e)
    ensures CountersInv(Apply(q, e))
  {
    var q' := Apply(q, e);
    forall j | j in q'.db.jobs ensures RowInv(q', j) {
      if j !in q.db.jobs {
        NothingHappenedYet(q, j);
      }
      StepRow(q, e, j);
    }
    StepSum(q, e);
  }

  lemma StepSum(q: Queue, e: Event)
    requires Enabled(q, e)
    requires forall i | 0 <= i < |q.enqueued| :: q.enqueued[i] in q.db.jobs
    requires forall j | j in q.db.jobs :: j in q.enqueued
    requires forall i, k | 0 <= i < k < |q.enqueued| :: q.enqueued[i] != q.enqueued[k]
    requires |q.issued| == SumAttempts(q.enqueued, q.db.jobs)
    ensures forall i | 0 <= i < |Apply(q, e).enqueued| :: Apply(q, e).enqueued[i] in Apply(q, e).db.jobs
    ensures |Apply(q, e).issued| == SumAttempts(Apply(q, e).enqueued, Apply(q, e).db.jobs)
  {
    var q' := Apply(q, e);
    if e.Claim? {
      SumAttemptsBump(q.enqueued, q.db.jobs, e.job, q'.db.jobs[e.job]);
    } else {
      SumAttemptsFrame(q.enqueued, q.db.jobs, q'.db.jobs);
      if e.Enqueue? {
        assert q'.enqueued[..|q'.enqueued| - 1] == q.enqueued;
      }
    }
  }

  /** Two tokens of one job with the same attempt number are the same token. */
  lemma AttemptIdentifiesToken(q: Queue, t: Token, u: Token)
    requires Increasing(q.issued) && t in q.issued && u in q.issued
    requires t.job == u.job && t.attempt == u.attempt
    ensures t == u
  {
    var i :| 0 <= i < |q.issued| && q.issued[i] == t;
    var k :| 0 <= k < |q.issued| && q.issued[k] == u;
  }

  /** A token of a buried job is out of date: fail_job only buries a job whose attempts are used up. */
  lemma StepBuriedToken(q: Queue, e: Event, v: WorkerId)
    requires TokensInv(q) && CountersInv(q) && BuriedInv(q) && Enabled(q, e) && e.Fail?
    requires v in q.slots && q.slots[v].Holding? && v != e.worker
    requires q.slots[v].token.job in Apply(q, e).buried
    ensures !VersionMatches(Apply(q, e).db, q.slots[v].token.job, q.slots[v].token.version)
  {
    var t, u := q.slots[e.worker].token, q.slots[v].token;
    assert Holds(q, e.worker) && TokenOk(q.db, t) && RowInv(q, t.job);
    assert Holds(q, v) && TokenOk(q.db, u);
    if u.attempt == t.attempt && u.job == t.job {
      AttemptIdentifiesToken(q, t, u);
    }
  }

  lemma StepBuried(q: Queue, e: Event)
    requires TokensInv(q) && CountersInv(q) && BuriedInv(q) && Enabled(q, e)
    ensures BuriedInv(Apply(q, e))
  {
    var q' := Apply(q, e);
    if e.Fail? {
      var t := q.slots[e.worker].token;
      assert Holds(q, e.worker) && TokenOk(q.db, t) && RowInv(q, t.job);
      forall v | v in q'.slots && q'.slots[v].Holding? && q'.slots[v].token.job in q'.buried
        ensures !VersionMatches(q'.db, q'.slots[v].token.job, q'.slots[v].token.version)
      {
        StepBuriedToken(q, e, v);
      }
    }
  }

  lemma {:induction false} NoRows(chunks: seq<ChunkRow>, d: DocId)
    requires forall i | 0 <= i < |chunks| :: chunks[i].doc != d
    ensures RowsOf(chunks, d) == []
  {
    if chunks != [] {
      NoRows(chunks[..|chunks| - 1], d);
    }
  }

  lemma StepDocComplete(q: Queue, w: WorkerId, contents: seq<string>, acknowledged: bool, j: JobId)
    requires TokensInv(q) && DocsInv(q) && Enabled(q, Complete(w, contents, acknowledged))
    requires j in q.db.jobs
    ensures DocInv(Apply(q, Complete(w, contents, acknowledged)), j)
  {
    var q' := Apply(q, Complete(w, contents, acknowledged));
    var t, d := q.slots[w].token, q.db.jobs[j].doc;
    assert Holds(q, w) && TokenOk(q.db, t);
    assert DocInv(q, j) && DocInv(q, t.job);
    assert q'.commits[..|q'.commits| - 1] == q.commits;
    RowsOfAppend(q.db.chunks, Rows(t.doc, contents), d);
    RowsOfOneDoc(Rows(t.doc, contents), t.doc, d);
    assert RowsOf(q'.db.chunks, d) == Written(q'.commits, j);
  }

  lemma StepDoc(q: Queue, e: Event, j: JobId)
    requires TokensInv(q) && CommitsInv(q) && DocsInv(q) && Enabled(q, e)
    requires j in Apply(q, e).db.jobs
    ensures DocInv(Apply(q, e), j)
  {
    if j !in q.db.jobs {
      NothingHappenedYet(q, j);
      NoRows(q.db.chunks, e.doc);
    } else if e.Complete? {
      StepDocComplete(q, e.worker, e.contents, e.acknowledged, j);
    } else {
      assert DocInv(q, j);
      if e.Fail? {
        assert Holds(q, e.worker) && TokenOk(q.db, q.slots[e.worker].token);
      }
    }
  }

  lemma StepDocsApart(q: Queue, e: Event, i: JobId, j: JobId)
    requires Enabled(q, e) && i in Apply(q, e).db.jobs && j in Apply(q, e).db.jobs && i != j
    requires i in q.db.jobs ==> q.db.jobs[i].doc in q.db.docs
    requires j in q.db.jobs ==> q.db.jobs[j].doc in q.db.docs
    requires i in q.db.jobs && j in q.db.jobs ==> q.db.jobs[i].doc != q.db.jobs[j].doc
    ensures Apply(q, e).db.jobs[i].doc != Apply(q, e).db.jobs[j].doc
  {
  }

  lemma StepChunks(q: Queue, e: Event)
    requires Enabled(q, e)
    requires forall i | 0 <= i < |q.db.chunks| :: q.db.chunks[i].doc in q.db.docs
    requires e.Complete? ==> q.slots[e.worker].token.doc in q.db.docs
    ensures forall i | 0 <= i < |Apply(q, e).db.chunks| :: Apply(q, e).db.chunks[i].doc in Apply(q, e).db.docs
  {
  }

  lemma StepDocs(q: Queue, e: Event)
    requires TokensInv(q) && CommitsInv(q) && DocsInv(q) && Enabled(q, e)
    ensures DocsInv(Apply(q, e))
  {
    var q' := Apply(q, e);
    forall j | j in q'.db.jobs ensures DocInv(q', j) {
      StepDoc(q, e, j);
    }
    forall i, j | i in q'.db.jobs && j in q'.db.jobs && i != j ensures q'.db.jobs[i].doc != q'.db.jobs[j].doc {
      StepDocsApart(q, e, i, j);
    }
    if e.Complete? {
      assert Holds(q, e.worker) && TokenOk(q.db, q.slots[e.worker].token);
      assert DocInv(q, q.slots[e.worker].token.job);
    }
    StepChunks(q, e);
  }

  lemma StepInv(q: Queue, e: Event)
    requires Inv(q) && Enabled(q, e)
    ensures Inv(Apply(q, e))
  {
    StepTokens(q, e);
    StepCommits(q, e);
    StepCounters(q, e);
    StepBuried(q, e);
    StepDocs(q, e);
  }

  // ---------------------------------------------------------------- laws of every run

  lemma {:induction false} RunInv(q: Queue, es: seq<Event>)
    requires Inv(q) && Legal(q, es)
    ensures Inv(After(q, es))
    decreases |es|
  {
    if es != [] {
      StepInv(q, es[0]);
      RunInv(Apply(q, es[0]), es[1..]);
    }
  }

  lemma InitInv(q: Queue)
    requires Init(q)
    ensures Inv(q)
  {
  }
}
