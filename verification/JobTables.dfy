/**
 The rows of `ingestion_jobs`, `documents` and `chunks`, and what each statement of
 src/ingestion/service.py does to them. Locks and transactions are not here: see
 AtomicQueue and WorkerProtocol.
 */
module JobTables {
  import opened Common

  type JobId = int
  type DocId = int
  type WorkerId = int
  type Time = int

  datatype JobStatus = Queued | Claimed | Running | Completed | Failed | Dead

  datatype DocStatus = Pending | Processing | Ready | DocFailed

  datatype Job = Job(
    doc: DocId,
    status: JobStatus,
    attempts: nat,
    maxAttempts: nat,
    version: nat,
    worker: Option<WorkerId>,
    claimedAt: Option<Time>,
    createdAt: Time)

  datatype Doc = Doc(status: DocStatus, chunkCount: nat)

  datatype ChunkRow = ChunkRow(doc: DocId, index: nat, content: string)

  datatype Db = Db(jobs: map<JobId, Job>, docs: map<DocId, Doc>, chunks: seq<ChunkRow>)

  /** What a worker remembers of the row it claimed: the arguments of process_single_job. */
  datatype Token = Token(job: JobId, doc: DocId, version: nat, attempt: nat, maxAttempts: nat)

  // ---------------------------------------------------------------- claim_next_job

  predicate IsStale(job: Job, cutoff: Time) {
    job.status == Claimed && job.claimedAt.Some? && job.claimedAt.value < cutoff
  }

  /** The stale reset of one row. It leaves `version` alone. */
  function ResetRow(job: Job): Job {
    job.(status := Queued, worker := None, claimedAt := None)
  }

  function ResetStale(jobs: map<JobId, Job>, cutoff: Time): map<JobId, Job> {
    map id | id in jobs :: if IsStale(jobs[id], cutoff) then ResetRow(jobs[id]) else jobs[id]
  }

  predicate Claimable(job: Job) {
    job.status == Queued && job.attempts < job.maxAttempts
  }

  /** SKIP LOCKED with ORDER BY created_at: no row outside `busy` is claimable and older. */
  predicate IsNext(jobs: map<JobId, Job>, busy: set<JobId>, id: JobId) {
    && id in jobs
    && id !in busy
    && Claimable(jobs[id])
    && forall k | k in jobs.Keys - busy :: Claimable(jobs[k]) ==> jobs[id].createdAt <= jobs[k].createdAt
  }

  function ClaimRow(job: Job, worker: WorkerId, now: Time): Job {
    job.(status := Claimed, worker := Some(worker), claimedAt := Some(now),
         attempts := job.attempts + 1, version := job.version + 1)
  }

  function TokenOf(id: JobId, job: Job): Token {
    Token(id, job.doc, job.version, job.attempts, job.maxAttempts)
  }

  // ---------------------------------------------------------------- mark_running

  /** WHERE id = :id AND version = :version, and nothing about the status. */
  predicate VersionMatches(db: Db, id: JobId, version: nat) {
    id in db.jobs && db.jobs[id].version == version
  }

  function MarkRunning(db: Db, id: JobId, version: nat): Db {
    if VersionMatches(db, id, version) then
      db.(jobs := db.jobs[id := db.jobs[id].(status := Running, version := version + 1)])
    else
      db
  }

  // ---------------------------------------------------------------- complete_job

  /** The rows built from the pipeline's output: the i-th content gets chunk_index i. */
  function Rows(doc: DocId, contents: seq<string>): seq<ChunkRow> {
    seq(|contents|, i requires 0 <= i < |contents| => ChunkRow(doc, i, contents[i]))
  }

  /** No test of the job's version or status. */
  function CompleteJob(db: Db, id: JobId, doc: DocId, contents: seq<string>): Db {
    Db(if id in db.jobs then db.jobs[id := db.jobs[id].(status := Completed)] else db.jobs,
       if doc in db.docs then db.docs[doc := Doc(Ready, |contents|)] else db.docs,
       db.chunks + Rows(doc, contents))
  }

  // ---------------------------------------------------------------- fail_job

  /** The status is decided by the caller's attempt_count, not by the row's; no version test. */
  function FailJob(db: Db, id: JobId, doc: DocId, attempt: nat, maxAttempts: nat): Db {
    if attempt >= maxAttempts then
      Db(if id in db.jobs then db.jobs[id := db.jobs[id].(status := Dead)] else db.jobs,
         if doc in db.docs then db.docs[doc := db.docs[doc].(status := DocFailed)] else db.docs,
         db.chunks)
    else
      db.(jobs := if id in db.jobs then db.jobs[id := ResetRow(db.jobs[id])] else db.jobs)
  }
}
