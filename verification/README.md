# Verified model of the document service

A Dafny model of the parts of the service that keep state or compute something subtle: the
ingestion job queue, upload deduplication, the circuit breaker, the rate limiter, organizations
and their invitations, the two chunkers, rank fusion and keyset pagination. `dafny verify
dfyconfig.toml` checks all of it.

## How it is organized

- `JobTables`, `JobStore`: the rows of the job, document and chunk tables and the statements of
  `src/ingestion/service.py`, as functions on the tables and as methods of a class.
- `WorkerProtocol`: any number of workers as interleaved steps, with row locks, open
  transactions, stale resets and crashes. `AtomicQueue`: a queue without locks in which completing
  a job is one compare-and-swap. Every run of the first is a run of the second
  (`WorkerProtocol.RunRefines`), and the laws are proved of the latter in `QueueLaws`.
  `RowLaws`, `WorkerRows`: what the rows of jobs and documents say in every run. `WorkerBounds`: every
  run is finite.
- `Worker`: `process_single_job` and `run_worker` as one process executes them while no other worker
  moves. The class records the protocol actions it performs, which shows that this code follows the
  protocol; the laws for several workers are those of the protocol.
- `UploadTables`, `UploadProtocol`, `DocumentStore`: the same division for uploads and soft deletes:
  tables, all interleavings of requests that may die at any point, and the code of one request. The
  laws of the interleavings are in `UploadStorage` (files and orphans), `UploadAgreement` (one answer
  for one upload) and `UploadConflicts` (ConflictError); `UploadRuns` has the runs that show them
  sharp.
- `CircuitBreaker`, `RateLimiter`, `Tenants`: a transition function, the laws of all its runs, and
  a class that is proved to follow it.
- `Texts`, `RecursiveChunker`, `ChunkerLaws`, `SemanticChunker`, `Pipeline`: the string functions,
  the two chunkers with their loops, and what they guarantee.
  `ChunkerExamples`: texts that reach the bounds. `SemanticText`: what becomes of the text of the
  sentences.
- `Fusion`: the dictionary loops of rank fusion, against a declarative ranking.
- `Paging`: pages over a table that may change between requests.

PostgreSQL is assumed to give READ COMMITTED, row locks until the end of the transaction, SKIP
LOCKED, the declared constraints, and rollback. Clocks, fresh ids, outcomes of storage and
embedding calls are parameters. Floats are exact reals.

## Where the code differs from what it says

- `mark_running` says "from 'claimed'", but compares only the version
  (`src/ingestion/service.py:94-106`). `WorkerProtocol.CommitIsFenced` shows that this is enough.
- `running` and `failed` are allowed job statuses (`src/ingestion/models.py:146`), yet no committed
  row ever has one of them (`WorkerProtocol.CounterLaw`).
- `fail_job` and `complete_job` do not look at the version. A late `fail_job` can requeue a job
  that another worker has completed, which duplicates its chunks:
  `WorkerProtocol.LateFailDuplicatesChunks`. Completed is final exactly in the runs where no
  `fail_job` overwrites a completed row (`CompletedIsFinalIff`). The chunk counts are right exactly
  in the runs where every commit finds its document without rows (`IngestedIff`), which include
  the former.
- A stale reset of a job in its last attempt leaves it queued although no claim accepts it
  (`WorkerProtocol.ResetStrandsJob`, `StrandedStays`). `ClaimableIff` says which steps do this.
- `HALF_OPEN` promises one probe (`src/evaluation/llm_gateway.py:105`); every caller is let through
  until an outcome is recorded (`CircuitBreakers.HalfOpenAdmitsEveryone`). `SecondProbeIff` says when
  a second one is refused.
- Deduplication promises one answer for one file and key. It depends on the other uploads: if the
  content is also uploaded under another key and the key also used for another content, the same
  request can be answered differently (`UploadAgreement.AgreementIff`, `CrossingDisagrees`).
- A soft delete removes the object before its transaction commits
  (`src/documents/service.py:278-300`), so a rollback leaves a live document without a file:
  `UploadRuns.RolledBackDeleteLosesFile`. `UploadStorage.FilesKeptIff` shows that nothing else does.
- The content constraint covers soft-deleted rows (`src/documents/models.py:88-90`), the look-ups
  do not. So uploading deleted content again under a new key ends in ConflictError, and the old key
  returns the deleted document. `DocumentStores.DocumentStore.UploadDocument` says exactly when for a
  lone request, `UploadConflicts.ConflictIff` for all interleavings.
- An expired invitation should become `expired`, a status the table refuses
  (`src/tenants/service.py:280-283`, `src/tenants/models.py:121-124`). The request fails, the
  invitation stays pending, and its address cannot be invited again: `Tenants.ExpiredInviteIsStuck`.
- `_split` does not clear `current` before it recurses (`src/ingestion/pipeline.py:149-156`), so
  text in front of an oversized part is emitted twice: `ChunkerLaws.OversizedPartRepeats`,
  `ClearingMattersIff`, `ChunkerExamples.WordIsEmittedTwice`.
- `_apply_overlap` speaks of the next chunk's beginning (`src/ingestion/pipeline.py:175`), but every
  separator level appends it once more, also to a text that does not contain the separator: chunks
  of chunk_size + 4 * chunk_overlap occur for every size and overlap (`ChunkerExamples.LongestChunk`).
- The constructor lets a negative `chunk_overlap` through (`src/ingestion/pipeline.py:114`). The hard
  split then skips characters: `ChunkerLaws.HardSplitKeepsCharactersIff`.
- `_split` gives up the separator it cuts at, so where two sentences in one semantic chunk do not fit
  together, the full stop of the first is in no chunk: `ChunkerExamples.FullStopIsLost`. Nothing else of
  a sentence is lost (`SemanticText.SentenceTextIsKept`).
- A text of one sentence is returned whole whatever `max_chunk_size` is
  (`src/ingestion/pipeline.py:221-222`): `SemanticChunking.SemanticChunkSizes` has the condition.
- The design notes call the limiter a sliding window (`final_adr.md:925`); it is a fixed one, and
  an interval of one window can see twice the limit: `RateLimiting.SlidingBoundIsTight`. Whether a
  key is still there at the very instant of its expiry is a parameter of the model; if it is, the
  bound is one lower (`SlidingBound`), and reached in either case by `HalfOpenBoundIsTight`.

## Model

| member | source | states |
|---|---|---|
| JobStores.JobStore.ClaimNextJob | src/ingestion/service.py:25-86 | stale claims are queued again; then the oldest claimable row that is not locked is claimed and its snapshot returned; None only if every claimable row is locked |
| JobStores.OldestExists | src/ingestion/service.py:59-66 | ORDER BY created_at LIMIT 1 has an answer whenever some row is claimable and unlocked |
| JobStores.JobStore.MarkRunning | src/ingestion/service.py:101-113 | writes 'running' and the next version if the version matches, whatever the status; tells whether it did |
| JobStores.JobStore.CompleteJob | src/ingestion/service.py:129-160 | adds one row for each content, numbered from 0, sets chunk_count and both statuses; no version test |
| JobStores.JobStore.FailJob | src/ingestion/service.py:182-212 | the caller's attempt_count decides between dead and queued again; no version test |
| WorkerProtocol.StepLock | src/ingestion/worker.py:66-91 | while a transaction is open its row is still at the version it saw, and no two transactions share a row |
| WorkerProtocol.CommitIsSwap | src/ingestion/worker.py:70-91 | mark_running to commit amounts to one compare-and-swap on (job, version) |
| WorkerProtocol.StepRefines | src/ingestion/worker.py:66-112 | each step is one step of the atomic queue, or none |
| WorkerProtocol.RunRefines | src/ingestion/worker.py:66-112 | every interleaving of any number of workers is a run of the atomic queue |
| WorkerProtocol.TokensAreUnique | src/ingestion/service.py:53-68 | no (job, version) pair is issued twice, and each issued token commits at most once |
| WorkerProtocol.CommitIsFenced | src/ingestion/service.py:101-112 | a transaction that can commit holds its job's newest claim, uncommitted so far, on a job that is not completed |
| WorkerProtocol.SupersededNeverCommits | src/ingestion/service.py:101-112 | once a newer claim of the job exists, the older token commits nothing in any continuation |
| WorkerProtocol.CounterLaw | src/ingestion/service.py:53-62 | version = 1 + attempts + committed completions, attempts = claims <= max_attempts, and committed rows are never running or failed |
| WorkerProtocol.ClaimsAreBounded | src/ingestion/service.py:61-62 | all workers together claim at most the sum of max_attempts |
| WorkerBounds.RunsAreBounded | src/ingestion/worker.py:168-200 | with resets and crashes, a run has at most one action for each upload and five for each attempt allowed, so the queue always comes to rest |
| WorkerBounds.StepCosts | src/ingestion/service.py:40-62 | every action but an upload lowers the potential |
| WorkerProtocol.DrainedJobs | src/ingestion/worker.py:168-200 | with nothing claimed or claimable, a job is completed or has used up its attempts |
| WorkerRows.OldestFirst | src/ingestion/service.py:59-66 | a claim passes over an older claimable job only if its row is locked |
| WorkerRows.ClaimGoesStaleIff | src/ingestion/service.py:40-47 | after a claim at time t a reset of the job is possible iff its cutoff is later than t |
| WorkerRows.ClaimIsKept | src/ingestion/service.py:40-58 | without a reset with a later cutoff and without a fail_job for the job, a claim keeps its worker and time and is not superseded |
| WorkerRows.RowsHaveShape | src/ingestion/service.py:46-58 | in every run a queued job has no worker and no claim time, a claimed one has both, and a job never claimed is queued at version 1 |
| WorkerRows.StatusIsLastVerdict | src/ingestion/service.py:143-198 | in every run a document is ready iff a commit had the last word about it, failed iff a fail_job in the last attempt had it, pending iff neither ever spoke |
| WorkerRows.GivingUpFailsDocument | src/ingestion/service.py:185-198 | the fail_job that makes a job dead leaves its document failed |
| WorkerProtocol.ClaimableIff | src/ingestion/service.py:40-62 | every queued job is claimable at all times iff no step (upload, reset or fail_job) queues a job without attempts left |
| WorkerProtocol.DrainedWithinLimit | src/ingestion/service.py:40-62 | in those runs, stale resets included, a drained queue holds only completed and dead jobs |
| WorkerProtocol.NoResetWithinLimit | src/ingestion/service.py:40-47 | runs without stale resets are among them, if every job may be attempted at least once |
| WorkerProtocol.StrandedStays | src/ingestion/service.py:61-62 | a queued job without attempts or token holders never changes again |
| WorkerProtocol.ResetStrandsJob | src/ingestion/service.py:40-62 | a run with one crash and one stale reset that ends in such a job |
| WorkerProtocol.DeadIsFinal | src/ingestion/service.py:182-198 | a job that was ever dead has attempts = max_attempts, is never claimed again and gains no chunk |
| WorkerProtocol.CompletedIsFinalIff | src/ingestion/service.py:186-210 | completed stays completed in exactly the runs where no fail_job overwrites a completed row |
| WorkerProtocol.InTimeIsOpen | src/ingestion/worker.py:99-112 | a fail_job that runs while its version is current never overwrites a completed row |
| WorkerProtocol.ExactlyOnce | src/ingestion/service.py:129-158 | in those runs a completed job has committed once, any other never, and its document has chunk_count rows numbered from 0 |
| WorkerProtocol.IngestedIff | src/ingestion/service.py:129-158 | every document has chunk_count rows numbered from 0 at all times iff every commit finds its document without rows |
| WorkerProtocol.FinalMeansIngested | src/ingestion/service.py:129-210 | the runs in which completed is final are among those |
| WorkerProtocol.LateFailDuplicatesChunks | src/ingestion/service.py:186-210 | a run with a late fail_job that ends with duplicated chunks |
| AtomicQueue.StepInv | src/ingestion/service.py:53-210 | every step keeps tokens fenced, counters exact, dead jobs buried and documents in step with the commits |
| AtomicQueue.RunInv | src/ingestion/service.py:53-210 | so every run does |
| QueueLaws.ClaimsAreBounded | src/ingestion/service.py:57-62 | the number of claims is the sum of the attempt counts and at most the sum of their limits |
| QueueLaws.CompletionIsFenced | src/ingestion/service.py:101-112 | a completion comes from the newest claim of its job and is the first of that claim |
| QueueLaws.SupersededNeverCommits | src/ingestion/service.py:101-112 | the same law as in WorkerProtocol, over runs of the queue |
| QueueLaws.DeadIsFinal | src/ingestion/service.py:182-198 | nothing about a buried job's claims, version or chunks changes in any continuation |
| QueueLaws.QuiescentJobs | src/ingestion/service.py:59-66 | a drained queue has only completed jobs and jobs without attempts |
| QueueLaws.CompletedIsFinalIff | src/ingestion/service.py:186-210 | the condition for completed being final, over runs of the queue |
| QueueLaws.ClaimableIff | src/ingestion/service.py:40-62 | the condition for queued jobs staying claimable, over runs of the queue |
| QueueLaws.StepIngested | src/ingestion/service.py:129-158 | a step keeps all chunk counts right iff it is no completion of a document that has rows |
| QueueLaws.IngestedIff | src/ingestion/service.py:129-158 | the same over runs of the queue |
| QueueLaws.OnceMeansIngested | src/ingestion/service.py:129-158 | a single completion leaves chunk_count rows numbered from 0 |
| Workers.Worker.ClaimNextJob | src/ingestion/worker.py:170-175 | the claim transaction, performed as a reset per stale row and one claim of the protocol |
| Workers.Worker.ProcessSingleJob | src/ingestion/worker.py:65-118 | nothing on a lost race, the swap on success, otherwise rollback and fail_job; fail_job also for an exception before mark_running, whatever the version, and after a commit that was applied but not acknowledged; each time as a run of the protocol |
| Workers.ProcessedEndsAs | src/ingestion/worker.py:65-118 | for each way process_single_job can end, the rows written out: nothing, a completed job with a ready document and numbered rows, a dead job with a failed document, or a queued job without worker |
| Workers.Worker.RunWorker | src/ingestion/worker.py:168-200 | the loop drains the queue once it has polled as often as claims are left |
| Workers.TurnCosts | src/ingestion/worker.py:168-200 | one turn that claims something uses up at least one of the remaining claims |
| UploadProtocol.StepInv | src/documents/service.py:49-144 | every step of an upload or delete keeps rows paired and unique and accounts for every object |
| UploadProtocol.TablesStaySound | src/documents/service.py:67-144 | in every run documents and jobs pair off within tenants, both constraints hold, and what storage has under a document's key is its content |
| UploadStorage.StepFilesKept | src/documents/service.py:278-300 | a step keeps every live document's file, or the delete that is removing it, iff it is not the rollback of a delete that has removed a live document's object |
| UploadStorage.FilesKeptIff | src/documents/service.py:278-300 | the same at all times of a run, over all runs |
| UploadStorage.StepNoOrphan | src/documents/service.py:95-132 | a step leaves no stored object without an owner iff it is no failed removal of an unused object and no death of an upload that has stored one |
| UploadStorage.NoOrphanIff | src/documents/service.py:95-132 | the same at all times of a run, over all runs |
| UploadStorage.StorageIsAccounted | src/documents/service.py:95-132 | with nothing in flight, storage holds all live documents' files if no step lost one, and nothing else if no step left one behind |
| UploadStorage.NoOrphans | src/documents/service.py:124-132 | if no request died and no removal failed, exactly the live documents' files |
| UploadConflicts.ConflictMeansDeleted | src/documents/service.py:134-144 | in every run an upload that ended in ConflictError has a soft-deleted document with its content |
| UploadConflicts.NoConflict | src/documents/service.py:134-144 | so without soft deletes no upload ends in ConflictError |
| UploadConflicts.RenamedConflicts | src/documents/service.py:134-144 | for every request with the same file and another key a run in which the upload ends in ConflictError |
| UploadConflicts.ConflictIff | src/documents/service.py:49-144 | over a set of possible requests, with deletes and deaths, no run ends an upload in ConflictError iff none of them uploads its file under another key |
| UploadAgreement.UploadsAgree | src/documents/service.py:49-93 | unless two uploads of the run cross, all uploads of one tenant, key and content that are answered return the same document and job, with deletes and dying requests allowed |
| UploadAgreement.CrossingDisagrees | src/documents/service.py:49-93 | for every crossing pair (the content under another key, the key with another content) a run in which the same upload gets two answers |
| UploadAgreement.AgreementIff | src/documents/service.py:49-93 | over a set of possible requests the answered uploads of w agree in every run iff the set has no crossing pair |
| UploadAgreement.OneObject | src/documents/service.py:95-132 | without deletes they leave one stored object, but for objects a failed or dead upload left behind |
| UploadRuns.RolledBackDeleteLosesFile | src/documents/service.py:278-300 | a run that ends with a live document whose object is gone |
| UploadTables.InsertKeeps | src/documents/service.py:101-123 | inserting both rows keeps the pairing and the two constraints |
| UploadTables.TakenMeansFindable | src/documents/models.py:87-90 | a taken key is always found again, a taken content exactly if its document is live |
| DocumentStores.AnswerIsUnique | src/ingestion/models.py:142-144 | at most one (document, job) pair can answer a request |
| DocumentStores.DocumentStore.CheckExisting | src/documents/service.py:49-93 | the answer by key, else by live content, else neither exists |
| DocumentStores.DocumentStore.FindExistingUpload | src/documents/service.py:156-198 | the same after a lost insert |
| DocumentStores.DocumentStore.InsertRows | src/documents/service.py:119-123 | both rows or none; refused exactly if a constraint is taken |
| DocumentStores.DocumentStore.StoreAndInsert | src/documents/service.py:95-132 | after a refused insert the object is gone again, unless its removal failed |
| DocumentStores.DocumentStore.UploadNew | src/documents/service.py:95-153 | what an upload does when nothing existing answers it |
| DocumentStores.DocumentStore.UploadDocument | src/documents/service.py:47-153 | an answered upload changes nothing; ConflictError exactly if the key is new and the content belongs to a deleted document; a repeat returns the first answer |
| DocumentStores.DocumentStore.SoftDeleteDocument | src/documents/service.py:263-300 | marks exactly the live document of the tenant, keeps its row and job, removes its object if storage allows |
| CircuitBreakers.ReplayIsSound | src/evaluation/llm_gateway.py:79-137 | failure_count is the trailing run of failures, closed iff it is below the threshold |
| CircuitBreakers.CheckFollowsRule | src/evaluation/llm_gateway.py:79-106 | check admits iff the trailing failures are fewer than the threshold or the timeout has passed since the last |
| CircuitBreakers.HalfOpenAdmitsEveryone | src/evaluation/llm_gateway.py:89-106 | after the timeout any number of checks get through until an outcome is recorded, all in HALF_OPEN |
| CircuitBreakers.SecondProbeIff | src/evaluation/llm_gateway.py:89-137 | a second check within one timeout of the probe, with no success in between, is refused iff a failure has been recorded in between |
| CircuitBreakers.CircuitBreaker.Check | src/evaluation/llm_gateway.py:79-106 | the code follows that rule and changes no counter |
| CircuitBreakers.CircuitBreaker.RecordSuccess | src/evaluation/llm_gateway.py:108-115 | closes the breaker and forgets the failures |
| CircuitBreakers.CircuitBreaker.RecordFailure | src/evaluation/llm_gateway.py:117-137 | counts, and opens exactly from the threshold on |
| CircuitBreakers.Gateway.Complete | src/evaluation/llm_gateway.py:201-217 | a call is made iff the rule admits it, and its outcome is recorded |
| CircuitBreakers.OutageStep | src/evaluation/llm_gateway.py:201-217 | one failing request keeps the bound on calls during an outage |
| CircuitBreakers.Gateway.Outage | src/evaluation/llm_gateway.py:201-217 | a lone caller makes at most max(1, threshold) calls in an outage plus one for each full timeout |
| RateLimiting.CounterGrantsFirst | src/core/rate_limit.py:18-28 | a counter grants exactly its first max_requests calls |
| RateLimiting.CallsNeverExtend | src/core/rate_limit.py:21-23 | no call on a live counter moves its end, and a denial lasts until then |
| RateLimiting.SlidingBound | src/core/rate_limit.py:18-28 | a closed interval of one window sees at most 2 * max_requests granted calls, one fewer if keys linger at their expiry |
| RateLimiting.HalfOpenBound | src/core/rate_limit.py:18-28 | a half-open one sees at most 2 * max_requests - 1 |
| RateLimiting.SlidingBoundIsTight | src/core/rate_limit.py:18-28 | calls that reach it, for every limit and window, if keys do not linger |
| RateLimiting.HalfOpenBoundIsTight | src/core/rate_limit.py:18-28 | calls that reach the bound of the half-open interval, whether keys linger or not |
| RateLimiting.RateLimiter.IsAllowed | src/core/rate_limit.py:39-50 | the answer is that of the calls on this key alone; other keys are untouched |
| Tenants.OrganizationsKeepAnAdmin | src/tenants/service.py:143-166 | after every run each organization has an admin who is a registered user |
| Tenants.PendingInvitesAreSound | src/tenants/service.py:178-221 | one pending invitation per organization and address, never for a member |
| Tenants.AcceptFailsOnlyOnExpiry | src/tenants/service.py:253-297 | accepting a pending invitation never violates membership uniqueness |
| Tenants.ExpiredInviteIsStuck | src/tenants/service.py:280-283 | an expired invitation stays pending, cannot be accepted and blocks its address |
| Tenants.RolesAreGranted | src/tenants/service.py:33-46 | in every run a member is the organization's creator, as admin, or has the role of an accepted invitation to it and to the member's address |
| Tenants.MembersLeaveByRemoval | src/tenants/service.py:151-166 | a request removes exactly the member an admin asks to remove, and changes no role |
| Tenants.InviteLastsSevenDays | src/tenants/service.py:205-283 | a pending invitation can be accepted until exactly seven days after it was made |
| Tenants.TenantStore.CreateOrganization | src/tenants/service.py:25-49 | a new slug gets an organization with its creator as admin; a taken one changes nothing |
| Tenants.TenantStore.RemoveMember | src/tenants/service.py:143-166 | only an admin removes, never themselves |
| Tenants.TenantStore.CreateInvite | src/tenants/service.py:169-232 | refused for members and for addresses already invited, otherwise pending for seven days |
| Tenants.TenantStore.AcceptInvite | src/tenants/service.py:253-307 | the membership gets the invited role and the invitation is used up; expiry aborts without a change |
| Fusion.ReciprocalRankFusion | src/retrieval/service.py:319-363 | entry i of the answer is entry i of the ranking, with its exact score and metadata; min(top_k, distinct ids) entries, so a smaller top_k gives a prefix |
| Fusion.EntryScore | src/retrieval/service.py:332-341 | an id at one rank in each list scores 1/(60+rank) for each, an id in one list that of its rank |
| Fusion.EntryDetails | src/retrieval/service.py:336-343 | an entry shows the last dense row with its id, or else the first sparse one |
| Fusion.TallyDenseRow | src/retrieval/service.py:333-336 | one turn adds 1/(60+rank) and takes over the row |
| Fusion.TallySparseRow | src/retrieval/service.py:339-343 | one turn adds 1/(60+rank) and takes over the row only of a new id |
| Fusion.TallyDenseRows | src/retrieval/service.py:332-336 | after the loop every score is the sum over all occurrences and the last row wins |
| Fusion.TallySparseRows | src/retrieval/service.py:338-343 | after both loops every score is the sum over both lists and dense metadata has priority |
| Fusion.SortRanks | src/retrieval/service.py:346 | the sort puts higher scores first and keeps first appearance on ties |
| Fusion.RankingIsSorted | src/retrieval/service.py:346-349 | the ranking has no repeats and falls in score, ties by first appearance; nothing left out scores higher |
| Fusion.RankingMembers | src/retrieval/service.py:332-346 | the ranking holds exactly the ids found by either retriever |
| Fusion.HigherScoreIsAhead | src/retrieval/service.py:346 | a higher score is always ranked before a lower one |
| Fusion.DominanceWins | src/retrieval/service.py:332-346 | an id ranked no worse in both lists and better in one is ahead |
| Fusion.ConsensusWins | src/retrieval/service.py:332-346 | with at most 61 rows a side, ids found by both are ahead of ids found by one |
| Fusion.ConsensusIsTight | src/retrieval/service.py:35 | 61 is the largest such bound for RRF_K = 60 |
| Fusion.HybridSearchConsensus | src/retrieval/service.py:206-218 | hybrid_search, which asks for top_k * 2 candidates, has this guarantee iff top_k <= 30 |
| Paging.PageFacts | src/documents/service.py:213-236 | a page is in order and below the cursor, and misses only rows below the next cursor |
| Paging.WalkShowsLastingRowsOnce | src/documents/service.py:213-236 | whatever changes during a finished walk, rows that last are shown, nothing twice, in order |
| Paging.WalkIsFinite | src/documents/service.py:213-236 | with newer inserts and deletes only, the walk ends within the pages the first table needs |
| Paging.WalkShowsTable | src/documents/service.py:318-341 | a fixed table is shown in full and in order, in max(1, ceil(n/limit)) pages |
| Paging.PagesRoundUp | src/documents/service.py:232-234 | that number is the least that holds n rows |
| Paging.CompleteIffPagesSplitKeys | src/ingestion/service.py:271-291 | for one limit a table is shown in full iff no page boundary falls between equal keys |
| Paging.CompleteIffKeysDistinct | src/ingestion/service.py:271-291 | for all limits it is iff its sort keys are distinct |
| Texts.SpacesAre | src/ingestion/pipeline.py:121 | the 29 characters that strip removes |
| Texts.SplitRejoins | src/ingestion/pipeline.py:140 | joining what split cut gives the text again |
| Texts.PartsAreFree | src/ingestion/pipeline.py:140 | no part still contains the separator |
| Texts.StripCuts | src/ingestion/pipeline.py:121 | strip removes blanks at both ends, all of them, and nothing else |
| RecursiveChunking.RecursiveTextChunker.Make | src/ingestion/pipeline.py:113-117 | refused iff chunk_overlap >= chunk_size, for all integers |
| RecursiveChunking.RecursiveTextChunker.HardSplit | src/ingestion/pipeline.py:164-172 | the windows of chunk_size characters, chunk_size - chunk_overlap apart |
| RecursiveChunking.RecursiveTextChunker.ApplyOverlap | src/ingestion/pipeline.py:174-187 | every chunk but the last is extended by the beginning of the next |
| RecursiveChunking.RecursiveTextChunker.PackParts | src/ingestion/pipeline.py:140-159 | the loop packs greedily, and keeps `current` across an oversized part |
| RecursiveChunking.RecursiveTextChunker.Split | src/ingestion/pipeline.py:128-162 | the recursive split over the separators |
| RecursiveChunking.RecursiveTextChunker.Chunk | src/ingestion/pipeline.py:119-126 | strip, split, drop blank chunks |
| ChunkerLaws.OverlapRepeatsNext | src/ingestion/pipeline.py:174-187 | each chunk with a successor is followed by the first min(overlap, length) characters of that one, and so ends where the next result begins |
| ChunkerLaws.NegativeOverlap | src/ingestion/pipeline.py:183 | a negative overlap repeats the next chunk but for its last characters |
| ChunkerLaws.HardSplitRebuilds | src/ingestion/pipeline.py:164-172 | dropping the first chunk_overlap characters of each later window gives the text back, if chunk_overlap is not negative |
| ChunkerLaws.HardSplitKeepsCharactersIff | src/ingestion/pipeline.py:113-172 | the hard split keeps every character of every text iff chunk_overlap is not negative |
| ChunkerLaws.HardSplitCount | src/ingestion/pipeline.py:164-172 | ceil(n / (chunk_size - chunk_overlap)) windows |
| ChunkerLaws.ChunkSizes | src/ingestion/pipeline.py:111-187 | chunks are non-empty and at most chunk_size + 4 * chunk_overlap long, so within chunk_size without overlap; with a negative overlap a larger bound holds |
| ChunkerLaws.ChunksAreNotBlank | src/ingestion/pipeline.py:126 | every chunk has a character that strip keeps |
| ChunkerLaws.SplitCovers | src/ingestion/pipeline.py:128-187 | every token of the full split, or each of its windows if it is too long, occurs in a chunk |
| ChunkerLaws.NoTextIsLost | src/ingestion/pipeline.py:119-187 | the same for the chunks returned, of everything that is not blank |
| ChunkerLaws.PackingRejoins | src/ingestion/pipeline.py:140-159 | if all parts are non-empty and fit, the chunks before the overlap join up to the text |
| ChunkerLaws.PackingIsOptimal | src/ingestion/pipeline.py:140-159 | and no grouping of consecutive parts into pieces that fit has fewer |
| ChunkerLaws.OversizedPartRepeats | src/ingestion/pipeline.py:149-156 | a part that fits, in front of an oversized one, is emitted twice |
| ChunkerLaws.NotCarryingIsCleared | src/ingestion/pipeline.py:144-159 | if `current` is empty whenever an oversized part arrives, the loop does what it would with `current` cleared |
| ChunkerLaws.ClearingMattersIff | src/ingestion/pipeline.py:144-159 | this is the exact condition for parts of which none is empty, and for parts that are empty or more than separator characters |
| ChunkerLaws.ClearingMattersForText | src/ingestion/pipeline.py:140-159 | hence for every text cut at a separator of one character, such as a newline or a space |
| ChunkerExamples.SeparatorOrder | src/ingestion/pipeline.py:111-138 | a text that does not fit is cut at blank lines; without any, at line ends; then at full stops; then at spaces |
| ChunkerExamples.WordsOverlap | src/ingestion/pipeline.py:128-187 | of any number of words of chunk_size characters each is a chunk, followed four times by the beginning of the next |
| ChunkerExamples.LongestChunk | src/ingestion/pipeline.py:128-187 | for every size and overlap a text with a chunk of chunk_size + 4 * chunk_overlap characters |
| ChunkerExamples.WordIsEmittedTwice | src/ingestion/pipeline.py:144-156 | a short word in front of one that does not fit is a chunk before it and again behind it |
| ChunkerExamples.FullStopIsLost | src/ingestion/pipeline.py:140-159 | two sentences that do not fit together are cut at ". ", and the full stop is in neither chunk |
| SemanticChunking.PercentileIgnoresOrder | src/ingestion/pipeline.py:282-291 | the percentile depends only on the multiset of the data |
| SemanticChunking.PercentileIsMonotone | src/ingestion/pipeline.py:282-291 | it grows with its parameter |
| SemanticChunking.PercentileExtremes | src/ingestion/pipeline.py:282-291 | 0 gives a least element, 100 a greatest one, so it lies between them |
| SemanticChunking.PercentileInterpolates | src/ingestion/pipeline.py:287-291 | between two neighbours of the sorted data it runs linearly |
| SemanticChunking.GroupsPartition | src/ingestion/pipeline.py:252-267 | the groups are the sentences in order, none empty, and at least two from two sentences on |
| SemanticChunking.ChunksRejoin | src/ingestion/pipeline.py:252-267 | the initial chunks join up to the joined sentences |
| SemanticChunking.RaisingPercentileMerges | src/ingestion/pipeline.py:243-267 | raising the percentile only merges neighbouring groups |
| SemanticChunking.SemanticChunkSizes | src/ingestion/pipeline.py:221-280 | every chunk is within max_chunk_size, unless the text is one sentence that is not |
| SemanticChunking.LongSentenceStaysWhole | src/ingestion/pipeline.py:221-222 | such a sentence |
| SemanticText.SentenceTextIsKept | src/ingestion/pipeline.py:252-280 | every token of every sentence that fits, and every window of a longer one, is in a chunk, without blanks at its ends; only a full stop at the end of a token may be missing |
| SemanticText.GroupTextIsKept | src/ingestion/pipeline.py:269-280 | every token of every group is kept in the same sense, without exception |
| SemanticText.FittingGroupIsWhole | src/ingestion/pipeline.py:274-280 | a group within max_chunk_size is returned whole |
| SemanticText.FittingGroupsAreChunks | src/ingestion/pipeline.py:252-280 | if all groups fit, the chunks are the groups in order, their sentences joined by spaces |
| SemanticText.ChunksAreTrimmed | src/ingestion/pipeline.py:280 | no chunk is empty or has blanks at its ends |
| SemanticChunking.SemanticTextChunker.GroupSentences | src/ingestion/pipeline.py:247-267 | the loop over the sentences builds the joined groups |
| SemanticChunking.SemanticTextChunker.EnforceLimit | src/ingestion/pipeline.py:269-278 | chunks over the limit go through the recursive chunker without overlap, in order |
| SemanticChunking.SemanticTextChunker.StripAll | src/ingestion/pipeline.py:280 | blank chunks are dropped, the others stripped |
| SemanticChunking.SemanticTextChunker.Chunk | src/ingestion/pipeline.py:209-280 | from the sentences and distances to the stripped chunks; a single sentence is returned as it is |
| Pipelines.Process | src/ingestion/pipeline.py:350-387 | chunk i gets embedding i and number i |
| Pipelines.RowsAreNumbered | src/ingestion/pipeline.py:377-384 | so complete_job's rows are the ones the job tables model writes |

## Left out

- The claim transaction's stale reset and claim are separate steps in WorkerProtocol, one step for each stale row; rows locked by concurrent claims are the `busy` set.
- fail_job raising an exception of its own appears as a crash of the worker in the protocol.
- error_message, started_at, completed_at, page_number, and the user and tenant columns of chunk rows.
- Soft deletion and status of a document row while its job is ingested; a job's document row is never removed in the job model.
- A file is identified with its SHA-256 digest; collisions are outside the model.
- UploadProtocol reads a document and its job in the content look-up as one step, and the insert together with its commit as one step.
- A storage call that fails although it took effect: in an upload it appears as a request that dies right after storing, otherwise as a removal that got through.
- Personal organizations are ordinary ones here; slugify, role changes and token hashing are not modelled.
- Races between membership requests: their check and their write are not locked together, so the tenant laws are about serial requests.
- The fail-open branch of the rate limiter (no bound can hold there) and Redis's own expiry precision.
- ChunkerLaws.ChunkSizes: not for a negative chunk_size, where a slice end counts from the end of the text and no bound in terms of chunk_size holds.
- Percentiles outside 0..100, max_chunk_size below 1, negative top_k and limit below 1: the source neither documents nor checks them.
- Score rounding to six places, the sentence splitter, window and embedding computation, text extraction.
- ChunkerLaws.ClearingMattersIff: for "\n\n" and ". ", not for texts with both empty parts and parts made of separator characters only; ChunkerLaws.NotCarryingIsCleared, the other half, holds for them too.
- Cursor encoding: a cursor is the key itself.
- Retry, token bucket and semaphore of the gateway: a call is one event with an outcome.
- Routes (except the admin checks), schemas, logging, metrics, authentication and the front end: plumbing.
