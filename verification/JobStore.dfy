/** src/ingestion/service.py: the job tables as one session of the database sees them. */
module JobStores {
  import opened Common
  import opened JobTables

  /** A claimable row that is not busy implies an oldest such row. */
  lemma {:induction false} OldestExists(jobs: map<JobId, Job>, busy: set<JobId>, ids: set<JobId>, some: JobId)
    requires ids <= jobs.Keys - busy
    requires some in ids && Claimable(jobs[some])
    ensures exists id :: id in ids && Claimable(jobs[id]) &&
                         forall k | k in ids && Claimable(jobs[k]) :: jobs[id].createdAt <= jobs[k].createdAt
    decreases |ids|
  {
    var rest := ids - {some};
    if other :| other in rest && Claimable(jobs[other]) {
      OldestExists(jobs, busy, rest, other);
      var id :| id in rest && Claimable(jobs[id]) &&
                forall k | k in rest && Claimable(jobs[k]) :: jobs[id].createdAt <= jobs[k].createdAt;
      var best := if jobs[some].createdAt < jobs[id].createdAt then some else id;
      assert best in ids && Claimable(jobs[best]) &&
             forall k | k in ids && Claimable(jobs[k]) :: jobs[best].createdAt <= jobs[k].createdAt;
    } else {
      assert forall k | k in ids && Claimable(jobs[k]) :: k == some;
    }
  }

  class JobStore {
    var jobs: map<JobId, Job>
    var docs: map<DocId, Doc>
    var chunks: seq<ChunkRow>

    function Contents(): Db
      reads this
    {
      Db(jobs, docs, chunks)
    }

    constructor (initial: Db)
      ensures Contents() == initial
    {
      jobs := initial.jobs;
      docs := initial.docs;
      chunks := initial.chunks;
    }

    /** Undo to the state a transaction started from. */
    method Restore(saved: Db)
      modifies this
      ensures Contents() == saved
    {
      jobs, docs, chunks := saved.jobs, saved.docs, saved.chunks;
    }

    /**
     `busy` holds the rows locked by other transactions. The reset UPDATE waits for such
     locks instead of skipping them, so when it has run no stale row is busy.
     */
    method ClaimNextJob(worker: WorkerId, now: Time, cutoff: Time, busy: set<JobId>)
      returns (claimed: Option<Token>)
      requires forall id | id in jobs && id in busy :: !IsStale(jobs[id], cutoff)
      modifies this
      ensures docs == old(docs) && chunks == old(chunks)
      ensures claimed.None? ==>
        && jobs == ResetStale(old(jobs), cutoff)
        && forall id | id in jobs && Claimable(jobs[id]) :: id in busy
      ensures claimed.Some? ==>
        var reset, id := ResetStale(old(jobs), cutoff), claimed.value.job;
        && IsNext(reset, busy, id)
        && jobs == reset[id := ClaimRow(reset[id], worker, now)]
        && claimed.value == TokenOf(id, jobs[id])
      ensures jobs.Keys == old(jobs).Keys
      ensures forall id | id in old(jobs) && !(claimed.Some? && claimed.value.job == id) ::
        var was := old(jobs)[id];
        jobs[id] == if was.status == Claimed && was.claimedAt.Some? && was.claimedAt.value < cutoff
                    then was.(status := Queued, worker := None, claimedAt := None) else was
      ensures claimed.Some? ==>
        var id := claimed.value.job;
        && id in old(jobs) && id !in busy
        && var was, row := old(jobs)[id], jobs[id];
        && (was.status == Queued || (was.status == Claimed && was.claimedAt.Some? && was.claimedAt.value < cutoff))
        && was.attempts < was.maxAttempts
        && row == Job(was.doc, Claimed, was.attempts + 1, was.maxAttempts, was.version + 1, Some(worker), Some(now),
                      was.createdAt)
        && claimed.value == Token(id, row.doc, row.version, row.attempts, row.maxAttempts)
        && forall k | k in jobs && k !in busy && jobs[k].status == Queued && jobs[k].attempts < jobs[k].maxAttempts ::
             row.createdAt <= jobs[k].createdAt
    {
      jobs := ResetStale(jobs, cutoff);
      if some :| some in jobs.Keys - busy && Claimable(jobs[some]) {
        OldestExists(jobs, busy, jobs.Keys - busy, some);
        var id :| id in jobs.Keys - busy && IsNext(jobs, busy, id);
        jobs := jobs[id := ClaimRow(jobs[id], worker, now)];
        claimed := Some(TokenOf(id, jobs[id]));
      } else {
        claimed := None;
      }
    }

    method MarkRunning(id: JobId, version: nat) returns (ok: bool)
      modifies this
      ensures Contents() == JobTables.MarkRunning(old(Contents()), id, version)
      ensures ok == (id in old(jobs) && old(jobs)[id].version == version)
      ensures docs == old(docs) && chunks == old(chunks)
      ensures jobs ==
        if ok then old(jobs)[id := old(jobs)[id].(status := Running, version := version + 1)] else old(jobs)
    {
      ok := id in jobs && jobs[id].version == version;
      if ok {
        jobs := jobs[id := jobs[id].(status := Running, version := version + 1)];
      }
    }

    method CompleteJob(id: JobId, doc: DocId, contents: seq<string>)
      modifies this
      ensures Contents() == JobTables.CompleteJob(old(Contents()), id, doc, contents)
      ensures jobs == if id in old(jobs) then old(jobs)[id := old(jobs)[id].(status := Completed)] else old(jobs)
      ensures docs == if doc in old(docs) then old(docs)[doc := Doc(Ready, |contents|)] else old(docs)
      ensures |chunks| == |old(chunks)| + |contents| && old(chunks) <= chunks
      ensures forall i | 0 <= i < |contents| :: chunks[|old(chunks)| + i] == ChunkRow(doc, i, contents[i])
    {
      var i := 0;
      while i < |contents|
        invariant 0 <= i <= |contents|
        invariant jobs == old(jobs) && docs == old(docs)
        invariant chunks == old(chunks) + Rows(doc, contents)[..i]
      {
        chunks := chunks + [ChunkRow(doc, i, contents[i])];
        i := i + 1;
      }
      if doc in docs {
        docs := docs[doc := Doc(Ready, |contents|)];
      }
      if id in jobs {
        jobs := jobs[id := jobs[id].(status := Completed)];
      }
    }

    method FailJob(id: JobId, doc: DocId, attempt: nat, maxAttempts: nat)
      modifies this
      ensures Contents() == JobTables.FailJob(old(Contents()), id, doc, attempt, maxAttempts)
      ensures chunks == old(chunks)
      ensures attempt >= maxAttempts ==>
        && jobs == (if id in old(jobs) then old(jobs)[id := old(jobs)[id].(status := Dead)] else old(jobs))
        && docs == (if doc in old(docs) then old(docs)[doc := old(docs)[doc].(status := DocFailed)] else old(docs))
      ensures attempt < maxAttempts ==>
        && docs == old(docs)
        && jobs == (if id in old(jobs)
                    then old(jobs)[id := old(jobs)[id].(status := Queued, worker := None, claimedAt := None)]
                    else old(jobs))
    {
      if attempt >= maxAttempts {
        if id in jobs {
          jobs := jobs[id := jobs[id].(status := Dead)];
        }
        if doc in docs {
          docs := docs[doc := docs[doc].(status := DocFailed)];
        }
      } else if id in jobs {
        jobs := jobs[id := jobs[id].(status := Queued, worker := None, claimedAt := None)];
      }
    }
  }
}
