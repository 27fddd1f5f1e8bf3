/**
 src/ingestion/worker.py as one worker process executes it while no other worker moves. `past`
 records the protocol actions the code has performed: it follows the protocol. What other
 workers do in between is covered there, not here.
 */
module Workers {
  import opened Common
  import opened JobTables
  import opened JobStores
  import Atomic = AtomicQueue
  import Protocol = WorkerProtocol

  /** How the try block ends if mark_running succeeds. */
  datatype Ending =
    | RaisedEarly                               // before mark_running has run
    | RaisedLate                                // in download, extraction, chunking or embedding
    | Committed(contents: seq<string>)
    | CommittedAndRaised(contents: seq<string>) // applied, but the worker does not learn of it

  /** `recorded` tells whether fail_job, if it comes to that, gets through. */
  datatype Outcome = Outcome(ending: Ending, recorded: bool)

  /** One turn of the poll loop, as far as the outside decides it. */
  datatype Poll = Poll(now: Time, cutoff: Time, outcome: Outcome)

  /** The net effect of process_single_job on the tables. */
  function Processed(db: Db, t: Token, outcome: Outcome): Db {
    if outcome.ending.RaisedEarly? then Recovered(db, t, outcome.recorded)
    else if !VersionMatches(db, t.job, t.version) then db
    else if t.doc !in db.docs || outcome.ending.RaisedLate? then Recovered(db, t, outcome.recorded)
    else
      var swapped := Atomic.Swap(db, t, outcome.ending.contents);
      if outcome.ending.Committed? then swapped else Recovered(swapped, t, outcome.recorded)
  }

  function Recovered(db: Db, t: Token, recorded: bool): Db {
    if recorded then FailJob(db, t.job, t.doc, t.attempt, t.maxAttempts) else db
  }

  /** How far process_single_job gets. */
  datatype End = LostRace | Undone | Stored | StoredAndFailed

  function Reach(db: Db, t: Token, outcome: Outcome): End {
    match outcome.ending
    case RaisedEarly => Undone
    case RaisedLate => if VersionMatches(db, t.job, t.version) then Undone else LostRace
    case Committed(_) =>
      if !VersionMatches(db, t.job, t.version) then LostRace else if t.doc in db.docs then Stored else Undone
    case CommittedAndRaised(_) =>
      if !VersionMatches(db, t.job, t.version) then LostRace else if t.doc in db.docs then StoredAndFailed else Undone
  }

  /** The job is completed, the document ready, and its chunks are numbered rows at the end. */
  predicate IsStored(before: Db, after: Db, t: Token, contents: seq<string>) {
    && t.job in before.jobs && t.doc in before.docs
    && after.jobs == before.jobs[t.job := before.jobs[t.job].(status := Completed, version := t.version + 1)]
    && after.docs == before.docs[t.doc := Doc(Ready, |contents|)]
    && |after.chunks| == |before.chunks| + |contents| && before.chunks <= after.chunks
    && forall i | 0 <= i < |contents| :: after.chunks[|before.chunks| + i] == ChunkRow(t.doc, i, contents[i])
  }

  /** In the last attempt the job is dead and the document failed; before it the job is queued again. */
  predicate IsFailed(before: Db, after: Db, t: Token) {
    && after.chunks == before.chunks && after.jobs.Keys == before.jobs.Keys && after.docs.Keys == before.docs.Keys
    && (forall j | j in before.jobs && j != t.job :: after.jobs[j] == before.jobs[j])
    && (forall d | d in before.docs && d != t.doc :: after.docs[d] == before.docs[d])
    && (t.job in before.jobs ==>
          var row := before.jobs[t.job];
          after.jobs[t.job] == if t.attempt >= t.maxAttempts then row.(status := Dead)
                               else row.(status := Queued, worker := None, claimedAt := None))
    && (t.doc in before.docs ==>
          var row := before.docs[t.doc];
          after.docs[t.doc] == if t.attempt >= t.maxAttempts then row.(status := DocFailed) else row)
  }

  /** What each end leaves in the tables. */
  ghost predicate EndsAs(end: End, before: Db, after: Db, t: Token, outcome: Outcome)
    requires end.Stored? || end.StoredAndFailed? ==>
      outcome.ending.Committed? || outcome.ending.CommittedAndRaised?
  {
    match end
    case LostRace => after == before
    case Undone => if outcome.recorded then IsFailed(before, after, t) else after == before
    case Stored => IsStored(before, after, t, outcome.ending.contents)
    case StoredAndFailed =>
      exists middle :: IsStored(before, middle, t, outcome.ending.contents) &&
                       if outcome.recorded then IsFailed(middle, after, t) else after == middle
  }

  lemma RecoveredFails(db: Db, t: Token)
    ensures IsFailed(db, Recovered(db, t, true), t)
  {
  }

  lemma SwapStores(db: Db, t: Token, contents: seq<string>)
    requires VersionMatches(db, t.job, t.version) && t.doc in db.docs
    ensures IsStored(db, Atomic.Swap(db, t, contents), t, contents)
  {
  }

  lemma ProcessedEndsAs(db: Db, t: Token, outcome: Outcome)
    ensures EndsAs(Reach(db, t, outcome), db, Processed(db, t, outcome), t, outcome)
  {
    RecoveredFails(db, t);
    var end := Reach(db, t, outcome);
    if end.Stored? || end.StoredAndFailed? {
      var middle := Atomic.Swap(db, t, outcome.ending.contents);
      SwapStores(db, t, outcome.ending.contents);
      RecoveredFails(middle, t);
    }
  }

  /** The claims the listed jobs can still cause if nothing goes stale. */
  ghost function ClaimsLeft(ids: seq<JobId>, jobs: map<JobId, Job>): nat {
    if ids == [] then 0
    else
      var j := ids[|ids| - 1];
      ClaimsLeft(ids[..|ids| - 1], jobs)
      + (if j in jobs && Claimable(jobs[j]) then jobs[j].maxAttempts - jobs[j].attempts else 0)
  }

  /** Jobs that are in the list are counted, so nothing left means nothing claimable. */
  lemma {:induction false} NothingLeft(ids: seq<JobId>, jobs: map<JobId, Job>)
    requires ClaimsLeft(ids, jobs) == 0
    ensures forall j | j in ids && j in jobs :: !Claimable(jobs[j])
  {
    if ids != [] {
      NothingLeft(ids[..|ids| - 1], jobs);
    }
  }

  ghost predicate CostsNoMore(before: Job, after: Job) {
    Claimable(after) ==> Claimable(before) && after.maxAttempts - after.attempts <= before.maxAttempts - before.attempts
  }

  ghost predicate CostsLess(before: Job, after: Job) {
    && Claimable(before)
    && (Claimable(after) ==> after.maxAttempts - after.attempts < before.maxAttempts - before.attempts)
  }

  lemma {:induction false} LeftIsMonotone(ids: seq<JobId>, jobs: map<JobId, Job>, jobs': map<JobId, Job>)
    requires jobs'.Keys == jobs.Keys
    requires forall j | j in jobs :: CostsNoMore(jobs[j], jobs'[j])
    ensures ClaimsLeft(ids, jobs') <= ClaimsLeft(ids, jobs)
    ensures forall j | j in ids && j in jobs && CostsLess(jobs[j], jobs'[j]) ::
      ClaimsLeft(ids, jobs') < ClaimsLeft(ids, jobs)
  {
    if ids != [] {
      LeftIsMonotone(ids[..|ids| - 1], jobs, jobs');
    }
  }

  ghost predicate NoneClaimed(jobs: map<JobId, Job>) {
    forall j | j in jobs :: jobs[j].status != Claimed
  }

  /** One orderly turn of the loop leaves no claim behind and uses up at least one. */
  lemma TurnCosts(db: Db, ids: seq<JobId>, j: JobId, w: WorkerId, now: Time, outcome: Outcome)
    requires NoneClaimed(db.jobs) && j in ids && j in db.jobs && Claimable(db.jobs[j])
    requires outcome.recorded
    ensures var claimed := db.jobs[j := ClaimRow(db.jobs[j], w, now)];
      var jobs' := Processed(db.(jobs := claimed), TokenOf(j, claimed[j]), outcome).jobs;
      && NoneClaimed(jobs') && jobs'.Keys == db.jobs.Keys
      && ClaimsLeft(ids, jobs') < ClaimsLeft(ids, db.jobs)
  {
    var claimed := db.jobs[j := ClaimRow(db.jobs[j], w, now)];
    var jobs' := Processed(db.(jobs := claimed), TokenOf(j, claimed[j]), outcome).jobs;
    assert CostsLess(db.jobs[j], jobs'[j]);
    LeftIsMonotone(ids, db.jobs, jobs');
  }

  lemma NothingStale(jobs: map<JobId, Job>, cutoff: Time)
    requires NoneClaimed(jobs)
    ensures ResetStale(jobs, cutoff) == jobs
  {
    var reset := ResetStale(jobs, cutoff);
    assert reset.Keys == jobs.Keys;
    assert forall j | j in jobs :: reset[j] == jobs[j];
  }

  lemma {:induction false} NoneClaimableLeft(ids: seq<JobId>, jobs: map<JobId, Job>)
    requires forall j | j in jobs :: !Claimable(jobs[j])
    ensures ClaimsLeft(ids, jobs) == 0
  {
    if ids != [] {
      NoneClaimableLeft(ids[..|ids| - 1], jobs);
    }
  }

  // What the protocol does when no other worker moves.

  lemma AloneLoses(s: Protocol.System, w: WorkerId, t: Token)
    requires s.phases == map[w := Protocol.Assigned(t)] && !VersionMatches(s.db, t.job, t.version)
    ensures var acts := [Protocol.MarkRunning(w)];
      && Protocol.Run(s, acts)
      && Protocol.Final(s, acts).db == s.db && Protocol.Final(s, acts).phases == map[w := Protocol.Idle]
  {
    Protocol.RunOne(s, Protocol.MarkRunning(w));
  }

  lemma AloneMarks(s: Protocol.System, w: WorkerId, t: Token)
    requires s.phases == map[w := Protocol.Assigned(t)] && VersionMatches(s.db, t.job, t.version)
    ensures var a := Protocol.MarkRunning(w);
      && Protocol.CanDo(s, a)
      && Protocol.Do(s, a).db == s.db
      && Protocol.Do(s, a).phases ==
         map[w := Protocol.InTransaction(t, MarkRunning(s.db, t.job, t.version).jobs[t.job])]
  {
  }

  /** fail_job, or a crash if it does not get through. */
  function LastResort(w: WorkerId, recorded: bool): Protocol.Action {
    if recorded then Protocol.FailJob(w) else Protocol.Crash(w)
  }

  lemma AloneRecovers(s: Protocol.System, w: WorkerId, t: Token, recorded: bool)
    requires s.phases == map[w := Protocol.Recovering(t)]
    ensures var acts := [LastResort(w, recorded)];
      && Protocol.Run(s, acts)
      && Protocol.Final(s, acts).db == Recovered(s.db, t, recorded)
      && Protocol.Final(s, acts).phases == map[w := Protocol.Idle]
  {
    Protocol.RunOne(s, LastResort(w, recorded));
  }

  lemma AloneRaises(s: Protocol.System, w: WorkerId, t: Token, recorded: bool)
    requires w in s.phases && s.phases.Keys == {w}
    requires (s.phases[w].Assigned? || s.phases[w].InTransaction?) && s.phases[w].token == t
    ensures var acts := [Protocol.Raise(w)] + [LastResort(w, recorded)];
      && Protocol.Run(s, acts)
      && Protocol.Final(s, acts).db == Recovered(s.db, t, recorded)
      && Protocol.Final(s, acts).phases == map[w := Protocol.Idle]
  {
    var s1 := Protocol.Do(s, Protocol.Raise(w));
    assert s1.phases == map[w := Protocol.Recovering(t)];
    AloneRecovers(s1, w, t, recorded);
    Protocol.RunCons(s, Protocol.Raise(w), [LastResort(w, recorded)]);
  }

  lemma AloneRaisesLate(s: Protocol.System, w: WorkerId, t: Token, recorded: bool)
    requires s.phases == map[w := Protocol.Assigned(t)] && VersionMatches(s.db, t.job, t.version)
    ensures var acts := [Protocol.MarkRunning(w)] + ([Protocol.Raise(w)] + [LastResort(w, recorded)]);
      && Protocol.Run(s, acts)
      && Protocol.Final(s, acts).db == Recovered(s.db, t, recorded)
      && Protocol.Final(s, acts).phases == map[w := Protocol.Idle]
  {
    AloneMarks(s, w, t);
    AloneRaises(Protocol.Do(s, Protocol.MarkRunning(w)), w, t, recorded);
    Protocol.RunCons(s, Protocol.MarkRunning(w), [Protocol.Raise(w)] + [LastResort(w, recorded)]);
  }

  /** mark_running and commit together, acknowledged or not. */
  lemma AloneSwaps(s: Protocol.System, w: WorkerId, t: Token, contents: seq<string>, acknowledged: bool)
    requires s.phases == map[w := Protocol.Assigned(t)] && VersionMatches(s.db, t.job, t.version)
    ensures Protocol.CanDo(s, Protocol.MarkRunning(w))
    ensures var s1, b := Protocol.Do(s, Protocol.MarkRunning(w)), Protocol.Commit(w, contents, acknowledged);
      && Protocol.CanDo(s1, b)
      && Protocol.Do(s1, b).db == CompleteJob(MarkRunning(s.db, t.job, t.version), t.job, t.doc, contents)
      && Protocol.Do(s1, b).phases == map[w := if acknowledged then Protocol.Idle else Protocol.Recovering(t)]
  {
    AloneMarks(s, w, t);
    var s1 := Protocol.Do(s, Protocol.MarkRunning(w));
    assert s1.db.jobs[t.job := s1.phases[w].row] == MarkRunning(s.db, t.job, t.version).jobs;
  }

  lemma AloneCommits(s: Protocol.System, w: WorkerId, t: Token, contents: seq<string>)
    requires s.phases == map[w := Protocol.Assigned(t)] && VersionMatches(s.db, t.job, t.version)
    ensures var acts := [Protocol.MarkRunning(w)] + [Protocol.Commit(w, contents, true)];
      && Protocol.Run(s, acts)
      && Protocol.Final(s, acts).db == CompleteJob(MarkRunning(s.db, t.job, t.version), t.job, t.doc, contents)
      && Protocol.Final(s, acts).phases == map[w := Protocol.Idle]
  {
    AloneSwaps(s, w, t, contents, true);
    Protocol.RunOne(Protocol.Do(s, Protocol.MarkRunning(w)), Protocol.Commit(w, contents, true));
    Protocol.RunCons(s, Protocol.MarkRunning(w), [Protocol.Commit(w, contents, true)]);
  }

  lemma AloneCommitsAndRaises(s: Protocol.System, w: WorkerId, t: Token, contents: seq<string>, recorded: bool)
    requires s.phases == map[w := Protocol.Assigned(t)] && VersionMatches(s.db, t.job, t.version)
    ensures var acts := [Protocol.MarkRunning(w)] + ([Protocol.Commit(w, contents, false)] + [LastResort(w, recorded)]);
      && Protocol.Run(s, acts)
      && Protocol.Final(s, acts).db ==
         Recovered(CompleteJob(MarkRunning(s.db, t.job, t.version), t.job, t.doc, contents), t, recorded)
      && Protocol.Final(s, acts).phases == map[w := Protocol.Idle]
  {
    AloneSwaps(s, w, t, contents, false);
    var s1 := Protocol.Do(s, Protocol.MarkRunning(w));
    AloneRecovers(Protocol.Do(s1, Protocol.Commit(w, contents, false)), w, t, recorded);
    Protocol.RunCons(s1, Protocol.Commit(w, contents, false), [LastResort(w, recorded)]);
    Protocol.RunCons(s, Protocol.MarkRunning(w), [Protocol.Commit(w, contents, false)] + [LastResort(w, recorded)]);
  }

  /** The protocol actions of process_single_job. */
  function Steps(db: Db, w: WorkerId, t: Token, outcome: Outcome): seq<Protocol.Action> {
    var mark, last := Protocol.MarkRunning(w), LastResort(w, outcome.recorded);
    if outcome.ending.RaisedEarly? then [Protocol.Raise(w)] + [last]
    else if !VersionMatches(db, t.job, t.version) then [mark]
    else if t.doc !in db.docs || outcome.ending.RaisedLate? then [mark] + ([Protocol.Raise(w)] + [last])
    else if outcome.ending.Committed? then [mark] + [Protocol.Commit(w, outcome.ending.contents, true)]
    else [mark] + ([Protocol.Commit(w, outcome.ending.contents, false)] + [last])
  }

  lemma SwapIsComplete(db: Db, t: Token, contents: seq<string>)
    requires VersionMatches(db, t.job, t.version)
    ensures CompleteJob(MarkRunning(db, t.job, t.version), t.job, t.doc, contents) == Atomic.Swap(db, t, contents)
  {
    assert CompleteJob(MarkRunning(db, t.job, t.version), t.job, t.doc, contents).jobs
        == Atomic.Swap(db, t, contents).jobs;
  }

  /** They are possible, and come to Processed. */
  lemma AloneProcesses(s: Protocol.System, w: WorkerId, t: Token, outcome: Outcome)
    requires s.phases == map[w := Protocol.Assigned(t)]
    ensures var acts := Steps(s.db, w, t, outcome);
      && Protocol.Run(s, acts)
      && Protocol.Final(s, acts).db == Processed(s.db, t, outcome)
      && Protocol.Final(s, acts).phases == map[w := Protocol.Idle]
  {
    if outcome.ending.RaisedEarly? {
      AloneRaises(s, w, t, outcome.recorded);
    } else if !VersionMatches(s.db, t.job, t.version) {
      AloneLoses(s, w, t);
    } else if t.doc !in s.db.docs || outcome.ending.RaisedLate? {
      AloneRaisesLate(s, w, t, outcome.recorded);
    } else {
      SwapIsComplete(s.db, t, outcome.ending.contents);
      if outcome.ending.Committed? {
        AloneCommits(s, w, t, outcome.ending.contents);
      } else {
        AloneCommitsAndRaises(s, w, t, outcome.ending.contents, outcome.recorded);
      }
    }
  }

  class Worker {
    const id: WorkerId
    const store: JobStore
    ghost const start: Protocol.System
    ghost var past: seq<Protocol.Action>

    ghost predicate InPhase(p: Protocol.Phase)
      reads this, store
    {
      && Protocol.Run(start, past)
      && Protocol.Final(start, past).db == store.Contents()
      && Protocol.Final(start, past).phases == map[id := p]
    }

    constructor (id: WorkerId, store: JobStore, ghost start: Protocol.System)
      requires start.db == store.Contents() && start.phases == map[id := Protocol.Idle]
      ensures this.id == id && this.store == store && this.start == start && past == []
      ensures InPhase(Protocol.Idle)
    {
      this.id := id;
      this.store := store;
      this.start := start;
      this.past := [];
    }

    /** Append protocol actions to what this worker has done. */
    ghost method Record(acts: seq<Protocol.Action>)
      requires Protocol.Run(start, past) && Protocol.Run(Protocol.Final(start, past), acts)
      modifies this`past
      ensures past == old(past) + acts
      ensures Protocol.Run(start, past)
      ensures Protocol.Final(start, past) == Protocol.Final(old(Protocol.Final(start, past)), acts)
    {
      Protocol.RunConcat(start, past, acts);
      past := past + acts;
    }

    /** The claim transaction. */
    method ClaimNextJob(now: Time, cutoff: Time) returns (claimed: Option<Token>)
      requires InPhase(Protocol.Idle)
      modifies store, this`past
      ensures store.docs == old(store.docs) && store.chunks == old(store.chunks)
      ensures claimed.None? ==>
        && InPhase(Protocol.Idle)
        && store.jobs == ResetStale(old(store.jobs), cutoff)
        && forall j | j in store.jobs :: !Claimable(store.jobs[j])
      ensures claimed.Some? ==>
        && InPhase(Protocol.Assigned(claimed.value))
        && var reset, j := ResetStale(old(store.jobs), cutoff), claimed.value.job;
        && IsNext(reset, {}, j)
        && store.jobs == reset[j := ClaimRow(reset[j], id, now)]
        && claimed.value == TokenOf(j, store.jobs[j])
      ensures store.jobs.Keys == old(store.jobs).Keys
      ensures forall j | j in old(store.jobs) && !(claimed.Some? && claimed.value.job == j) ::
        var was := old(store.jobs)[j];
        store.jobs[j] == if was.status == Claimed && was.claimedAt.Some? && was.claimedAt.value < cutoff
                         then was.(status := Queued, worker := None, claimedAt := None) else was
    {
      ghost var jobs := store.jobs;
      RecordResets(jobs.Keys, cutoff);
      ghost var reset, after := ResetStale(jobs, cutoff), Protocol.Final(start, past).db.jobs;
      assert after == reset by {
        assert after.Keys == reset.Keys;
        assert forall j :: j in after <==> j in reset;
        assert forall j | j in after :: after[j] == reset[j];
      }
      claimed := store.ClaimNextJob(id, now, cutoff, {});
      if claimed.Some? {
        ghost var a := Protocol.ClaimNext(id, claimed.value.job, now, {});
        Protocol.RunOne(Protocol.Final(start, past), a);
        Record([a]);
      }
    }

    /** The reset UPDATE as one protocol action per stale row. */
    ghost method RecordResets(ids: set<JobId>, cutoff: Time)
      requires Protocol.Run(start, past) && Protocol.Final(start, past).phases == map[id := Protocol.Idle]
      requires ids <= Protocol.Final(start, past).db.jobs.Keys
      modifies this`past
      ensures Protocol.Run(start, past) && Protocol.Final(start, past).phases == map[id := Protocol.Idle]
      ensures var db, db' := old(Protocol.Final(start, past).db), Protocol.Final(start, past).db;
        && db'.docs == db.docs && db'.chunks == db.chunks && db'.jobs.Keys == db.jobs.Keys
        && forall j | j in db.jobs ::
             db'.jobs[j] == if j in ids && IsStale(db.jobs[j], cutoff) then ResetRow(db.jobs[j]) else db.jobs[j]
      decreases ids
    {
      if j :| j in ids {
        var s := Protocol.Final(start, past);
        if IsStale(s.db.jobs[j], cutoff) {
          Protocol.RunOne(s, Protocol.ResetStale(j, cutoff));
          Record([Protocol.ResetStale(j, cutoff)]);
        }
        RecordResets(ids - {j}, cutoff);
      }
    }

    /**
     Process the claimed job in its own transaction; on an exception undo it and mark the job
     as failed or dead in another one.
     */
    method ProcessSingleJob(t: Token, outcome: Outcome)
      requires InPhase(Protocol.Assigned(t))
      modifies store, this`past
      ensures InPhase(Protocol.Idle)
      ensures store.Contents() == Processed(old(store.Contents()), t, outcome)
      ensures EndsAs(Reach(old(store.Contents()), t, outcome), old(store.Contents()), store.Contents(), t, outcome)
    {
      var saved := store.Contents();
      ProcessedEndsAs(saved, t, outcome);
      AloneProcesses(Protocol.Final(start, past), id, t, outcome);
      Record(Steps(saved, id, t, outcome));
      if outcome.ending.RaisedEarly? {
        FailJob(t, outcome.recorded);
        return;
      }
      var ok := store.MarkRunning(t.job, t.version);
      if !ok {
        return;
      }
      if t.doc !in store.docs || outcome.ending.RaisedLate? {
        store.Restore(saved);
        FailJob(t, outcome.recorded);
        return;
      }
      store.CompleteJob(t.job, t.doc, outcome.ending.contents);
      SwapIsComplete(saved, t, outcome.ending.contents);
      if outcome.ending.CommittedAndRaised? {
        FailJob(t, outcome.recorded);
      }
    }

    /** The third transaction, whose own failure is only logged. */
    method FailJob(t: Token, recorded: bool)
      modifies store
      ensures store.Contents() == Recovered(old(store.Contents()), t, recorded)
    {
      if recorded {
        store.FailJob(t.job, t.doc, t.attempt, t.maxAttempts);
      }
    }

    /** One turn of the loop: claim, and process what was claimed. */
    method Turn(poll: Poll, ghost ids: seq<JobId>)
      requires InPhase(Protocol.Idle)
      requires forall j | j in store.jobs :: j in ids
      modifies store, this`past
      ensures InPhase(Protocol.Idle) && store.jobs.Keys == old(store.jobs.Keys)
      ensures NoneClaimed(old(store.jobs)) && poll.outcome.recorded ==>
        && NoneClaimed(store.jobs)
        && (ClaimsLeft(ids, store.jobs) == 0 || ClaimsLeft(ids, store.jobs) < ClaimsLeft(ids, old(store.jobs)))
    {
      ghost var db := store.Contents();
      var claimed := ClaimNextJob(poll.now, poll.cutoff);
      if NoneClaimed(db.jobs) {
        NothingStale(db.jobs, poll.cutoff);
      }
      if claimed.Some? {
        ProcessSingleJob(claimed.value, poll.outcome);
        if NoneClaimed(db.jobs) && poll.outcome.recorded {
          TurnCosts(db, ids, claimed.value.job, id, poll.now, poll.outcome);
        }
      } else {
        NoneClaimableLeft(ids, store.jobs);
      }
    }

    /**
     The poll loop until shutdown. A worker that starts with no claim outstanding and whose
     fail_job always gets through has drained the queue once it has polled often enough.
     */
    method RunWorker(polls: seq<Poll>, ghost ids: seq<JobId>)
      requires InPhase(Protocol.Idle)
      requires forall j | j in store.jobs :: j in ids
      modifies store, this`past
      ensures InPhase(Protocol.Idle)
      ensures (&& NoneClaimed(old(store.jobs))
               && (forall i | 0 <= i < |polls| :: polls[i].outcome.recorded)
               && |polls| >= ClaimsLeft(ids, old(store.jobs)))
              ==> forall j | j in store.jobs :: store.jobs[j].status != Claimed && !Claimable(store.jobs[j])
    {
      ghost var orderly := NoneClaimed(store.jobs) && forall i | 0 <= i < |polls| :: polls[i].outcome.recorded;
      var i := 0;
      while i < |polls|
        invariant 0 <= i <= |polls|
        invariant InPhase(Protocol.Idle)
        invariant store.jobs.Keys == old(store.jobs.Keys)
        invariant orderly ==> NoneClaimed(store.jobs)
        invariant orderly ==> ClaimsLeft(ids, store.jobs) == 0 ||
                              ClaimsLeft(ids, store.jobs) + i <= ClaimsLeft(ids, old(store.jobs))
      {
        Turn(polls[i], ids);
        i := i + 1;
      }
      if ClaimsLeft(ids, store.jobs) == 0 {
        NothingLeft(ids, store.jobs);
      }
    }
  }
}
