/**
 The circuit breaker of src/evaluation/llm_gateway.py: a three-state machine that admits a
 call exactly when a rule about the past outcomes says so. Times are exact reals read from a
 monotone clock.
 */
module CircuitBreakers {
  import opened Common

  datatype CircuitState = Closed | Open | HalfOpen

  datatype Breaker = Breaker(state: CircuitState, failureCount: nat, lastFailureTime: real)

  /** What callers may do to the breaker, in the order in which they get its lock. */
  datatype Event = Check(now: real) | Success | Failure(now: real)

  const FRESH := Breaker(Closed, 0, 0.0)

  predicate Admits(b: Breaker, timeout: real, now: real) {
    b.state != Open || now - b.lastFailureTime >= timeout
  }

  function Apply(b: Breaker, threshold: int, timeout: real, e: Event): Breaker {
    match e
    case Check(now) => if b.state == Open && Admits(b, timeout, now) then b.(state := HalfOpen) else b
    case Success => b.(state := Closed, failureCount := 0)
    case Failure(now) =>
      var counted := b.(failureCount := b.failureCount + 1, lastFailureTime := now);
      if b.state == HalfOpen || counted.failureCount >= threshold then counted.(state := Open) else counted
  }

  function Replay(log: seq<Event>, threshold: int, timeout: real): Breaker {
    if log == [] then FRESH
    else Apply(Replay(log[..|log| - 1], threshold, timeout), threshold, timeout, log[|log| - 1])
  }

  // ---------------------------------------------------------------- the rule about the log

  /** The failures since the last success. */
  function TrailingFailures(log: seq<Event>): nat {
    if log == [] then 0
    else match log[|log| - 1]
      case Check(_) => TrailingFailures(log[..|log| - 1])
      case Success => 0
      case Failure(_) => TrailingFailures(log[..|log| - 1]) + 1
  }

  /** The time of the last failure, 0 if there was none. */
  function LastFailure(log: seq<Event>): real {
    if log == [] then 0.0
    else if log[|log| - 1].Failure? then log[|log| - 1].now
    else LastFailure(log[..|log| - 1])
  }

  predicate RuleAdmits(log: seq<Event>, threshold: int, timeout: real, now: real) {
    TrailingFailures(log) < Max(1, threshold) || now - LastFailure(log) >= timeout
  }

  /** The clock readings of the log never decrease and do not pass `now`. */
  ghost predicate Monotone(log: seq<Event>, now: real) {
    && (forall i | 0 <= i < |log| && !log[i].Success? :: log[i].now <= now)
    && (forall i, k | 0 <= i < k < |log| && !log[i].Success? && !log[k].Success? :: log[i].now <= log[k].now)
  }

  /** Closed means fewer failures in a row than the threshold; half-open means the timeout has passed. */
  ghost predicate Sound(b: Breaker, log: seq<Event>, threshold: int, timeout: real, now: real) {
    && b.failureCount == TrailingFailures(log)
    && b.lastFailureTime == LastFailure(log)
    && (b.state == Closed <==> b.failureCount < Max(1, threshold))
    && (b.state == HalfOpen ==> now - b.lastFailureTime >= timeout)
  }

  lemma {:induction false} ReplayIsSound(log: seq<Event>, threshold: int, timeout: real, now: real)
    requires Monotone(log, now)
    ensures Sound(Replay(log, threshold, timeout), log, threshold, timeout, now)
    decreases |log|
  {
    if log != [] {
      var n := |log| - 1;
      var earlier := if log[n].Success? then now else log[n].now;
      assert Monotone(log[..n], earlier);
      ReplayIsSound(log[..n], threshold, timeout, earlier);
    }
  }

  /**
   After any interleaving of checks, successes and failures, check admits exactly when the run
   of failures is shorter than the threshold or the timeout has passed since the last one. A
   threshold below 1 acts like 1.
   */
  lemma CheckFollowsRule(log: seq<Event>, threshold: int, timeout: real, now: real)
    requires Monotone(log, now)
    ensures Admits(Replay(log, threshold, timeout), timeout, now) <==> RuleAdmits(log, threshold, timeout, now)
  {
    ReplayIsSound(log, threshold, timeout, now);
  }

  lemma ReplayOne(log: seq<Event>, threshold: int, timeout: real, e: Event)
    ensures Replay(log + [e], threshold, timeout) == Apply(Replay(log, threshold, timeout), threshold, timeout, e)
  {
    assert (log + [e])[..|log|] == log;
  }

  // ---------------------------------------------------------------- how many probes

  function Checks(nows: seq<real>): seq<Event> {
    seq(|nows|, i requires 0 <= i < |nows| => Check(nows[i]))
  }

  ghost predicate NoSuccess(events: seq<Event>) {
    forall i | 0 <= i < |events| :: !events[i].Success?
  }

  ghost predicate NoFailure(events: seq<Event>) {
    forall i | 0 <= i < |events| :: !events[i].Failure?
  }

  /** Without a success the run of failures goes on; without a failure its end stays where it is. */
  lemma {:induction false} WithoutSuccess(log: seq<Event>, more: seq<Event>, since: real)
    requires NoSuccess(more) && forall i | 0 <= i < |more| && more[i].Failure? :: more[i].now >= since
    ensures TrailingFailures(log + more) >= TrailingFailures(log)
    ensures NoFailure(more) ==> LastFailure(log + more) == LastFailure(log)
    ensures !NoFailure(more) ==> LastFailure(log + more) >= since
    decreases |more|
  {
    if more == [] {
      assert log + more == log;
    } else {
      var n := |more| - 1;
      WithoutSuccess(log, more[..n], since);
      assert (log + more)[..|log + more| - 1] == log + more[..n];
      assert more == more[..n] + [more[n]];
    }
  }

  /**
   Half-open is not one probe. After the timeout every check gets through, one after the other,
   as long as no outcome is recorded.
   */
  lemma HalfOpenAdmitsEveryone(log: seq<Event>, nows: seq<real>, threshold: int, timeout: real, k: nat)
    requires k < |nows| && Monotone(log + Checks(nows[..k]), nows[k])
    requires TrailingFailures(log) >= Max(1, threshold) && nows[0] - LastFailure(log) >= timeout
    ensures Admits(Replay(log + Checks(nows[..k]), threshold, timeout), timeout, nows[k])
    ensures var b := Replay(log + Checks(nows[..k]), threshold, timeout);
      Apply(b, threshold, timeout, Check(nows[k])).state == HalfOpen
  {
    var checked := log + Checks(nows[..k]);
    assert k > 0 ==> checked[|log|] == Check(nows[0]);
    WithoutSuccess(log, Checks(nows[..k]), 0.0);
    ReplayIsSound(checked, threshold, timeout, nows[k]);
    CheckFollowsRule(checked, threshold, timeout, nows[k]);
  }

  /**
   A second call within one timeout of the probe is refused exactly if the probe, or another
   call, has failed in the meantime. So one call for each timeout is what a caller gets that
   waits for the outcome before it checks again.
   */
  lemma SecondProbeIff(log: seq<Event>, more: seq<Event>, threshold: int, timeout: real, now: real, later: real)
    requires TrailingFailures(log) >= Max(1, threshold) && RuleAdmits(log, threshold, timeout, now)
    requires Monotone(log + [Check(now)] + more, later) && later - now < timeout && NoSuccess(more)
    ensures Admits(Replay(log + [Check(now)] + more, threshold, timeout), timeout, later) <==> NoFailure(more)
  {
    var probed := log + [Check(now)];
    var all := probed + more;
    assert probed[..|log|] == log;
    assert all[|log|] == Check(now);
    forall i | 0 <= i < |more| && more[i].Failure? ensures more[i].now >= now {
      assert all[|probed| + i] == more[i];
    }
    WithoutSuccess(probed, more, now);
    CheckFollowsRule(all, threshold, timeout, later);
    if NoFailure(more) {
      assert all[|log|].now <= later;
    }
  }

  // ---------------------------------------------------------------- the object

  class CircuitBreaker {
    const failureThreshold: int
    const recoveryTimeout: real
    var state: CircuitState
    var failureCount: nat
    var lastFailureTime: real
    ghost var log: seq<Event>

    /** The fields are what the log says. */
    ghost predicate Valid()
      reads this
    {
      Breaker(state, failureCount, lastFailureTime) == Replay(log, failureThreshold, recoveryTimeout)
    }

    constructor (failureThreshold: int, recoveryTimeout: real)
      ensures this.failureThreshold == failureThreshold && this.recoveryTimeout == recoveryTimeout
      ensures Valid() && log == [] && state == Closed
    {
      this.failureThreshold := failureThreshold;
      this.recoveryTimeout := recoveryTimeout;
      state := Closed;
      failureCount := 0;
      lastFailureTime := 0.0;
      log := [];
    }

    /** Returns false where the source raises ExternalServiceError. */
    method Check(now: real) returns (admitted: bool)
      requires Valid() && Monotone(log, now)
      modifies this
      ensures Valid() && log == old(log) + [Event.Check(now)]
      ensures admitted <==> RuleAdmits(old(log), failureThreshold, recoveryTimeout, now)
      ensures failureCount == old(failureCount) && lastFailureTime == old(lastFailureTime)
    {
      CheckFollowsRule(log, failureThreshold, recoveryTimeout, now);
      ReplayOne(log, failureThreshold, recoveryTimeout, Event.Check(now));
      log := log + [Event.Check(now)];
      if state == Closed {
        return true;
      }
      if state == Open {
        var elapsed := now - lastFailureTime;
        if elapsed >= recoveryTimeout {
          state := HalfOpen;
          return true;
        }
        return false;
      }
      return true;
    }

    method RecordSuccess()
      requires Valid()
      modifies this
      ensures Valid() && log == old(log) + [Success]
      ensures state == Closed && failureCount == 0 && lastFailureTime == old(lastFailureTime)
    {
      ghost var was := Replay(log, failureThreshold, recoveryTimeout);
      ReplayOne(log, failureThreshold, recoveryTimeout, Success);
      assert Replay(log + [Success], failureThreshold, recoveryTimeout) == was.(state := Closed, failureCount := 0);
      log := log + [Success];
      failureCount := 0;
      state := Closed;
    }

    method RecordFailure(now: real)
      requires Valid() && Monotone(log, now)
      modifies this
      ensures Valid() && log == old(log) + [Failure(now)]
      ensures failureCount == old(failureCount) + 1 && lastFailureTime == now
      ensures state == if failureCount < Max(1, failureThreshold) then Closed else Open
    {
      ReplayIsSound(log, failureThreshold, recoveryTimeout, now);
      ReplayOne(log, failureThreshold, recoveryTimeout, Failure(now));
      log := log + [Failure(now)];
      failureCount := failureCount + 1;
      lastFailureTime := now;
      if state == HalfOpen {
        state := Open;
      } else if failureCount >= failureThreshold {
        state := Open;
      }
    }
  }

  // ---------------------------------------------------------------- one caller at a time during an outage

  /** LLMGateway.complete: check, then the call, then its outcome. `calls` counts the calls made. */
  class Gateway {
    const breaker: CircuitBreaker
    ghost var calls: seq<real>

    constructor (breaker: CircuitBreaker)
      ensures this.breaker == breaker && calls == []
    {
      this.breaker := breaker;
      calls := [];
    }

    /** `now` is when the check runs, `end` when the call has come back. */
    method Complete(now: real, end: real, answered: bool) returns (called: bool)
      requires breaker.Valid() && Monotone(breaker.log, now) && now <= end
      modifies breaker, this`calls
      ensures breaker.Valid()
      ensures called <==> RuleAdmits(old(breaker.log), breaker.failureThreshold, breaker.recoveryTimeout, now)
      ensures calls == if called then old(calls) + [now] else old(calls)
      ensures breaker.log == old(breaker.log) + [Event.Check(now)]
                             + (if !called then [] else if answered then [Success] else [Failure(end)])
    {
      called := breaker.Check(now);
      if !called {
        return;
      }
      calls := calls + [now];
      if answered {
        breaker.RecordSuccess();
      } else {
        breaker.RecordFailure(end);
      }
    }

    /**
     An outage seen by a lone caller: from a fresh breaker every call fails. At most
     max(1, threshold) calls get through, plus one for each full timeout of the time that has
     passed since the first.
     */
    method Outage(starts: seq<real>, ends: seq<real>)
      requires breaker.Valid() && breaker.log == [] && calls == []
      requires breaker.recoveryTimeout > 0.0
      requires |starts| == |ends| > 0
      requires forall i | 0 <= i < |starts| :: starts[i] <= ends[i] && (i > 0 ==> ends[i - 1] <= starts[i])
      modifies breaker, this`calls
      ensures Within(|calls|, Max(1, breaker.failureThreshold), breaker.recoveryTimeout, ends[|ends| - 1] - starts[0])
    {
      var i := 0;
      while i < |starts|
        invariant 0 <= i <= |starts|
        invariant breaker.Valid()
        invariant i == 0 ==> breaker.log == [] && calls == []
        invariant i > 0 ==> InOutage(breaker.log, |calls|, breaker.failureThreshold, breaker.recoveryTimeout,
                                     starts[0], ends[i - 1])
      {
        ghost var log, made := breaker.log, |calls|;
        OutageStep(log, made, breaker.failureThreshold, breaker.recoveryTimeout, starts[0],
                   if i == 0 then starts[0] else ends[i - 1], starts[i], ends[i]);
        var called := Complete(starts[i], ends[i], false);
        assert |calls| == if called then made + 1 else made;
        i := i + 1;
      }
    }
  }

  /** Nothing but failures since `first`, as many as there were calls. */
  ghost predicate InOutage(log: seq<Event>, calls: nat, threshold: int, timeout: real, first: real, now: real) {
    && Monotone(log, now) && first <= now
    && TrailingFailures(log) == calls
    && (calls > 0 ==> first <= LastFailure(log) <= now)
    && Within(calls, Max(1, threshold), timeout, if calls > 0 then LastFailure(log) - first else 0.0)
    && Within(calls, Max(1, threshold), timeout, now - first)
  }

  lemma OutageStep(log: seq<Event>, calls: nat, threshold: int, timeout: real, first: real, before: real, now: real,
                   end: real)
    requires timeout > 0.0 && before <= now <= end
    requires InOutage(log, calls, threshold, timeout, first, before)
    ensures Monotone(log, now)
    ensures RuleAdmits(log, threshold, timeout, now) ==>
      InOutage(log + [Check(now)] + [Failure(end)], calls + 1, threshold, timeout, first, end)
    ensures !RuleAdmits(log, threshold, timeout, now) ==>
      InOutage(log + [Check(now)] + [], calls, threshold, timeout, first, end)
  {
    LogAfter(log, now, end);
    if RuleAdmits(log, threshold, timeout, now) {
      OneMore(calls, Max(1, threshold), timeout, if calls > 0 then LastFailure(log) - first else 0.0, end - first);
    }
  }

  /** The calls beyond the threshold fit into `span`, one per timeout. */
  ghost predicate Within(calls: nat, threshold: int, timeout: real, span: real) {
    calls > threshold ==> timeout * (calls - threshold) as real <= span
  }

  lemma OneMore(calls: nat, threshold: int, timeout: real, span: real, span': real)
    requires threshold >= 1 && timeout > 0.0
    requires calls > 0 ==> Within(calls, threshold, timeout, span) && span >= 0.0
    requires calls >= threshold ==> span' - span >= timeout
    ensures Within(calls + 1, threshold, timeout, span')
  {
    if calls >= threshold {
      var k := (calls - threshold) as real;
      assert (calls + 1 - threshold) as real == k + 1.0;
      assert timeout * (k + 1.0) == timeout * k + timeout;
    }
  }

  lemma LogAfter(log: seq<Event>, now: real, end: real)
    requires Monotone(log, now) && now <= end
    ensures var denied, failed := log + [Check(now)] + [], log + [Check(now)] + [Failure(end)];
      && Monotone(denied, end) && Monotone(failed, end)
      && TrailingFailures(denied) == TrailingFailures(log) && LastFailure(denied) == LastFailure(log)
      && TrailingFailures(failed) == TrailingFailures(log) + 1 && LastFailure(failed) == end
  {
    var checked := log + [Check(now)];
    assert checked + [] == checked;
    assert checked[..|log|] == log;
    assert (checked + [Failure(end)])[..|checked|] == checked;
  }
}
