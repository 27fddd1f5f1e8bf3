/**
 The fixed-window limiter of src/core/rate_limit.py, while Redis answers. The Lua script runs
 atomically, so a key sees one sequence of calls. Times are Redis's own, exact and
 non-decreasing. Whether a key is still there at the very instant of its expiry is left open:
 each call says what it finds then.
 */
module RateLimiting {
  import opened Common

  type Key = string

  datatype Counter = Counter(count: nat, expiresAt: real)

  /** `lingers`: a key that expires at this very instant is still there. */
  datatype Call = Call(maxRequests: int, window: int, now: real, lingers: bool)

  predicate Alive(c: Option<Counter>, call: Call) {
    c.Some? && (call.now < c.value.expiresAt || (call.lingers && call.now == c.value.expiresAt))
  }

  /** EXPIRE with a time of 0 or less deletes the key at once, so that has passed already. */
  function ExpiryOf(call: Call): real {
    call.now + (if call.window > 0 then call.window as real else -1.0)
  }

  /** INCR, then EXPIRE if this created the key. */
  function Incremented(c: Option<Counter>, call: Call): Counter {
    if Alive(c, call) then c.value.(count := c.value.count + 1) else Counter(1, ExpiryOf(call))
  }

  /** What the calls on one key leave behind. */
  function Replay(calls: seq<Call>): Option<Counter> {
    if calls == [] then None
    else Some(Incremented(Replay(calls[..|calls| - 1]), calls[|calls| - 1]))
  }

  /** The answer to the last of the calls. */
  predicate Granted(calls: seq<Call>)
    requires calls != []
  {
    Replay(calls).value.count <= calls[|calls| - 1].maxRequests
  }

  /** The calls granted with `from <= now < to`, or `from <= now <= to`. */
  function GrantedIn(calls: seq<Call>, from: real, to: real, closed: bool): nat {
    if calls == [] then 0
    else
      var now := calls[|calls| - 1].now;
      GrantedIn(calls[..|calls| - 1], from, to, closed)
      + (if Granted(calls) && from <= now && (now < to || (closed && now == to)) then 1 else 0)
  }

  /** The calls granted since the current counter was created. */
  function GrantedByCounter(calls: seq<Call>): nat {
    if calls == [] then 0
    else
      var before := calls[..|calls| - 1];
      (if Alive(Replay(before), calls[|calls| - 1]) then GrantedByCounter(before) else 0)
      + (if Granted(calls) then 1 else 0)
  }

  ghost predicate Ordered(calls: seq<Call>) {
    forall i, k | 0 <= i < k < |calls| :: calls[i].now <= calls[k].now
  }

  /** One limit for the key, and one clock: keys linger at their expiry or they do not. */
  ghost predicate SameLimit(calls: seq<Call>, maxRequests: int, window: int, lingers: bool) {
    forall i | 0 <= i < |calls| ::
      calls[i].maxRequests == maxRequests && calls[i].window == window && calls[i].lingers == lingers
  }

  // ---------------------------------------------------------------- one counter lifetime

  /** A counter grants its first maxRequests calls and no other. */
  lemma {:induction false} CounterGrantsFirst(calls: seq<Call>, maxRequests: nat, window: int, lingers: bool)
    requires SameLimit(calls, maxRequests, window, lingers) && calls != []
    ensures GrantedByCounter(calls) == Min(Replay(calls).value.count, maxRequests)
  {
    if |calls| > 1 {
      CounterGrantsFirst(calls[..|calls| - 1], maxRequests, window, lingers);
    }
  }

  /** No call on a live counter, granted or denied, moves its end; and a denial stays one until then. */
  lemma CallsNeverExtend(calls: seq<Call>, call: Call)
    requires calls != [] && Alive(Replay(calls), call)
    ensures Replay(calls + [call]).value.expiresAt == Replay(calls).value.expiresAt
    ensures !Granted(calls) && call.maxRequests == calls[|calls| - 1].maxRequests ==> !Granted(calls + [call])
  {
    assert (calls + [call])[..|calls|] == calls;
  }

  // ---------------------------------------------------------------- any interval of one window

  /**
   What a prefix of the calls has granted in the interval, by where its counter began. `loose`:
   counters may begin at both ends of it.
   */
  ghost predicate Bounded(calls: seq<Call>, maxRequests: nat, window: int, from: real, to: real, closed: bool,
                          loose: bool) {
    var granted := GrantedIn(calls, from, to, closed);
    && (calls == [] ==> granted == 0)
    && (calls != [] ==>
          var last, c := calls[|calls| - 1].now, Replay(calls).value;
          var begin := c.expiresAt - window as real;
          && c.count >= 1
          && begin <= last <= c.expiresAt
          && (last < from ==> granted == 0)
          && (begin < from ==> granted <= Max(0, Min(c.count, maxRequests) - 1))
          && (begin == from ==> granted <= Min(c.count, maxRequests))
          && (from < begin && (begin < to || (closed && begin == to)) ==>
                granted <= Min(c.count, maxRequests) + (if loose then maxRequests else Max(0, maxRequests - 1)))
          && granted <= (if loose then 2 * maxRequests else Max(0, 2 * maxRequests - 1)))
  }

  lemma {:induction false} RunIsBounded(calls: seq<Call>, maxRequests: nat, window: int, from: real, to: real,
                                        closed: bool, loose: bool, lingers: bool)
    requires SameLimit(calls, maxRequests, window, lingers) && Ordered(calls)
    requires window > 0 && to - from <= window as real
    requires loose == (closed && !lingers)
    ensures Bounded(calls, maxRequests, window, from, to, closed, loose)
  {
    if calls != [] {
      RunIsBounded(calls[..|calls| - 1], maxRequests, window, from, to, closed, loose, lingers);
    }
  }

  /**
   A closed interval one window long sees at most 2 * maxRequests granted calls, and one fewer if
   keys are still there at the instant of their expiry.
   */
  lemma SlidingBound(calls: seq<Call>, maxRequests: nat, window: int, lingers: bool, from: real, to: real)
    requires SameLimit(calls, maxRequests, window, lingers) && Ordered(calls)
    requires window > 0 && to - from <= window as real
    ensures GrantedIn(calls, from, to, true) <= 2 * maxRequests
    ensures lingers ==> GrantedIn(calls, from, to, true) <= Max(0, 2 * maxRequests - 1)
  {
    RunIsBounded(calls, maxRequests, window, from, to, true, !lingers, lingers);
  }

  /** A half-open one sees at most 2 * maxRequests - 1, whatever the window. */
  lemma HalfOpenBound(calls: seq<Call>, maxRequests: nat, window: int, lingers: bool, from: real, to: real)
    requires SameLimit(calls, maxRequests, window, lingers) && Ordered(calls)
    requires to - from <= window as real
    ensures GrantedIn(calls, from, to, false) <= Max(0, 2 * maxRequests - 1)
  {
    if window > 0 {
      RunIsBounded(calls, maxRequests, window, from, to, false, false, lingers);
    } else {
      EmptyInterval(calls, from, to);
    }
  }

  lemma {:induction false} EmptyInterval(calls: seq<Call>, from: real, to: real)
    requires to <= from
    ensures GrantedIn(calls, from, to, false) == 0
  {
    if calls != [] {
      EmptyInterval(calls[..|calls| - 1], from, to);
    }
  }

  // ---------------------------------------------------------------- the bound is reached

  function Repeat(call: Call, n: nat): (calls: seq<Call>)
    ensures |calls| == n && forall i | 0 <= i < n :: calls[i] == call
  {
    if n == 0 then [] else Repeat(call, n - 1) + [call]
  }

  lemma ReplayOne(calls: seq<Call>, call: Call, from: real, to: real, closed: bool)
    ensures Replay(calls + [call]) == Some(Incremented(Replay(calls), call))
    ensures Granted(calls + [call]) == (Incremented(Replay(calls), call).count <= call.maxRequests)
    ensures GrantedIn(calls + [call], from, to, closed) == GrantedIn(calls, from, to, closed)
      + (if Granted(calls + [call]) && from <= call.now && (call.now < to || (closed && call.now == to)) then 1 else 0)
  {
    assert (calls + [call])[..|calls|] == calls;
  }

  predicate Within(now: real, from: real, to: real, closed: bool) {
    from <= now && (now < to || (closed && now == to))
  }

  lemma RepeatOne(call: Call, n: nat, before: seq<Call>)
    requires n > 0
    ensures before + Repeat(call, n) == (before + Repeat(call, n - 1)) + [call]
  {
  }

  /** One more call that is granted; `c` is what the calls have left behind. */
  lemma GrantedCall(calls: seq<Call>, call: Call, c: Option<Counter>, from: real, to: real, closed: bool)
    requires Replay(calls) == c && Incremented(c, call).count <= call.maxRequests
    ensures Replay(calls + [call]) == Some(Incremented(c, call))
    ensures GrantedIn(calls + [call], from, to, closed)
         == GrantedIn(calls, from, to, closed) + (if Within(call.now, from, to, closed) then 1 else 0)
  {
    ReplayOne(calls, call, from, to, closed);
  }

  /** n calls at one instant on a counter that is alive and has room for them. */
  lemma {:induction false} Burst(calls: seq<Call>, call: Call, n: nat, c: Counter, from: real, to: real, closed: bool)
    requires Replay(calls) == Some(c) && Alive(Some(c), call) && c.count + n <= call.maxRequests
    ensures Replay(calls + Repeat(call, n)) == Some(Counter(c.count + n, c.expiresAt))
    ensures GrantedIn(calls + Repeat(call, n), from, to, closed)
         == GrantedIn(calls, from, to, closed) + (if Within(call.now, from, to, closed) then n else 0)
  {
    if n == 0 {
      assert calls + Repeat(call, n) == calls;
    } else {
      Burst(calls, call, n - 1, c, from, to, closed);
      RepeatOne(call, n, calls);
      GrantedCall(calls + Repeat(call, n - 1), call, Some(Counter(c.count + n - 1, c.expiresAt)), from, to, closed);
    }
  }

  /** n calls at one instant, the first of which creates a counter. */
  lemma NewBurst(calls: seq<Call>, call: Call, n: nat, c: Option<Counter>, from: real, to: real, closed: bool)
    requires Replay(calls) == c && !Alive(c, call) && call.window > 0 && 1 <= n <= call.maxRequests
    ensures Replay(calls + Repeat(call, n)) == Some(Counter(n, call.now + call.window as real))
    ensures GrantedIn(calls + Repeat(call, n), from, to, closed)
         == GrantedIn(calls, from, to, closed) + (if Within(call.now, from, to, closed) then n else 0)
  {
    GrantedCall(calls, call, c, from, to, closed);
    Burst(calls + [call], call, n - 1, Counter(1, call.now + call.window as real), from, to, closed);
    assert calls + Repeat(call, n) == (calls + [call]) + Repeat(call, n - 1);
  }

  lemma BurstIsOrdered(first: seq<Call>, call: Call, n: nat)
    requires SameLimit(first, call.maxRequests, call.window, call.lingers) && Ordered(first)
    requires first != [] ==> first[|first| - 1].now <= call.now
    ensures SameLimit(first + Repeat(call, n), call.maxRequests, call.window, call.lingers)
    ensures Ordered(first + Repeat(call, n))
  {
  }

  /**
   The bound of the closed interval is reached if a key is gone at the instant of its expiry:
   maxRequests calls at once, and as many when the window ends.
   */
  lemma SlidingBoundIsTight(maxRequests: nat, window: int) returns (calls: seq<Call>)
    requires window > 0
    ensures SameLimit(calls, maxRequests, window, false) && Ordered(calls)
    ensures GrantedIn(calls, 0.0, window as real, true) == 2 * maxRequests
  {
    var w := window as real;
    var early, late := Call(maxRequests, window, 0.0, false), Call(maxRequests, window, w, false);
    var first := [] + Repeat(early, maxRequests);
    calls := first + Repeat(late, maxRequests);
    BurstIsOrdered([], early, maxRequests);
    BurstIsOrdered(first, late, maxRequests);
    if maxRequests > 0 {
      NewBurst([], early, maxRequests, None, 0.0, w, true);
      NewBurst(first, late, maxRequests, Some(Counter(maxRequests, w)), 0.0, w, true);
    } else {
      assert calls == [];
    }
  }

  /** One call at 0, and the rest of its counter later on. */
  function SplitCounter(early: Call, middle: Call, n: nat): seq<Call> {
    [early] + Repeat(middle, n)
  }

  lemma SplitIsOrdered(early: Call, middle: Call, n: nat)
    requires early.window == middle.window && early.maxRequests == middle.maxRequests
    requires early.lingers == middle.lingers && early.now <= middle.now
    ensures SameLimit(SplitCounter(early, middle, n), middle.maxRequests, middle.window, middle.lingers)
    ensures Ordered(SplitCounter(early, middle, n))
  {
    BurstIsOrdered([early], middle, n);
  }

  lemma SplitGrants(early: Call, middle: Call, n: nat, end: real, from: real, to: real)
    requires early.window > 0 && ExpiryOf(early) == end && n + 1 <= middle.maxRequests && 1 <= early.maxRequests
    requires early.now < from <= middle.now < to && middle.now < end
    ensures Replay(SplitCounter(early, middle, n)) == Some(Counter(n + 1, end))
    ensures GrantedIn(SplitCounter(early, middle, n), from, to, false) == n
  {
    GrantedCall([], early, None, from, to, false);
    assert [] + [early] == [early];
    Burst([early], middle, n, Counter(1, end), from, to, false);
  }

  /** That of the half-open interval is reached either way: then a full counter follows. */
  lemma HalfOpenBoundIsTight(maxRequests: nat, window: int, lingers: bool) returns (calls: seq<Call>, from: real)
    requires window > 0 && maxRequests > 0
    ensures SameLimit(calls, maxRequests, window, lingers) && Ordered(calls)
    ensures GrantedIn(calls, from, from + window as real, false) == 2 * maxRequests - 1
  {
    var w := window as real;
    from := w / 2.0;
    var early, middle := Call(maxRequests, window, 0.0, lingers), Call(maxRequests, window, from, lingers);
    var late := Call(maxRequests, window, 1.25 * w, lingers);
    var first := SplitCounter(early, middle, maxRequests - 1);
    SplitIsOrdered(early, middle, maxRequests - 1);
    SplitGrants(early, middle, maxRequests - 1, w, from, from + w);
    calls := first + Repeat(late, maxRequests);
    BurstIsOrdered(first, late, maxRequests);
    NewBurst(first, late, maxRequests, Some(Counter(maxRequests, w)), from, from + w, false);
  }

  // ---------------------------------------------------------------- the object

  /** The calls that concern one key. */
  ghost function CallsOf(log: seq<(Key, Call)>, key: Key): seq<Call> {
    if log == [] then []
    else CallsOf(log[..|log| - 1], key) + (if log[|log| - 1].0 == key then [log[|log| - 1].1] else [])
  }

  lemma LogOne(log: seq<(Key, Call)>, key: Key, call: Call)
    ensures forall k :: CallsOf(log + [(key, call)], k) == CallsOf(log, k) + (if k == key then [call] else [])
  {
    assert (log + [(key, call)])[..|log|] == log;
  }

  class RateLimiter {
    var counters: map<Key, Counter>
    ghost var log: seq<(Key, Call)>

    function Find(key: Key): Option<Counter>
      reads this
    {
      if key in counters then Some(counters[key]) else None
    }

    /** Every key's counter is what the calls on that key alone have made it. */
    ghost predicate Valid()
      reads this
    {
      forall key :: Find(key) == Replay(CallsOf(log, key))
    }

    constructor ()
      ensures Valid() && log == []
    {
      counters := map[];
      log := [];
    }

    method IsAllowed(key: Key, maxRequests: int, window: int, now: real, lingers: bool) returns (allowed: bool)
      requires Valid()
      modifies this
      ensures Valid()
      ensures log == old(log) + [(key, Call(maxRequests, window, now, lingers))]
      ensures CallsOf(log, key) == CallsOf(old(log), key) + [Call(maxRequests, window, now, lingers)]
      ensures allowed == Granted(CallsOf(log, key))
      ensures forall other | other != key :: CallsOf(log, other) == CallsOf(old(log), other)
    {
      var call := Call(maxRequests, window, now, lingers);
      ghost var calls := CallsOf(log, key);
      assert Find(key) == Replay(calls);
      var counter :=
        if key in counters && Alive(Some(counters[key]), call)
        then Counter(counters[key].count + 1, counters[key].expiresAt)
        else Counter(1, ExpiryOf(call));
      assert counter == Incremented(Replay(calls), call);
      LogOne(log, key, call);
      ReplayOne(calls, call, 0.0, 0.0, false);
      counters := counters[key := counter];
      log := log + [(key, call)];
      forall k ensures Find(k) == Replay(CallsOf(log, k)) {
        if k != key {
          assert CallsOf(log, k) == CallsOf(old(log), k) && Find(k) == old(Find(k));
        }
      }
      allowed := counter.count <= maxRequests;
    }
  }
}
