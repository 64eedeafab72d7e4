// The in-memory sliding-window limiter of internal/middleware/ratelimit/ratelimit.go:
// what one call does, and what holds of every run of calls. Times are nanoseconds.

module SlidingWindow {

  datatype Rule = Rule(limit: int, window: int)

  /** The accepted times kept for each key. */
  type Store = map<string, seq<int>>

  // ----- one call -----

  /** The times later than `start`, in order. */
  function Retain(times: seq<int>, start: int): seq<int>
    decreases |times|
  {
    if times == [] then []
    else
      var last := times[|times| - 1];
      var front := Retain(times[..|times| - 1], start);
      if last > start then front + [last] else front
  }

  function Kept(store: Store, key: string): seq<int> {
    if key in store then store[key] else []
  }

  predicate Admits(rule: Rule, store: Store, key: string, now: int) {
    |Retain(Kept(store, key), now - rule.window)| < rule.limit
  }

  function AfterAllow(rule: Rule, store: Store, key: string, now: int): Store {
    var kept := Retain(Kept(store, key), now - rule.window);
    store[key := if |kept| < rule.limit then kept + [now] else kept]
  }

  function AfterReset(store: Store, key: string): Store {
    store - {key}
  }

  class MemoryRateLimiter {
    var requests: Store
    const limit: int
    const window: int

    function TheRule(): Rule { Rule(limit, window) }

    constructor (limit: int, window: int)
      ensures TheRule() == Rule(limit, window) && requests == map[]
    {
      this.limit, this.window := limit, window;
      requests := map[];
    }

    method Allow(key: string, now: int) returns (ok: bool)
      modifies this
      ensures ok == Admits(TheRule(), old(requests), key, now)
      ensures requests == AfterAllow(TheRule(), old(requests), key, now)
    {
      var windowStart := now - window;
      if key in requests {
        var times := requests[key];
        var validTimes := [];
        for i := 0 to |times|
          invariant validTimes == Retain(times[..i], windowStart)
        {
          assert times[..i + 1][..i] == times[..i];
          if times[i] > windowStart {
            validTimes := validTimes + [times[i]];
          }
        }
        assert times[..|times|] == times;
        requests := requests[key := validTimes];
      } else {
        requests := requests[key := []];
      }
      if |requests[key]| >= limit {
        return false;
      }
      requests := requests[key := requests[key] + [now]];
      return true;
    }

    method Reset(key: string)
      modifies this
      ensures requests == AfterReset(old(requests), key)
    {
      requests := requests - {key};
    }
  }

  // ----- runs of calls -----

  datatype Call = Allow(key: string, now: int) | Reset(key: string)

  function AfterCall(rule: Rule, store: Store, call: Call): Store {
    match call
    case Allow(key, now) => AfterAllow(rule, store, key, now)
    case Reset(key) => AfterReset(store, key)
  }

  function Run(rule: Rule, calls: seq<Call>): Store
    decreases |calls|
  {
    if calls == [] then map[]
    else AfterCall(rule, Run(rule, calls[..|calls| - 1]), calls[|calls| - 1])
  }

  /** The clock never goes back. */
  ghost predicate Ordered(calls: seq<Call>) {
    forall i, j | 0 <= i < j < |calls| && calls[i].Allow? && calls[j].Allow? :: calls[i].now <= calls[j].now
  }

  /** Every time accepted for `key` since its last reset. */
  function Log(rule: Rule, calls: seq<Call>, key: string): seq<int>
    decreases |calls|
  {
    if calls == [] then []
    else
      var before := calls[..|calls| - 1];
      match calls[|calls| - 1]
      case Allow(k, now) =>
        if k == key && Admits(rule, Run(rule, before), key, now)
        then Log(rule, before, key) + [now] else Log(rule, before, key)
      case Reset(k) => if k == key then [] else Log(rule, before, key)
  }

  /** How many of the times lie in [lo, hi). */
  function Count(times: seq<int>, lo: int, hi: int): nat
    decreases |times|
  {
    if times == [] then 0
    else
      Count(times[..|times| - 1], lo, hi) + if lo <= times[|times| - 1] < hi then 1 else 0
  }

  /** The reference limiter: it forgets nothing and counts the accepted times in (now - window, now]. */
  function FullLog(rule: Rule, calls: seq<Call>, key: string): seq<int>
    decreases |calls|
  {
    if calls == [] then []
    else
      var before := FullLog(rule, calls[..|calls| - 1], key);
      match calls[|calls| - 1]
      case Allow(k, now) =>
        if k == key && ReferenceAdmits(rule, before, now) then before + [now] else before
      case Reset(k) => if k == key then [] else before
  }

  predicate ReferenceAdmits(rule: Rule, accepted: seq<int>, now: int) {
    Count(accepted, now - rule.window + 1, now + 1) < rule.limit
  }

  ghost predicate Sorted(times: seq<int>) {
    forall i, j | 0 <= i < j < |times| :: times[i] <= times[j]
  }

  /** Any limit + 1 consecutive times span at least the window; nothing at all under a limit of zero or less. */
  ghost predicate Spaced(rule: Rule, times: seq<int>) {
    if rule.limit <= 0 then times == []
    else forall i, j | 0 <= i < j < |times| && j - i == rule.limit :: times[j] - times[i] >= rule.window
  }

  // ----- lists of times -----

  // Entries at or before `start` at the front make no difference.
  lemma {:induction false} RetainDropsOld(times: seq<int>, e: nat, start: int)
    requires e <= |times| && forall i | 0 <= i < e :: times[i] <= start
    ensures Retain(times[e..], start) == Retain(times, start)
    decreases |times|
  {
    if times == [] {
    } else if e == |times| {
      RetainDropsOld(times[..e - 1], e - 1, start);
    } else {
      var n := |times| - 1;
      RetainDropsOld(times[..n], e, start);
      assert times[e..][..n - e] == times[..n][e..];
    }
  }

  lemma {:induction false} RetainShortens(times: seq<int>, start: int)
    ensures |Retain(times, start)| <= |times|
    decreases |times|
  {
    if times == [] {
    } else {
      RetainShortens(times[..|times| - 1], start);
    }
  }

  lemma NothingToRetain(start: int)
    ensures Retain([], start) == []
  {
  }

  lemma {:induction false} RetainIsSuffix(times: seq<int>, start: int) returns (d: nat)
    requires Sorted(times)
    ensures d <= |times| && Retain(times, start) == times[d..]
    ensures forall i | 0 <= i < d :: times[i] <= start
    ensures forall i | d <= i < |times| :: times[i] > start
    decreases |times|
  {
    if times == [] {
      d := 0;
    } else {
      var n := |times| - 1;
      var front, last := times[..n], times[n];
      assert times == front + [last];
      if last > start {
        d := RetainIsSuffix(front, start);
        assert times[d..] == front[d..] + [last];
      } else {
        hide Retain;
        d := |times|;
        assert forall i | 0 <= i < d :: times[i] <= last;
        RetainDropsOld(times, d, start);
        NothingToRetain(start);
        assert times[d..] == [];
      }
    }
  }

  lemma {:induction false} CountBounds(times: seq<int>, d: nat, lo: int, hi: int)
    requires d <= |times| && forall i | 0 <= i < d :: times[i] < lo
    ensures Count(times, lo, hi) <= |times| - d
    ensures (forall i | d <= i < |times| :: lo <= times[i] < hi) ==> Count(times, lo, hi) == |times| - d
    decreases |times|
  {
    if times == [] {
    } else {
      var n := |times| - 1;
      CountBounds(times[..n], if d <= n then d else n, lo, hi);
    }
  }

  lemma {:induction false} SpacedBoundsCount(rule: Rule, times: seq<int>, x: int)
    requires Sorted(times) && Spaced(rule, times)
    ensures Count(times, x, x + rule.window) <= if rule.limit > 0 then rule.limit else 0
    decreases |times|
  {
    if times == [] {
    } else {
      var n := |times| - 1;
      if x <= times[n] < x + rule.window {
        var d := if n < rule.limit then 0 else n + 1 - rule.limit;
        if n >= rule.limit {
          assert times[n] - times[n - rule.limit] >= rule.window;
        }
        CountBounds(times, d, x, x + rule.window);
      } else {
        SpacedBoundsCount(rule, times[..n], x);
      }
    }
  }

  // ----- what every run keeps -----

  /** The kept list is the log without a front of entries that can no longer count at `clock` or later. */
  ghost predicate KeptIsRecent(rule: Rule, kept: seq<int>, log: seq<int>, clock: int) {
    exists d :: 0 <= d <= |log| && kept == log[d..] && forall i | 0 <= i < d :: log[i] <= clock - rule.window
  }

  lemma RetainKept(rule: Rule, kept: seq<int>, log: seq<int>, clock: int, now: int) returns (d: nat)
    requires Sorted(log) && KeptIsRecent(rule, kept, log, clock) && clock <= now
    ensures d <= |log| && Retain(kept, now - rule.window) == Retain(log, now - rule.window) == log[d..]
    ensures forall i | 0 <= i < d :: log[i] <= now - rule.window
    ensures forall i | d <= i < |log| :: log[i] > now - rule.window
  {
    hide Retain;
    var e :| 0 <= e <= |log| && kept == log[e..] && forall i | 0 <= i < e :: log[i] <= clock - rule.window;
    assert forall i | 0 <= i < e :: log[i] <= now - rule.window;
    RetainDropsOld(log, e, now - rule.window);
    d := RetainIsSuffix(log, now - rule.window);
  }

  /** Everything the code keeps about one key, for any clock reading that is not before the last call. */
  ghost predicate Good(rule: Rule, calls: seq<Call>, key: string, clock: int) {
    && Log(rule, calls, key) == FullLog(rule, calls, key)
    && GoodLog(rule, Log(rule, calls, key), Kept(Run(rule, calls), key), clock)
  }

  ghost predicate GoodLog(rule: Rule, log: seq<int>, kept: seq<int>, clock: int) {
    && Sorted(log)
    && (forall i | 0 <= i < |log| :: log[i] <= clock)
    && Spaced(rule, log)
    && KeptIsRecent(rule, kept, log, clock)
    && |kept| <= (if rule.limit > 0 then rule.limit else 0)
  }

  ghost predicate NotBefore(calls: seq<Call>, clock: int) {
    forall i | 0 <= i < |calls| && calls[i].Allow? :: calls[i].now <= clock
  }

  lemma {:induction false} EveryRunIsGood(rule: Rule, calls: seq<Call>, key: string, clock: int)
    requires Ordered(calls) && NotBefore(calls, clock)
    ensures Good(rule, calls, key, clock)
    decreases |calls|
  {
    hide Retain, Count;
    if calls == [] {
      assert KeptIsRecent(rule, [], [], clock) by {
        var none: seq<int> := [];
        assert none == none[0..];
      }
    } else {
      var before, call := calls[..|calls| - 1], calls[|calls| - 1];
      var clock' := if call.Allow? then call.now else clock;
      assert NotBefore(before, clock') && clock' <= clock;
      EveryRunIsGood(rule, before, key, clock');
      if call.Allow? && call.key == key {
        AllowKeepsGood(rule, before, key, call.now);
        assert before + [call] == calls;
      } else if call.key == key {
        assert KeptIsRecent(rule, [], [], clock) by {
          var none: seq<int> := [];
          assert none == none[0..];
        }
      }
      LaterClock(rule, calls, key, clock', clock);
    }
  }

  lemma LaterClock(rule: Rule, calls: seq<Call>, key: string, clock: int, later: int)
    requires Good(rule, calls, key, clock) && clock <= later
    ensures Good(rule, calls, key, later)
  {
  }

  // Accepting `now` when fewer than `limit` entries are recent keeps the log spaced.
  lemma SpacedAppend(rule: Rule, log: seq<int>, d: nat, now: int)
    requires Sorted(log) && Spaced(rule, log)
    requires d <= |log| && |log| - d < rule.limit
    requires forall i | 0 <= i < |log| :: log[i] <= now
    requires forall i | 0 <= i < d :: log[i] <= now - rule.window
    ensures Sorted(log + [now]) && Spaced(rule, log + [now])
  {
  }

  // One call, on the log of its own key.
  lemma AllowOnLog(rule: Rule, log: seq<int>, kept: seq<int>, now: int)
    requires GoodLog(rule, log, kept, now)
    ensures var kept' := Retain(kept, now - rule.window);
            && (ReferenceAdmits(rule, log, now) <==> |kept'| < rule.limit)
            && (|kept'| < rule.limit ==> GoodLog(rule, log + [now], kept' + [now], now))
            && (|kept'| >= rule.limit ==> GoodLog(rule, log, kept', now))
  {
    hide Retain, Count;
    var d := RetainKept(rule, kept, log, now, now);
    CountBounds(log, d, now - rule.window + 1, now + 1);
    if |log| - d < rule.limit {
      SpacedAppend(rule, log, d, now);
      assert (log + [now])[d..] == log[d..] + [now];
      assert KeptIsRecent(rule, (log + [now])[d..], log + [now], now);
    } else {
      RetainShortens(kept, now - rule.window);
      assert KeptIsRecent(rule, log[d..], log, now);
    }
  }

  lemma UnfoldAllow(rule: Rule, calls: seq<Call>, key: string, now: int)
    ensures var calls' := calls + [Allow(key, now)];
            var kept := Retain(Kept(Run(rule, calls), key), now - rule.window);
            var yes := |kept| < rule.limit;
            && (yes <==> Admits(rule, Run(rule, calls), key, now))
            && Kept(Run(rule, calls'), key) == (if yes then kept + [now] else kept)
            && Log(rule, calls', key) == Log(rule, calls, key) + (if yes then [now] else [])
            && FullLog(rule, calls', key) == FullLog(rule, calls, key)
                 + (if ReferenceAdmits(rule, FullLog(rule, calls, key), now) then [now] else [])
  {
  }

  lemma AllowKeepsGood(rule: Rule, calls: seq<Call>, key: string, now: int)
    requires Good(rule, calls, key, now)
    ensures Good(rule, calls + [Allow(key, now)], key, now)
    ensures Admits(rule, Run(rule, calls), key, now) <==> ReferenceAdmits(rule, FullLog(rule, calls, key), now)
  {
    AllowOnLog(rule, Log(rule, calls, key), Kept(Run(rule, calls), key), now);
    UnfoldAllow(rule, calls, key, now);
  }

  // ----- the main results -----

  /** Safety: in every half-open interval of window length at most `limit` requests are accepted. */
  lemma WindowSafety(rule: Rule, calls: seq<Call>, key: string, x: int)
    requires Ordered(calls)
    ensures Sorted(Log(rule, calls, key)) && Spaced(rule, Log(rule, calls, key))
    ensures Count(Log(rule, calls, key), x, x + rule.window) <= if rule.limit > 0 then rule.limit else 0
  {
    var clock := LastReading(calls);
    EveryRunIsGood(rule, calls, key, clock);
    SpacedBoundsCount(rule, Log(rule, calls, key), x);
  }

  lemma {:induction false} LastReading(calls: seq<Call>) returns (clock: int)
    requires Ordered(calls)
    ensures NotBefore(calls, clock)
    decreases |calls|
  {
    if calls == [] {
      clock := 0;
    } else {
      var n := |calls| - 1;
      clock := LastReading(calls[..n]);
      if calls[n].Allow? && calls[n].now > clock {
        clock := calls[n].now;
      }
    }
  }

  /** Refinement: forgetting old entries never changes an answer, and keeps the lists short. */
  lemma PruningRefinesNeverForgetting(rule: Rule, calls: seq<Call>, key: string, now: int)
    requires Ordered(calls + [Allow(key, now)])
    ensures Admits(rule, Run(rule, calls), key, now)
       <==> ReferenceAdmits(rule, FullLog(rule, calls, key), now)
    ensures Log(rule, calls, key) == FullLog(rule, calls, key)
    ensures var kept := Kept(Run(rule, calls), key);
            Sorted(kept) && |kept| <= if rule.limit > 0 then rule.limit else 0
  {
    var all := calls + [Allow(key, now)];
    assert all[|calls|] == Allow(key, now) && forall i | 0 <= i < |calls| :: all[i] == calls[i];
    assert Ordered(calls) by {
      forall i, j | 0 <= i < j < |calls| && calls[i].Allow? && calls[j].Allow? ensures calls[i].now <= calls[j].now {
        assert all[i].now <= all[j].now;
      }
    }
    EveryRunIsGood(rule, calls, key, now);
    AllowKeepsGood(rule, calls, key, now);
  }

  /** The calls that concern one key. */
  function Only(calls: seq<Call>, key: string): seq<Call>
    decreases |calls|
  {
    if calls == [] then []
    else
      var n := |calls| - 1;
      Only(calls[..n], key) + if calls[n].key == key then [calls[n]] else []
  }

  predicate SameFor(a: Store, b: Store, key: string) {
    (key in a <==> key in b) && Kept(a, key) == Kept(b, key)
  }

  lemma CallOnKey(rule: Rule, a: Store, b: Store, call: Call)
    requires SameFor(a, b, call.key)
    ensures SameFor(AfterCall(rule, a, call), AfterCall(rule, b, call), call.key)
    ensures call.Allow? ==> (Admits(rule, a, call.key, call.now) <==> Admits(rule, b, call.key, call.now))
  {
  }

  lemma CallOnOther(rule: Rule, a: Store, call: Call, key: string)
    requires call.key != key
    ensures SameFor(AfterCall(rule, a, call), a, key)
  {
  }

  /** Calls on other keys leave no trace on what is kept for this one. */
  lemma {:induction false} KeysAreIndependent(rule: Rule, calls: seq<Call>, key: string)
    ensures key in Run(rule, calls) <==> key in Run(rule, Only(calls, key))
    ensures Kept(Run(rule, calls), key) == Kept(Run(rule, Only(calls, key)), key)
    ensures Log(rule, calls, key) == Log(rule, Only(calls, key), key)
    decreases |calls|
  {
    hide AfterCall, Admits;
    if calls == [] {
    } else {
      var n := |calls| - 1;
      var before, mine := Run(rule, calls[..n]), Only(calls, key);
      KeysAreIndependent(rule, calls[..n], key);
      if calls[n].key == key {
        assert mine[..|mine| - 1] == Only(calls[..n], key) && mine[|mine| - 1] == calls[n];
        CallOnKey(rule, before, Run(rule, Only(calls[..n], key)), calls[n]);
      } else {
        CallOnOther(rule, before, calls[n], key);
        assert mine == Only(calls[..n], key);
      }
    }
  }
}
