// The limiter admits greedily. No policy that obeys the same window bound on the
// same arrivals admits more requests, or its k-th request earlier.

module LimiterOptimality {
  import opened SlidingWindow

  /** One `Allow` call per arrival, all on one key. */
  function CallsOf(arrivals: seq<int>, key: string): seq<Call> {
    seq(|arrivals|, i requires 0 <= i < |arrivals| => Allow(key, arrivals[i]))
  }

  /** The indices of the arrivals that the limiter admits. */
  function Admitted(rule: Rule, arrivals: seq<int>, key: string): seq<nat>
    decreases |arrivals|
  {
    if arrivals == [] then []
    else
      var n := |arrivals| - 1;
      Admitted(rule, arrivals[..n], key)
      + if Admits(rule, Run(rule, CallsOf(arrivals[..n], key)), key, arrivals[n]) then [n] else []
  }

  /** A choice of arrivals that some other policy might admit: any sub-sequence that obeys the bound. */
  ghost predicate Obeys(rule: Rule, arrivals: seq<int>, chosen: seq<nat>) {
    && (forall k | 0 <= k < |chosen| :: chosen[k] < |arrivals|)
    && (forall j, k | 0 <= j < k < |chosen| :: chosen[j] < chosen[k])
    && if rule.limit <= 0 then chosen == []
       else forall j, k | 0 <= j < k < |chosen| && k - j == rule.limit ::
         arrivals[chosen[k]] - arrivals[chosen[j]] >= rule.window
  }

  lemma CallsOfPrefix(front: seq<int>, key: string, now: int)
    ensures CallsOf(front + [now], key) == CallsOf(front, key) + [Allow(key, now)]
  {
  }

  lemma CallsOrdered(arrivals: seq<int>, key: string)
    requires Sorted(arrivals)
    ensures Ordered(CallsOf(arrivals, key))
  {
  }

  /** `g` lists, in order, the indices of the times in `log`. */
  ghost predicate ReadsOff(g: seq<nat>, log: seq<int>, arrivals: seq<int>) {
    && |g| == |log|
    && (forall k | 0 <= k < |g| :: g[k] < |arrivals| && log[k] == arrivals[g[k]])
    && (forall j, k | 0 <= j < k < |g| :: g[j] < g[k])
  }

  lemma ReadsOffGrows(g: seq<nat>, log: seq<int>, arrivals: seq<int>, now: int)
    requires ReadsOff(g, log, arrivals)
    ensures ReadsOff(g, log, arrivals + [now])
    ensures ReadsOff(g + [|arrivals|], log + [now], arrivals + [now])
  {
  }

  // The admitted indices, read off the log.
  lemma {:induction false} AdmittedIsLog(rule: Rule, arrivals: seq<int>, key: string)
    ensures ReadsOff(Admitted(rule, arrivals, key), Log(rule, CallsOf(arrivals, key), key), arrivals)
    decreases |arrivals|
  {
    if arrivals == [] {
    } else {
      var n := |arrivals| - 1;
      var front, now := arrivals[..n], arrivals[n];
      AdmittedIsLog(rule, front, key);
      assert arrivals == front + [now];
      CallsOfPrefix(front, key, now);
      UnfoldAllow(rule, CallsOf(front, key), key, now);
      ReadsOffGrows(Admitted(rule, front, key), Log(rule, CallsOf(front, key), key), front, now);
    }
  }

  ghost predicate Extends(g: seq<nat>, front: seq<nat>, n: nat) {
    front <= g && forall k | |front| <= k < |g| :: g[k] >= n
  }

  lemma AdmittedStep(rule: Rule, arrivals: seq<int>, key: string, n: nat) returns (tail: seq<nat>)
    requires n < |arrivals|
    ensures Admitted(rule, arrivals[..n + 1], key) == Admitted(rule, arrivals[..n], key) + tail
    ensures tail == if Admits(rule, Run(rule, CallsOf(arrivals[..n], key)), key, arrivals[n]) then [n] else []
  {
    assert arrivals[..n + 1][..n] == arrivals[..n];
    tail := if Admits(rule, Run(rule, CallsOf(arrivals[..n], key)), key, arrivals[n]) then [n] else [];
  }

  // What is admitted of a prefix stays admitted, and nothing before its end is added later.
  lemma {:induction false} AdmittedOfPrefix(rule: Rule, arrivals: seq<int>, key: string, n: nat, m: nat)
    requires n <= m <= |arrivals|
    ensures Extends(Admitted(rule, arrivals[..m], key), Admitted(rule, arrivals[..n], key), n)
    decreases m
  {
    hide Admitted;
    if n == m {
    } else {
      AdmittedOfPrefix(rule, arrivals, key, n, m - 1);
      var tail := AdmittedStep(rule, arrivals, key, m - 1);
      ExtendsFurther(Admitted(rule, arrivals[..m - 1], key), Admitted(rule, arrivals[..n], key), n, tail);
    }
  }

  lemma ExtendsFurther(g: seq<nat>, front: seq<nat>, n: nat, tail: seq<nat>)
    requires Extends(g, front, n) && forall k | 0 <= k < |tail| :: tail[k] >= n
    ensures Extends(g + tail, front, n)
  {
  }

  // The limiter admits whenever the entry `limit` places back is old enough.
  lemma RoomIsUsed(rule: Rule, prefix: seq<int>, key: string, now: int)
    requires Sorted(prefix) && (forall i | 0 <= i < |prefix| :: prefix[i] <= now) && rule.limit > 0
    requires var g := Admitted(rule, prefix, key);
             |g| >= rule.limit ==>
               g[|g| - rule.limit] < |prefix| && prefix[g[|g| - rule.limit]] <= now - rule.window
    ensures Admits(rule, Run(rule, CallsOf(prefix, key)), key, now)
  {
    var calls := CallsOf(prefix, key);
    CallsOrdered(prefix, key);
    AdmittedIsLog(rule, prefix, key);
    EveryRunIsGood(rule, calls, key, now);
    var log := Log(rule, calls, key);
    var d := RetainKept(rule, Kept(Run(rule, calls), key), log, now, now);
  }

  lemma PrefixSorted(arrivals: seq<int>, n: nat)
    requires Sorted(arrivals) && n < |arrivals|
    ensures Sorted(arrivals[..n]) && forall i | 0 <= i < n :: arrivals[..n][i] <= arrivals[n]
  {
  }

  // If exactly k requests were admitted before the policy's k-th choice, that choice is admitted.
  lemma ChoiceIsAdmitted(rule: Rule, arrivals: seq<int>, key: string, chosen: seq<nat>, k: nat)
    requires Sorted(arrivals) && Obeys(rule, arrivals, chosen) && k < |chosen|
    requires var before := Admitted(rule, arrivals[..chosen[k]], key);
             |before| == k && (k >= rule.limit > 0 ==> before[k - rule.limit] <= chosen[k - rule.limit])
    ensures k < |Admitted(rule, arrivals, key)| && Admitted(rule, arrivals, key)[k] == chosen[k]
  {
    hide Admitted, CallsOf;
    var n := chosen[k];
    var before := Admitted(rule, arrivals[..n], key);
    assert Admits(rule, Run(rule, CallsOf(arrivals[..n], key)), key, arrivals[n]) by {
      PrefixSorted(arrivals, n);
      if k >= rule.limit {
        AdmittedIsLog(rule, arrivals[..n], key);
        var i := before[k - rule.limit];
        EarlierIsOldEnough(rule, arrivals, chosen, k, i);
        assert i < n && arrivals[..n][i] == arrivals[i];
        assert arrivals[..n][i] <= arrivals[n] - rule.window;
      }
      RoomIsUsed(rule, arrivals[..n], key, arrivals[n]);
    }
    var tail := AdmittedStep(rule, arrivals, key, n);
    AdmittedOfPrefix(rule, arrivals, key, n + 1, |arrivals|);
    assert arrivals[..|arrivals|] == arrivals;
    assert (before + [n])[k] == n;
  }

  /** The k-th request the limiter admits comes no later than the k-th request any other policy admits. */
  lemma {:induction false} GreedyIsEarliest(rule: Rule, arrivals: seq<int>, key: string, chosen: seq<nat>, k: nat)
    requires Sorted(arrivals) && Obeys(rule, arrivals, chosen) && k < |chosen|
    ensures k < |Admitted(rule, arrivals, key)| && Admitted(rule, arrivals, key)[k] <= chosen[k]
    decreases k
  {
    hide Admitted;
    var n := chosen[k];
    var g, before := Admitted(rule, arrivals, key), Admitted(rule, arrivals[..n], key);
    if k > 0 {
      GreedyIsEarliest(rule, arrivals, key, chosen, k - 1);
      assert g[k - 1] < n;
    }
    AdmittedBefore(rule, arrivals, key, n, k);
    if |before| == k {
      if k >= rule.limit {
        GreedyIsEarliest(rule, arrivals, key, chosen, k - rule.limit);
      }
      ChoiceIsAdmitted(rule, arrivals, key, chosen, k);
    }
  }

  // What was admitted of the first n arrivals, when the k-th admitted one is among them.
  lemma AdmittedBefore(rule: Rule, arrivals: seq<int>, key: string, n: nat, k: nat)
    requires n <= |arrivals| && k <= |Admitted(rule, arrivals, key)|
    requires k > 0 ==> Admitted(rule, arrivals, key)[k - 1] < n
    ensures var g, before := Admitted(rule, arrivals, key), Admitted(rule, arrivals[..n], key);
            k <= |before| && before <= g && (k < |before| ==> g[k] < n)
  {
    var g, before := Admitted(rule, arrivals, key), Admitted(rule, arrivals[..n], key);
    assert arrivals[..|arrivals|] == arrivals;
    AdmittedOfPrefix(rule, arrivals, key, n, |arrivals|);
    AdmittedIsLog(rule, arrivals[..n], key);
    assert k < |before| ==> g[k] == before[k];
  }

  lemma EarlierIsOldEnough(rule: Rule, arrivals: seq<int>, chosen: seq<nat>, k: nat, i: nat)
    requires Sorted(arrivals) && Obeys(rule, arrivals, chosen)
    requires 0 < rule.limit <= k < |chosen| && i <= chosen[k - rule.limit]
    ensures arrivals[i] <= arrivals[chosen[k]] - rule.window
  {
  }

  /** On every prefix of the arrivals the limiter admits at least as many as any policy obeying the bound. */
  lemma GreedyAdmitsMost(rule: Rule, arrivals: seq<int>, key: string, n: nat, chosen: seq<nat>)
    requires Sorted(arrivals) && n <= |arrivals| && Obeys(rule, arrivals[..n], chosen)
    ensures Admitted(rule, arrivals[..n], key) <= Admitted(rule, arrivals, key)
    ensures |chosen| <= |Admitted(rule, arrivals[..n], key)|
  {
    assert arrivals[..|arrivals|] == arrivals;
    AdmittedOfPrefix(rule, arrivals, key, n, |arrivals|);
    if chosen != [] {
      GreedyIsEarliest(rule, arrivals[..n], key, chosen, |chosen| - 1);
    }
  }

  /** The limiter itself is one of the policies compared: its own choice obeys the bound. */
  lemma GreedyObeys(rule: Rule, arrivals: seq<int>, key: string)
    requires Sorted(arrivals)
    ensures Obeys(rule, arrivals, Admitted(rule, arrivals, key))
  {
    CallsOrdered(arrivals, key);
    AdmittedIsLog(rule, arrivals, key);
    WindowSafety(rule, CallsOf(arrivals, key), key, 0);
    var g, log := Admitted(rule, arrivals, key), Log(rule, CallsOf(arrivals, key), key);
    if rule.limit > 0 {
      forall j, k | 0 <= j < k < |g| && k - j == rule.limit
        ensures arrivals[g[k]] - arrivals[g[j]] >= rule.window
      {
        assert log[k] - log[j] >= rule.window;
      }
    }
  }
}
