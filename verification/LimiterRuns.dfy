// What holds of every run of the limiter chain.

module LimiterRuns {
  import opened Options
  import opened SlidingWindow
  import opened LimiterChain

  ghost predicate FlightOk(cfg: Limits, f: Flight) {
    && TokenMethod(f.req) && |f.stamps| <= 4 && (f.rejected ==> |f.stamps| < 4)
    && forall k | 0 <= k < |f.stamps| :: f.stamps[k].Some? <==> Applies(cfg, k, f.req).Some?
  }

  ghost predicate SystemOk(cfg: Limits, s: System) {
    RegistryOk(cfg, s.chain) && forall id | id in s.flights :: FlightOk(cfg, s.flights[id])
  }

  lemma LegalPrefix(events: seq<Event>, n: nat)
    requires Legal(events) && n <= |events|
    ensures Legal(events[..n])
  {
  }

  lemma ResetKeepsRegistry(cfg: Limits, chain: Chain, key: string)
    requires RegistryOk(cfg, chain)
    ensures RegistryOk(cfg, ResetRateLimit(chain, key))
  {
  }

  // In every reachable state: `ip` and `user` keep the configured rules, every other limiter
  // belongs to one (method, path) pair, and keys extend the name of their limiter.
  lemma {:induction false} EveryStateIsOk(cfg: Limits, events: seq<Event>)
    requires Legal(events)
    ensures SystemOk(cfg, RunChain(cfg, events))
    decreases |events|
  {
    if events == [] {
    } else {
      var n := |events| - 1;
      LegalPrefix(events, n);
      EveryStateIsOk(cfg, events[..n]);
      StepKeepsOk(cfg, RunChain(cfg, events[..n]), events[n]);
    }
  }

  lemma StepKeepsOk(cfg: Limits, s: System, e: Event)
    requires SystemOk(cfg, s) && (e.Arrive? ==> TokenMethod(e.req))
    ensures SystemOk(cfg, Step(cfg, s, e))
  {
    match e
    case Arrive(_, _) =>
    case Advance(id, now) =>
      if id in s.flights && |s.flights[id].stamps| < 4 {
        StageUses(cfg, s.chain, |s.flights[id].stamps|, s.flights[id].req, now);
      }
    case ResetLimit(key) => ResetKeepsRegistry(cfg, s.chain, key);
  }

  // ----- resets -----

  /** Resetting any key empties the global history and changes nothing else: no limiter keeps a key that is its own name. */
  lemma ResetClearsOnlyGlobal(cfg: Limits, events: seq<Event>, key: string)
    requires Legal(events)
    ensures var chain, chain' := RunChain(cfg, events).chain, ResetRateLimit(RunChain(cfg, events).chain, key);
            && chain'.limiters == chain.limiters
            && (chain.global.Some? ==>
                  chain'.global == Some(Limiter(chain.global.value.rule, map[])))
  {
    EveryStateIsOk(cfg, events);
    var chain := RunChain(cfg, events).chain;
    if key in chain.limiters {
      var l := chain.limiters[key];
      assert forall x | x in l.store :: |key + ":"| <= |x|;
      assert AfterReset(l.store, key) == l.store;
      assert chain.limiters[key := l] == chain.limiters;
    }
  }

  // ----- each limiter runs on its own calls -----

  function StoreAt(chain: Chain, slot: Slot): Store {
    match LimiterAt(chain, slot)
    case Some(l) => l.store
    case None => map[]
  }

  lemma RunOne(rule: Rule, calls: seq<Call>, call: Call)
    ensures Run(rule, calls + [call]) == AfterCall(rule, Run(rule, calls), call)
  {
  }

  ghost predicate RuleFits(chain: Chain, slot: Slot, rule: Rule) {
    LimiterAt(chain, slot).Some? ==> LimiterAt(chain, slot).value.rule == rule
  }

  lemma StepStore(cfg: Limits, s: System, e: Event, slot: Slot, rule: Rule, calls: seq<Call>)
    requires SystemOk(cfg, s) && (e.Arrive? ==> TokenMethod(e.req))
    requires RuleFits(Step(cfg, s, e).chain, slot, rule)
    requires StoreAt(s.chain, slot) == Run(rule, calls)
    ensures StoreAt(Step(cfg, s, e).chain, slot) == Run(rule, calls + CallOn(cfg, s, e, slot))
  {
    var on := CallOn(cfg, s, e, slot);
    if on == [] {
      assert calls + on == calls;
    } else {
      assert on == [on[0]];
      RunOne(rule, calls, on[0]);
    }
    if e.Advance? && on != [] {
      StageUses(cfg, s.chain, |s.flights[e.id].stamps|, s.flights[e.id].req, e.now);
      assert StoreAt(Step(cfg, s, e).chain, slot) == AfterCall(rule, StoreAt(s.chain, slot), on[0]);
    } else if e.Advance? && e.id in s.flights && |s.flights[e.id].stamps| < 4 {
      StageUses(cfg, s.chain, |s.flights[e.id].stamps|, s.flights[e.id].req, e.now);
    } else if e.ResetLimit? {
      ResetStore(s.chain, e.key, slot, on);
    }
  }

  lemma ResetStore(chain: Chain, key: string, slot: Slot, on: seq<Call>)
    requires on == if slot == GlobalSlot then [Reset("global")] else if slot == Named(key) then [Reset(key)] else []
    ensures on == [] ==> StoreAt(ResetRateLimit(chain, key), slot) == StoreAt(chain, slot)
    ensures on != [] ==> StoreAt(ResetRateLimit(chain, key), slot) == AfterReset(StoreAt(chain, slot), on[0].key)
  {
  }

  lemma StepKeepsRule(cfg: Limits, s: System, e: Event, slot: Slot, rule: Rule)
    requires SystemOk(cfg, s) && RuleFits(Step(cfg, s, e).chain, slot, rule)
    ensures RuleFits(s.chain, slot, rule)
  {
  }

  /** What a limiter stores is what it would store if it ran alone on the calls made to it. */
  lemma {:induction false} StoreIsRun(cfg: Limits, events: seq<Event>, slot: Slot, rule: Rule)
    requires Legal(events) && RuleFits(RunChain(cfg, events).chain, slot, rule)
    ensures StoreAt(RunChain(cfg, events).chain, slot) == Run(rule, CallsOn(cfg, events, slot))
    decreases |events|
  {
    if events == [] {
    } else {
      var n := |events| - 1;
      LegalPrefix(events, n);
      EveryStateIsOk(cfg, events[..n]);
      var s := RunChain(cfg, events[..n]);
      StepKeepsRule(cfg, s, events[n], slot, rule);
      StoreIsRun(cfg, events[..n], slot, rule);
      StepStore(cfg, s, events[n], slot, rule, CallsOn(cfg, events[..n], slot));
    }
  }

  ghost predicate TimesUpTo(events: seq<Event>, t: int) {
    forall i | 0 <= i < |events| && events[i].Advance? :: events[i].now <= t
  }

  lemma OneCallMore(cfg: Limits, s: System, calls: seq<Call>, e: Event, slot: Slot)
    requires Ordered(calls) && (e.Advance? ==> NotBefore(calls, e.now))
    ensures var calls' := calls + CallOn(cfg, s, e, slot);
            Ordered(calls') && forall t | NotBefore(calls, t) && (e.Advance? ==> e.now <= t) :: NotBefore(calls', t)
  {
    assert forall c: Call | c in CallOn(cfg, s, e, slot) && c.Allow? :: e.Advance? && c.now == e.now;
  }

  // The calls made to one limiter come with non-decreasing times.
  lemma {:induction false} CallsOrdered(cfg: Limits, events: seq<Event>, slot: Slot)
    requires Legal(events)
    ensures Ordered(CallsOn(cfg, events, slot))
    ensures forall t | TimesUpTo(events, t) :: NotBefore(CallsOn(cfg, events, slot), t)
    decreases |events|
  {
    hide CallOn, Ordered, NotBefore;
    if events == [] {
      NoCallsOrdered();
    } else {
      var n := |events| - 1;
      var e := events[n];
      LegalPrefix(events, n);
      CallsOrdered(cfg, events[..n], slot);
      assert e.Advance? ==> TimesUpTo(events[..n], e.now);
      OneCallMore(cfg, RunChain(cfg, events[..n]), CallsOn(cfg, events[..n], slot), e, slot);
      forall t | TimesUpTo(events, t) ensures NotBefore(CallsOn(cfg, events, slot), t) {
        assert TimesUpTo(events[..n], t);
      }
    }
  }

  lemma NoCallsOrdered()
    ensures Ordered([]) && forall t :: NotBefore([], t)
  {
  }

  /** A bound some request is under: k is its stage, r the request. */
  ghost predicate Binds(cfg: Limits, k: nat, r: Request, use: Use) {
    k < 4 && TokenMethod(r) && Applies(cfg, k, r) == Some(use)
  }

  lemma SameSlotSameRule(cfg: Limits, k: nat, r: Request, use: Use, k': nat, r': Request, use': Use)
    requires Binds(cfg, k, r, use) && Binds(cfg, k', r', use') && use.slot == use'.slot
    ensures k == k' && use.rule == use'.rule
  {
    SlotsDiffer(cfg, k, r, k', r');
    if k == 3 {
      ApiNameInjective(r.verb, r.path, r'.verb, r'.path);
    }
  }

  lemma BoundRuleFits(cfg: Limits, chain: Chain, k: nat, r: Request, use: Use)
    requires RegistryOk(cfg, chain) && Binds(cfg, k, r, use)
    ensures RuleFits(chain, use.slot, use.rule)
  {
    StageUses(cfg, chain, k, r, 0);
  }

  // ----- logs and requests -----

  /** The stage event of a request that is still in the chain. */
  ghost predicate Moves(s: System, id: nat) {
    id in s.flights && !s.flights[id].rejected && |s.flights[id].stamps| < 4
  }

  lemma LogOne(rule: Rule, calls: seq<Call>, key: string, k: string, now: int)
    ensures Log(rule, calls + [Allow(k, now)], key)
         == Log(rule, calls, key) + if k == key && Admits(rule, Run(rule, calls), key, now) then [now] else []
  {
  }

  /** One stage adds its time to the log of the limiter and key that apply, if the request passes, and to no other log. */
  lemma AdvanceEffect(cfg: Limits, events: seq<Event>, id: nat, now: int, k: nat, r: Request, use: Use)
    requires Legal(events) && Binds(cfg, k, r, use)
    requires Moves(RunChain(cfg, events), id)
    ensures var s := RunChain(cfg, events);
            var f, f' := s.flights[id], Step(cfg, s, Advance(id, now)).flights[id];
            Accepted(cfg, events + [Advance(id, now)], use) == Accepted(cfg, events, use)
              + if Applies(cfg, |f.stamps|, f.req) == Some(use) && !f'.rejected then [now] else []
  {
    var s := RunChain(cfg, events);
    var f, calls := s.flights[id], CallsOn(cfg, events, use.slot);
    EveryStateIsOk(cfg, events);
    CallsOnOne(cfg, events, Advance(id, now), use.slot);
    var applies := Applies(cfg, |f.stamps|, f.req);
    if applies.Some? && applies.value.slot == use.slot {
      var key := applies.value.key;
      SameSlotSameRule(cfg, k, r, use, |f.stamps|, f.req, applies.value);
      LogOne(use.rule, calls, use.key, key, now);
      PassIsAdmit(cfg, events, id, now, k, r, use);
    } else {
      assert calls + [] == calls;
    }
  }

  lemma CallsOnOne(cfg: Limits, events: seq<Event>, e: Event, slot: Slot)
    ensures CallsOn(cfg, events + [e], slot)
         == CallsOn(cfg, events, slot) + CallOn(cfg, RunChain(cfg, events), e, slot)
    ensures RunChain(cfg, events + [e]) == Step(cfg, RunChain(cfg, events), e)
  {
  }

  // The stage lets the request through exactly if its limiter, run on its own calls, would admit it.
  lemma PassIsAdmit(cfg: Limits, events: seq<Event>, id: nat, now: int, k: nat, r: Request, use: Use)
    requires Legal(events) && Binds(cfg, k, r, use) && Moves(RunChain(cfg, events), id)
    requires var f := RunChain(cfg, events).flights[id];
             Applies(cfg, |f.stamps|, f.req).Some? && Applies(cfg, |f.stamps|, f.req).value.slot == use.slot
    ensures var s := RunChain(cfg, events);
            var f := s.flights[id];
            var key := Applies(cfg, |f.stamps|, f.req).value.key;
            !Step(cfg, s, Advance(id, now)).flights[id].rejected
            <==> Admits(use.rule, Run(use.rule, CallsOn(cfg, events, use.slot)), key, now)
  {
    var s := RunChain(cfg, events);
    var f := s.flights[id];
    EveryStateIsOk(cfg, events);
    var applies := Applies(cfg, |f.stamps|, f.req).value;
    SameSlotSameRule(cfg, k, r, use, |f.stamps|, f.req, applies);
    BoundRuleFits(cfg, s.chain, k, r, use);
    StoreIsRun(cfg, events, use.slot, use.rule);
    StageUses(cfg, s.chain, |f.stamps|, f.req, now);
    assert Found(s.chain, applies).store == StoreAt(s.chain, use.slot);
  }

  ghost predicate PassedAt(cfg: Limits, f: Flight, k: nat, use: Use, lo: int, hi: int) {
    && k < |f.stamps| && f.stamps[k].Some? && lo <= f.stamps[k].value < hi
    && Applies(cfg, k, f.req) == Some(use)
  }

  /** The requests that passed stage k under this limiter and key with a time in [lo, hi). */
  ghost function Passed(cfg: Limits, s: System, k: nat, use: Use, lo: int, hi: int): set<nat> {
    set id | id in s.flights && PassedAt(cfg, s.flights[id], k, use, lo, hi)
  }

  /** The requests whose passing of stage k the last reset has made its limiter forget: only the global stage forgets. */
  ghost function Forgiven(cfg: Limits, events: seq<Event>, k: nat): set<nat>
    decreases |events|
  {
    if k > 0 || events == [] then {}
    else
      var n := |events| - 1;
      if events[n].ResetLimit? then Started(RunChain(cfg, events[..n])) else Forgiven(cfg, events[..n], k)
  }

  /** The requests that have passed the first stage. */
  ghost function Started(s: System): set<nat> {
    set id | id in s.flights && |s.flights[id].stamps| > 0
  }

  lemma {:induction false} NoneForgiven(cfg: Limits, events: seq<Event>, k: nat)
    requires k > 0 || forall i | 0 <= i < |events| :: !events[i].ResetLimit?
    ensures Forgiven(cfg, events, k) == {}
    decreases |events|
  {
    if events == [] {
    } else {
      NoneForgiven(cfg, events[..|events| - 1], k);
    }
  }

  lemma {:induction false} ForgivenHaveStarted(cfg: Limits, events: seq<Event>, k: nat)
    requires Legal(events)
    ensures Forgiven(cfg, events, k) <= Started(RunChain(cfg, events))
    decreases |events|
  {
    if events == [] {
    } else {
      var n := |events| - 1;
      LegalPrefix(events, n);
      assert events[..n] + [events[n]] == events;
      if events[n].Arrive? {
        ArrivalIsNew(cfg, events[..n], events[n]);
      }
      ForgivenHaveStarted(cfg, events[..n], k);
      StartedStay(cfg, RunChain(cfg, events[..n]), events[n]);
    }
  }

  lemma StartedStay(cfg: Limits, s: System, e: Event)
    requires e.Arrive? ==> e.id !in s.flights
    ensures Started(s) <= Started(Step(cfg, s, e))
  {
  }

  lemma {:induction false} FlightsArrived(cfg: Limits, events: seq<Event>, id: nat)
    requires id in RunChain(cfg, events).flights
    ensures exists i :: 0 <= i < |events| && events[i].Arrive? && events[i].id == id
    decreases |events|
  {
    var n := |events| - 1;
    if events[n].Arrive? && events[n].id == id {
      assert events[n].id == id;
    } else {
      FlightsArrived(cfg, events[..n], id);
      var i :| 0 <= i < n && events[..n][i].Arrive? && events[..n][i].id == id;
      assert events[i].Arrive? && events[i].id == id;
    }
  }

  // One stage and the set of requests that passed stage k.
  lemma AdvancePassed(cfg: Limits, s: System, id: nat, now: int, k: nat, use: Use, lo: int, hi: int)
    requires SystemOk(cfg, s) && Moves(s, id)
    ensures var s' := Step(cfg, s, Advance(id, now));
            var f, f' := s.flights[id], s'.flights[id];
            var added := |f.stamps| == k && Applies(cfg, k, f.req) == Some(use) && !f'.rejected && lo <= now < hi;
            && id !in (if added then Passed(cfg, s, k, use, lo, hi) else {})
            && Passed(cfg, s', k, use, lo, hi) == Passed(cfg, s, k, use, lo, hi) + if added then {id} else {}
  {
  }

  /** The requests that passed stage k under this limiter and key, counted since the last reset that reached it. */
  ghost function PassedSince(cfg: Limits, events: seq<Event>, k: nat, use: Use, lo: int, hi: int): set<nat> {
    Passed(cfg, RunChain(cfg, events), k, use, lo, hi) - Forgiven(cfg, events, k)
  }

  /** The entries of a log are exactly the requests that passed the stage since the last reset that reached it, each counted once. */
  lemma {:induction false} EntriesAreRequests(cfg: Limits, events: seq<Event>, k: nat, r: Request, use: Use, lo: int, hi: int)
    requires Legal(events) && Binds(cfg, k, r, use)
    ensures Count(Accepted(cfg, events, use), lo, hi) == |PassedSince(cfg, events, k, use, lo, hi)|
    decreases |events|
  {
    if events == [] {
      assert PassedSince(cfg, events, k, use, lo, hi) == {};
    } else {
      var n := |events| - 1;
      var before, e := events[..n], events[n];
      LegalPrefix(events, n);
      assert events == before + [e];
      EntriesAreRequests(cfg, before, k, r, use, lo, hi);
      if e.Advance? && Moves(RunChain(cfg, before), e.id) {
        AdvanceCounts(cfg, before, e.id, e.now, k, r, use, lo, hi);
      } else if e.ResetLimit? && k == 0 {
        ResetForgives(cfg, before, e.key, r, use, lo, hi);
      } else {
        QuietEvent(cfg, before, e, k, r, use, lo, hi);
        SameForgiven(cfg, before, e, k);
      }
    }
  }

  lemma SameForgiven(cfg: Limits, events: seq<Event>, e: Event, k: nat)
    requires e.ResetLimit? ==> k > 0
    ensures Forgiven(cfg, events + [e], k) == Forgiven(cfg, events, k)
  {
    assert (events + [e])[..|events|] == events;
  }

  // A reset empties the global log, and forgives all that have passed the global stage.
  lemma ResetForgives(cfg: Limits, events: seq<Event>, key: string, r: Request, use: Use, lo: int, hi: int)
    requires Binds(cfg, 0, r, use)
    ensures Accepted(cfg, events + [ResetLimit(key)], use) == []
    ensures PassedSince(cfg, events + [ResetLimit(key)], 0, use, lo, hi) == {}
  {
    var all := events + [ResetLimit(key)];
    assert all[..|events|] == events;
    var calls := CallsOn(cfg, events, use.slot);
    CallsOnOne(cfg, events, ResetLimit(key), use.slot);
    assert (calls + [Reset("global")])[..|calls|] == calls;
  }

  // A stage event adds as many entries to the log as members to the passed set.
  lemma AdvanceCounts(
    cfg: Limits, events: seq<Event>, id: nat, now: int, k: nat, r: Request, use: Use, lo: int, hi: int)
    requires Legal(events) && Binds(cfg, k, r, use) && Moves(RunChain(cfg, events), id)
    requires Count(Accepted(cfg, events, use), lo, hi) == |PassedSince(cfg, events, k, use, lo, hi)|
    ensures var after := events + [Advance(id, now)];
            Count(Accepted(cfg, after, use), lo, hi) == |PassedSince(cfg, after, k, use, lo, hi)|
  {
    hide RunChain, Passed, Forgiven, Accepted, Count, Legal, Binds, Moves;
    var after := events + [Advance(id, now)];
    var added := AdvanceAdds(cfg, events, id, now, k, r, use, lo, hi);
    SameForgiven(cfg, events, Advance(id, now), k);
    if added {
      NewcomerNotForgiven(cfg, events, id, k);
    }
    AddedOutside(Passed(cfg, RunChain(cfg, events), k, use, lo, hi), id, Forgiven(cfg, events, k));
  }

  lemma AdvanceAdds(
    cfg: Limits, events: seq<Event>, id: nat, now: int, k: nat, r: Request, use: Use, lo: int, hi: int)
    returns (added: bool)
    requires Legal(events) && Binds(cfg, k, r, use) && Moves(RunChain(cfg, events), id)
    ensures var s, after := RunChain(cfg, events), events + [Advance(id, now)];
            && Count(Accepted(cfg, after, use), lo, hi) == Count(Accepted(cfg, events, use), lo, hi) + (if added then 1 else 0)
            && Passed(cfg, RunChain(cfg, after), k, use, lo, hi) ==
                 Passed(cfg, s, k, use, lo, hi) + (if added then {id} else {})
            && (added ==> id !in Passed(cfg, s, k, use, lo, hi) && id in s.flights && |s.flights[id].stamps| == k)
  {
    hide Accepted, Count, Passed;
    var s := RunChain(cfg, events);
    var f := s.flights[id];
    EveryStateIsOk(cfg, events);
    CallsOnOne(cfg, events, Advance(id, now), use.slot);
    AdvanceEffect(cfg, events, id, now, k, r, use);
    AdvancePassed(cfg, s, id, now, k, use, lo, hi);
    if Applies(cfg, |f.stamps|, f.req) == Some(use) {
      SlotsDiffer(cfg, k, r, |f.stamps|, f.req);
    }
    CountOne(Accepted(cfg, events, use), now, lo, hi);
    added := |f.stamps| == k && Applies(cfg, k, f.req) == Some(use)
      && !Step(cfg, s, Advance(id, now)).flights[id].rejected && lo <= now < hi;
  }

  lemma NewcomerNotForgiven(cfg: Limits, events: seq<Event>, id: nat, k: nat)
    requires Legal(events) && id in RunChain(cfg, events).flights && |RunChain(cfg, events).flights[id].stamps| == k
    ensures id !in Forgiven(cfg, events, k)
  {
    if k == 0 {
      ForgivenHaveStarted(cfg, events, k);
    }
  }

  lemma AddedOutside(a: set<nat>, x: nat, b: set<nat>)
    ensures x !in b ==> (a + {x}) - b == (a - b) + {x}
    ensures (a + {}) - b == a - b
  {
  }

  // An arrival, a stage event of a request that has left the chain, or a reset: no log of the stage and no passed set changes.
  lemma QuietEvent(cfg: Limits, events: seq<Event>, e: Event, k: nat, r: Request, use: Use, lo: int, hi: int)
    requires Legal(events + [e]) && Binds(cfg, k, r, use) && (e.ResetLimit? ==> k > 0)
    requires e.Advance? ==> !Moves(RunChain(cfg, events), e.id)
    ensures Accepted(cfg, events + [e], use) == Accepted(cfg, events, use)
    ensures Passed(cfg, RunChain(cfg, events + [e]), k, use, lo, hi) == Passed(cfg, RunChain(cfg, events), k, use, lo, hi)
  {
    CallsOnOne(cfg, events, e, use.slot);
    if e.Arrive? {
      ArrivalIsNew(cfg, events, e);
    }
    QuietPassed(cfg, RunChain(cfg, events), e, k, use, lo, hi);
    hide *;
    if e.ResetLimit? {
      ResetIsQuiet(cfg, events, e.key, k, r, use);
    } else {
      QuietLog(cfg, events, e, use);
    }
  }

  lemma QuietPassed(cfg: Limits, s: System, e: Event, k: nat, use: Use, lo: int, hi: int)
    requires e.Arrive? ==> e.id !in s.flights
    requires e.Advance? ==> !Moves(s, e.id)
    ensures Passed(cfg, Step(cfg, s, e), k, use, lo, hi) == Passed(cfg, s, k, use, lo, hi)
  {
  }

  lemma QuietLog(cfg: Limits, events: seq<Event>, e: Event, use: Use)
    requires e.Arrive? || (e.Advance? && !Moves(RunChain(cfg, events), e.id))
    ensures Accepted(cfg, events + [e], use) == Accepted(cfg, events, use)
  {
    hide Log;
    CallsOnOne(cfg, events, e, use.slot);
    var calls := CallsOn(cfg, events, use.slot);
    assert CallOn(cfg, RunChain(cfg, events), e, use.slot) == [] && calls + [] == calls;
  }

  lemma ResetIsQuiet(cfg: Limits, events: seq<Event>, key: string, k: nat, r: Request, use: Use)
    requires Binds(cfg, k, r, use) && k > 0
    ensures Accepted(cfg, events + [ResetLimit(key)], use) == Accepted(cfg, events, use)
  {
    var calls := CallsOn(cfg, events, use.slot);
    CallsOnOne(cfg, events, ResetLimit(key), use.slot);
    ResetMisses(cfg, k, r, use, key);
    hide Log;
    if use.slot == Named(key) {
      LogReset(use.rule, calls, use.key, key);
    } else {
      assert calls + [] == calls;
    }
  }

  // A reset by the name of a registered limiter names none of its keys.
  lemma ResetMisses(cfg: Limits, k: nat, r: Request, use: Use, key: string)
    requires Binds(cfg, k, r, use) && k > 0
    ensures use.slot != GlobalSlot && (use.slot == Named(key) ==> use.key != key)
  {
    assert use.slot.name + ":" <= use.key;
  }

  lemma LogReset(rule: Rule, calls: seq<Call>, key: string, other: string)
    requires key != other
    ensures Log(rule, calls + [Reset(other)], key) == Log(rule, calls, key)
  {
    assert (calls + [Reset(other)])[..|calls|] == calls;
  }

  lemma ArrivalIsNew(cfg: Limits, events: seq<Event>, e: Event)
    requires Legal(events + [e]) && e.Arrive?
    ensures e.id !in RunChain(cfg, events).flights
  {
    var all := events + [e];
    assert all[|events|] == e;
    assert forall i | 0 <= i < |events| && events[i].Arrive? :: all[i].id != e.id;
    if e.id in RunChain(cfg, events).flights {
      FlightsArrived(cfg, events, e.id);
    }
  }

  lemma CountOne(times: seq<int>, t: int, lo: int, hi: int)
    ensures Count(times + [t], lo, hi) == Count(times, lo, hi) + if lo <= t < hi then 1 else 0
    ensures Count(times + [], lo, hi) == Count(times, lo, hi)
  {
    assert (times + [t])[..|times|] == times && times + [] == times;
  }

  /** The requests that reached the handler and were bound, at stage k, by this limiter and key within [lo, hi). */
  ghost function Handled(cfg: Limits, s: System, k: nat, use: Use, lo: int, hi: int): set<nat> {
    set id | id in s.flights && |s.flights[id].stamps| == 4 && PassedAt(cfg, s.flights[id], k, use, lo, hi)
  }

  /**
   * However the stages of concurrent requests interleave, the requests that reach the handler
   * obey every bound that applies to them, all at once; a reset only starts the global count anew.
   */
  lemma HandledWithinEveryBound(cfg: Limits, events: seq<Event>, k: nat, r: Request, use: Use, x: int)
    requires Legal(events) && Binds(cfg, k, r, use)
    ensures |Handled(cfg, RunChain(cfg, events), k, use, x, x + use.rule.window) - Forgiven(cfg, events, k)|
         <= if use.rule.limit > 0 then use.rule.limit else 0
  {
    hide *;
    var s, hi := RunChain(cfg, events), x + use.rule.window;
    EntriesAreRequests(cfg, events, k, r, use, x, hi);
    HandledHavePassed(cfg, events, k, use, x, hi);
    SubsetSize(Handled(cfg, s, k, use, x, hi) - Forgiven(cfg, events, k), PassedSince(cfg, events, k, use, x, hi));
    AcceptedBounded(cfg, events, use, x);
  }

  lemma HandledHavePassed(cfg: Limits, events: seq<Event>, k: nat, use: Use, lo: int, hi: int)
    ensures Handled(cfg, RunChain(cfg, events), k, use, lo, hi) - Forgiven(cfg, events, k)
         <= PassedSince(cfg, events, k, use, lo, hi)
  {
  }

  lemma AcceptedBounded(cfg: Limits, events: seq<Event>, use: Use, x: int)
    requires Legal(events)
    ensures Count(Accepted(cfg, events, use), x, x + use.rule.window) <= if use.rule.limit > 0 then use.rule.limit else 0
  {
    hide *;
    CallsOrdered(cfg, events, use.slot);
    AcceptedIsLog(cfg, events, use);
    WindowBound(use.rule, CallsOn(cfg, events, use.slot), use.key, x);
  }

  lemma AcceptedIsLog(cfg: Limits, events: seq<Event>, use: Use)
    ensures Accepted(cfg, events, use) == Log(use.rule, CallsOn(cfg, events, use.slot), use.key)
  {
  }

  lemma WindowBound(rule: Rule, calls: seq<Call>, key: string, x: int)
    requires Ordered(calls)
    ensures Count(Log(rule, calls, key), x, x + rule.window) <= if rule.limit > 0 then rule.limit else 0
  {
    hide *;
    WindowSafety(rule, calls, key, x);
  }

  lemma {:induction false} SubsetSize(a: set<nat>, b: set<nat>)
    requires a <= b
    ensures |a| <= |b|
    decreases a
  {
    if a == {} {
    } else {
      var x :| x in a;
      SubsetSize(a - {x}, b - {x});
    }
  }

  /** Every limiter that applies to a request that reached the handler has an entry for it: its stamp is a time the limiter accepted. */
  lemma HandledPassedEveryStage(cfg: Limits, events: seq<Event>, id: nat, k: nat)
    requires Legal(events) && k < 4 && id !in Forgiven(cfg, events, k)
    requires var s := RunChain(cfg, events); id in s.flights && |s.flights[id].stamps| == 4
    ensures var f := RunChain(cfg, events).flights[id];
            && !f.rejected && (f.stamps[k].Some? <==> Applies(cfg, k, f.req).Some?)
            && (Applies(cfg, k, f.req).Some? ==>
                  var use, t := Applies(cfg, k, f.req).value, f.stamps[k].value;
                  Count(Accepted(cfg, events, use), t, t + 1) >= 1 && t in Accepted(cfg, events, use))
  {
    hide Legal, RunChain, CallsOn, Accepted, Count, Forgiven;
    EveryStateIsOk(cfg, events);
    var f := RunChain(cfg, events).flights[id];
    if Applies(cfg, k, f.req).Some? {
      StampIsEntry(cfg, events, id, k, Applies(cfg, k, f.req).value, f.stamps[k].value);
    }
  }

  lemma StampIsEntry(cfg: Limits, events: seq<Event>, id: nat, k: nat, use: Use, t: int)
    requires Legal(events) && id !in Forgiven(cfg, events, k) && id in RunChain(cfg, events).flights
    requires var f := RunChain(cfg, events).flights[id];
             k < |f.stamps| && f.stamps[k] == Some(t) && Binds(cfg, k, f.req, use)
    ensures Count(Accepted(cfg, events, use), t, t + 1) >= 1 && t in Accepted(cfg, events, use)
  {
    hide Legal, RunChain, CallsOn, Accepted, Count, Forgiven;
    var s := RunChain(cfg, events);
    EntriesAreRequests(cfg, events, k, s.flights[id].req, use, t, t + 1);
    assert id in PassedSince(cfg, events, k, use, t, t + 1);
    CountedIsIn(Accepted(cfg, events, use), t);
  }

  lemma {:induction false} CountedIsIn(times: seq<int>, t: int)
    requires Count(times, t, t + 1) >= 1
    ensures t in times
    decreases |times|
  {
    var n := |times| - 1;
    if times[n] == t {
    } else {
      CountedIsIn(times[..n], t);
    }
  }

  // ----- one request served alone -----

  /** The first n stage events of a request, at the given times. */
  function Stages(id: nat, times: seq<int>, n: nat): seq<Event>
    requires n <= |times|
  {
    seq(n, i requires 0 <= i < n => Advance(id, times[i]))
  }

  /**
   * A request that nothing interrupts adds one entry to the log of every limiter that applies at the
   * stages it passed; the stage that rejects it, and the stages after that, add none; no other log changes.
   */
  lemma {:induction false} RequestAlone(
    cfg: Limits, events: seq<Event>, id: nat, times: seq<int>, n: nat, k: nat, r: Request, use: Use)
    requires n <= |times| <= 4 && Legal(events + Stages(id, times, n)) && Binds(cfg, k, r, use)
    requires var s := RunChain(cfg, events);
             id in s.flights && s.flights[id].stamps == [] && !s.flights[id].rejected
    ensures var f := RunChain(cfg, events).flights[id];
            var s' := RunChain(cfg, events + Stages(id, times, n));
            && id in s'.flights && s'.flights[id].req == f.req
            && |s'.flights[id].stamps| <= n && (!s'.flights[id].rejected ==> |s'.flights[id].stamps| == n)
            && Accepted(cfg, events + Stages(id, times, n), use) == Accepted(cfg, events, use)
                 + if Applies(cfg, k, f.req) == Some(use) && k < |s'.flights[id].stamps| then [times[k]] else []
    decreases n
  {
    hide Legal, Accepted, RunChain, Binds;
    if n == 0 {
      assert events + Stages(id, times, n) == events;
    } else {
      var before, e := events + Stages(id, times, n - 1), Advance(id, times[n - 1]);
      assert events + Stages(id, times, n) == before + [e];
      assert (before + [e])[..|before|] == before;
      LegalPrefix(before + [e], |before|);
      RequestAlone(cfg, events, id, times, n - 1, k, r, use);
      ServeOne(cfg, before, id, times[n - 1], k, r, use);
    }
  }

  // One more stage event of the request.
  lemma ServeOne(cfg: Limits, events: seq<Event>, id: nat, now: int, k: nat, r: Request, use: Use)
    requires Legal(events) && Binds(cfg, k, r, use)
    requires id in RunChain(cfg, events).flights
    ensures var s, s' := RunChain(cfg, events), RunChain(cfg, events + [Advance(id, now)]);
            var f, m := s.flights[id], |s.flights[id].stamps|;
            && id in s'.flights && s'.flights[id].req == f.req
            && (if Moves(s, id)
                then |s'.flights[id].stamps| == if s'.flights[id].rejected then m else m + 1
                else s'.flights[id] == f)
            && Accepted(cfg, events + [Advance(id, now)], use) == Accepted(cfg, events, use)
                 + if Applies(cfg, k, f.req) == Some(use) && m == k && k < |s'.flights[id].stamps| then [now] else []
  {
    var s := RunChain(cfg, events);
    var f := s.flights[id];
    CallsOnOne(cfg, events, Advance(id, now), use.slot);
    if Moves(s, id) {
      AdvanceEffect(cfg, events, id, now, k, r, use);
      if Applies(cfg, |f.stamps|, f.req) == Some(use) {
        SlotsDiffer(cfg, k, r, |f.stamps|, f.req);
      }
    } else {
      assert CallsOn(cfg, events, use.slot) + [] == CallsOn(cfg, events, use.slot);
    }
  }

  function StagesFrom(id: nat, times: seq<int>, k: nat): seq<Event>
    requires k <= |times|
  {
    seq(|times| - k, i requires 0 <= i < |times| - k => Advance(id, times[k + i]))
  }

  /** The stage events of an uninterrupted request do what the middleware chain does to it. */
  lemma {:induction false} ServedIsRun(cfg: Limits, events: seq<Event>, id: nat, times: seq<int>, k: nat)
    requires k <= |times| <= 4
    requires var s := RunChain(cfg, events);
             id in s.flights && |s.flights[id].stamps| == k && !s.flights[id].rejected
    ensures var s, s' := RunChain(cfg, events), RunChain(cfg, events + StagesFrom(id, times, k));
            var (chain, passed) := Through(cfg, s.chain, s.flights[id].req, times, k);
            s'.chain == chain && id in s'.flights && |s'.flights[id].stamps| == passed
    decreases |times| - k
  {
    if k == |times| {
      assert events + StagesFrom(id, times, k) == events;
    } else {
      var e := Advance(id, times[k]);
      var next := events + [e];
      assert next[..|events|] == events;
      assert StagesFrom(id, times, k) == [e] + StagesFrom(id, times, k + 1);
      assert events + StagesFrom(id, times, k) == next + StagesFrom(id, times, k + 1);
      if RunChain(cfg, next).flights[id].rejected {
        RejectedStays(cfg, next, id, StagesFrom(id, times, k + 1));
      } else {
        ServedIsRun(cfg, next, id, times, k + 1);
      }
    }
  }

  lemma {:induction false} RejectedStays(cfg: Limits, events: seq<Event>, id: nat, rest: seq<Event>)
    requires var s := RunChain(cfg, events); id in s.flights && s.flights[id].rejected
    requires forall i | 0 <= i < |rest| :: rest[i].Advance? && rest[i].id == id
    ensures RunChain(cfg, events + rest) == RunChain(cfg, events)
    decreases |rest|
  {
    if rest == [] {
      assert events + rest == events;
    } else {
      var n := |rest| - 1;
      RejectedStays(cfg, events, id, rest[..n]);
      assert (events + rest)[..|events| + n] == events + rest[..n];
    }
  }

  // ----- who shares a limiter -----

  /** Two requests share a user-stage key only as the same user, the same anonymous address, or a user named like one. */
  lemma UserKeysShared(r: Request, r': Request)
    ensures UserKey(r) == UserKey(r') <==>
      match (r.user, r'.user)
      case (Some(a), Some(b)) => a == b
      case (None, None) => r.ip == r'.ip
      case (Some(a), None) => a == "anonymous:" + r'.ip
      case (None, Some(b)) => b == "anonymous:" + r.ip
  {
    AnonymousKey(r);
    AnonymousKey(r');
    assert UserKey(r) == UserKey(r') ==> UserKey(r)[5..] == UserKey(r')[5..];
    assert ("anonymous:" + r.ip)[10..] == r.ip && ("anonymous:" + r'.ip)[10..] == r'.ip;
  }

  /** Within one API limiter two requests share a key only as the same user or as the same anonymous address. */
  lemma ApiKeysShared(r: Request, r': Request)
    requires r.verb == r'.verb && r.path == r'.path
    ensures ApiKey(r) == ApiKey(r') <==>
      match (r.user, r'.user)
      case (Some(a), Some(b)) => a == b
      case (None, None) => r.ip == r'.ip
      case (_, _) => false
  {
    var n := |ApiName(r.verb, r.path)|;
    ApiKeyParts(r);
    ApiKeyParts(r');
    assert ApiKey(r) == ApiKey(r') ==> ApiKey(r)[n + 1] == ApiKey(r')[n + 1];
  }

  lemma ApiKeyParts(r: Request)
    ensures var name := ApiName(r.verb, r.path);
            match r.user
            case Some(id) => ApiKey(r)[|name| + 1] == 'u' && ApiKey(r)[|name| + 6..] == id
            case None => ApiKey(r)[|name| + 1] == 'i' && ApiKey(r)[|name| + 4..] == r.ip
  {
    var name := ApiName(r.verb, r.path);
    match r.user
    case Some(id) => assert ApiKey(r) == (name + ":user:") + id;
    case None => assert ApiKey(r) == (name + ":ip:") + r.ip;
  }

  lemma AnonymousKey(r: Request)
    ensures UserKey(r) == "user:" + UserKey(r)[5..]
    ensures UserKey(r)[5..] == if r.user.Some? then r.user.value else "anonymous:" + r.ip
  {
  }
}
