// Who gets through the limiter chain, in terms of the requests themselves: no limiter, key
// or log is mentioned in the results.

module Admission {
  import opened Options
  import opened SlidingWindow
  import opened LimiterChain
  import opened LimiterRuns

  /** The rule stage k puts a request under: global, by address, by user, by endpoint. */
  function RuleAt(cfg: Limits, k: nat, r: Request): Option<Rule> {
    if !cfg.enabled then None
    else if k == 0 then Some(Rule(cfg.globalLimit, 60_000_000_000))
    else if k == 1 then if cfg.ip.limit > 0 then Some(cfg.ip) else None
    else if k == 2 then if cfg.user.limit > 0 then Some(cfg.user) else None
    else if r.path in cfg.api then Some(cfg.api[r.path]) else None
  }

  /** The requests share an allowance at stage k. */
  ghost predicate Shares(k: nat, r: Request, r': Request) {
    if k == 0 then true
    else if k == 1 then r.ip == r'.ip
    else if k == 2 then
      match (r.user, r'.user)
      case (Some(a), Some(b)) => a == b
      case (None, None) => r.ip == r'.ip
      case (Some(a), None) => a == "anonymous:" + r'.ip
      case (None, Some(b)) => b == "anonymous:" + r.ip
    else
      && r.verb == r'.verb && r.path == r'.path && r.user == r'.user
      && (r.user.None? ==> r.ip == r'.ip)
  }

  /** The requests that stage k let through at a time in [lo, hi) on the allowance of r, since the last reset that reached it. */
  ghost function LetThrough(cfg: Limits, events: seq<Event>, k: nat, r: Request, lo: int, hi: int): set<nat> {
    var s := RunChain(cfg, events);
    (set id | id in s.flights && Counted(s.flights[id], k, r, lo, hi)) - Forgiven(cfg, events, k)
  }

  ghost predicate Counted(f: Flight, k: nat, r: Request, lo: int, hi: int) {
    k < |f.stamps| && f.stamps[k].Some? && lo <= f.stamps[k].value < hi && Shares(k, r, f.req)
  }

  // ----- an allowance is a limiter and a key -----

  lemma RuleOfUse(cfg: Limits, k: nat, r: Request)
    requires k < 4
    ensures Applies(cfg, k, r).None? <==> RuleAt(cfg, k, r).None?
    ensures Applies(cfg, k, r).Some? ==> RuleAt(cfg, k, r) == Some(Applies(cfg, k, r).value.rule)
  {
  }

  lemma SharesIsSameUse(cfg: Limits, k: nat, r: Request, r': Request)
    requires k < 4 && TokenMethod(r) && TokenMethod(r')
    requires Applies(cfg, k, r).Some? && Applies(cfg, k, r').Some?
    ensures Applies(cfg, k, r) == Applies(cfg, k, r') <==> Shares(k, r, r')
  {
    if k == 1 {
      assert ("ip:" + r.ip)[3..] == r.ip && ("ip:" + r'.ip)[3..] == r'.ip;
    } else if k == 2 {
      UserKeysShared(r, r');
    } else if k == 3 {
      ApiUses(r, r');
    }
  }

  lemma ApiUses(r: Request, r': Request)
    requires TokenMethod(r) && TokenMethod(r')
    ensures ApiName(r.verb, r.path) == ApiName(r'.verb, r'.path) && ApiKey(r) == ApiKey(r') <==> Shares(3, r, r')
  {
    if ApiName(r.verb, r.path) == ApiName(r'.verb, r'.path) {
      ApiNameInjective(r.verb, r.path, r'.verb, r'.path);
      ApiKeysShared(r, r');
    }
  }

  lemma LetThroughIsPassed(cfg: Limits, events: seq<Event>, k: nat, r: Request, use: Use, lo: int, hi: int)
    requires Legal(events) && Binds(cfg, k, r, use)
    ensures LetThrough(cfg, events, k, r, lo, hi) == PassedSince(cfg, events, k, use, lo, hi)
  {
    hide Applies, Shares, Forgiven;
    EveryStateIsOk(cfg, events);
    var s := RunChain(cfg, events);
    forall id | id in s.flights
      ensures Counted(s.flights[id], k, r, lo, hi) <==> PassedAt(cfg, s.flights[id], k, use, lo, hi)
    {
      var f := s.flights[id];
      assert FlightOk(cfg, f);
      if k < |f.stamps| && f.stamps[k].Some? {
        SharesIsSameUse(cfg, k, r, f.req);
      }
    }
  }

  // ----- the results -----

  /** No allowance is ever exceeded: in any interval as long as its window at most `limit` requests get through on it. */
  lemma NeverMoreThanAllowed(cfg: Limits, events: seq<Event>, k: nat, r: Request, rule: Rule, x: int)
    requires Legal(events) && TokenMethod(r) && k < 4 && RuleAt(cfg, k, r) == Some(rule)
    ensures |LetThrough(cfg, events, k, r, x, x + rule.window)| <= if rule.limit > 0 then rule.limit else 0
  {
    RuleOfUse(cfg, k, r);
    BoundedUse(cfg, events, k, r, Applies(cfg, k, r).value, x);
  }

  lemma BoundedUse(cfg: Limits, events: seq<Event>, k: nat, r: Request, use: Use, x: int)
    requires Legal(events) && Binds(cfg, k, r, use)
    ensures |LetThrough(cfg, events, k, r, x, x + use.rule.window)|
         <= if use.rule.limit > 0 then use.rule.limit else 0
  {
    hide *;
    LetThroughIsPassed(cfg, events, k, r, use, x, x + use.rule.window);
    EntriesAreRequests(cfg, events, k, r, use, x, x + use.rule.window);
    AcceptedBounded(cfg, events, use, x);
  }

  lemma AdmitsByCount(rule: Rule, calls: seq<Call>, key: string, now: int)
    requires Ordered(calls) && NotBefore(calls, now)
    ensures Admits(rule, Run(rule, calls), key, now)
       <==> Count(Log(rule, calls, key), now - rule.window + 1, now + 1) < rule.limit
  {
    hide Log, FullLog, Run, Admits, Count;
    OrderedWith(calls, key, now);
    PruningRefinesNeverForgetting(rule, calls, key, now);
  }

  /** No rule applies to the request at its next stage, or fewer than `limit` requests got through there on its allowance within the last window. */
  ghost predicate AllowanceLeft(cfg: Limits, events: seq<Event>, f: Flight, now: int) {
    var k := |f.stamps|;
    match RuleAt(cfg, k, f.req)
    case None => true
    case Some(rule) => |LetThrough(cfg, events, k, f.req, now - rule.window + 1, now + 1)| < rule.limit
  }

  /**
   * A stage rejects a request exactly if its allowance there is used up. If it passes, the stage notes the time,
   * unless no rule applies; no other request changes.
   */
  lemma PassesIffAllowanceLeft(cfg: Limits, events: seq<Event>, id: nat, now: int)
    requires Legal(events + [Advance(id, now)]) && Moves(RunChain(cfg, events), id)
    ensures var s, s' := RunChain(cfg, events), RunChain(cfg, events + [Advance(id, now)]);
            var f := s.flights[id];
            s'.flights == s.flights[id :=
              if AllowanceLeft(cfg, events, f, now) then
                f.(stamps := f.stamps + [if RuleAt(cfg, |f.stamps|, f.req).Some? then Some(now) else None])
              else f.(rejected := true)]
  {
    hide Legal, RunChain, AllowanceLeft, Applies, RuleAt, SystemOk, Step;
    var s := RunChain(cfg, events);
    var f := s.flights[id];
    assert (events + [Advance(id, now)])[..|events|] == events;
    LegalPrefix(events + [Advance(id, now)], |events|);
    EveryStateIsOk(cfg, events);
    CallsOnOne(cfg, events, Advance(id, now), GlobalSlot);
    RuleOfUse(cfg, |f.stamps|, f.req);
    AdvanceFlight(cfg, s, id, now);
    RejectedIffNoneLeft(cfg, events, id, now);
  }

  lemma RejectedIffNoneLeft(cfg: Limits, events: seq<Event>, id: nat, now: int)
    requires Legal(events + [Advance(id, now)]) && Legal(events) && Moves(RunChain(cfg, events), id)
    ensures id in Step(cfg, RunChain(cfg, events), Advance(id, now)).flights
    ensures var s := RunChain(cfg, events);
            !Step(cfg, s, Advance(id, now)).flights[id].rejected <==> AllowanceLeft(cfg, events, s.flights[id], now)
  {
    hide Legal, RunChain, Applies, SystemOk, Step, LetThrough, Admits, CallsOn, Run;
    var s := RunChain(cfg, events);
    var f := s.flights[id];
    EveryStateIsOk(cfg, events);
    RuleOfUse(cfg, |f.stamps|, f.req);
    AdvanceFlight(cfg, s, id, now);
    if Applies(cfg, |f.stamps|, f.req).Some? {
      var use := Applies(cfg, |f.stamps|, f.req).value;
      MethodIsToken(cfg, s, id);
      TimesSoFar(events, id, now);
      PassIsAdmit(cfg, events, id, now, |f.stamps|, f.req, use);
      AdmitsIffAllowanceLeft(cfg, events, |f.stamps|, f.req, use, now);
    }
  }

  lemma MethodIsToken(cfg: Limits, s: System, id: nat)
    requires SystemOk(cfg, s) && id in s.flights
    ensures TokenMethod(s.flights[id].req)
  {
    assert FlightOk(cfg, s.flights[id]);
  }

  lemma AdvanceFlight(cfg: Limits, s: System, id: nat, now: int)
    requires SystemOk(cfg, s) && Moves(s, id)
    ensures var s' := Step(cfg, s, Advance(id, now));
            var f := s.flights[id];
            var applies := Applies(cfg, |f.stamps|, f.req);
            && id in s'.flights && (applies.None? ==> !s'.flights[id].rejected)
            && s'.flights == s.flights[id :=
                 if s'.flights[id].rejected then f.(rejected := true)
                 else f.(stamps := f.stamps + [if applies.Some? then Some(now) else None])]
  {
    StageUses(cfg, s.chain, |s.flights[id].stamps|, s.flights[id].req, now);
  }

  lemma AdmitsIffAllowanceLeft(cfg: Limits, events: seq<Event>, k: nat, r: Request, use: Use, now: int)
    requires Legal(events) && TimesUpTo(events, now) && Binds(cfg, k, r, use)
    ensures Admits(use.rule, Run(use.rule, CallsOn(cfg, events, use.slot)), use.key, now)
       <==> |LetThrough(cfg, events, k, r, now - use.rule.window + 1, now + 1)| < use.rule.limit
  {
    hide *;
    AcceptedIsLog(cfg, events, use);
    LetThroughIsPassed(cfg, events, k, r, use, now - use.rule.window + 1, now + 1);
    EntriesAreRequests(cfg, events, k, r, use, now - use.rule.window + 1, now + 1);
    CallsOrdered(cfg, events, use.slot);
    AdmitsByCount(use.rule, CallsOn(cfg, events, use.slot), use.key, now);
  }

  lemma TimesSoFar(events: seq<Event>, id: nat, now: int)
    requires Legal(events + [Advance(id, now)])
    ensures TimesUpTo(events, now)
  {
    var all := events + [Advance(id, now)];
    assert all[|events|] == Advance(id, now) && forall i | 0 <= i < |events| :: all[i] == events[i];
  }

  lemma OrderedWith(calls: seq<Call>, key: string, now: int)
    requires Ordered(calls) && NotBefore(calls, now)
    ensures Ordered(calls + [Allow(key, now)])
  {
  }
}
