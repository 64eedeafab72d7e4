// The limiter registry and the chain Global -> IP -> User -> API of
// internal/middleware/ratelimit/ratelimit.go, in the order internal/router/router.go
// installs it. Requests are in flight together: a run interleaves their stages freely.

module LimiterChain {
  import opened Options
  import opened SlidingWindow

  const MINUTE := 60_000_000_000

  datatype Limits = Limits(
    enabled: bool, globalLimit: int, ip: Rule, user: Rule, api: map<string, Rule>)

  datatype Request = Request(verb: string, path: string, ip: string, user: Option<string>)

  datatype Limiter = Limiter(rule: Rule, store: Store)

  datatype Chain = Chain(global: Option<Limiter>, limiters: map<string, Limiter>)

  // ----- the stages, as written -----

  function NewChain(cfg: Limits): Chain {
    if !cfg.enabled then Chain(None, map[])
    else
      var m0: map<string, Limiter> := map[];
      var m1 := if cfg.ip.limit > 0 then m0["ip" := Limiter(cfg.ip, map[])] else m0;
      var m2 := if cfg.user.limit > 0 then m1["user" := Limiter(cfg.user, map[])] else m1;
      Chain(Some(Limiter(Rule(cfg.globalLimit, MINUTE), map[])), m2)
  }

  predicate Passes(l: Limiter, key: string, now: int) {
    Admits(l.rule, l.store, key, now)
  }

  function Used(l: Limiter, key: string, now: int): Limiter {
    Limiter(l.rule, AfterAllow(l.rule, l.store, key, now))
  }

  function ApiName(verb: string, path: string): string { "api:" + verb + ":" + path }

  function UserKey(r: Request): string {
    match r.user
    case Some(id) => "user:" + id
    case None => "user:anonymous:" + r.ip
  }

  function ApiKey(r: Request): string {
    match r.user
    case Some(id) => ApiName(r.verb, r.path) + ":user:" + id
    case None => ApiName(r.verb, r.path) + ":ip:" + r.ip
  }

  function UseNamed(chain: Chain, name: string, key: string, now: int): (Chain, bool)
    requires name in chain.limiters
  {
    var l := chain.limiters[name];
    (chain.(limiters := chain.limiters[name := Used(l, key, now)]), Passes(l, key, now))
  }

  function GlobalStage(cfg: Limits, chain: Chain, now: int): (Chain, bool) {
    if !cfg.enabled || chain.global.None? then (chain, true)
    else
      var l := chain.global.value;
      (chain.(global := Some(Used(l, "global", now))), Passes(l, "global", now))
  }

  function IPStage(cfg: Limits, chain: Chain, r: Request, now: int): (Chain, bool) {
    if !cfg.enabled || "ip" !in chain.limiters then (chain, true)
    else UseNamed(chain, "ip", "ip:" + r.ip, now)
  }

  function UserStage(cfg: Limits, chain: Chain, r: Request, now: int): (Chain, bool) {
    if !cfg.enabled || "user" !in chain.limiters then (chain, true)
    else UseNamed(chain, "user", UserKey(r), now)
  }

  function WithAPILimiter(chain: Chain, name: string, rule: Rule): Chain {
    if name in chain.limiters then chain
    else chain.(limiters := chain.limiters[name := Limiter(rule, map[])])
  }

  function APIStage(cfg: Limits, chain: Chain, r: Request, now: int): (Chain, bool) {
    if !cfg.enabled || r.path !in cfg.api then (chain, true)
    else
      var name := ApiName(r.verb, r.path);
      UseNamed(WithAPILimiter(chain, name, cfg.api[r.path]), name, ApiKey(r), now)
  }

  /** The k-th stage of the chain, k = 0..3. */
  function Stage(cfg: Limits, chain: Chain, k: nat, r: Request, now: int): (Chain, bool) {
    if k == 0 then GlobalStage(cfg, chain, now)
    else if k == 1 then IPStage(cfg, chain, r, now)
    else if k == 2 then UserStage(cfg, chain, r, now)
    else APIStage(cfg, chain, r, now)
  }

  /** The stages from the k-th on, until one rejects: the chain after them, and how many the request has passed in all. */
  function Through(cfg: Limits, chain: Chain, r: Request, times: seq<int>, k: nat): (Chain, nat)
    requires k <= |times|
    decreases |times| - k
  {
    if k == |times| then (chain, k)
    else
      var (chain', pass) := Stage(cfg, chain, k, r, times[k]);
      if pass then Through(cfg, chain', r, times, k + 1) else (chain', k)
  }

  function ResetRateLimit(chain: Chain, key: string): Chain {
    var limiters :=
      if key in chain.limiters then
        var l := chain.limiters[key];
        chain.limiters[key := l.(store := AfterReset(l.store, key))]
      else chain.limiters;
    var global :=
      match chain.global
      case Some(l) => Some(l.(store := AfterReset(l.store, "global")))
      case None => None;
    Chain(global, limiters)
  }

  // ----- runs -----

  /** A request in the chain: when each stage it passed let it through, `None` for a stage that does not apply. */
  datatype Flight = Flight(req: Request, stamps: seq<Option<int>>, rejected: bool)

  datatype System = System(chain: Chain, flights: map<nat, Flight>)

  datatype Event =
    | Arrive(id: nat, req: Request)
    | Advance(id: nat, now: int)
    | ResetLimit(key: string)

  /** A limiter: the global one, or one of the registry. */
  datatype Slot = GlobalSlot | Named(name: string)

  datatype Use = Use(slot: Slot, key: string, rule: Rule)

  /** Which limiter the configuration says stage k of a request is bound by, under which key. */
  function Applies(cfg: Limits, k: nat, r: Request): Option<Use> {
    if !cfg.enabled then None
    else if k == 0 then Some(Use(GlobalSlot, "global", Rule(cfg.globalLimit, MINUTE)))
    else if k == 1 then
      if cfg.ip.limit > 0 then Some(Use(Named("ip"), "ip:" + r.ip, cfg.ip)) else None
    else if k == 2 then
      if cfg.user.limit > 0 then Some(Use(Named("user"), UserKey(r), cfg.user)) else None
    else
      if r.path in cfg.api then Some(Use(Named(ApiName(r.verb, r.path)), ApiKey(r), cfg.api[r.path])) else None
  }

  function Step(cfg: Limits, s: System, e: Event): System {
    match e
    case Arrive(id, req) => s.(flights := s.flights[id := Flight(req, [], false)])
    case Advance(id, now) =>
      if id !in s.flights || s.flights[id].rejected || |s.flights[id].stamps| >= 4 then s
      else
        var f := s.flights[id];
        var k := |f.stamps|;
        var (chain', pass) := Stage(cfg, s.chain, k, f.req, now);
        var stamp := if Applies(cfg, k, f.req).Some? then Some(now) else None;
        var f' := if pass then f.(stamps := f.stamps + [stamp]) else f.(rejected := true);
        System(chain', s.flights[id := f'])
    case ResetLimit(key) => s.(chain := ResetRateLimit(s.chain, key))
  }

  function RunChain(cfg: Limits, events: seq<Event>): System
    decreases |events|
  {
    if events == [] then System(NewChain(cfg), map[])
    else Step(cfg, RunChain(cfg, events[..|events| - 1]), events[|events| - 1])
  }

  /** A method is a token (section 5.6.2 of RFC 9110), so it holds no colon. */
  predicate TokenMethod(r: Request) { ':' !in r.verb }

  /** Requests have tokens for methods, their own identity, and the clock never goes back. */
  ghost predicate Legal(events: seq<Event>) {
    && (forall i | 0 <= i < |events| && events[i].Arrive? :: TokenMethod(events[i].req))
    && (forall i, j | 0 <= i < j < |events| && events[i].Arrive? && events[j].Arrive? :: events[i].id != events[j].id)
    && (forall i, j | 0 <= i < j < |events| && events[i].Advance? && events[j].Advance? :: events[i].now <= events[j].now)
  }

  // ----- the calls one limiter gets in a run -----

  /** The call, if any, that an event makes on a limiter. */
  function CallOn(cfg: Limits, s: System, e: Event, slot: Slot): seq<Call> {
    match e
    case Arrive(_, _) => []
    case Advance(id, now) =>
      if id !in s.flights || s.flights[id].rejected || |s.flights[id].stamps| >= 4 then []
      else
        var use := Applies(cfg, |s.flights[id].stamps|, s.flights[id].req);
        if use.Some? && use.value.slot == slot then [Allow(use.value.key, now)] else []
    case ResetLimit(key) =>
      if slot == GlobalSlot then [Reset("global")]
      else if slot == Named(key) then [Reset(key)] else []
  }

  function CallsOn(cfg: Limits, events: seq<Event>, slot: Slot): seq<Call>
    decreases |events|
  {
    if events == [] then []
    else
      var n := |events| - 1;
      CallsOn(cfg, events[..n], slot) + CallOn(cfg, RunChain(cfg, events[..n]), events[n], slot)
  }

  function LimiterAt(chain: Chain, slot: Slot): Option<Limiter> {
    match slot
    case GlobalSlot => chain.global
    case Named(name) => if name in chain.limiters then Some(chain.limiters[name]) else None
  }

  /** Everything a limiter accepted under a key since its last reset. */
  function Accepted(cfg: Limits, events: seq<Event>, use: Use): seq<int> {
    Log(use.rule, CallsOn(cfg, events, use.slot), use.key)
  }

  // ----- names and keys -----

  /** A name determines its method and path, because a method holds no colon. */
  lemma ApiNameInjective(verb: string, path: string, verb': string, path': string)
    requires ':' !in verb && ':' !in verb'
    requires ApiName(verb, path) == ApiName(verb', path')
    ensures verb == verb' && path == path'
  {
    var name := ApiName(verb, path);
    assert name[4 + |verb|] == ':' && name[4 + |verb'|] == ':';
    assert forall i | 0 <= i < |verb| :: name[4 + i] == verb[i];
    assert forall i | 0 <= i < |verb'| :: name[4 + i] == verb'[i];
    assert |verb| == |verb'|;
    assert verb == name[4..4 + |verb|] == verb';
    assert path == name[5 + |verb|..] == path';
  }

  lemma ApiNameShape(verb: string, path: string)
    ensures ApiName(verb, path) != "ip" && ApiName(verb, path) != "user"
    ensures ApiName(verb, path)[0] == 'a' && |ApiName(verb, path)| >= 5
  {
  }

  ghost predicate IsApiName(cfg: Limits, name: string, rule: Rule) {
    exists verb: string, path: string ::
      ':' !in verb && path in cfg.api && name == ApiName(verb, path) && rule == cfg.api[path]
  }

  /** What the registry keeps in every reachable state. */
  ghost predicate RegistryOk(cfg: Limits, chain: Chain) {
    && (chain.global.Some? <==> cfg.enabled)
    && (chain.global.Some? ==> chain.global.value.rule == Rule(cfg.globalLimit, MINUTE))
    && (chain.global.Some? ==> chain.global.value.store.Keys <= {"global"})
    && ("ip" in chain.limiters <==> cfg.enabled && cfg.ip.limit > 0)
    && ("user" in chain.limiters <==> cfg.enabled && cfg.user.limit > 0)
    && (forall name | name in chain.limiters :: NameOk(cfg, name, chain.limiters[name].rule))
    && (forall name, key | name in chain.limiters && key in chain.limiters[name].store :: name + ":" <= key)
  }

  ghost predicate NameOk(cfg: Limits, name: string, rule: Rule) {
    if name == "ip" then rule == cfg.ip
    else if name == "user" then rule == cfg.user
    else IsApiName(cfg, name, rule)
  }

  // ----- one stage -----

  /** The limiter a stage works on: the one in place, or the fresh one an API stage creates. */
  function Found(chain: Chain, use: Use): Limiter {
    match LimiterAt(chain, use.slot)
    case Some(l) => l
    case None => Limiter(use.rule, map[])
  }

  // Using a registered limiter under a key of its own changes that limiter only.
  lemma NamedUse(cfg: Limits, chain: Chain, name: string, key: string, now: int)
    requires RegistryOk(cfg, chain) && name in chain.limiters && name + ":" <= key
    ensures var (chain', pass) := UseNamed(chain, name, key, now);
            && RegistryOk(cfg, chain')
            && LimiterAt(chain', Named(name)) == Some(Used(chain.limiters[name], key, now))
            && (forall slot | slot != Named(name) :: LimiterAt(chain', slot) == LimiterAt(chain, slot))
  {
  }

  /** What a stage does, in terms of the limiter that applies to the request. */
  ghost predicate UsesExactly(chain: Chain, applies: Option<Use>, now: int, chain': Chain, pass: bool) {
    match applies
    case None => chain' == chain && pass
    case Some(use) =>
      && Found(chain, use).rule == use.rule
      && pass == Passes(Found(chain, use), use.key, now)
      && LimiterAt(chain', use.slot) == Some(Used(Found(chain, use), use.key, now))
      && (forall slot | slot != use.slot :: LimiterAt(chain', slot) == LimiterAt(chain, slot))
  }

  /** A stage uses exactly the limiter that applies, under its rule, and touches no other. */
  lemma StageUses(cfg: Limits, chain: Chain, k: nat, r: Request, now: int)
    requires RegistryOk(cfg, chain) && TokenMethod(r) && k < 4
    ensures var (chain', pass) := Stage(cfg, chain, k, r, now);
            RegistryOk(cfg, chain') && UsesExactly(chain, Applies(cfg, k, r), now, chain', pass)
  {
    if Applies(cfg, k, r).Some? {
      if k == 1 {
        NamedUse(cfg, chain, "ip", "ip:" + r.ip, now);
      } else if k == 2 {
        NamedUse(cfg, chain, "user", UserKey(r), now);
      } else if k == 3 {
        ApiStageUses(cfg, chain, r, now);
      }
    }
  }

  lemma ApiStageUses(cfg: Limits, chain: Chain, r: Request, now: int)
    requires RegistryOk(cfg, chain) && TokenMethod(r) && Applies(cfg, 3, r).Some?
    ensures var (chain', pass) := APIStage(cfg, chain, r, now);
            RegistryOk(cfg, chain') && UsesExactly(chain, Applies(cfg, 3, r), now, chain', pass)
  {
    var name, rule := ApiName(r.verb, r.path), cfg.api[r.path];
    ApiNameShape(r.verb, r.path);
    if name in chain.limiters {
      assert NameOk(cfg, name, chain.limiters[name].rule);
      var verb, path :| ':' !in verb && path in cfg.api && name == ApiName(verb, path)
                        && chain.limiters[name].rule == cfg.api[path];
      ApiNameInjective(verb, path, r.verb, r.path);
    }
    var found := WithAPILimiter(chain, name, rule);
    assert IsApiName(cfg, name, rule);
    assert RegistryOk(cfg, found);
    assert name + ":" <= ApiKey(r);
    NamedUse(cfg, found, name, ApiKey(r), now);
  }

  // Each limiter serves one stage only.
  lemma SlotsDiffer(cfg: Limits, k: nat, r: Request, k': nat, r': Request)
    requires k < 4 && k' < 4 && Applies(cfg, k, r).Some? && Applies(cfg, k', r').Some?
    requires Applies(cfg, k, r).value.slot == Applies(cfg, k', r').value.slot
    ensures k == k'
  {
  }

}
