// The service registry of internal/service/discovery/discovery.go, as a value, and what
// a run of its operations amounts to.

module Registries {
  import opened Options

  const HEALTHY := "healthy"
  const UNHEALTHY := "unhealthy"

  /** An instance object: its identity, the fields callers leave alone, and the health it was created with. */
  datatype Ref = Ref(serial: nat, name: string, id: string, initial: string)

  /** Service name, then instance ID. */
  type Services<V> = map<string, map<string, V>>

  datatype Registry = Registry(services: Services<Ref>, checked: map<Ref, string>)

  const EMPTY := Registry(map[], map[])

  // ----- one operation -----

  function Placed<V>(services: Services<V>, name: string, id: string, v: V): Services<V> {
    services[name := (if name in services then services[name] else map[])[id := v]]
  }

  predicate Holds<V>(services: Services<V>, name: string, id: string) {
    name in services && id in services[name]
  }

  function Removed<V>(services: Services<V>, name: string, id: string): Services<V>
    requires name in services
  {
    services[name := services[name] - {id}]
  }

  function HealthOf(g: Registry, r: Ref): string {
    if r in g.checked then g.checked[r] else r.initial
  }

  function Status(healthy: bool): string { if healthy then HEALTHY else UNHEALTHY }

  /**
   * `found` is the service under which the iteration over the services first meets the ID;
   * it says nothing if no service has it.
   */
  datatype Op = Register(r: Ref) | Deregister(id: string, found: string) | Check(r: Ref, healthy: bool)

  function Apply(g: Registry, op: Op): Registry {
    match op
    case Register(r) => g.(services := Placed(g.services, r.name, r.id, r))
    case Deregister(id, found) =>
      if Holds(g.services, found, id) then g.(services := Removed(g.services, found, id)) else g
    case Check(r, healthy) => g.(checked := g.checked[r := Status(healthy)])
  }

  /** The iteration finds the ID if any service has it. */
  ghost predicate Possible(g: Registry, op: Op) {
    op.Deregister? && (exists n :: Holds(g.services, n, op.id)) ==> Holds(g.services, op.found, op.id)
  }

  function Discover(g: Registry, s: string): Option<set<Ref>> {
    if s !in g.services then None
    else Some(set i | i in g.services[s] && HealthOf(g, g.services[s][i]) == HEALTHY :: g.services[s][i])
  }

  // ----- runs -----

  function Run(ops: seq<Op>): Registry
    decreases |ops|
  {
    if ops == [] then EMPTY else Apply(Run(ops[..|ops| - 1]), ops[|ops| - 1])
  }

  ghost predicate Legal(ops: seq<Op>) {
    forall k | 0 <= k < |ops| :: Possible(Run(ops[..k]), ops[k])
  }

  /** Each ID is used under one service name. */
  ghost predicate OneName(ops: seq<Op>) {
    forall j, k | 0 <= j < |ops| && 0 <= k < |ops| && ops[j].Register? && ops[k].Register? && ops[j].r.id == ops[k].r.id ::
      ops[j].r.name == ops[k].r.name
  }

  /** The operation takes r out of its place: a deregistration that finds it, or a registration over it. */
  predicate Displaces(op: Op, r: Ref) {
    || (op.Deregister? && op.id == r.id && op.found == r.name)
    || (op.Register? && op.r.name == r.name && op.r.id == r.id)
  }

  /** r was registered, and nothing since has displaced it. */
  ghost predicate Current(ops: seq<Op>, r: Ref) {
    exists k :: 0 <= k < |ops| && ops[k] == Register(r) && forall j | k < j < |ops| :: !Displaces(ops[j], r)
  }

  ghost predicate EverRegistered(ops: seq<Op>, name: string) {
    exists k :: 0 <= k < |ops| && ops[k].Register? && ops[k].r.name == name
  }

  /** Status given by the last check of r, or the one it was created with. */
  function LastStatus(ops: seq<Op>, r: Ref): string
    decreases |ops|
  {
    if ops == [] then r.initial
    else
      var op := ops[|ops| - 1];
      if op.Check? && op.r == r then Status(op.healthy) else LastStatus(ops[..|ops| - 1], r)
  }

  // ----- one step of the log -----

  lemma RunOne(ops: seq<Op>, op: Op)
    ensures Run(ops + [op]) == Apply(Run(ops), op)
    ensures Legal(ops) && Possible(Run(ops), op) ==> Legal(ops + [op])
  {
    var all := ops + [op];
    assert all[..|ops|] == ops;
    assert forall k | 0 <= k < |ops| :: all[..k] == ops[..k] && all[k] == ops[k];
  }

  lemma CurrentStep(ops: seq<Op>, op: Op, r: Ref)
    ensures Current(ops + [op], r) <==> op == Register(r) || (Current(ops, r) && !Displaces(op, r))
  {
    var ops' := ops + [op];
    assert ops'[|ops|] == op && forall j | 0 <= j < |ops| :: ops'[j] == ops[j];
    if op == Register(r) {
      assert ops'[|ops|] == Register(r);
    } else if Current(ops, r) && !Displaces(op, r) {
      var k :| 0 <= k < |ops| && ops[k] == Register(r) && forall j | k < j < |ops| :: !Displaces(ops[j], r);
      assert ops'[k] == Register(r);
    }
  }

  lemma EverStep(ops: seq<Op>, op: Op, name: string)
    ensures EverRegistered(ops + [op], name) <==> EverRegistered(ops, name) || (op.Register? && op.r.name == name)
  {
    var ops' := ops + [op];
    assert ops'[|ops|] == op;
    if EverRegistered(ops, name) {
      var k :| 0 <= k < |ops| && ops[k].Register? && ops[k].r.name == name;
      assert ops'[k] == ops[k];
    }
  }

  /** In place (n, i) is exactly the instance the log makes current there. */
  ghost predicate InPlace(g: Registry, n: string, i: string, r: Ref) {
    Holds(g.services, n, i) && g.services[n][i] == r
  }

  ghost predicate Agrees(g: Registry, ops: seq<Op>) {
    && (forall n, i, r :: InPlace(g, n, i, r) <==> r.name == n && r.id == i && Current(ops, r))
    && (forall n :: n in g.services <==> EverRegistered(ops, n))
  }

  lemma StepAgrees(g: Registry, ops: seq<Op>, op: Op)
    requires Agrees(g, ops)
    ensures Agrees(Apply(g, op), ops + [op])
  {
    var g' := Apply(g, op);
    forall n, i, r
      ensures InPlace(g', n, i, r) <==> r.name == n && r.id == i && Current(ops + [op], r)
    {
      CurrentStep(ops, op, r);
      assert InPlace(g, n, i, r) <==> r.name == n && r.id == i && Current(ops, r);
    }
    forall n ensures n in g'.services <==> EverRegistered(ops + [op], n) {
      EverStep(ops, op, n);
    }
  }

  lemma {:induction false} RunAgrees(ops: seq<Op>)
    ensures Agrees(Run(ops), ops)
    decreases |ops|
  {
    if ops == [] {
    } else {
      var n := |ops| - 1;
      RunAgrees(ops[..n]);
      StepAgrees(Run(ops[..n]), ops[..n], ops[n]);
      assert ops[..n] + [ops[n]] == ops;
    }
  }

  lemma {:induction false} HealthIsLastStatus(ops: seq<Op>, r: Ref)
    ensures HealthOf(Run(ops), r) == LastStatus(ops, r)
    decreases |ops|
  {
    if ops == [] {
    } else {
      HealthIsLastStatus(ops[..|ops| - 1], r);
    }
  }

  // ----- the main results -----

  /**
   * Discovery of s fails exactly if s was never registered; otherwise it gives exactly the latest
   * registered, not since deregistered instances of s whose last status is healthy.
   */
  lemma DiscoverMeaning(ops: seq<Op>, s: string)
    ensures Discover(Run(ops), s) == None <==> !EverRegistered(ops, s)
    ensures Discover(Run(ops), s) != None ==> forall r ::
      r in Discover(Run(ops), s).value <==> r.name == s && Current(ops, r) && LastStatus(ops, r) == HEALTHY
  {
    RunAgrees(ops);
    var g := Run(ops);
    if s in g.services {
      forall r ensures r in Discover(g, s).value <==> r.name == s && Current(ops, r) && LastStatus(ops, r) == HEALTHY {
        HealthIsLastStatus(ops, r);
        if r.name == s && Current(ops, r) {
          assert InPlace(g, s, r.id, r);
        }
        if r in Discover(g, s).value {
          var i :| i in g.services[s] && g.services[s][i] == r;
          assert InPlace(g, s, i, r);
        }
      }
    }
  }

  /** A check makes an instance healthy exactly if the probe succeeds: a current one is then in the answer, else not. */
  lemma CheckDecides(ops: seq<Op>, r: Ref, healthy: bool)
    ensures var ops' := ops + [Check(r, healthy)];
            && (LastStatus(ops', r) == HEALTHY <==> healthy)
            && (LastStatus(ops', r) == UNHEALTHY <==> !healthy)
            && (Current(ops, r) ==> Discover(Run(ops'), r.name) != None)
            && (Current(ops, r) ==> (r in Discover(Run(ops'), r.name).value <==> healthy))
  {
    var ops' := ops + [Check(r, healthy)];
    if Current(ops, r) {
      CurrentStep(ops, Check(r, healthy), r);
      DiscoverMeaning(ops', r.name);
      var k :| 0 <= k < |ops| && ops[k] == Register(r) && forall j | k < j < |ops| :: !Displaces(ops[j], r);
      assert ops'[k] == Register(r);
    }
  }

  /** A late health check of an instance that is no longer current changes no answer: it neither re-adds it nor touches its successor. */
  lemma LateCheckIsInvisible(ops: seq<Op>, r: Ref, healthy: bool, s: string)
    requires !Current(ops, r)
    ensures Discover(Run(ops + [Check(r, healthy)]), s) == Discover(Run(ops), s)
  {
    RunAgrees(ops);
    var g, g' := Run(ops), Run(ops + [Check(r, healthy)]);
    assert (ops + [Check(r, healthy)])[..|ops|] == ops;
    assert g' == Apply(g, Check(r, healthy));
    if s in g.services {
      forall i | i in g.services[s] ensures HealthOf(g', g.services[s][i]) == HealthOf(g, g.services[s][i]) {
        assert InPlace(g, s, i, g.services[s][i]);
      }
      assert Discover(g', s).value == Discover(g, s).value;
    }
  }

  // ----- IDs used under several names -----

  /** No two services have an instance current under this ID. */
  ghost predicate Unshared(ops: seq<Op>, id: string) {
    forall r: Ref, r': Ref | r.id == id && r'.id == id && Current(ops, r) && Current(ops, r') :: r.name == r'.name
  }

  /** A deregistration leaves nothing current under its ID exactly if the ID was current under at most one service. */
  lemma DeregisterClearsIff(ops: seq<Op>, op: Op)
    requires op.Deregister? && Possible(Run(ops), op)
    ensures (forall r: Ref | r.id == op.id :: !Current(ops + [op], r)) <==> Unshared(ops, op.id)
  {
    RunAgrees(ops);
    forall r ensures Current(ops + [op], r) <==> Current(ops, r) && !Displaces(op, r) {
      CurrentStep(ops, op, r);
    }
    if Unshared(ops, op.id) {
      forall r: Ref | r.id == op.id ensures !Current(ops + [op], r) {
        if Current(ops, r) {
          var r' := FoundIsCurrent(ops, op, r);
        }
      }
    }
  }

  // If r is current under the ID, so is the instance the iteration finds.
  lemma FoundIsCurrent(ops: seq<Op>, op: Op, r: Ref) returns (r': Ref)
    requires op.Deregister? && Possible(Run(ops), op) && r.id == op.id && Current(ops, r)
    ensures r'.id == op.id && r'.name == op.found && Current(ops, r')
  {
    RunAgrees(ops);
    var g := Run(ops);
    assert InPlace(g, r.name, r.id, r) && Holds(g.services, op.found, op.id);
    r' := g.services[op.found][op.id];
    assert InPlace(g, op.found, op.id, r');
  }

  /** It is so whenever each ID is registered under one name. */
  lemma OneNameClears(ops: seq<Op>, op: Op)
    requires OneName(ops) && op.Deregister? && Possible(Run(ops), op)
    ensures forall r: Ref | r.id == op.id :: !Current(ops + [op], r)
  {
    forall r: Ref, r': Ref | r.id == op.id && r'.id == op.id && Current(ops, r) && Current(ops, r') ensures r.name == r'.name {
      var k :| 0 <= k < |ops| && ops[k] == Register(r) && forall j | k < j < |ops| :: !Displaces(ops[j], r);
      var k' :| 0 <= k' < |ops| && ops[k'] == Register(r') && forall j | k' < j < |ops| :: !Displaces(ops[j], r');
      assert ops[k].r.name == ops[k'].r.name;
    }
    DeregisterClearsIff(ops, op);
  }

  /** A run that fails: register an ID under two names, deregister it; the other instance is still current, and discovered if healthy. */
  lemma SharedIdSurvives(r: Ref, r': Ref) returns (ops: seq<Op>, op: Op)
    requires r.id == r'.id && r.name != r'.name
    ensures ops == [Register(r), Register(r')] && op == Deregister(r.id, r.name) && Legal(ops + [op])
    ensures !Current(ops + [op], r) && Current(ops + [op], r')
    ensures r'.initial == HEALTHY ==>
      Discover(Run(ops + [op]), r'.name) != None && r' in Discover(Run(ops + [op]), r'.name).value
  {
    hide Run, Legal, Current, EverRegistered, LastStatus, Discover, Agrees, Holds;
    var ops0: seq<Op> := [];
    var ops1 := ops0 + [Register(r)];
    ops, op := ops1 + [Register(r')], Deregister(r.id, r.name);
    var all := ops + [op];
    CurrentStep(ops0, Register(r), r);
    CurrentStep(ops1, Register(r'), r);
    CurrentStep(ops1, Register(r'), r');
    CurrentStep(ops, op, r);
    CurrentStep(ops, op, r');
    NoOps();
    RunOne(ops0, Register(r));
    RunOne(ops1, Register(r'));
    RunOne(ops, op);
    CurrentIsHeld(ops, r);
    DiscoverMeaning(all, r'.name);
    EverStep(ops1, Register(r'), r'.name);
    EverStep(ops, op, r'.name);
    assert forall k | 0 <= k < |all| :: !all[k].Check?;
    NoCheckNoStatus(all, r');
  }

  lemma NoOps()
    ensures Legal([])
  {
  }

  lemma CurrentIsHeld(ops: seq<Op>, r: Ref)
    requires Current(ops, r)
    ensures Holds(Run(ops).services, r.name, r.id)
  {
    RunAgrees(ops);
    assert InPlace(Run(ops), r.name, r.id, r);
  }

  lemma {:induction false} NoCheckNoStatus(ops: seq<Op>, r: Ref)
    requires forall k | 0 <= k < |ops| :: !ops[k].Check?
    ensures LastStatus(ops, r) == r.initial
    decreases |ops|
  {
    if ops == [] {
    } else {
      NoCheckNoStatus(ops[..|ops| - 1], r);
    }
  }
}
