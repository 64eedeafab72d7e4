// The in-memory discovery object of internal/service/discovery/discovery.go, one call at a
// time. A call that notifies a watched service never returns and keeps the write lock (see
// module LockProtocol); after that no call returns. `returned` says whether a call does.

module Discoveries {
  import opened Options
  import opened Registries

  class ServiceInstance {
    const name: string
    const id: string
    var health: string

    constructor (name: string, id: string, health: string)
      ensures this.name == name && this.id == id && this.health == health
    {
      this.name, this.id, this.health := name, id, health;
    }
  }

  datatype Mutex = Free | HeldForever

  /** Every object stands where its reference does. */
  ghost predicate Mirrors(
    services: Services<ServiceInstance>, refs: map<ServiceInstance, Ref>, model: Services<Ref>)
  {
    && services.Keys == model.Keys
    && forall n | n in services ::
         && services[n].Keys == model[n].Keys
         && forall i | i in services[n] :: services[n][i] in refs && refs[services[n][i]] == model[n][i]
  }

  /** Different objects have different references, all numbered below `next`, under their own name and ID. */
  ghost predicate Distinct(refs: map<ServiceInstance, Ref>, next: nat) {
    && (forall x | x in refs :: refs[x].name == x.name && refs[x].id == x.id && refs[x].serial < next)
    && (forall x, y | x in refs && y in refs && refs[x] == refs[y] :: x == y)
  }

  /** The services are those of the registry that the log amounts to. */
  ghost predicate Stands(log: seq<Op>, services: Services<ServiceInstance>, refs: map<ServiceInstance, Ref>, next: nat) {
    && Legal(log) && Mirrors(services, refs, Run(log).services) && Distinct(refs, next)
    && forall r | r in Run(log).checked :: r.serial < next
  }

  /** Every object has the health the log gives its reference. */
  ghost predicate Reports(log: seq<Op>, refs: map<ServiceInstance, Ref>)
    reads refs.Keys
  {
    forall x | x in refs :: x.health == HealthOf(Run(log), refs[x])
  }

  class InMemoryDiscovery {
    var services: Services<ServiceInstance>
    var watchers: map<string, nat>
    var mutex: Mutex

    ghost var log: seq<Op>                       // the operations carried out
    ghost var refs: map<ServiceInstance, Ref>    // every instance object seen so far
    ghost var next: nat

    /** The object is the registry its log amounts to, and nobody else has written to an instance. */
    ghost predicate Valid()
      reads this, refs.Keys
    {
      Stands(log, services, refs, next) && Reports(log, refs)
    }

    constructor ()
      ensures Valid() && services == map[] && watchers == map[] && mutex == Free && log == []
    {
      services, watchers, mutex := map[], map[], Free;
      log, refs, next := [], map[], 0;
    }

    // An instance object that is handed in for the first time gets a reference of its own.
    ghost method Know(x: ServiceInstance)
      requires Valid()
      modifies this`refs, this`next
      ensures Valid() && x in refs
      ensures if x in old(refs) then refs == old(refs) else refs == old(refs)[x := refs[x]]
    {
      hide Stands, Reports;
      if x !in refs {
        var r := Ref(next, x.name, x.id, x.health);
        Known(log, services, refs, next, x, r);
        refs, next := refs[x := r], next + 1;
      }
    }

    method Register(instance: ServiceInstance) returns (returned: bool)
      requires Valid()
      modifies this
      ensures Valid() && watchers == old(watchers)
      ensures old(mutex) == HeldForever ==> !returned && unchanged(this)
      ensures old(mutex) == Free ==>
        && services == Placed(old(services), instance.name, instance.id, instance)
        && instance in refs && log == old(log) + [Op.Register(refs[instance])]
        && (forall x | x in old(refs) :: x in refs && refs[x] == old(refs)[x])
        && (returned <==> instance.name !in watchers)
        && mutex == if returned then Free else HeldForever
    {
      hide Stands, Reports, Mirrors, Distinct;
      if mutex == HeldForever {
        return false;
      }
      Know(instance);
      Registered(log, services, refs, next, instance);
      if instance.name !in services {
        services := services[instance.name := map[]];
      }
      services := services[instance.name := services[instance.name][instance.id := instance]];
      assert services == Placed(old(services), instance.name, instance.id, instance);
      log := log + [Op.Register(refs[instance])];
      returned := instance.name !in watchers;
      mutex := if returned then Free else HeldForever;
    }

    /** Removes the ID from the first service, in any iteration order, that has it, and notifies that service. */
    method Deregister(serviceID: string) returns (found: Option<string>, returned: bool)
      requires Valid()
      modifies this
      ensures Valid() && watchers == old(watchers) && refs == old(refs)
      ensures old(mutex) == HeldForever ==> !returned && unchanged(this)
      ensures old(mutex) == Free ==>
        && (found.None? <==> forall n :: !Holds(old(services), n, serviceID))
        && (found.None? ==> returned && unchanged(this))
        && (found.Some? ==>
              && Holds(old(services), found.value, serviceID)
              && services == Removed(old(services), found.value, serviceID)
              && log == old(log) + [Op.Deregister(serviceID, found.value)]
              && (returned <==> found.value !in watchers)
              && mutex == if returned then Free else HeldForever)
    {
      hide Stands, Reports, Run;
      if mutex == HeldForever {
        return None, false;
      }
      var names := services.Keys;
      while names != {}
        invariant names <= services.Keys && unchanged(this)
        invariant forall n | n in services && n !in names :: serviceID !in services[n]
        decreases |names|
      {
        var serviceName :| serviceName in names;
        if serviceID in services[serviceName] {
          assert Holds(old(services), serviceName, serviceID);
          Deregistered(log, services, refs, next, serviceID, serviceName);
          services := services[serviceName := services[serviceName] - {serviceID}];
          log := log + [Op.Deregister(serviceID, serviceName)];
          returned := serviceName !in watchers;
          mutex := if returned then Free else HeldForever;
          return Some(serviceName), returned;
        }
        names := names - {serviceName};
      }
      return None, true;
    }

    /**
     * Fails exactly for an unknown service; otherwise lists its healthy instances, each once, in any order:
     * by the log, the current instances of the service whose last status is healthy.
     */
    method Discover(serviceName: string) returns (result: Option<seq<ServiceInstance>>, returned: bool)
      requires Valid()
      ensures returned <==> mutex == Free
      ensures returned ==> (result.None? <==> serviceName !in services)
      ensures returned ==> (result.None? <==> !EverRegistered(log, serviceName))
      ensures returned && result.Some? ==>
        && (forall x :: x in result.value <==>
              Holds(services, serviceName, x.id) && services[serviceName][x.id] == x && x.health == HEALTHY)
        && (forall x :: x in result.value <==>
              x in refs && x.name == serviceName && Current(log, refs[x]) && LastStatus(log, refs[x]) == HEALTHY)
        && (forall i, j | 0 <= i < j < |result.value| :: result.value[i] != result.value[j])
    {
      hide Stands, Reports, Current, LastStatus, EverRegistered;
      if mutex == HeldForever {
        return None, false;
      }
      EverKnown(serviceName);
      if serviceName !in services {
        return None, true;
      }
      forall i | i in services[serviceName] ensures services[serviceName][i].id == i {
        UnderOwnId(serviceName, i);
      }
      var list := Healthy(services[serviceName]);
      forall x ensures x in list <==>
        x in refs && x.name == serviceName && Current(log, refs[x]) && LastStatus(log, refs[x]) == HEALTHY
      {
        InLog(x, serviceName);
      }
      return Some(list), true;
    }

    // The loop over the instances of one service.
    method Healthy(instances: map<string, ServiceInstance>) returns (list: seq<ServiceInstance>)
      requires forall i | i in instances :: instances[i].id == i
      ensures forall x :: x in list <==> x.id in instances && instances[x.id] == x && x.health == HEALTHY
      ensures forall i, j | 0 <= i < j < |list| :: list[i] != list[j]
    {
      list := [];
      var ids := instances.Keys;
      while ids != {}
        invariant ids <= instances.Keys
        invariant forall x :: x in list <==>
          x.id in instances && x.id !in ids && instances[x.id] == x && x.health == HEALTHY
        invariant forall i, j | 0 <= i < j < |list| :: list[i] != list[j]
        decreases |ids|
      {
        var id :| id in ids;
        var instance := instances[id];
        if instance.health == HEALTHY {
          list := list + [instance];
        }
        ids := ids - {id};
      }
    }

    // Where an object stands is what the log says of its reference.
    lemma InLog(x: ServiceInstance, s: string)
      requires Valid() && s in services
      ensures Holds(services, s, x.id) && services[s][x.id] == x && x.health == HEALTHY <==>
        x in refs && x.name == s && Current(log, refs[x]) && LastStatus(log, refs[x]) == HEALTHY
    {
      var g := Run(log);
      RunAgrees(log);
      if x in refs {
        HealthIsLastStatus(log, refs[x]);
        assert InPlace(g, s, x.id, refs[x]) <==> refs[x].name == s && refs[x].id == x.id && Current(log, refs[x]);
        if InPlace(g, s, x.id, refs[x]) {
          assert refs[services[s][x.id]] == refs[x];
        }
      }
    }

    lemma EverKnown(n: string)
      requires Valid()
      ensures n in services <==> EverRegistered(log, n)
    {
      RunAgrees(log);
    }

    /** A new channel for a service: what makes its later changes hold the lock forever. */
    method Watch(serviceName: string) returns (returned: bool)
      requires Valid()
      modifies this`watchers
      ensures Valid() && (returned <==> mutex == Free)
      ensures !returned ==> watchers == old(watchers)
      ensures returned ==>
        watchers == old(watchers)[serviceName := 1 + if serviceName in old(watchers) then old(watchers)[serviceName] else 0]
    {
      if mutex == HeldForever {
        return false;
      }
      watchers := watchers[serviceName := 1 + if serviceName in watchers then watchers[serviceName] else 0];
      return true;
    }

    /** A round of health checks: one is started for every registered instance, healthy or not, and for nothing else. */
    method PerformHealthChecks() returns (started: seq<(string, ServiceInstance)>, returned: bool)
      requires Valid()
      ensures returned <==> mutex == Free
      ensures returned ==> forall n, x ::
        (n, x) in started <==> Holds(services, n, x.id) && services[n][x.id] == x
      ensures forall n, x | (n, x) in started :: x in refs
      ensures forall i, j | 0 <= i < j < |started| :: started[i] != started[j]
    {
      hide Stands, Reports;
      started := [];
      if mutex == HeldForever {
        return [], false;
      }
      var names := services.Keys;
      while names != {}
        invariant names <= services.Keys && forall n, x | (n, x) in started :: x in refs
        invariant forall n, x ::
          (n, x) in started <==> n !in names && Holds(services, n, x.id) && services[n][x.id] == x
        invariant forall i, j | 0 <= i < j < |started| :: started[i] != started[j]
        decreases |names|
      {
        var serviceName :| serviceName in names;
        var instances := services[serviceName];
        var ids := instances.Keys;
        while ids != {}
          invariant ids <= instances.Keys && forall n, x | (n, x) in started :: x in refs
          invariant forall n, x :: (n, x) in started <==>
            Holds(services, n, x.id) && services[n][x.id] == x && (n !in names || (n == serviceName && x.id !in ids))
          invariant forall i, j | 0 <= i < j < |started| :: started[i] != started[j]
          decreases |ids|
        {
          var id :| id in ids;
          assert Holds(services, serviceName, id);
          UnderOwnId(serviceName, id);
          started := started + [(serviceName, instances[id])];
          ids := ids - {id};
        }
        names := names - {serviceName};
      }
      return started, true;
    }

    lemma UnderOwnId(n: string, i: string)
      requires Valid() && Holds(services, n, i)
      ensures services[n][i] in refs && services[n][i].name == n && services[n][i].id == i
    {
      RunAgrees(log);
      assert InPlace(Run(log), n, i, refs[services[n][i]]);
    }

    /**
     * The locked part of a health check of an instance met by some round: it writes that instance, registered
     * still or not, and nothing else, and notifies the service if the status changed.
     */
    method CheckInstanceHealth(serviceName: string, instance: ServiceInstance, healthy: bool)
      returns (changed: bool, returned: bool)
      requires Valid() && instance in refs
      modifies this`log, this`mutex, instance`health
      ensures Valid()
      ensures old(mutex) == HeldForever ==> !returned && unchanged(this) && unchanged(instance)
      ensures old(mutex) == Free ==>
        && (instance.health == HEALTHY <==> healthy) && (instance.health == UNHEALTHY <==> !healthy)
        && log == old(log) + [Check(refs[instance], healthy)]
        && (changed <==> old(instance.health) != instance.health)
        && (returned <==> !(changed && serviceName in watchers))
        && mutex == if returned then Free else HeldForever
    {
      hide Stands, Run, HealthOf;
      if mutex == HeldForever {
        return false, false;
      }
      Checked(log, services, refs, next, instance, healthy);
      var oldHealth := instance.health;
      if healthy {
        instance.health := HEALTHY;
      } else {
        instance.health := UNHEALTHY;
      }
      log := log + [Check(refs[instance], healthy)];
      changed := oldHealth != instance.health;
      returned := !(changed && serviceName in watchers);
      mutex := if returned then Free else HeldForever;
    }

    /**
     * A registration loop as in Start: one healthy instance per host, `service-host` for an ID. For a watched
     * service the first registration does not return; otherwise every host is registered. No other place changes.
     */
    method RegisterHosts(serviceName: string, hosts: seq<string>) returns (returned: bool)
      requires Valid()
      modifies this
      ensures Valid() && watchers == old(watchers)
      ensures returned <==> hosts == [] || (old(mutex) == Free && serviceName !in watchers)
      ensures mutex == if returned then old(mutex) else HeldForever
      ensures var reached := Reached(hosts, returned, old(mutex));
              && SamePlacesBut(old(services), services, serviceName, reached)
              && forall h | h in reached ::
                   && Holds(services, serviceName, serviceName + "-" + h)
                   && fresh(services[serviceName][serviceName + "-" + h])
                   && services[serviceName][serviceName + "-" + h].health == HEALTHY
    {
      hide Stands, Reports, SamePlacesBut, Placed;
      ghost var made: seq<ServiceInstance> := [];
      NoHosts(services, serviceName);
      for k := 0 to |hosts|
        invariant Valid() && watchers == old(watchers) && mutex == old(mutex)
        invariant k > 0 ==> mutex == Free && serviceName !in watchers
        invariant SamePlacesBut(old(services), services, serviceName, hosts[..k])
        invariant Hosted(services, serviceName, hosts[..k], made)
        invariant forall x | x in made :: fresh(x) && x.health == HEALTHY
      {
        var instance := new ServiceInstance(serviceName, serviceName + "-" + hosts[k], HEALTHY);
        OneMoreHost(old(services), services, serviceName, hosts[..k], hosts[k], made, instance);
        returned := Register(instance);
        made := made + [instance];
        if !returned {
          assert k == 0 && hosts[..k] == [] && [] + [hosts[0]] == [hosts[0]];
          return false;
        }
        assert hosts[..k + 1] == hosts[..k] + [hosts[k]];
      }
      assert hosts[..|hosts|] == hosts;
      return true;
    }
  }

  /** The hosts whose instance is in place when the loop is over or stuck. */
  function Reached(hosts: seq<string>, returned: bool, before: Mutex): seq<string> {
    if returned then hosts else if before == Free && hosts != [] then [hosts[0]] else []
  }

  /** Places other than those of the hosts hold what they held, or nothing as before. */
  ghost predicate SamePlacesBut(
    before: Services<ServiceInstance>, after: Services<ServiceInstance>, name: string, hosts: seq<string>)
  {
    forall n, i | n != name || forall h | h in hosts :: i != name + "-" + h ::
      && (Holds(after, n, i) <==> Holds(before, n, i))
      && (Holds(after, n, i) ==> after[n][i] == before[n][i])
  }

  ghost predicate Hosted(
    services: Services<ServiceInstance>, name: string, hosts: seq<string>, made: seq<ServiceInstance>)
  {
    forall h | h in hosts :: Holds(services, name, name + "-" + h) && services[name][name + "-" + h] in made
  }

  lemma NoHosts(services: Services<ServiceInstance>, name: string)
    ensures SamePlacesBut(services, services, name, []) && Hosted(services, name, [], [])
  {
  }

  lemma OneMoreHost(
    before: Services<ServiceInstance>, services: Services<ServiceInstance>, name: string, hosts: seq<string>,
    h: string, made: seq<ServiceInstance>, x: ServiceInstance)
    requires SamePlacesBut(before, services, name, hosts) && Hosted(services, name, hosts, made)
    ensures var after := Placed(services, name, name + "-" + h, x);
            SamePlacesBut(before, after, name, hosts + [h]) && Hosted(after, name, hosts + [h], made + [x])
  {
    var after := Placed(services, name, name + "-" + h, x);
    forall n, i | n != name || forall g | g in hosts + [h] :: i != name + "-" + g
      ensures Holds(after, n, i) <==> Holds(before, n, i)
      ensures Holds(after, n, i) ==> after[n][i] == before[n][i]
    {
      assert h in hosts + [h] && forall g | g in hosts :: g in hosts + [h];
    }
  }

  // ----- one operation, on the object and on the registry -----

  lemma Known(
    log: seq<Op>, services: Services<ServiceInstance>, refs: map<ServiceInstance, Ref>, next: nat,
    x: ServiceInstance, r: Ref)
    requires Stands(log, services, refs, next) && Reports(log, refs) && x !in refs
    requires r == Ref(next, x.name, x.id, x.health)
    ensures Stands(log, services, refs[x := r], next + 1) && Reports(log, refs[x := r])
  {
  }

  lemma Registered(
    log: seq<Op>, services: Services<ServiceInstance>, refs: map<ServiceInstance, Ref>, next: nat, x: ServiceInstance)
    requires Stands(log, services, refs, next) && Reports(log, refs) && x in refs
    ensures var log' := log + [Register(refs[x])];
            Stands(log', Placed(services, x.name, x.id, x), refs, next) && Reports(log', refs)
  {
    RunOne(log, Register(refs[x]));
  }

  lemma Deregistered(
    log: seq<Op>, services: Services<ServiceInstance>, refs: map<ServiceInstance, Ref>, next: nat,
    id: string, name: string)
    requires Stands(log, services, refs, next) && Reports(log, refs) && Holds(services, name, id)
    ensures var log' := log + [Deregister(id, name)];
            Stands(log', Removed(services, name, id), refs, next) && Reports(log', refs)
  {
    assert Holds(Run(log).services, name, id);
    RunOne(log, Deregister(id, name));
  }

  lemma Checked(
    log: seq<Op>, services: Services<ServiceInstance>, refs: map<ServiceInstance, Ref>, next: nat,
    x: ServiceInstance, healthy: bool)
    requires Stands(log, services, refs, next) && x in refs
    ensures var log' := log + [Check(refs[x], healthy)];
            && Stands(log', services, refs, next)
            && forall y | y in refs ::
                 HealthOf(Run(log'), refs[y]) == if y == x then Status(healthy) else HealthOf(Run(log), refs[y])
  {
    RunOne(log, Check(refs[x], healthy));
  }
}
