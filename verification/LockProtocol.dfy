// The registry of internal/service/discovery/discovery.go under concurrent calls: threads,
// the read-write lock they share, and the nested read lock of notifyWatchers, as written.

module LockProtocol {
  import opened Options
  import opened Registries
  import opened MapSums

  type Tid = nat

  datatype Call =
    | CallRegister(r: Ref)
    | CallDeregister(id: string)
    | CallCheck(r: Ref, service: string)
    | CallWatch(service: string)
    | CallRound                       // the locked walk that starts the checks
    | CallDiscover(service: string)   // also the first message of a new watcher

  /** Where a thread is. Lock() first announces the writer, then waits for the readers to leave. */
  datatype Pc =
    | Start
    | Announced
    | Writing
    | Notifying(service: string)
    | NestedWait(service: string)
    | NestedRead(service: string)
    | Sending(service: string)
    | Unlocking
    | Reading
    | Finished
    | Answered(result: Option<set<Ref>>, at: nat)

  datatype Thread = Thread(call: Call, pc: Pc)

  /** `log` is the sequence of operations carried out so far; `sent` counts messages to watchers by notifyWatchers. */
  datatype State = State(
    registry: Registry,
    watchers: map<string, nat>,
    announced: Option<Tid>,
    writer: Option<Tid>,
    readers: set<Tid>,
    threads: map<Tid, Thread>,
    log: seq<Op>,
    sent: nat)

  const INITIAL := State(EMPTY, map[], None, None, {}, map[], [], 0)

  predicate IsReader(c: Call) { c.CallDiscover? }

  /** The thread can take a step. */
  predicate Enabled(s: State, t: Tid) {
    && t in s.threads
    && match s.threads[t].pc
       case Start => s.announced.None? && s.writer.None?
       case Announced => s.readers == {}
       case NestedWait(_) => s.announced.None? && s.writer.None?
       case Finished => false
       case Answered(_, _) => false
       case _ => true
  }

  /** What the environment decides in a step: the outcome of a health probe, where an iteration finds an ID. */
  datatype Choice = Choice(healthy: bool, found: string)

  function At(s: State, t: Tid, pc: Pc): State
    requires t in s.threads
  {
    s.(threads := s.threads[t := s.threads[t].(pc := pc)])
  }

  function Did(s: State, op: Op): State {
    s.(registry := Registries.Apply(s.registry, op), log := s.log + [op])
  }

  /** The body of a call that holds the write lock, up to notifyWatchers or the unlock. */
  function Body(s: State, t: Tid, c: Choice): State
    requires t in s.threads
  {
    match s.threads[t].call
    case CallRegister(r) => At(Did(s, Register(r)), t, Notifying(r.name))
    case CallDeregister(id) =>
      if Holds(s.registry.services, c.found, id) then At(Did(s, Deregister(id, c.found)), t, Notifying(c.found))
      else At(s, t, Unlocking)
    case CallCheck(r, service) =>
      var changed := HealthOf(s.registry, r) != Status(c.healthy);
      At(Did(s, Check(r, c.healthy)), t, if changed then Notifying(service) else Unlocking)
    case CallWatch(service) =>
      var n := if service in s.watchers then s.watchers[service] else 0;
      At(s.(watchers := s.watchers[service := n + 1]), t, Unlocking)
    case CallRound => At(s, t, Unlocking)
    case CallDiscover(_) => s
  }

  /** One atomic step of a thread. */
  function Step(s: State, t: Tid, c: Choice): State
    requires Enabled(s, t)
  {
    match s.threads[t].pc
    case Start =>
      if IsReader(s.threads[t].call) then At(s.(readers := s.readers + {t}), t, Reading)
      else At(s.(announced := Some(t)), t, Announced)
    case Announced => At(s.(announced := None, writer := Some(t)), t, Writing)
    case Writing => Body(s, t, c)
    case Notifying(service) => At(s, t, if service in s.watchers then NestedWait(service) else Unlocking)
    case NestedWait(service) => At(s.(readers := s.readers + {t}), t, NestedRead(service))
    case NestedRead(service) =>
      At(s.(readers := s.readers - {t}), t, if service in s.registry.services then Sending(service) else Unlocking)
    case Sending(_) => At(s.(sent := s.sent + 1), t, Unlocking)
    case Unlocking => At(s.(writer := None), t, Finished)
    case Reading =>
      var answer :=
        if s.threads[t].call.CallDiscover? then Discover(s.registry, s.threads[t].call.service) else None;
      At(s.(readers := s.readers - {t}), t, Answered(answer, |s.log|))
    case _ => s
  }

  /** The walk over the services finds the ID if any service has it. */
  ghost predicate Fair(s: State, t: Tid, c: Choice)
    requires t in s.threads
  {
    var th := s.threads[t];
    th.pc.Writing? && th.call.CallDeregister? && (exists n :: Holds(s.registry.services, n, th.call.id)) ==>
      Holds(s.registry.services, c.found, th.call.id)
  }

  // ----- runs: calls may be issued, and threads may step, in any order -----

  datatype Event = Issue(t: Tid, call: Call) | Move(t: Tid, choice: Choice)

  ghost predicate Next(s: State, e: Event, s': State) {
    match e
    case Issue(t, call) => t !in s.threads && s' == s.(threads := s.threads[t := Thread(call, Start)])
    case Move(t, c) => Enabled(s, t) && Fair(s, t, c) && s' == Step(s, t, c)
  }

  ghost predicate IsRun(states: seq<State>, events: seq<Event>) {
    && |states| == |events| + 1
    && forall i | 0 <= i < |events| :: Next(states[i], events[i], states[i + 1])
  }

  ghost predicate FromStart(states: seq<State>, events: seq<Event>) {
    IsRun(states, events) && states[0] == INITIAL
  }

  // ----- what every reachable state keeps -----

  predicate HoldsWrite(pc: Pc) {
    pc.Writing? || pc.Notifying? || pc.NestedWait? || pc.Unlocking?
  }

  ghost predicate ThreadOk(s: State, t: Tid)
    requires t in s.threads
  {
    var th := s.threads[t];
    && (HoldsWrite(th.pc) <==> s.writer == Some(t))
    && (th.pc.Announced? <==> s.announced == Some(t))
    && (th.pc.Reading? <==> t in s.readers)
    && (th.pc.Reading? || th.pc.Answered? ==> IsReader(th.call))
    && (th.pc.Announced? || HoldsWrite(th.pc) ==> !IsReader(th.call))
    && (th.pc.NestedWait? ==> th.pc.service in s.watchers)
    && !th.pc.NestedRead? && !th.pc.Sending?
    && (th.pc.Answered? ==>
          th.pc.at <= |s.log| && th.pc.result == Discover(Registries.Run(s.log[..th.pc.at]), th.call.service))
  }

  ghost predicate Ok(s: State) {
    && (s.writer.Some? ==> s.readers == {} && s.announced.None? && s.writer.value in s.threads)
    && (s.announced.Some? ==> s.announced.value in s.threads)
    && s.readers <= s.threads.Keys
    && s.sent == 0
    && s.registry == Registries.Run(s.log) && Legal(s.log)
    && forall t | t in s.threads :: ThreadOk(s, t)
  }

  // Past answers stay prefixes of a growing log.
  lemma PrefixStays(log: seq<Op>, op: Op, at: nat)
    requires at <= |log|
    ensures (log + [op])[..at] == log[..at]
  {
  }

  lemma DidKeepsOk(s: State, op: Op)
    requires Ok(s) && Possible(s.registry, op)
    ensures Ok(Did(s, op))
  {
    RunOne(s.log, op);
    var s' := Did(s, op);
    forall x | x in s'.threads ensures ThreadOk(s', x) {
      assert ThreadOk(s, x);
      if s.threads[x].pc.Answered? {
        PrefixStays(s.log, op, s.threads[x].pc.at);
      }
    }
  }

  lemma MoveKeepsOk(s: State, t: Tid, pc: Pc)
    requires Ok(s) && t in s.threads && HoldsWrite(s.threads[t].pc) && (pc.Notifying? || pc.Unlocking?)
    ensures Ok(At(s, t, pc))
  {
  }

  lemma WatchKeepsOk(s: State, watchers: map<string, nat>)
    requires Ok(s) && s.watchers.Keys <= watchers.Keys
    ensures Ok(s.(watchers := watchers))
  {
  }

  lemma BodyKeepsOk(s: State, t: Tid, c: Choice)
    requires Ok(s) && t in s.threads && s.threads[t].pc.Writing? && Fair(s, t, c)
    ensures Ok(Body(s, t, c))
  {
    var pc := Body(s, t, c).threads[t].pc;
    assert ThreadOk(s, t);
    match s.threads[t].call {
      case CallRegister(r) =>
        DidKeepsOk(s, Register(r));
        MoveKeepsOk(Did(s, Register(r)), t, pc);
      case CallDeregister(id) =>
        if Holds(s.registry.services, c.found, id) {
          DidKeepsOk(s, Deregister(id, c.found));
          MoveKeepsOk(Did(s, Deregister(id, c.found)), t, pc);
        } else {
          MoveKeepsOk(s, t, pc);
        }
      case CallCheck(r, service) =>
        DidKeepsOk(s, Check(r, c.healthy));
        MoveKeepsOk(Did(s, Check(r, c.healthy)), t, pc);
      case CallWatch(service) =>
        WatchKeepsOk(s, Body(s, t, c).watchers);
        MoveKeepsOk(s.(watchers := Body(s, t, c).watchers), t, pc);
      case _ =>
        MoveKeepsOk(s, t, Unlocking);
    }
  }

  lemma PlainStepKeepsOk(s: State, t: Tid, c: Choice)
    requires Ok(s) && Enabled(s, t) && !s.threads[t].pc.Writing?
    ensures Ok(Step(s, t, c))
  {
    var s' := Step(s, t, c);
    assert ThreadOk(s, t) && s.log[..|s.log|] == s.log;
    forall x | x in s'.threads ensures ThreadOk(s', x) {
      assert ThreadOk(s, x);
    }
  }

  lemma NextKeepsOk(s: State, e: Event, s': State)
    requires Ok(s) && Next(s, e, s')
    ensures Ok(s')
  {
    match e
    case Move(t, c) =>
      if s.threads[t].pc.Writing? {
        BodyKeepsOk(s, t, c);
      } else {
        PlainStepKeepsOk(s, t, c);
      }
    case Issue(_, _) =>
      forall x | x in s'.threads ensures ThreadOk(s', x) {
        assert x in s.threads ==> ThreadOk(s, x);
      }
  }

  lemma {:induction false} EveryStateOk(states: seq<State>, events: seq<Event>, i: nat)
    requires FromStart(states, events) && i < |states|
    ensures Ok(states[i])
    decreases i
  {
    if i == 0 {
    } else {
      EveryStateOk(states, events, i - 1);
      assert Next(states[i - 1], events[i - 1], states[i]);
      NextKeepsOk(states[i - 1], events[i - 1], states[i]);
    }
  }

  // ----- progress -----

  predicate Done(pc: Pc) { pc.Finished? || pc.Answered? }

  ghost predicate Active(s: State) {
    exists t :: t in s.threads && !Done(s.threads[t].pc)
  }

  /** The thread that holds the write lock waits for a read lock. */
  predicate Poisoned(s: State) {
    s.writer.Some? && s.writer.value in s.threads && s.threads[s.writer.value].pc.NestedWait?
  }

  /** Some thread can step exactly if a call is outstanding and the write lock is not held at the nested read lock. */
  lemma ProgressIff(s: State)
    requires Ok(s)
    ensures (exists t :: Enabled(s, t)) <==> Active(s) && !Poisoned(s)
  {
    if Poisoned(s) {
      forall t ensures !Enabled(s, t) {
        if t in s.threads { assert ThreadOk(s, t); }
      }
    }
    assert forall t | Enabled(s, t) :: !Done(s.threads[t].pc);
    if Active(s) && !Poisoned(s) {
      if s.writer.Some? {
        assert ThreadOk(s, s.writer.value) && Enabled(s, s.writer.value);
      } else if s.readers != {} {
        var t :| t in s.readers;
        assert ThreadOk(s, t) && Enabled(s, t);
      } else if s.announced.Some? {
        assert ThreadOk(s, s.announced.value) && Enabled(s, s.announced.value);
      } else {
        var t :| t in s.threads && !Done(s.threads[t].pc);
        assert ThreadOk(s, t) && Enabled(s, t);
      }
    }
  }

  /** The only reachable states that are stuck are those where a call that holds the write lock is notifying a watched service. */
  lemma StuckMeansWatched(states: seq<State>, events: seq<Event>, i: nat)
    requires FromStart(states, events) && i < |states|
    requires Active(states[i]) && forall t :: !Enabled(states[i], t)
    ensures var s := states[i];
            && s.writer.Some? && s.writer.value in s.threads
            && s.threads[s.writer.value].pc.NestedWait?
            && s.threads[s.writer.value].pc.service in s.watchers
  {
    EveryStateOk(states, events, i);
    ProgressIff(states[i]);
    assert ThreadOk(states[i], states[i].writer.value);
  }

  /** The call is going to notify a service that has a watcher, as seen when it has the lock and before it does anything. */
  predicate Poisons(s: State, call: Call, c: Choice) {
    match call
    case CallRegister(r) => r.name in s.watchers
    case CallDeregister(id) => Holds(s.registry.services, c.found, id) && c.found in s.watchers
    case CallCheck(r, service) => HealthOf(s.registry, r) != Status(c.healthy) && service in s.watchers
    case _ => false
  }

  // After the body: the notification, if any, then the unlock.
  ghost predicate Ends(b: State, t: Tid, c: Choice)
    requires t in b.threads && (b.threads[t].pc.Notifying? || b.threads[t].pc.Unlocking?)
  {
    var u := if b.threads[t].pc.Notifying? then Step(b, t, c) else b;
    && u.threads[t].pc.Unlocking?
    && Step(u, t, c).threads[t].pc.Finished? && Step(u, t, c).writer.None?
    && Step(u, t, c).registry == b.registry
  }

  /** A call that has got the write lock poisons it in its next two steps if it changes a watched service; otherwise its next steps end it and free the lock. */
  lemma CallEndsIffUnwatched(s: State, t: Tid, c: Choice)
    requires Ok(s) && t in s.threads && s.threads[t].pc.Writing? && Fair(s, t, c)
    ensures var b := Step(s, t, c);
            && Ok(b) && (b.threads[t].pc.Notifying? || b.threads[t].pc.Unlocking?)
            && if Poisons(s, s.threads[t].call, c) then Enabled(b, t) && Poisoned(Step(b, t, c)) else Ends(b, t, c)
  {
    hide Ends, Ok;
    BodyKeepsOk(s, t, c);
    HolderWrites(s, t);
    var b := Body(s, t, c);
    HolderWrites(b, t);
    AfterBody(b, t, c);
  }

  lemma HolderWrites(s: State, t: Tid)
    requires Ok(s) && t in s.threads && HoldsWrite(s.threads[t].pc)
    ensures s.writer == Some(t) && !IsReader(s.threads[t].call)
  {
    assert ThreadOk(s, t);
  }

  lemma AfterBody(b: State, t: Tid, c: Choice)
    requires t in b.threads && b.writer == Some(t) && (b.threads[t].pc.Notifying? || b.threads[t].pc.Unlocking?)
    ensures
      if b.threads[t].pc.Notifying? && b.threads[t].pc.service in b.watchers
      then Enabled(b, t) && Poisoned(Step(b, t, c)) else Ends(b, t, c)
  {
  }

  ghost predicate SameShared(s: State, s': State) {
    && s'.registry == s.registry && s'.watchers == s.watchers && s'.log == s.log && s'.sent == s.sent
    && s'.writer == s.writer && s'.readers == s.readers && s'.announced == s.announced
    && forall t | t in s.threads :: t in s'.threads && s'.threads[t] == s.threads[t]
  }

  /** Once poisoned, no thread ever steps again: the nested read lock is never granted, and registry, watchers and lock stay as they are. */
  lemma {:induction false} PoisonIsForever(states: seq<State>, events: seq<Event>, i: nat)
    requires IsRun(states, events) && Ok(states[0]) && Poisoned(states[0]) && i < |states|
    ensures SameShared(states[0], states[i]) && Poisoned(states[i]) && Ok(states[i])
    ensures forall k | 0 <= k < i :: events[k].Issue?
    decreases i
  {
    if i == 0 {
    } else {
      PoisonIsForever(states, events, i - 1);
      var s := states[i - 1];
      assert Next(s, events[i - 1], states[i]);
      ProgressIff(s);
      NextKeepsOk(s, events[i - 1], states[i]);
    }
  }

  /** No watcher ever gets a message from notifyWatchers, in any reachable state. */
  lemma WatchersAreNeverNotified(states: seq<State>, events: seq<Event>, i: nat)
    requires FromStart(states, events) && i < |states|
    ensures states[i].sent == 0
    ensures forall t | t in states[i].threads :: !states[i].threads[t].pc.NestedRead? && !states[i].threads[t].pc.Sending?
  {
    EveryStateOk(states, events, i);
    forall t | t in states[i].threads
      ensures !states[i].threads[t].pc.NestedRead? && !states[i].threads[t].pc.Sending?
    {
      assert ThreadOk(states[i], t);
    }
  }

  // ----- every outstanding call comes to an end -----

  /** How many steps a thread can still take. */
  function Rank(th: Thread): nat {
    match th.pc
    case Start => 9
    case Announced => 8
    case Writing => 7
    case Notifying(_) => 6
    case NestedWait(_) => 5
    case NestedRead(_) => 4
    case Sending(_) => 3
    case Unlocking => 2
    case Reading => 1
    case _ => 0
  }

  function Ranks(s: State): map<Tid, int> {
    map t | t in s.threads :: Rank(s.threads[t])
  }

  lemma {:induction false} SumNonNegative(m: map<Tid, int>)
    requires forall t | t in m :: m[t] >= 0
    ensures Sum(m) >= 0
    decreases |m.Keys|
  {
    if m.Keys == {} {
    } else {
      var t :| t in m.Keys;
      SumTakeOut(m, t);
      assert (m - {t}).Keys == m.Keys - {t};
      SumNonNegative(m - {t});
    }
  }

  lemma BodyMovesOne(s: State, t: Tid, c: Choice)
    requires t in s.threads && s.threads[t].pc.Writing? && !IsReader(s.threads[t].call)
    ensures var s' := Body(s, t, c);
            t in s'.threads && s'.threads == s.threads[t := s'.threads[t]] && Rank(s'.threads[t]) < Rank(s.threads[t])
  {
  }

  lemma StepMovesOne(s: State, t: Tid, c: Choice)
    requires Ok(s) && Enabled(s, t)
    ensures var s' := Step(s, t, c);
            t in s'.threads && s'.threads == s.threads[t := s'.threads[t]] && Rank(s'.threads[t]) < Rank(s.threads[t])
  {
    assert ThreadOk(s, t);
    if s.threads[t].pc.Writing? {
      BodyMovesOne(s, t, c);
    }
  }

  lemma MoveLowersRank(s: State, t: Tid, c: Choice)
    requires Ok(s) && Enabled(s, t)
    ensures Sum(Ranks(Step(s, t, c))) < Sum(Ranks(s))
  {
    StepMovesOne(s, t, c);
    RankUpdate(s, Step(s, t, c), t);
  }

  lemma RankUpdate(s: State, s': State, t: Tid)
    requires t in s.threads && t in s'.threads && s'.threads == s.threads[t := s'.threads[t]]
    ensures Sum(Ranks(s')) == Sum(Ranks(s)) - Rank(s.threads[t]) + Rank(s'.threads[t])
  {
    SumUpdate(Ranks(s), t, Rank(s'.threads[t]));
    assert Ranks(s') == Ranks(s)[t := Rank(s'.threads[t])];
  }

  /** Without new calls a run has a bounded number of steps; when no thread can step, every call has returned or the lock is poisoned. */
  lemma {:induction false} CallsReturn(states: seq<State>, events: seq<Event>)
    requires IsRun(states, events) && Ok(states[0]) && forall k | 0 <= k < |events| :: events[k].Move?
    ensures |events| + Sum(Ranks(states[|events|])) <= Sum(Ranks(states[0]))
    ensures Sum(Ranks(states[|events|])) >= 0 && Ok(states[|events|])
    ensures var last := states[|events|];
            (forall t :: !Enabled(last, t)) ==> Poisoned(last) || forall t | t in last.threads :: Done(last.threads[t].pc)
    decreases |events|
  {
    var n := |events|;
    if n == 0 {
    } else {
      CallsReturn(states[..n], events[..n - 1]);
      assert Next(states[n - 1], events[n - 1], states[n]);
      MoveLowersRank(states[n - 1], events[n - 1].t, events[n - 1].choice);
      NextKeepsOk(states[n - 1], events[n - 1], states[n]);
    }
    SumNonNegative(Ranks(states[n]));
    ProgressIff(states[n]);
  }

  // ----- what the answers mean -----

  /** Once a writer waits, no reader comes in before it, whether for an answer or for a notification. */
  lemma WaitingWriterIsNext(s: State, e: Event, s': State)
    requires Next(s, e, s') && s.announced.Some?
    ensures s'.readers <= s.readers
  {
  }

  /** While any reader is in, no step changes the registry. */
  lemma ReadersExcludeWriters(s: State, e: Event, s': State)
    requires Ok(s) && Next(s, e, s') && s.readers != {}
    ensures s'.registry == s.registry && s'.log == s.log
  {
  }

  lemma NextGrowsLog(s: State, e: Event, s': State)
    requires Next(s, e, s')
    ensures s.log <= s'.log
  {
  }

  lemma {:induction false} LogGrows(states: seq<State>, events: seq<Event>, i: nat, j: nat)
    requires IsRun(states, events) && i <= j < |states|
    ensures states[i].log <= states[j].log
    decreases j
  {
    if i == j {
    } else {
      LogGrows(states, events, i, j - 1);
      assert Next(states[j - 1], events[j - 1], states[j]);
      NextGrowsLog(states[j - 1], events[j - 1], states[j]);
    }
  }

  /**
   * Every answer is the one the registry gives at some moment between the call and the return: for a log
   * that holds every operation done before the call, and nothing done after the return.
   */
  lemma AnswersAreLinearizable(states: seq<State>, events: seq<Event>, i: nat, j: nat, t: Tid)
    requires FromStart(states, events) && i < j < |states| && events[i].Issue? && events[i].t == t
    requires t in states[j].threads && states[j].threads[t].pc.Answered?
    ensures var th := states[j].threads[t];
            && |states[i].log| <= th.pc.at <= |states[j].log| && th.call.CallDiscover?
            && th.pc.result == Discover(Registries.Run(states[j].log[..th.pc.at]), th.call.service)
  {
    AnswerNotStale(states, events, i, j, t);
    EveryStateOk(states, events, j);
    assert ThreadOk(states[j], t);
  }

  lemma {:induction false} AnswerNotStale(states: seq<State>, events: seq<Event>, i: nat, j: nat, t: Tid)
    requires FromStart(states, events) && i < j < |states| && events[i].Issue? && events[i].t == t
    requires t in states[j].threads && states[j].threads[t].pc.Answered?
    ensures |states[i].log| <= states[j].threads[t].pc.at
    decreases j
  {
    hide Step, Ok;
    var s, e := states[j - 1], events[j - 1];
    assert Next(s, e, states[j]);
    if j - 1 == i {
    } else {
      EveryStateOk(states, events, j - 1);
      assert Next(states[i], events[i], states[i + 1]);
      ThreadStays(states, events, i + 1, j - 1, t);
      AnswerIsRecent(s, e, states[j], t);
      if s.threads[t].pc.Answered? {
        AnswerNotStale(states, events, i, j - 1, t);
        AnswerKept(s, e, states[j], t);
      } else {
        LogGrows(states, events, i, j - 1);
      }
    }
  }

  lemma AnswerKept(s: State, e: Event, s': State, t: Tid)
    requires Ok(s) && Next(s, e, s') && t in s.threads && s.threads[t].pc.Answered?
    ensures t in s'.threads && s'.threads[t] == s.threads[t]
  {
    hide Step, Ok;
    if e.Move? {
      StepMovesOne(s, e.t, e.choice);
    }
  }

  // A new answer reads the log as it is.
  lemma AnswerIsRecent(s: State, e: Event, s': State, t: Tid)
    requires Ok(s) && Next(s, e, s') && t in s.threads && t in s'.threads && s'.threads[t].pc.Answered?
    ensures s'.threads[t] == s.threads[t] || s'.threads[t].pc.at == |s.log|
  {
  }

  /** In terms of the operations: who is in an answer. */
  lemma AnswerMeaning(states: seq<State>, events: seq<Event>, j: nat, t: Tid)
    requires FromStart(states, events) && j < |states|
    requires t in states[j].threads && states[j].threads[t].pc.Answered?
    ensures var th := states[j].threads[t];
            && th.pc.at <= |states[j].log| && th.call.CallDiscover?
            && var seen := states[j].log[..th.pc.at];
            && (th.pc.result == None <==> !EverRegistered(seen, th.call.service))
            && (th.pc.result != None ==> forall r ::
                  r in th.pc.result.value <==>
                  r.name == th.call.service && Current(seen, r) && LastStatus(seen, r) == HEALTHY)
  {
    EveryStateOk(states, events, j);
    assert ThreadOk(states[j], t);
    DiscoverMeaning(states[j].log[..states[j].threads[t].pc.at], states[j].threads[t].call.service);
  }

  // ----- every call does what it says, once, and nothing else is in the log -----

  /** The call has done its work under the write lock. */
  predicate Past(pc: Pc) {
    pc.Notifying? || pc.NestedWait? || pc.NestedRead? || pc.Sending? || pc.Unlocking? || pc.Finished?
  }

  /** In step m of a run the call of thread t, which holds the write lock, does its work. */
  ghost predicate Works(states: seq<State>, events: seq<Event>, m: int, t: Tid) {
    && 0 <= m < |events| < |states| && events[m].Move? && events[m].t == t
    && t in states[m].threads && states[m].threads[t].pc.Writing?
  }

  /** What a call with this probe outcome adds to the log. A deregistration names a service that has the ID; without one it adds nothing. */
  ghost predicate Adds(call: Call, healthy: bool, before: seq<Op>, after: seq<Op>) {
    match call
    case CallRegister(r) => after == before + [Register(r)]
    case CallCheck(r, _) => after == before + [Check(r, healthy)]
    case CallDeregister(id) =>
      if NoService(before, id) then after == before
      else exists n :: Holds(Registries.Run(before).services, n, id) && after == before + [Deregister(id, n)]
    case _ => after == before
  }

  ghost predicate NoService(log: seq<Op>, id: string) {
    forall n :: !Holds(Registries.Run(log).services, n, id)
  }

  lemma BodyAdds(s: State, t: Tid, c: Choice)
    requires Ok(s) && t in s.threads && s.threads[t].pc.Writing? && Fair(s, t, c)
    ensures Adds(s.threads[t].call, c.healthy, s.log, Body(s, t, c).log)
    ensures t in Body(s, t, c).threads && Past(Body(s, t, c).threads[t].pc)
  {
    assert ThreadOk(s, t);
  }

  // What one event does to a thread that is there already, and to the log.
  lemma NextOnThread(s: State, e: Event, s': State, t: Tid)
    requires Next(s, e, s') && t in s.threads
    ensures t in s'.threads && s'.threads[t].call == s.threads[t].call
    ensures Past(s.threads[t].pc) ==> Past(s'.threads[t].pc)
    ensures Past(s'.threads[t].pc) ==> Past(s.threads[t].pc) || (e.Move? && e.t == t && s.threads[t].pc.Writing?)
  {
    hide Body;
    if e.Move? && s.threads[e.t].pc.Writing? {
      BodyMovesThread(s, e.t, e.choice);
    }
  }

  lemma BodyMovesThread(s: State, t: Tid, c: Choice)
    requires t in s.threads
    ensures var s' := Body(s, t, c);
            t in s'.threads && s'.threads == s.threads[t := Thread(s.threads[t].call, s'.threads[t].pc)]
  {
  }

  lemma OnlyWorkIsLogged(s: State, e: Event, s': State)
    requires Next(s, e, s') && !(e.Move? && s.threads[e.t].pc.Writing?)
    ensures s'.log == s.log
  {
  }

  // A thread keeps its call, and a call that has done its work has done it for good.
  lemma {:induction false} ThreadStays(states: seq<State>, events: seq<Event>, i: nat, j: nat, t: Tid)
    requires IsRun(states, events) && i <= j < |states| && t in states[i].threads
    ensures t in states[j].threads && states[j].threads[t].call == states[i].threads[t].call
    ensures Past(states[i].threads[t].pc) ==> Past(states[j].threads[t].pc)
    decreases j
  {
    if i == j {
    } else {
      ThreadStays(states, events, i, j - 1, t);
      assert Next(states[j - 1], events[j - 1], states[j]);
      NextOnThread(states[j - 1], events[j - 1], states[j], t);
    }
  }

  /** The step in which a call works adds what the call says; after it the call is past its work. */
  lemma WorkAdds(states: seq<State>, events: seq<Event>, m: nat, t: Tid)
    requires FromStart(states, events) && Works(states, events, m, t)
    ensures Adds(states[m].threads[t].call, events[m].choice.healthy, states[m].log, states[m + 1].log)
    ensures t in states[m + 1].threads && Past(states[m + 1].threads[t].pc)
  {
    EveryStateOk(states, events, m);
    assert Next(states[m], events[m], states[m + 1]);
    BodyAdds(states[m], t, events[m].choice);
  }

  /** No call works twice. */
  lemma WorksOnce(states: seq<State>, events: seq<Event>, m: nat, m': nat, t: Tid)
    requires FromStart(states, events) && Works(states, events, m, t) && Works(states, events, m', t)
    ensures m == m'
  {
    if m != m' {
      var a, b := if m < m' then m else m', if m < m' then m' else m;
      WorkAdds(states, events, a, t);
      ThreadStays(states, events, a + 1, b, t);
    }
  }

  lemma {:induction false} PastHasWorked(states: seq<State>, events: seq<Event>, j: nat, t: Tid) returns (m: nat)
    requires FromStart(states, events) && j < |states| && t in states[j].threads && Past(states[j].threads[t].pc)
    ensures m < j && Works(states, events, m, t)
    decreases j
  {
    assert Next(states[j - 1], events[j - 1], states[j]);
    if t in states[j - 1].threads {
      NextOnThread(states[j - 1], events[j - 1], states[j], t);
      if Past(states[j - 1].threads[t].pc) {
        m := PastHasWorked(states, events, j - 1, t);
      } else {
        m := j - 1;
      }
    }
  }

  /**
   * A call issued at i that is past its work at j worked in exactly one step m between them: the log grew there by
   * what the call says.
   */
  lemma CallsTakeEffect(states: seq<State>, events: seq<Event>, i: nat, j: nat, t: Tid) returns (m: nat)
    requires FromStart(states, events) && i < j < |states| && events[i].Issue? && events[i].t == t
    requires t in states[j].threads && Past(states[j].threads[t].pc)
    ensures i < m < j && Works(states, events, m, t) && forall m' | Works(states, events, m', t) :: m' == m
    ensures states[j].threads[t].call == states[m].threads[t].call == events[i].call
    ensures Adds(events[i].call, events[m].choice.healthy, states[m].log, states[m + 1].log)
    ensures states[i].log <= states[m].log && states[m + 1].log <= states[j].log
  {
    m := PastHasWorked(states, events, j, t);
    assert Next(states[i], events[i], states[i + 1]);
    if m <= i {
      ThreadStays(states, events, m, i, t);
      assert false;
    }
    ThreadStays(states, events, i + 1, m, t);
    ThreadStays(states, events, m, j, t);
    WorkAdds(states, events, m, t);
    LogGrows(states, events, i, m);
    LogGrows(states, events, m + 1, j);
    forall m' | Works(states, events, m', t) ensures m' == m {
      WorksOnce(states, events, m, m', t);
    }
  }

  /** The operation of a call is the entry at place k, or there is none because no service has the ID after k entries. */
  ghost predicate EntryOf(call: Call, healthy: bool, log: seq<Op>, k: nat) {
    && k <= |log|
    && match call
       case CallRegister(r) => k < |log| && log[k] == Register(r)
       case CallCheck(r, _) => k < |log| && log[k] == Check(r, healthy)
       case CallDeregister(id) =>
         || NoService(log[..k], id)
         || (k < |log| && log[k].Deregister? && log[k].id == id
             && Holds(Registries.Run(log[..k]).services, log[k].found, id))
       case _ => true
  }

  lemma AddedIsEntry(call: Call, healthy: bool, before: seq<Op>, after: seq<Op>, log: seq<Op>)
    requires Adds(call, healthy, before, after) && before <= log && after <= log
    ensures EntryOf(call, healthy, log, |before|)
  {
    assert log[..|before|] == before;
    assert |after| > |before| ==> log[|before|] == after[|before|];
  }

  /**
   * An answer has seen every call that had finished when it was asked for: the operation of a call issued at h and
   * past its work at i is among the operations before the answer, no earlier than h.
   */
  lemma AnswerHasSeenFinishedCalls(
    states: seq<State>, events: seq<Event>, h: nat, i: nat, j: nat, w: Tid, t: Tid) returns (m: nat, k: nat)
    requires FromStart(states, events) && h < i < j < |states|
    requires events[h].Issue? && events[h].t == w && w in states[i].threads && Past(states[i].threads[w].pc)
    requires events[i].Issue? && events[i].t == t && t in states[j].threads && states[j].threads[t].pc.Answered?
    ensures h < m < i && Works(states, events, m, w)
    ensures var at := states[j].threads[t].pc.at;
            && |states[h].log| <= k <= |states[i].log| <= at <= |states[j].log|
            && EntryOf(events[h].call, events[m].choice.healthy, states[j].log[..at], k)
  {
    m := CallsTakeEffect(states, events, h, i, w);
    k := |states[m].log|;
    AnswersAreLinearizable(states, events, i, j, t);
    LogGrows(states, events, i, j);
    LogGrows(states, events, m, m + 1);
    var seen := states[j].log[..states[j].threads[t].pc.at];
    assert states[m].log <= states[m + 1].log <= states[i].log <= seen;
    AddedIsEntry(events[h].call, events[m].choice.healthy, states[m].log, states[m + 1].log, seen);
  }

  /** Every entry of the log was added by the work of one call, in one step. */
  lemma {:induction false} EntriesHaveCalls(states: seq<State>, events: seq<Event>, j: nat, k: nat) returns (m: nat)
    requires FromStart(states, events) && j < |states| && k < |states[j].log|
    ensures m < j && |states[m].log| == k && |states[m + 1].log| == k + 1 && states[m + 1].log <= states[j].log
    ensures Works(states, events, m, events[m].t)
    ensures Adds(states[m].threads[events[m].t].call, events[m].choice.healthy, states[m].log, states[m + 1].log)
    ensures forall m' | 0 <= m' < j && Works(states, events, m', events[m'].t) && |states[m'].log| == k < |states[m' + 1].log|
              :: m' == m
    decreases j
  {
    var s, e := states[j - 1], events[j - 1];
    assert Next(s, e, states[j]);
    if k < |s.log| {
      m := EntriesHaveCalls(states, events, j - 1, k);
      NextGrowsLog(s, e, states[j]);
    } else {
      m := j - 1;
      if !(e.Move? && s.threads[e.t].pc.Writing?) {
        OnlyWorkIsLogged(s, e, states[j]);
      }
      WorkAdds(states, events, m, e.t);
    }
    forall m' | 0 <= m' < j && Works(states, events, m', events[m'].t) && |states[m'].log| == k < |states[m' + 1].log|
      ensures m' == m
    {
      if m' < m {
        LogGrows(states, events, m' + 1, m);
      } else if m < m' {
        LogGrows(states, events, m + 1, m');
      }
    }
  }

  /** The watch calls for a service that have done their work. */
  ghost function Watches(s: State, service: string): set<Tid> {
    set t | t in s.threads && Past(s.threads[t].pc) && s.threads[t].call == CallWatch(service)
  }

  /** A service has a watcher for each of its watch calls that has done its work, and is unwatched without one. */
  ghost predicate WatchersCounted(s: State, service: string) {
    if service in s.watchers then s.watchers[service] == |Watches(s, service)| > 0 else Watches(s, service) == {}
  }

  lemma WatchesAfter(s: State, e: Event, s': State, n: string)
    requires Ok(s) && Next(s, e, s')
    ensures var works := e.Move? && s.threads[e.t].pc.Writing? && s.threads[e.t].call == CallWatch(n);
            Watches(s', n) == Watches(s, n) + (if works then {e.t} else {}) && (works ==> e.t !in Watches(s, n))
  {
    var works := e.Move? && s.threads[e.t].pc.Writing? && s.threads[e.t].call == CallWatch(n);
    if e.Move? && s.threads[e.t].pc.Writing? {
      BodyAdds(s, e.t, e.choice);
    }
    forall t ensures t in Watches(s', n) <==> t in Watches(s, n) || (works && t == e.t) {
      if t in s.threads {
        NextOnThread(s, e, s', t);
      }
    }
  }

  lemma WatchersAfter(s: State, e: Event, s': State)
    requires Next(s, e, s')
    ensures s'.watchers ==
      if e.Move? && s.threads[e.t].pc.Writing? && s.threads[e.t].call.CallWatch? then
        var n := s.threads[e.t].call.service;
        s.watchers[n := 1 + if n in s.watchers then s.watchers[n] else 0]
      else s.watchers
  {
  }

  lemma {:induction false} EveryWatcherCounted(states: seq<State>, events: seq<Event>, j: nat, service: string)
    requires FromStart(states, events) && j < |states|
    ensures WatchersCounted(states[j], service)
    decreases j
  {
    hide Step, Ok, Watches;
    if j == 0 {
      NoWatches(service);
    } else {
      var s, e := states[j - 1], events[j - 1];
      assert Next(s, e, states[j]);
      EveryStateOk(states, events, j - 1);
      EveryWatcherCounted(states, events, j - 1, service);
      WatchersAfter(s, e, states[j]);
      WatchesAfter(s, e, states[j], service);
    }
  }

  lemma NoWatches(service: string)
    ensures Watches(INITIAL, service) == {}
  {
  }

  // ----- the poisoned state is reachable -----

  /** One thread on its own, from Issue to the end of the list of steps. */
  function Alone(s: State, t: Tid, n: nat): State
    decreases n
  {
    if n == 0 then s
    else
      var before := Alone(s, t, n - 1);
      if Enabled(before, t) then Step(before, t, Choice(true, "")) else before
  }

  function Issued(s: State, t: Tid, call: Call): State {
    s.(threads := s.threads[t := Thread(call, Start)])
  }

  lemma {:induction false} AloneIsRun(s: State, t: Tid, n: nat) returns (states: seq<State>, events: seq<Event>)
    requires t in s.threads && !s.threads[t].call.CallDeregister?
    ensures IsRun(states, events) && states[0] == s && states[|events|] == Alone(s, t, n)
    ensures t in Alone(s, t, n).threads && Alone(s, t, n).threads[t].call == s.threads[t].call
    decreases n
  {
    if n == 0 {
      states, events := [s], [];
    } else {
      states, events := AloneIsRun(s, t, n - 1);
      var last := Alone(s, t, n - 1);
      if Enabled(last, t) {
        var c := Choice(true, "");
        states, events := Extended(states, events, Move(t, c), Step(last, t, c));
      }
    }
  }

  lemma Extended(states: seq<State>, events: seq<Event>, e: Event, s: State) returns (states': seq<State>, events': seq<Event>)
    requires IsRun(states, events) && Next(states[|events|], e, s)
    ensures IsRun(states', events') && states'[0] == states[0] && states'[|events'|] == s
  {
    states', events' := states + [s], events + [e];
    forall i | 0 <= i < |events'| ensures Next(states'[i], events'[i], states'[i + 1]) {
      assert i < |events| ==> Next(states[i], events[i], states[i + 1]);
    }
  }

  lemma Joined(states: seq<State>, events: seq<Event>, states2: seq<State>, events2: seq<Event>)
    returns (states': seq<State>, events': seq<Event>)
    requires IsRun(states, events) && IsRun(states2, events2) && states[|events|] == states2[0]
    ensures IsRun(states', events') && states'[0] == states[0] && states'[|events'|] == states2[|events2|]
  {
    states', events' := states + states2[1..], events + events2;
    forall i | 0 <= i < |events'| ensures Next(states'[i], events'[i], states'[i + 1]) {
      if i < |events| {
        assert Next(states[i], events[i], states[i + 1]);
      } else {
        assert Next(states2[i - |events|], events2[i - |events|], states2[i - |events| + 1]);
      }
    }
  }

  /** Watch a service, then register an instance of it: the registration takes place, and the lock is poisoned. */
  lemma WatchThenRegisterPoisons(r: Ref) returns (states: seq<State>, events: seq<Event>)
    ensures FromStart(states, events)
    ensures Poisoned(states[|events|]) && InPlace(states[|events|].registry, r.name, r.id, r)
  {
    var a := Issued(INITIAL, 0, CallWatch(r.name));
    var a1 := Alone(a, 0, 1);
    var a2 := Alone(a, 0, 2);
    var a3 := Alone(a, 0, 3);
    var a4 := Alone(a, 0, 4);
    assert a4.threads[0].pc.Finished? && a4.watchers == map[r.name := 1] && a4.writer.None?;
    var b := Issued(a4, 1, CallRegister(r));
    var b1 := Alone(b, 1, 1);
    var b2 := Alone(b, 1, 2);
    var b3 := Alone(b, 1, 3);
    var b4 := Alone(b, 1, 4);
    assert Poisoned(b4);
    var init, none := [INITIAL], [];
    states, events := Extended(init, none, Issue(0, CallWatch(r.name)), a);
    var states2, events2 := AloneIsRun(a, 0, 4);
    states, events := Joined(states, events, states2, events2);
    states, events := Extended(states, events, Issue(1, CallRegister(r)), b);
    states2, events2 := AloneIsRun(b, 1, 4);
    states, events := Joined(states, events, states2, events2);
  }
}
