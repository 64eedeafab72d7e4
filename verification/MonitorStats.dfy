// What the metrics monitor of internal/service/monitor/monitor.go counts, as values.

module MonitorStats {
  import opened Int64
  import opened MapSums

  datatype EndpointStats = EndpointStats(requests: int, errors: int, average: int, codes: map<int, int>)

  datatype Stats = Stats(
    requests: int, errors: int, average: int, codes: map<int, int>, endpoints: map<string, EndpointStats>)

  const ZERO := Stats(0, 0, 0, map[], map[])
  const ZERO_ENDPOINT := EndpointStats(0, 0, 0, map[])

  function Bump(codes: map<int, int>, code: int): map<int, int> {
    codes[code := Get(codes, code) + 1]
  }

  /** The running average after the count has become `count`: 64-bit sum, truncating halving. */
  function NextAverage(count: int, average: int, sample: int): int {
    if count == 1 then sample else Quot(Wrap(average + sample), 2)
  }

  function EndpointRecorded(e: EndpointStats, code: int, time: int): EndpointStats {
    EndpointStats(
      e.requests + 1,
      if code >= 400 then e.errors + 1 else e.errors,
      NextAverage(e.requests + 1, e.average, time),
      Bump(e.codes, code))
  }

  function Recorded(s: Stats, endpoint: string, code: int, time: int): Stats {
    var e := if endpoint in s.endpoints then s.endpoints[endpoint] else ZERO_ENDPOINT;
    Stats(
      s.requests + 1,
      if code >= 400 then s.errors + 1 else s.errors,
      NextAverage(s.requests + 1, s.average, time),
      Bump(s.codes, code),
      s.endpoints[endpoint := EndpointRecorded(e, code, time)])
  }

  // ----- runs -----

  datatype Sample = Sample(endpoint: string, code: int, time: int)

  datatype Op = Record(sample: Sample) | Reset

  function Apply(s: Stats, op: Op): Stats {
    match op
    case Record(r) => Recorded(s, r.endpoint, r.code, r.time)
    case Reset => ZERO
  }

  function RunFrom(s: Stats, ops: seq<Op>): Stats
    decreases |ops|
  {
    if ops == [] then s else Apply(RunFrom(s, ops[..|ops| - 1]), ops[|ops| - 1])
  }

  /** The state after a run from the start. */
  function Run(ops: seq<Op>): Stats { RunFrom(ZERO, ops) }

  /** The requests recorded since the last reset. */
  function Since(ops: seq<Op>): seq<Sample>
    decreases |ops|
  {
    if ops == [] || ops[|ops| - 1].Reset? then []
    else Since(ops[..|ops| - 1]) + [ops[|ops| - 1].sample]
  }

  // ----- conservation -----

  ghost function Errors(codes: map<int, int>): int {
    Sum(map c | c in codes && c >= 400 :: codes[c])
  }

  ghost predicate EndpointConserved(e: EndpointStats) {
    e.requests == Sum(e.codes) && e.errors == Errors(e.codes)
  }

  ghost predicate Conserved(s: Stats) {
    && s.requests == Sum(s.codes)
    && s.errors == Errors(s.codes)
    && s.requests == Sum(Requests(s))
    && (forall e | e in s.endpoints :: EndpointConserved(s.endpoints[e]))
    && (forall c: int :: Get(s.codes, c) == Sum(CodeByEndpoint(s, c)))
  }

  ghost function Requests(s: Stats): map<string, int> {
    map e | e in s.endpoints :: s.endpoints[e].requests
  }

  /** How often each endpoint answered with code c. */
  ghost function CodeByEndpoint(s: Stats, c: int): map<string, int> {
    map e | e in s.endpoints :: Get(s.endpoints[e].codes, c)
  }

  lemma BumpSums(codes: map<int, int>, code: int)
    ensures Sum(Bump(codes, code)) == Sum(codes) + 1
    ensures Errors(Bump(codes, code)) == Errors(codes) + if code >= 400 then 1 else 0
  {
    SumUpdate(codes, code, Get(codes, code) + 1);
    var errs := map c | c in codes && c >= 400 :: codes[c];
    var errs' := map c | c in Bump(codes, code) && c >= 400 :: Bump(codes, code)[c];
    if code >= 400 {
      SumUpdate(errs, code, Get(codes, code) + 1);
      assert errs' == errs[code := Get(codes, code) + 1];
    } else {
      assert errs' == errs;
    }
  }

  // One endpoint entry replaced: the sums over endpoints follow.
  lemma EndpointSums(s: Stats, endpoint: string, e': EndpointStats, c: int)
    ensures var e := if endpoint in s.endpoints then s.endpoints[endpoint] else ZERO_ENDPOINT;
            var s' := s.(endpoints := s.endpoints[endpoint := e']);
            && Sum(Requests(s')) == Sum(Requests(s)) - e.requests + e'.requests
            && Sum(CodeByEndpoint(s', c)) == Sum(CodeByEndpoint(s, c)) - Get(e.codes, c) + Get(e'.codes, c)
  {
    var s' := s.(endpoints := s.endpoints[endpoint := e']);
    SumUpdate(Requests(s), endpoint, e'.requests);
    assert Requests(s') == Requests(s)[endpoint := e'.requests];
    SumUpdate(CodeByEndpoint(s, c), endpoint, Get(e'.codes, c));
    assert CodeByEndpoint(s', c) == CodeByEndpoint(s, c)[endpoint := Get(e'.codes, c)];
  }

  /** Recording a request keeps every conservation law. */
  lemma RecordConserves(s: Stats, endpoint: string, code: int, time: int)
    requires Conserved(s)
    ensures Conserved(Recorded(s, endpoint, code, time))
  {
    var s' := Recorded(s, endpoint, code, time);
    BumpSums(s.codes, code);
    assert Errors(ZERO_ENDPOINT.codes) == 0;
    EndpointConserves(if endpoint in s.endpoints then s.endpoints[endpoint] else ZERO_ENDPOINT, code, time);
    forall c: int
      ensures Get(s'.codes, c) == Sum(CodeByEndpoint(s', c)) && s'.requests == Sum(Requests(s'))
    {
      assert Get(s.codes, c) == Sum(CodeByEndpoint(s, c));
      RecordSums(s, endpoint, code, time, c);
    }
    assert s'.requests == Sum(Requests(s')) by {
      RecordSums(s, endpoint, code, time, 0);
    }
  }

  lemma EndpointConserves(e: EndpointStats, code: int, time: int)
    requires EndpointConserved(e)
    ensures EndpointConserved(EndpointRecorded(e, code, time))
  {
    BumpSums(e.codes, code);
  }

  lemma RecordSums(s: Stats, endpoint: string, code: int, time: int, c: int)
    ensures var s' := Recorded(s, endpoint, code, time);
            && Sum(Requests(s')) == Sum(Requests(s)) + 1
            && Sum(CodeByEndpoint(s', c)) == Sum(CodeByEndpoint(s, c)) + if c == code then 1 else 0
  {
    var s' := Recorded(s, endpoint, code, time);
    EndpointSums(s, endpoint, s'.endpoints[endpoint], c);
    assert Requests(s') == Requests(s.(endpoints := s'.endpoints));
    assert CodeByEndpoint(s', c) == CodeByEndpoint(s.(endpoints := s'.endpoints), c);
  }

  /** Every reachable state is conserved. */
  lemma {:induction false} EveryStateConserved(ops: seq<Op>)
    ensures Conserved(Run(ops))
    decreases |ops|
  {
    if ops == [] || ops[|ops| - 1].Reset? {
      assert Run(ops) == ZERO && Requests(ZERO) == map[];
      assert forall c: int :: CodeByEndpoint(ZERO, c) == map[];
    } else {
      var op := ops[|ops| - 1];
      EveryStateConserved(ops[..|ops| - 1]);
      RecordConserves(Run(ops[..|ops| - 1]), op.sample.endpoint, op.sample.code, op.sample.time);
    }
  }

  // ----- the counters are tallies of the log -----

  function Tally(log: seq<Sample>, endpoint: string, code: int): int
    decreases |log|
  {
    if log == [] then 0
    else
      var r := log[|log| - 1];
      Tally(log[..|log| - 1], endpoint, code) + if r.endpoint == endpoint && r.code == code then 1 else 0
  }

  ghost predicate Seen(log: seq<Sample>, endpoint: string) {
    exists i :: 0 <= i < |log| && log[i].endpoint == endpoint
  }

  lemma LogStep(log: seq<Sample>, r: Sample, endpoint: string, code: int)
    ensures Tally(log + [r], endpoint, code)
         == Tally(log, endpoint, code) + if r.endpoint == endpoint && r.code == code then 1 else 0
    ensures Seen(log + [r], endpoint) <==> Seen(log, endpoint) || r.endpoint == endpoint
    ensures Times(log + [r]) == Times(log) + [r.time]
    ensures TimesOf(log + [r], endpoint) == TimesOf(log, endpoint) + if r.endpoint == endpoint then [r.time] else []
  {
  }

  /** The counters of an endpoint agree with a log of samples. */
  ghost predicate CountsOf(s: Stats, log: seq<Sample>, endpoint: string, code: int) {
    && (endpoint in s.endpoints <==> Seen(log, endpoint))
    && Tally(log, endpoint, code) ==
         if endpoint in s.endpoints then Get(s.endpoints[endpoint].codes, code) else 0
  }

  /** Each endpoint's code counters are how often it answered so since the last reset. */
  lemma {:induction false} CountersAreTallies(ops: seq<Op>, endpoint: string, code: int)
    ensures CountsOf(Run(ops), Since(ops), endpoint, code)
    decreases |ops|
  {
    if ops == [] || ops[|ops| - 1].Reset? {
    } else {
      var before, r := ops[..|ops| - 1], ops[|ops| - 1].sample;
      CountersAreTallies(before, endpoint, code);
      LogStep(Since(before), r, endpoint, code);
      assert Run(ops) == Recorded(Run(before), r.endpoint, r.code, r.time);
    }
  }

  // ----- the running average -----

  /** The response times in a log, of all endpoints. */
  function Times(log: seq<Sample>): seq<int> {
    seq(|log|, i requires 0 <= i < |log| => log[i].time)
  }

  function TimesOf(log: seq<Sample>, endpoint: string): seq<int>
    decreases |log|
  {
    if log == [] then []
    else
      var r := log[|log| - 1];
      TimesOf(log[..|log| - 1], endpoint) + if r.endpoint == endpoint then [r.time] else []
  }

  /** The average the code stores for these samples. */
  function Stored(samples: seq<int>): int
    decreases |samples|
  {
    if samples == [] then 0
    else NextAverage(|samples|, Stored(samples[..|samples| - 1]), samples[|samples| - 1])
  }

  /** The same recurrence without rounding. */
  ghost function Exact(samples: seq<int>): real
    decreases |samples|
  {
    if samples == [] then 0.0
    else if |samples| == 1 then samples[0] as real
    else (Exact(samples[..|samples| - 1]) + samples[|samples| - 1] as real) / 2.0
  }

  /** No addition on the way leaves the 64-bit range. */
  ghost predicate NoOverflow(samples: seq<int>) {
    forall n | 1 <= n < |samples| :: Stored(samples[..n]) + samples[n] <= MAX
  }

  /** The global average and that of an endpoint are what the recurrence stores for the samples of a log. */
  ghost predicate AveragesOf(s: Stats, log: seq<Sample>, endpoint: string) {
    && s.requests == |log| && s.average == Stored(Times(log))
    && var mine := TimesOf(log, endpoint);
       if endpoint in s.endpoints
       then s.endpoints[endpoint].requests == |mine| && s.endpoints[endpoint].average == Stored(mine)
       else mine == []
  }

  /** The stored averages, global and per endpoint, are those of the samples since the last reset. */
  lemma {:induction false} AveragesAreStored(ops: seq<Op>, endpoint: string)
    ensures AveragesOf(Run(ops), Since(ops), endpoint)
    decreases |ops|
  {
    if ops == [] || ops[|ops| - 1].Reset? {
    } else {
      var before, r := ops[..|ops| - 1], ops[|ops| - 1].sample;
      AveragesAreStored(before, endpoint);
      RecordAverages(Run(before), Since(before), endpoint, r);
    }
  }

  lemma RecordAverages(s: Stats, log: seq<Sample>, endpoint: string, r: Sample)
    requires AveragesOf(s, log, endpoint)
    ensures AveragesOf(Recorded(s, r.endpoint, r.code, r.time), log + [r], endpoint)
  {
    LogStep(log, r, endpoint, 0);
    StoredStep(Times(log), r.time);
    if r.endpoint == endpoint {
      var mine := TimesOf(log, endpoint);
      StoredStep(mine, r.time);
    } else {
      assert TimesOf(log, endpoint) + [] == TimesOf(log, endpoint);
    }
  }

  lemma StoredStep(samples: seq<int>, sample: int)
    ensures Stored(samples + [sample]) == NextAverage(|samples| + 1, Stored(samples), sample)
  {
  }

  /**
   * Rounding costs less than one nanosecond in all, however many samples there are, and the
   * stored average stays between the smallest and the largest sample.
   */
  lemma {:induction false} AverageError(samples: seq<int>, lo: int, hi: int)
    requires samples != [] && NoOverflow(samples)
    requires 0 <= lo && hi <= MAX && forall i | 0 <= i < |samples| :: lo <= samples[i] <= hi
    ensures Exact(samples) - 1.0 < Stored(samples) as real <= Exact(samples)
    ensures lo <= Stored(samples) <= hi
    decreases |samples|
  {
    var n := |samples| - 1;
    var before, last := samples[..n], samples[n];
    if n == 0 {
    } else {
      assert NoOverflow(before) by {
        forall m | 1 <= m < n ensures Stored(before[..m]) + before[m] <= MAX {
          assert before[..m] == samples[..m];
        }
      }
      AverageError(before, lo, hi);
      assert Stored(samples[..n]) + samples[n] <= MAX;
      var total := Stored(before) + last;
      WrapExact(total);
      assert Stored(samples) == total / 2;
      HalfRounded(total);
    }
  }

  /** Samples of at most half the 64-bit maximum never overflow: a condition on the samples alone. */
  lemma {:induction false} SmallSamplesFit(samples: seq<int>, hi: int)
    requires 2 * hi <= MAX && forall i | 0 <= i < |samples| :: 0 <= samples[i] <= hi
    ensures NoOverflow(samples)
    decreases |samples|
  {
    if |samples| <= 1 {
    } else {
      var n := |samples| - 1;
      var before := samples[..n];
      SmallSamplesFit(before, hi);
      AverageError(before, 0, hi);
      forall m | 1 <= m < |samples| ensures Stored(samples[..m]) + samples[m] <= MAX {
        if m < n {
          assert before[..m] == samples[..m] && before[m] == samples[m];
          assert Stored(before[..m]) + before[m] <= MAX;
        }
      }
    }
  }

  lemma HalfRounded(total: int)
    ensures total as real / 2.0 - 0.5 <= (total / 2) as real <= total as real / 2.0
  {
  }

  /** One step stays between the old average and the new sample exactly if their sum does not overflow. */
  lemma StepStaysBetween(count: int, average: int, sample: int)
    requires count != 1 && 0 <= average <= MAX && 0 <= sample <= MAX
    ensures (if average < sample then average else sample) <= NextAverage(count, average, sample)
            && NextAverage(count, average, sample) <= (if average < sample then sample else average)
       <==> average + sample <= MAX
  {
  }
}
