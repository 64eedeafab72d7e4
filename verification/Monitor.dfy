// The monitor object of internal/service/monitor/monitor.go: counters updated in
// place, the deep copy it hands out, and the ranking of endpoints.

module Monitors {
  import opened Options
  import opened Int64
  import opened MapSums
  import opened MonitorStats

  class EndpointMetrics {
    var requestCount: int
    var errorCount: int
    var responseTime: int
    var statusCodes: map<int, int>

    constructor (requestCount: int, errorCount: int, responseTime: int)
      ensures View() == EndpointStats(requestCount, errorCount, responseTime, map[])
    {
      this.requestCount, this.errorCount, this.responseTime := requestCount, errorCount, responseTime;
      statusCodes := map[];
    }

    function View(): EndpointStats
      reads this
    {
      EndpointStats(requestCount, errorCount, responseTime, statusCodes)
    }

    method Add(statusCode: int, sample: int)
      modifies this
      ensures View() == EndpointRecorded(old(View()), statusCode, sample)
    {
      requestCount := requestCount + 1;
      statusCodes := Bump(statusCodes, statusCode);
      if statusCode >= 400 {
        errorCount := errorCount + 1;
      }
      if requestCount == 1 {
        responseTime := sample;
      } else {
        responseTime := Quot(Wrap(responseTime + sample), 2);
      }
    }

    method Stat(endpoint: string) returns (stat: EndpointStat)
      ensures stat == StatFrom(endpoint, View()) && stat.endpoint == endpoint
    {
      var errorRate := 0.0;
      if requestCount > 0 {
        errorRate := errorCount as real / requestCount as real * 100.0;
      }
      stat := EndpointStat(endpoint, requestCount, errorRate, responseTime);
    }

    method Copy() returns (copy: EndpointMetrics)
      ensures fresh(copy) && copy.View() == View()
    {
      copy := new EndpointMetrics(requestCount, errorCount, responseTime);
      copy.statusCodes := CopyMap(statusCodes);
    }
  }

  /** Copy a map entry by entry, in any order. */
  method CopyMap<K, V>(source: map<K, V>) returns (copy: map<K, V>)
    ensures copy == source
  {
    copy := map[];
    var left := source.Keys;
    while left != {}
      invariant left <= source.Keys && copy.Keys == source.Keys - left
      invariant forall k | k in copy :: copy[k] == source[k]
      decreases |left|
    {
      var k :| k in left;
      copy := copy[k := source[k]];
      left := left - {k};
    }
  }

  class Metrics {
    var requestCount: int
    var errorCount: int
    var responseTime: int
    var statusCodes: map<int, int>
    var endpointMetrics: map<string, EndpointMetrics>

    constructor (requestCount: int, errorCount: int, responseTime: int, statusCodes: map<int, int>,
        endpointMetrics: map<string, EndpointMetrics>)
      ensures this.requestCount == requestCount && this.errorCount == errorCount && this.responseTime == responseTime
      ensures this.statusCodes == statusCodes && this.endpointMetrics == endpointMetrics
    {
      this.requestCount, this.errorCount, this.responseTime := requestCount, errorCount, responseTime;
      this.statusCodes, this.endpointMetrics := statusCodes, endpointMetrics;
    }

    /** No two endpoints share a counter object. */
    ghost predicate Valid()
      reads this
    {
      forall e, e' | e in endpointMetrics && e' in endpointMetrics && e != e' ::
        endpointMetrics[e] != endpointMetrics[e']
    }

    ghost function Objects(): set<object>
      reads this
    {
      {this} + set e | e in endpointMetrics :: endpointMetrics[e]
    }

    ghost function View(): Stats
      reads Objects()
    {
      Stats(requestCount, errorCount, responseTime, statusCodes,
            EndpointViews())
    }

    ghost function EndpointViews(): map<string, EndpointStats>
      reads Objects()
    {
      map e | e in endpointMetrics :: endpointMetrics[e].View()
    }

    method CreateIfAbsent(endpoint: string)
      requires Valid()
      modifies this`endpointMetrics
      ensures Valid() && endpoint in endpointMetrics && fresh(Objects() - old(Objects()))
      ensures var before := old(EndpointViews());
        EndpointViews() == before[endpoint := if endpoint in before then before[endpoint] else ZERO_ENDPOINT]
    {
      if endpoint !in endpointMetrics {
        var created := new EndpointMetrics(0, 0, 0);
        endpointMetrics := endpointMetrics[endpoint := created];
      }
    }

    method AddToEndpoint(endpoint: string, statusCode: int, sample: int)
      requires Valid() && endpoint in endpointMetrics
      modifies endpointMetrics[endpoint]
      ensures Valid()
      ensures EndpointViews() ==
        old(EndpointViews())[endpoint := EndpointRecorded(old(EndpointViews()[endpoint]), statusCode, sample)]
    {
      endpointMetrics[endpoint].Add(statusCode, sample);
    }

    // The global half of a recording.
    method CountRequest(statusCode: int, sample: int)
      requires Valid()
      modifies this`requestCount, this`errorCount, this`responseTime, this`statusCodes
      ensures EndpointViews() == old(EndpointViews())
      ensures requestCount == old(requestCount) + 1
      ensures errorCount == if statusCode >= 400 then old(errorCount) + 1 else old(errorCount)
      ensures responseTime == NextAverage(old(requestCount) + 1, old(responseTime), sample)
      ensures statusCodes == Bump(old(statusCodes), statusCode)
    {
      requestCount := requestCount + 1;
      statusCodes := Bump(statusCodes, statusCode);
      if statusCode >= 400 {
        errorCount := errorCount + 1;
      }
      if requestCount == 1 {
        responseTime := sample;
      } else {
        responseTime := Quot(Wrap(responseTime + sample), 2);
      }
      assert EndpointViews() == old(EndpointViews());
    }

    method Record(endpoint: string, statusCode: int, sample: int)
      requires Valid()
      modifies Objects()
      ensures Valid() && fresh(Objects() - old(Objects()))
      ensures View() == Recorded(old(View()), endpoint, statusCode, sample)
    {
      CountRequest(statusCode, sample);
      RecordEndpoint(endpoint, statusCode, sample);
    }

    // The endpoint half of a recording.
    method RecordEndpoint(endpoint: string, statusCode: int, sample: int)
      requires Valid()
      modifies this`endpointMetrics, endpointMetrics.Values
      ensures Valid() && fresh(Objects() - old(Objects()))
      ensures var before := old(EndpointViews());
        var e := if endpoint in before then before[endpoint] else ZERO_ENDPOINT;
        EndpointViews() == before[endpoint := EndpointRecorded(e, statusCode, sample)]
    {
      hide EndpointRecorded;
      CreateIfAbsent(endpoint);
      AddToEndpoint(endpoint, statusCode, sample);
    }

    /** The figures of one endpoint. */
    method StatAt(e: string) returns (stat: EndpointStat)
      requires e in endpointMetrics
      ensures stat.endpoint == e && Own(FiguresOf(View()), stat)
    {
      hide StatFrom;
      stat := endpointMetrics[e].Stat(e);
    }

    method CopyEndpoints() returns (copies: map<string, EndpointMetrics>)
      requires Valid()
      ensures copies.Keys == endpointMetrics.Keys
      ensures forall e, e' | e in copies && e' in copies && e != e' :: copies[e] != copies[e']
      ensures forall e | e in copies :: fresh(copies[e]) && copies[e].View() == EndpointViews()[e]
    {
      copies := map[];
      var names := endpointMetrics.Keys;
      while names != {}
        invariant names <= endpointMetrics.Keys && copies.Keys == endpointMetrics.Keys - names
        invariant forall e, e' | e in copies && e' in copies && e != e' :: copies[e] != copies[e']
        invariant forall e | e in copies :: fresh(copies[e]) && copies[e].View() == EndpointViews()[e]
        decreases |names|
      {
        var e :| e in names;
        var copy := endpointMetrics[e].Copy();
        copies := copies[e := copy];
        names := names - {e};
      }
    }

    method Copy() returns (copy: Metrics)
      requires Valid()
      ensures copy.Valid() && fresh(copy.Objects()) && copy.View() == View()
    {
      var codes := CopyMap(statusCodes);
      var endpoints := CopyEndpoints();
      copy := new Metrics(requestCount, errorCount, responseTime, codes, endpoints);
      assert copy.EndpointViews() == EndpointViews();
    }
  }

  datatype EndpointStat = EndpointStat(endpoint: string, requestCount: int, errorRate: real, responseTime: int)

  function StatFrom(endpoint: string, m: EndpointStats): EndpointStat {
    EndpointStat(
      endpoint, m.requests,
      if m.requests > 0 then m.errors as real / m.requests as real * 100.0 else 0.0,
      m.average)
  }

  type Figures = map<string, EndpointStat>

  /** The figures of every recorded endpoint. */
  function FiguresOf(s: Stats): Figures {
    map e | e in s.endpoints :: StatFrom(e, s.endpoints[e])
  }

  /** The list holds exactly one entry for each endpoint, with its own figures. */
  ghost predicate Lists(f: Figures, stats: seq<EndpointStat>) {
    && (forall i | 0 <= i < |stats| :: Own(f, stats[i]))
    && (forall i, j | 0 <= i < j < |stats| :: stats[i].endpoint != stats[j].endpoint)
    && (forall e | e in f :: In(e, stats))
  }

  ghost predicate Own(f: Figures, x: EndpointStat) { x.endpoint in f && x == f[x.endpoint] }

  ghost predicate In(e: string, stats: seq<EndpointStat>) {
    exists i :: 0 <= i < |stats| && stats[i].endpoint == e
  }

  ghost predicate Descending(stats: seq<EndpointStat>) {
    forall i, j | 0 <= i < j < |stats| :: stats[i].requestCount >= stats[j].requestCount
  }

  /**
   * The first `limit` endpoints by number of requests: as many as there are up to the limit, distinct,
   * in non-increasing order, and none left out has more requests than one of them.
   */
  ghost predicate Top(f: Figures, limit: nat, top: seq<EndpointStat>) {
    && |top| == (if |f| <= limit then |f| else limit)
    && (forall i | 0 <= i < |top| :: Own(f, top[i]))
    && (forall i, j | 0 <= i < j < |top| :: top[i].endpoint != top[j].endpoint)
    && Descending(top)
    && (forall e, i | e in f && !In(e, top) && 0 <= i < |top| :: f[e].requestCount <= top[i].requestCount)
  }

  /** What an entry says about its endpoint: its own counters, and the errors in percent of the requests. */
  ghost predicate Reports(x: EndpointStat, m: EndpointStats) {
    && x.requestCount == m.requests && x.responseTime == m.average
    && if m.requests > 0 then x.errorRate * m.requests as real == m.errors as real * 100.0 else x.errorRate == 0.0
  }

  /** The same ranking by the counters themselves. */
  ghost predicate TopByRequests(endpoints: map<string, EndpointStats>, limit: nat, top: seq<EndpointStat>) {
    && |top| == (if |endpoints| <= limit then |endpoints| else limit)
    && (forall i | 0 <= i < |top| :: top[i].endpoint in endpoints && Reports(top[i], endpoints[top[i].endpoint]))
    && (forall i, j | 0 <= i < j < |top| :: top[i].endpoint != top[j].endpoint)
    && (forall i, j | 0 <= i < j < |top| :: endpoints[top[i].endpoint].requests >= endpoints[top[j].endpoint].requests)
    && (forall e, i | e in endpoints && (forall j | 0 <= j < |top| :: top[j].endpoint != e) && 0 <= i < |top| ::
          endpoints[e].requests <= endpoints[top[i].endpoint].requests)
  }

  lemma OwnReports(s: Stats, x: EndpointStat)
    requires Own(FiguresOf(s), x)
    ensures x.endpoint in s.endpoints && Reports(x, s.endpoints[x.endpoint])
  {
  }

  lemma FigureOf(s: Stats, e: string)
    requires e in s.endpoints
    ensures e in FiguresOf(s) && FiguresOf(s)[e].requestCount == s.endpoints[e].requests
  {
  }

  lemma FiguresSize(s: Stats)
    ensures |FiguresOf(s)| == |s.endpoints|
  {
    assert FiguresOf(s).Keys == s.endpoints.Keys;
    assert |FiguresOf(s).Keys| == |FiguresOf(s)| && |s.endpoints.Keys| == |s.endpoints|;
  }

  lemma TopIsByRequests(s: Stats, limit: nat, top: seq<EndpointStat>)
    requires Top(FiguresOf(s), limit, top)
    ensures TopByRequests(s.endpoints, limit, top)
  {
    hide FiguresOf, Own;
    FiguresSize(s);
    forall i | 0 <= i < |top|
      ensures top[i].endpoint in s.endpoints && Reports(top[i], s.endpoints[top[i].endpoint])
    {
      OwnReports(s, top[i]);
    }
    forall e, i | e in s.endpoints && (forall j | 0 <= j < |top| :: top[j].endpoint != e) && 0 <= i < |top|
      ensures s.endpoints[e].requests <= s.endpoints[top[i].endpoint].requests
    {
      FigureOf(s, e);
      assert !In(e, top);
    }
  }

  lemma InAppend(stats: seq<EndpointStat>, x: EndpointStat)
    ensures forall e :: In(e, stats + [x]) <==> In(e, stats) || x.endpoint == e
  {
    forall e ensures In(e, stats + [x]) <==> In(e, stats) || x.endpoint == e {
      assert (stats + [x])[|stats|] == x;
      if In(e, stats) {
        var i :| 0 <= i < |stats| && stats[i].endpoint == e;
        assert (stats + [x])[i].endpoint == e;
      }
    }
  }

  /** The list holds exactly one entry for each endpoint that is not among those still to visit. */
  ghost predicate Collected(f: Figures, stats: seq<EndpointStat>, left: set<string>) {
    && (forall i | 0 <= i < |stats| :: Own(f, stats[i]) && stats[i].endpoint !in left)
    && (forall i, j | 0 <= i < j < |stats| :: stats[i].endpoint != stats[j].endpoint)
    && (forall e | e in f && e !in left :: In(e, stats))
  }

  lemma NoneCollected(s: Stats)
    ensures Collected(FiguresOf(s), [], s.endpoints.Keys)
  {
  }

  lemma CollectOne(f: Figures, stats: seq<EndpointStat>, left: set<string>, x: EndpointStat)
    requires Collected(f, stats, left) && x.endpoint in left && Own(f, x)
    ensures Collected(f, stats + [x], left - {x.endpoint})
  {
    InAppend(stats, x);
  }

  lemma AllCollected(f: Figures, stats: seq<EndpointStat>)
    requires Collected(f, stats, {})
    ensures Lists(f, stats)
  {
  }

  lemma SwapKeepsList(f: Figures, stats: seq<EndpointStat>, i: nat, j: nat)
    requires i < j < |stats| && Lists(f, stats)
    ensures Lists(f, stats[i := stats[j]][j := stats[i]])
  {
    var stats' := stats[i := stats[j]][j := stats[i]];
    forall e | e in f ensures In(e, stats') {
      assert In(e, stats);
      var k :| 0 <= k < |stats| && stats[k].endpoint == e;
      assert stats'[if k == i then j else if k == j then i else k].endpoint == e;
    }
  }

  lemma {:induction false} ListSize(stats: seq<EndpointStat>, names: set<string>)
    requires forall i, j | 0 <= i < j < |stats| :: stats[i].endpoint != stats[j].endpoint
    requires names == set i | 0 <= i < |stats| :: stats[i].endpoint
    ensures |names| == |stats|
    decreases |stats|
  {
    if stats == [] {
      assert names == {};
    } else {
      var n := |stats| - 1;
      var rest := set i | 0 <= i < n :: stats[..n][i].endpoint;
      ListSize(stats[..n], rest);
      assert stats[n].endpoint !in rest;
      assert names == rest + {stats[n].endpoint} by {
        assert forall i | 0 <= i < n :: stats[..n][i] == stats[i];
      }
    }
  }

  lemma FullSize(f: Figures, stats: seq<EndpointStat>)
    requires Lists(f, stats)
    ensures |stats| == |f|
  {
    var names := set i | 0 <= i < |stats| :: stats[i].endpoint;
    ListSize(stats, names);
    forall e ensures e in names <==> e in f.Keys {
      if e in f { assert In(e, stats); }
      if e in names {
        var i :| 0 <= i < |stats| && stats[i].endpoint == e;
        assert Own(f, stats[i]);
      }
    }
    assert names == f.Keys;
  }

  // A sorted full list, cut at the limit.
  lemma CutIsTop(f: Figures, stats: seq<EndpointStat>, limit: nat)
    requires Lists(f, stats) && Descending(stats)
    ensures Top(f, limit, if |stats| > limit then stats[..limit] else stats)
  {
    FullSize(f, stats);
    var top := if |stats| > limit then stats[..limit] else stats;
    assert forall i | 0 <= i < |top| :: top[i] == stats[i];
    forall e, i | e in f && !In(e, top) && 0 <= i < |top| ensures f[e].requestCount <= top[i].requestCount {
      assert In(e, stats);
      var k :| 0 <= k < |stats| && stats[k].endpoint == e;
      assert forall j | 0 <= j < |top| :: top[j].endpoint != e;
      assert Own(f, stats[k]) && i < k;
    }
  }

  /** The first i entries are in place: each has at least as many requests as every later one. */
  ghost predicate Placed(stats: seq<EndpointStat>, i: int) {
    forall p, q | 0 <= p < i && p < q < |stats| :: stats[p].requestCount >= stats[q].requestCount
  }

  lemma SwapKeepsPlaced(stats: seq<EndpointStat>, i: nat, j: nat)
    requires i < j < |stats| && Placed(stats, i)
    ensures Placed(stats[i := stats[j]][j := stats[i]], i)
  {
  }

  /** The inner loop: whatever has more requests than entry i is exchanged with it. */
  method PlaceOne(a: array<EndpointStat>, i: nat, ghost f: Figures)
    requires i < a.Length && Lists(f, a[..]) && Placed(a[..], i)
    modifies a
    ensures Lists(f, a[..]) && Placed(a[..], i + 1)
  {
    hide Lists, Placed;
    var j := i + 1;
    while j < a.Length
      invariant i < j <= a.Length
      invariant Lists(f, a[..]) && Placed(a[..], i)
      invariant forall q | i < q < j :: a[i].requestCount >= a[q].requestCount
    {
      if a[i].requestCount < a[j].requestCount {
        SwapKeepsList(f, a[..], i, j);
        SwapKeepsPlaced(a[..], i, j);
        ghost var swapped := a[..][i := a[j]][j := a[i]];
        a[i], a[j] := a[j], a[i];
        assert a[..] == swapped;
      }
      j := j + 1;
    }
    OneMorePlaced(a[..], i);
  }

  lemma OneMorePlaced(stats: seq<EndpointStat>, i: nat)
    requires i < |stats| && Placed(stats, i)
    requires forall q | i < q < |stats| :: stats[i].requestCount >= stats[q].requestCount
    ensures Placed(stats, i + 1)
  {
  }

  /** The nested exchange loops, in place. */
  method SortByRequests(a: array<EndpointStat>, ghost f: Figures)
    requires Lists(f, a[..])
    modifies a
    ensures Lists(f, a[..]) && Descending(a[..])
  {
    var i := 0;
    while i < a.Length - 1
      invariant 0 <= i && (a.Length > 0 ==> i < a.Length)
      invariant Lists(f, a[..]) && Placed(a[..], i)
    {
      PlaceOne(a, i, f);
      i := i + 1;
    }
  }

  /** Sort a copy in place and cut it at the limit. */
  method Rank(stats: seq<EndpointStat>, limit: int, ghost f: Figures) returns (top: Option<seq<EndpointStat>>)
    requires Lists(f, stats)
    ensures top.None? <==> limit < 0
    ensures top.Some? ==> Top(f, limit, top.value)
  {
    var a := new EndpointStat[|stats|](i requires 0 <= i < |stats| => stats[i]);
    assert a[..] == stats;
    SortByRequests(a, f);
    if a.Length > limit {
      if limit < 0 {
        return None;
      }
      CutIsTop(f, a[..], limit);
      assert a[..][..limit] == a[..limit];
      return Some(a[..limit]);
    }
    CutIsTop(f, a[..], limit);
    return Some(a[..]);
  }

  class Monitor {
    const metrics: Metrics

    constructor ()
      ensures metrics.Valid() && metrics.View() == ZERO && fresh(metrics.Objects())
    {
      metrics := new Metrics(0, 0, 0, map[], map[]);
    }

    method RecordRequest(endpoint: string, statusCode: int, responseTime: int)
      requires metrics.Valid()
      modifies metrics.Objects()
      ensures metrics.Valid() && fresh(metrics.Objects() - old(metrics.Objects()))
      ensures metrics.View() == Recorded(old(metrics.View()), endpoint, statusCode, responseTime)
    {
      metrics.Record(endpoint, statusCode, responseTime);
    }

    method ResetMetrics()
      modifies metrics
      ensures metrics.Valid() && metrics.View() == ZERO && metrics.Objects() == {metrics}
    {
      metrics.requestCount := 0;
      metrics.errorCount := 0;
      metrics.responseTime := 0;
      metrics.statusCodes := map[];
      metrics.endpointMetrics := map[];
    }

    /** A deep copy: equal to the live metrics now, and sharing no object with them. */
    method GetMetrics() returns (copy: Metrics)
      requires metrics.Valid()
      ensures copy.Valid() && fresh(copy.Objects()) && copy.View() == metrics.View()
    {
      copy := metrics.Copy();
    }

    /** For every iteration order of the map; a negative limit is a slice out of bounds. */
    method GetTopEndpoints(limit: int) returns (top: Option<seq<EndpointStat>>)
      requires metrics.Valid()
      ensures top.None? <==> limit < 0
      ensures top.Some? ==> TopByRequests(metrics.View().endpoints, limit, top.value)
    {
      hide Lists, Top, TopByRequests, FiguresOf;
      ghost var s := metrics.View();
      var stats := CollectStats();
      assert metrics.View() == s;
      top := Rank(stats, limit, FiguresOf(s));
      assert metrics.View() == s;
      if top.Some? {
        TopIsByRequests(s, limit, top.value);
      }
    }

    method CollectStats() returns (stats: seq<EndpointStat>)
      requires metrics.Valid()
      ensures Lists(FiguresOf(metrics.View()), stats)
    {
      hide FiguresOf, Lists, Collected;
      stats := [];
      ghost var s := metrics.View();
      ghost var f := FiguresOf(s);
      var names := metrics.endpointMetrics.Keys;
      NoneCollected(s);
      assert names == s.endpoints.Keys;
      while names != {}
        invariant names <= metrics.endpointMetrics.Keys
        invariant Collected(f, stats, names)
        decreases |names|
      {
        var e :| e in names;
        var stat := metrics.StatAt(e);
        assert metrics.View() == s;
        CollectOne(f, stats, names, stat);
        stats := stats + [stat];
        names := names - {e};
      }
      assert names == {} && metrics.View() == s;
      AllCollected(f, stats);
    }

    method Perform(op: Op)
      requires metrics.Valid()
      modifies metrics.Objects()
      ensures metrics.Valid() && fresh(metrics.Objects() - old(metrics.Objects()))
      ensures metrics.View() == Apply(old(metrics.View()), op)
    {
      match op {
        case Record(r) => RecordRequest(r.endpoint, r.code, r.time);
        case Reset => ResetMetrics();
      }
    }

    /** A snapshot keeps its figures through any later run of operations on the monitor. */
    method SnapshotThenRun(ops: seq<Op>) returns (snapshot: Metrics)
      requires metrics.Valid()
      modifies metrics.Objects()
      ensures snapshot.View() == old(metrics.View())
      ensures metrics.Valid() && metrics.View() == RunFrom(old(metrics.View()), ops)
    {
      snapshot := GetMetrics();
      ghost var start := metrics.View();
      for i := 0 to |ops|
        invariant metrics.Valid() && snapshot.Valid()
        invariant fresh(metrics.Objects() - old(metrics.Objects()))
        invariant fresh(snapshot.Objects()) && snapshot.Objects() !! metrics.Objects()
        invariant snapshot.View() == start
        invariant metrics.View() == RunFrom(start, ops[..i])
      {
        Perform(ops[i]);
        assert ops[..i + 1][..i] == ops[..i];
      }
      assert ops[..|ops|] == ops;
    }
  }
}
