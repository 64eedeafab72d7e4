// Route selection and reloading of internal/service/proxy/route_parser.go.

module RouteSelection {
  import opened Options
  import opened RoutePattern

  datatype RouteConfig = RouteConfig(id: string, pattern: string, service: string, methods: seq<string>)

  datatype RouteGroup = RouteGroup(name: string, prefix: string, routes: seq<RouteConfig>)

  datatype ServiceConfig = ServiceConfig(hosts: seq<string>, port: int, healthCheck: string)

  datatype ServicesConfig = ServicesConfig(
    groups: seq<RouteGroup>, routes: seq<RouteConfig>, services: map<string, ServiceConfig>)

  datatype MatchError = NoRoute | ServiceNotFound(service: string)

  /** Case folding as `strings.EqualFold` compares with ASCII text: two non-ASCII characters fold to ASCII letters. */
  function FoldChar(c: char): char {
    if 'A' <= c <= 'Z' then c + 32 as char
    else if c == '\U{212A}' then 'k'
    else if c == '\U{017F}' then 's'
    else c
  }

  predicate EqualFold(a: string, b: string) {
    |a| == |b| && forall i | 0 <= i < |a| :: FoldChar(a[i]) == FoldChar(b[i])
  }

  const CAPITALS := "ABCDEFGHIJKLMNOPQRSTUVWXYZ"
  const SMALLS := "abcdefghijklmnopqrstuvwxyz"

  /** The capital and the small form of one letter. */
  ghost predicate TwoCases(x: char, y: char) {
    exists k :: 0 <= k < 26 && ((x == CAPITALS[k] && y == SMALLS[k]) || (x == SMALLS[k] && y == CAPITALS[k]))
  }

  /** Equal but for the case; Kelvin sign and long s count as forms of k and s. */
  ghost predicate SameLetter(x: char, y: char) {
    x == y || TwoCases(x, y) || (x == '\U{212A}' && (y == 'k' || y == 'K')) || (x == '\U{017F}' && (y == 's' || y == 'S'))
  }

  predicate Ascii(s: string) { forall c | c in s :: c as int < 128 }

  lemma Alphabet(k: nat)
    requires k < 26
    ensures CAPITALS[k] as int == 65 + k && SMALLS[k] as int == 97 + k
  {
  }

  lemma CaseDistance(x: char, y: char)
    ensures TwoCases(x, y) <==>
      ('A' <= x <= 'Z' && y as int == x as int + 32) || ('A' <= y <= 'Z' && x as int == y as int + 32)
  {
    forall k | 0 <= k < 26
      ensures CAPITALS[k] as int == 65 + k && SMALLS[k] as int == 97 + k
    {
      Alphabet(k);
    }
    hide CAPITALS, SMALLS;
    if 'A' <= x <= 'Z' && y as int == x as int + 32 {
      assert CAPITALS[x as int - 65] == x && SMALLS[x as int - 65] == y;
    }
    if 'A' <= y <= 'Z' && x as int == y as int + 32 {
      assert CAPITALS[y as int - 65] == y && SMALLS[y as int - 65] == x;
    }
  }

  lemma SameFold(x: char, y: char)
    requires y as int < 128
    ensures FoldChar(x) == FoldChar(y) <==> SameLetter(x, y)
  {
    hide TwoCases;
    CaseDistance(x, y);
  }

  ghost predicate SameText(a: string, b: string) {
    |a| == |b| && forall i | 0 <= i < |a| :: SameLetter(a[i], b[i])
  }

  /** Against ASCII text, the comparison accepts exactly the texts that differ in the case of letters only. */
  lemma EqualFoldMeaning(a: string, b: string)
    requires Ascii(b)
    ensures EqualFold(a, b) <==> SameText(a, b)
  {
    if |a| == |b| {
      forall i | 0 <= i < |a| ensures FoldChar(a[i]) == FoldChar(b[i]) <==> SameLetter(a[i], b[i]) {
        assert b[i] in b;
        SameFold(a[i], b[i]);
      }
    }
  }

  predicate MethodAllowed(methods: seq<string>, verb: string) {
    methods == [] || exists m | m in methods :: EqualFold(m, verb)
  }

  method MatchMethod(methods: seq<string>, verb: string) returns (ok: bool)
    ensures ok <==> MethodAllowed(methods, verb)
    ensures Ascii(verb) ==> (ok <==> methods == [] || exists m | m in methods :: SameText(m, verb))
  {
    hide EqualFold, SameText;
    if Ascii(verb) {
      forall m ensures EqualFold(m, verb) <==> SameText(m, verb) {
        EqualFoldMeaning(m, verb);
      }
    }
    if |methods| == 0 {
      return true;
    }
    for i := 0 to |methods|
      invariant forall k | 0 <= k < i :: !EqualFold(methods[k], verb)
    {
      if EqualFold(methods[i], verb) {
        return true;
      }
    }
    return false;
  }

  predicate Fits(r: RouteConfig, verb: string, path: string) {
    MatchRoutePattern(r.pattern, path) && MethodAllowed(r.methods, verb)
  }

  /** The routes a path is compared with, in order: those of each group whose prefix fits, then the global ones. */
  function Candidates(groups: seq<RouteGroup>, routes: seq<RouteConfig>, path: string): seq<RouteConfig> {
    if groups == [] then routes
    else (if groups[0].prefix <= path then groups[0].routes else []) + Candidates(groups[1..], routes, path)
  }

  function Select(
    candidates: seq<RouteConfig>, services: map<string, ServiceConfig>, verb: string, path: string)
    : Result<(RouteConfig, ServiceConfig), MatchError>
  {
    if candidates == [] then Err(NoRoute)
    else if Fits(candidates[0], verb, path) then
      var r := candidates[0];
      if r.service in services then Ok((r, services[r.service])) else Err(ServiceNotFound(r.service))
    else Select(candidates[1..], services, verb, path)
  }

  ghost predicate FirstFit(candidates: seq<RouteConfig>, k: int, verb: string, path: string) {
    && 0 <= k < |candidates| && Fits(candidates[k], verb, path)
    && forall j | 0 <= j < k :: !Fits(candidates[j], verb, path)
  }

  /** The outcome is decided by the first fitting candidate alone: a missing service is an error, never a fall-through. */
  lemma {:induction false} SelectMeaning(
    candidates: seq<RouteConfig>, services: map<string, ServiceConfig>, verb: string, path: string)
    ensures var out := Select(candidates, services, verb, path);
            && (out == Err(NoRoute) <==> forall k | 0 <= k < |candidates| :: !Fits(candidates[k], verb, path))
            && (forall k | FirstFit(candidates, k, verb, path) ::
                  var r := candidates[k];
                  out == if r.service in services then Ok((r, services[r.service])) else Err(ServiceNotFound(r.service)))
            && (out != Err(NoRoute) ==> exists k :: FirstFit(candidates, k, verb, path))
    decreases |candidates|
  {
    if candidates == [] {
    } else {
      var rest := candidates[1..];
      if Fits(candidates[0], verb, path) {
        assert FirstFit(candidates, 0, verb, path);
      } else {
        SelectMeaning(rest, services, verb, path);
        forall k | FirstFit(candidates, k, verb, path) ensures k > 0 && FirstFit(rest, k - 1, verb, path) {
          assert forall j | 0 <= j < |rest| :: rest[j] == candidates[j + 1];
        }
        if Select(candidates, services, verb, path) != Err(NoRoute) {
          var k :| FirstFit(rest, k, verb, path);
          assert FirstFit(candidates, k + 1, verb, path) by {
            forall j | 0 <= j < k + 1 ensures !Fits(candidates[j], verb, path) {
              assert j > 0 ==> candidates[j] == rest[j - 1];
            }
          }
        } else {
          assert forall j | 0 < j < |candidates| :: candidates[j] == rest[j - 1];
        }
      }
    }
  }

  // Candidates that do not fit can be passed over.
  lemma {:induction false} SkipMisfits(
    front: seq<RouteConfig>, rest: seq<RouteConfig>, services: map<string, ServiceConfig>, verb: string, path: string)
    requires forall k | 0 <= k < |front| :: !Fits(front[k], verb, path)
    ensures Select(front + rest, services, verb, path) == Select(rest, services, verb, path)
    decreases |front|
  {
    if front == [] {
      assert front + rest == rest;
    } else {
      assert (front + rest)[1..] == front[1..] + rest;
      SkipMisfits(front[1..], rest, services, verb, path);
    }
  }

  lemma FirstDecides(
    front: seq<RouteConfig>, rest: seq<RouteConfig>, k: nat, services: map<string, ServiceConfig>,
    verb: string, path: string)
    requires FirstFit(front, k, verb, path)
    ensures Select(front + rest, services, verb, path) ==
      if front[k].service in services then Ok((front[k], services[front[k].service]))
      else Err(ServiceNotFound(front[k].service))
  {
    hide MatchRoutePattern;
    SkipMisfits(front[..k], front[k..] + rest, services, verb, path);
    assert front[..k] + (front[k..] + rest) == front + rest;
  }

  lemma CandidatesStep(groups: seq<RouteGroup>, i: nat, routes: seq<RouteConfig>, path: string)
    requires i < |groups|
    ensures Candidates(groups[i..], routes, path) ==
      if groups[i].prefix <= path then groups[i].routes + Candidates(groups[i + 1..], routes, path)
      else Candidates(groups[i + 1..], routes, path)
  {
  }

  // ----- the outcome, by places in the configuration -----

  /** Route k of group g is one for the request: the group's prefix fits, and the route's pattern and methods do. */
  ghost predicate GroupRouteAccepts(c: ServicesConfig, g: int, k: int, verb: string, path: string) {
    && 0 <= g < |c.groups| && 0 <= k < |c.groups[g].routes|
    && c.groups[g].prefix <= path
    && MatchRoutePattern(c.groups[g].routes[k].pattern, path)
    && (c.groups[g].routes[k].methods == [] || exists m | m in c.groups[g].routes[k].methods :: EqualFold(m, verb))
  }

  /** Global route i is one for the request. */
  ghost predicate RouteAccepts(c: ServicesConfig, i: int, verb: string, path: string) {
    && 0 <= i < |c.routes|
    && MatchRoutePattern(c.routes[i].pattern, path)
    && (c.routes[i].methods == [] || exists m | m in c.routes[i].methods :: EqualFold(m, verb))
  }

  /** The route with its stored service, or an error that names the missing service. */
  ghost predicate Resolves(
    out: Result<(RouteConfig, ServiceConfig), MatchError>, r: RouteConfig, services: map<string, ServiceConfig>)
  {
    if r.service in services then out == Ok((r, services[r.service])) else out == Err(ServiceNotFound(r.service))
  }

  ghost predicate NoGroupBefore(c: ServicesConfig, g: int, k: int, verb: string, path: string) {
    forall g', k' | g' < g || (g' == g && k' < k) :: !GroupRouteAccepts(c, g', k', verb, path)
  }

  // Groups without a route for the request can be passed over.
  lemma {:induction false} SkipGroups(c: ServicesConfig, g: nat, verb: string, path: string)
    requires g <= |c.groups| && NoGroupBefore(c, g, 0, verb, path)
    ensures Select(Candidates(c.groups, c.routes, path), c.services, verb, path)
         == Select(Candidates(c.groups[g..], c.routes, path), c.services, verb, path)
    decreases g
  {
    hide MatchRoutePattern, EqualFold, Select, Candidates;
    if g == 0 {
      assert c.groups[0..] == c.groups;
    } else {
      SkipGroups(c, g - 1, verb, path);
      CandidatesStep(c.groups, g - 1, c.routes, path);
      var group := c.groups[g - 1];
      if group.prefix <= path {
        forall k | 0 <= k < |group.routes| ensures !Fits(group.routes[k], verb, path) {
          assert !GroupRouteAccepts(c, g - 1, k, verb, path);
        }
        SkipMisfits(group.routes, Candidates(c.groups[g..], c.routes, path), c.services, verb, path);
      }
    }
  }

  lemma GroupDecides(c: ServicesConfig, g: nat, k: nat, verb: string, path: string)
    requires GroupRouteAccepts(c, g, k, verb, path) && NoGroupBefore(c, g, k, verb, path)
    ensures Resolves(Select(Candidates(c.groups, c.routes, path), c.services, verb, path), c.groups[g].routes[k], c.services)
  {
    hide MatchRoutePattern, EqualFold, Select, Candidates;
    SkipGroups(c, g, verb, path);
    CandidatesStep(c.groups, g, c.routes, path);
    var rs := c.groups[g].routes;
    forall j | 0 <= j < k ensures !Fits(rs[j], verb, path) {
      assert !GroupRouteAccepts(c, g, j, verb, path);
    }
    FirstDecides(rs, Candidates(c.groups[g + 1..], c.routes, path), k, c.services, verb, path);
  }

  lemma GlobalDecides(c: ServicesConfig, i: nat, verb: string, path: string)
    requires NoGroupBefore(c, |c.groups|, 0, verb, path)
    requires RouteAccepts(c, i, verb, path) && forall j | 0 <= j < i :: !RouteAccepts(c, j, verb, path)
    ensures Resolves(Select(Candidates(c.groups, c.routes, path), c.services, verb, path), c.routes[i], c.services)
  {
    hide MatchRoutePattern, EqualFold, Select;
    SkipGroups(c, |c.groups|, verb, path);
    forall j | 0 <= j < i ensures !Fits(c.routes[j], verb, path) {
      assert !RouteAccepts(c, j, verb, path);
    }
    FirstDecides(c.routes, [], i, c.services, verb, path);
    assert c.routes + [] == c.routes;
  }

  lemma NoneDecides(c: ServicesConfig, verb: string, path: string)
    requires NoGroupBefore(c, |c.groups|, 0, verb, path)
    requires forall j | 0 <= j < |c.routes| :: !RouteAccepts(c, j, verb, path)
    ensures Select(Candidates(c.groups, c.routes, path), c.services, verb, path) == Err(NoRoute)
  {
    hide MatchRoutePattern, EqualFold;
    SkipGroups(c, |c.groups|, verb, path);
    forall j | 0 <= j < |c.routes| ensures !Fits(c.routes[j], verb, path) {
      assert !RouteAccepts(c, j, verb, path);
    }
    SkipMisfits(c.routes, [], c.services, verb, path);
    assert c.routes + [] == c.routes;
  }

  // If any route accepts, there is a first one, in a group or among the global ones.
  lemma {:induction false} FirstInGroups(c: ServicesConfig, g: nat, k: nat, verb: string, path: string)
    returns (g': nat, k': nat)
    requires GroupRouteAccepts(c, g, k, verb, path)
    ensures GroupRouteAccepts(c, g', k', verb, path) && NoGroupBefore(c, g', k', verb, path)
    decreases g, k
  {
    hide GroupRouteAccepts;
    if NoGroupBefore(c, g, k, verb, path) {
      g', k' := g, k;
    } else {
      var h, j :| (h < g || (h == g && j < k)) && GroupRouteAccepts(c, h, j, verb, path);
      InRange(c, h, j, verb, path);
      g', k' := FirstInGroups(c, h, j, verb, path);
    }
  }

  lemma InRange(c: ServicesConfig, g: int, k: int, verb: string, path: string)
    requires GroupRouteAccepts(c, g, k, verb, path)
    ensures 0 <= g < |c.groups| && 0 <= k
  {
  }

  lemma {:induction false} FirstGlobal(c: ServicesConfig, i: nat, verb: string, path: string) returns (i': nat)
    requires RouteAccepts(c, i, verb, path)
    ensures RouteAccepts(c, i', verb, path) && forall j | 0 <= j < i' :: !RouteAccepts(c, j, verb, path)
    decreases i
  {
    hide RouteAccepts;
    if j: nat :| j < i && RouteAccepts(c, j, verb, path) {
      i' := FirstGlobal(c, j, verb, path);
    } else {
      i' := i;
    }
  }

  /**
   * The first route, of the first group, that accepts decides; if no group has one, the first global route that
   * accepts decides; and there is no route exactly if none accepts.
   */
  ghost predicate DecidedByPlace(
    c: ServicesConfig, verb: string, path: string, out: Result<(RouteConfig, ServiceConfig), MatchError>)
  {
    && (forall g, k | GroupRouteAccepts(c, g, k, verb, path) && NoGroupBefore(c, g, k, verb, path) ::
          Resolves(out, c.groups[g].routes[k], c.services))
    && ((forall g, k :: !GroupRouteAccepts(c, g, k, verb, path)) ==>
          forall i | RouteAccepts(c, i, verb, path) && forall j | 0 <= j < i :: !RouteAccepts(c, j, verb, path) ::
            Resolves(out, c.routes[i], c.services))
    && (out == Err(NoRoute) <==>
          && (forall g, k :: !GroupRouteAccepts(c, g, k, verb, path))
          && (forall i :: !RouteAccepts(c, i, verb, path)))
  }

  lemma SelectionByPlace(c: ServicesConfig, verb: string, path: string)
    ensures DecidedByPlace(c, verb, path, Select(Candidates(c.groups, c.routes, path), c.services, verb, path))
  {
    hide MatchRoutePattern, EqualFold, Select, Candidates;
    forall g, k | GroupRouteAccepts(c, g, k, verb, path) && NoGroupBefore(c, g, k, verb, path)
      ensures Resolves(Select(Candidates(c.groups, c.routes, path), c.services, verb, path), c.groups[g].routes[k], c.services)
    {
      GroupDecides(c, g, k, verb, path);
    }
    if exists g, k :: GroupRouteAccepts(c, g, k, verb, path) {
      var g, k :| GroupRouteAccepts(c, g, k, verb, path);
      var g', k' := FirstInGroups(c, g, k, verb, path);
      GroupDecides(c, g', k', verb, path);
    } else {
      forall i | RouteAccepts(c, i, verb, path) && forall j | 0 <= j < i :: !RouteAccepts(c, j, verb, path)
        ensures Resolves(Select(Candidates(c.groups, c.routes, path), c.services, verb, path), c.routes[i], c.services)
      {
        GlobalDecides(c, i, verb, path);
      }
      if exists i :: RouteAccepts(c, i, verb, path) {
        var i :| RouteAccepts(c, i, verb, path);
        var i' := FirstGlobal(c, i, verb, path);
        GlobalDecides(c, i', verb, path);
      } else {
        NoneDecides(c, verb, path);
      }
    }
  }
}

module RouteParsers {
  import opened Options
  import opened RoutePattern
  import opened RouteSelection

  /** What a pointer in a slice or map of the parser points to. */
  class Cell<T> {
    var value: T

    constructor (v: T)
      ensures value == v
    {
      value := v;
    }
  }

  /** The result of reading and parsing the configuration file. */
  datatype Loaded = ReadFailed | ParseFailed | Parsed(config: ServicesConfig)

  datatype LoadError = FailedToRead | FailedToParse

  function Values<T>(cells: seq<Cell<T>>): seq<T>
    reads cells
  {
    seq(|cells|, i requires 0 <= i < |cells| reads cells => cells[i].value)
  }

  function ValueMap(cells: map<string, Cell<ServiceConfig>>): map<string, ServiceConfig>
    reads cells.Values
  {
    map n | n in cells :: cells[n].value
  }

  // The copying loops of a reload: every entry gets a cell of its own.

  method CopyAll<T>(values: seq<T>) returns (cells: seq<Cell<T>>)
    ensures fresh(cells) && Values(cells) == values
  {
    cells := [];
    for i := 0 to |values|
      invariant fresh(cells) && Values(cells) == values[..i]
    {
      var copy := new Cell(values[i]);
      cells := cells + [copy];
    }
  }

  method CopyServices(values: map<string, ServiceConfig>) returns (cells: map<string, Cell<ServiceConfig>>)
    ensures fresh(cells.Values) && ValueMap(cells) == values
  {
    cells := map[];
    var names := values.Keys;
    while names != {}
      invariant names <= values.Keys && cells.Keys == values.Keys - names
      invariant forall n | n in cells :: fresh(cells[n]) && cells[n].value == values[n]
      decreases |names|
    {
      var name :| name in names;
      var serviceCopy := new Cell(values[name]);
      cells := cells[name := serviceCopy];
      names := names - {name};
    }
  }

  class RouteParser {
    var routes: seq<Cell<RouteConfig>>
    var services: map<string, Cell<ServiceConfig>>
    var groups: seq<Cell<RouteGroup>>

    /** The configuration in force. */
    function Config(): ServicesConfig
      reads this, routes, groups, services.Values
    {
      ServicesConfig(Values(groups), Values(routes), ValueMap(services))
    }

    constructor ()
      ensures Config() == ServicesConfig([], [], map[])
    {
      routes, services, groups := [], map[], [];
    }

    /** A reload builds every cell anew; a failed one changes nothing. */
    method LoadConfig(input: Loaded) returns (err: Option<LoadError>)
      modifies this
      ensures input.ReadFailed? ==> err == Some(FailedToRead) && unchanged(this)
      ensures input.ParseFailed? ==> err == Some(FailedToParse) && unchanged(this)
      ensures input.Parsed? ==>
        && err == None && Config() == input.config
        && fresh(routes) && fresh(groups) && fresh(services.Values)
    {
      match input {
        case ReadFailed => return Some(FailedToRead);
        case ParseFailed => return Some(FailedToParse);
        case Parsed(config) =>
          services := CopyServices(config.services);
          routes := CopyAll(config.routes);
          groups := CopyAll(config.groups);
          return None;
      }
    }

    method GetAllRoutes() returns (slice: seq<Cell<RouteConfig>>)
      ensures slice == routes
    {
      slice := routes;
    }

    method GetAllGroups() returns (slice: seq<Cell<RouteGroup>>)
      ensures slice == groups
    {
      slice := groups;
    }

    /** The outcome for a route found to fit. */
    method Resolve(route: RouteConfig) returns (out: Result<(RouteConfig, ServiceConfig), MatchError>)
      ensures out == var s := ValueMap(services);
        if route.service in s then Ok((route, s[route.service])) else Err(ServiceNotFound(route.service))
    {
      if route.service !in services {
        return Err(ServiceNotFound(route.service));
      }
      return Ok((route, services[route.service].value));
    }

    /** The loop over the routes of one group: it decides the outcome, whatever follows, or leaves it to what follows. */
    method MatchInGroup(group: RouteGroup, verb: string, path: string, ghost rest: seq<RouteConfig>)
      returns (hit: Option<Result<(RouteConfig, ServiceConfig), MatchError>>)
      ensures var s := ValueMap(services);
        Select(group.routes + rest, s, verb, path) == if hit.Some? then hit.value else Select(rest, s, verb, path)
    {
      hide MatchRoutePattern, Select;
      ghost var s := ValueMap(services);
      for j := 0 to |group.routes|
        invariant forall k | 0 <= k < j :: !Fits(group.routes[k], verb, path)
      {
        var route := group.routes[j];
        var allowed := MatchMethod(route.methods, verb);
        if MatchRoutePattern(route.pattern, path) && allowed {
          assert FirstFit(group.routes, j, verb, path);
          FirstDecides(group.routes, rest, j, s, verb, path);
          var out := Resolve(route);
          return Some(out);
        }
      }
      SkipMisfits(group.routes, rest, s, verb, path);
      return None;
    }

    /** The loop over the global routes. */
    method MatchGlobal(verb: string, path: string) returns (out: Result<(RouteConfig, ServiceConfig), MatchError>)
      ensures out == Select(Values(routes), ValueMap(services), verb, path)
    {
      hide MatchRoutePattern;
      ghost var rs := Values(routes);
      for i := 0 to |routes|
        invariant forall k | 0 <= k < i :: !Fits(rs[k], verb, path)
      {
        var route := routes[i].value;
        assert route == rs[i];
        var allowed := MatchMethod(route.methods, verb);
        if MatchRoutePattern(route.pattern, path) && allowed {
          FirstDecides(rs, [], i, ValueMap(services), verb, path);
          assert rs + [] == rs;
          out := Resolve(route);
          return;
        }
      }
      SkipMisfits(rs, [], ValueMap(services), verb, path);
      assert rs + [] == rs;
      return Err(NoRoute);
    }

    /** Selection is the first fit in the flattened candidate list. */
    method MatchRoute(verb: string, path: string) returns (out: Result<(RouteConfig, ServiceConfig), MatchError>)
      ensures out == var c := Config(); Select(Candidates(c.groups, c.routes, path), c.services, verb, path)
      ensures DecidedByPlace(Config(), verb, path, out)
    {
      hide Select, Fits, MatchRoutePattern, DecidedByPlace;
      SelectionByPlace(Config(), verb, path);
      ghost var gs, rs, s := Values(groups), Values(routes), ValueMap(services);
      ghost var target := Select(Candidates(gs, rs, path), s, verb, path);
      assert gs[0..] == gs;
      for i := 0 to |groups|
        invariant Select(Candidates(gs[i..], rs, path), s, verb, path) == target
      {
        var group := groups[i].value;
        CandidatesStep(gs, i, rs, path);
        if group.prefix <= path {
          var hit := MatchInGroup(group, verb, path, Candidates(gs[i + 1..], rs, path));
          if hit.Some? {
            return hit.value;
          }
        }
      }
      assert Candidates(gs[|gs|..], rs, path) == rs;
      out := MatchGlobal(verb, path);
    }
  }

  /** Slices taken before any number of reloads still read the configuration they were taken from. */
  method SlicesSurviveReloads(p: RouteParser, inputs: seq<Loaded>)
    returns (routes: seq<Cell<RouteConfig>>, groups: seq<Cell<RouteGroup>>)
    modifies p
    ensures Values(routes) == old(p.Config()).routes && Values(groups) == old(p.Config()).groups
    ensures inputs != [] && inputs[|inputs| - 1].Parsed? ==> p.Config() == inputs[|inputs| - 1].config
    ensures (forall i | 0 <= i < |inputs| :: !inputs[i].Parsed?) ==> p.Config() == old(p.Config())
  {
    routes := p.GetAllRoutes();
    groups := p.GetAllGroups();
    for i := 0 to |inputs|
      invariant Values(routes) == old(p.Config()).routes && Values(groups) == old(p.Config()).groups
      invariant i > 0 && inputs[i - 1].Parsed? ==> p.Config() == inputs[i - 1].config
      invariant (forall k | 0 <= k < i :: !inputs[k].Parsed?) ==> p.Config() == old(p.Config())
    {
      var err := p.LoadConfig(inputs[i]);
    }
  }
}
