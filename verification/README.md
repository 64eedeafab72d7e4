# A Dafny model of the API gateway's algorithmic core

The gateway is an HTTP reverse proxy written in Go. This project models the parts of it that compute
something, with the same branches, constants and edge cases, and proves what callers rely on.
`dafny verify dfyconfig.toml` checks all of it.

| module | file | what it models |
|---|---|---|
| `SlidingWindow` | SlidingWindow.dfy | the in-memory limiter: one call, and every run of calls |
| `LimiterOptimality` | LimiterOptimality.dfy | the greedy limiter against every other policy under the same bound |
| `LimiterChain`, `LimiterRuns` | LimiterChain.dfy, LimiterRuns.dfy | the limiter registry and the chain Global, IP, User, API, with requests in flight together |
| `Admission` | Admission.dfy | who gets through the chain, in terms of requests only |
| `RateLimitMiddlewares` | RateLimitMiddleware.dfy | the middleware object over limiter objects, updated in place |
| `RoutePattern` | RoutePattern.dfy | the compiler from route patterns to regular expression text, and the search |
| `RouteSelection`, `RouteParsers` | RouteParser.dfy | route selection, reloading and the slices handed out |
| `MonitorStats`, `Monitors` | MonitorStats.dfy, Monitor.dfy | the metrics, as values and as objects |
| `Registries`, `Discoveries` | Registry.dfy, Discovery.dfy | the service registry, as an operation log and as an object |
| `LockProtocol` | LockProtocol.dfy | the registry under concurrent calls, with its read-write lock |
| `SqlDecoder`, `XssDecoder` | UrlDecoders.dfy | the two `decodeURL` functions |
| `PassOrder` | PassOrder.dfy | when two replacements whose texts overlap may be exchanged |
| `Paging` | Pagination.dfy | paging arithmetic in 64 bits |
| `Strings`, `MapSums`, `Int64`, `Options` | | replacement on strings, sums over maps, wrapping integers, option types |

The layout is the same throughout. A class with mutable fields has methods whose postconditions equate the
new state with a function of the old one; the laws are lemmas about that function and its runs. The discovery
object carries the log of its operations as ghost state, and its invariant says that it is the registry this log
amounts to. The clock is an argument, in nanoseconds: the limiter reads it while it holds its lock, so the
readings one limiter sees never decrease. Requests of the chain may interleave stage by stage.

Where the code and what surrounds it disagree, the model follows the code:

- `tests/unit/service_discovery_test.go:115-155` expects a watcher to hear of a registration. In the code
  `notifyWatchers` runs under the write lock and calls `Discover`, which takes the read lock of the same
  `sync.RWMutex`. `LockProtocol.WatchThenRegisterPoisons` is that very sequence of calls: it ends in a state
  that no thread can leave.
- Route patterns are matched by an unanchored search, and a `/:name` placeholder is literal text unless a
  backslash stands before it (`RoutePattern.PlaceholdersNeedBackslash`, `RoutePattern.LiteralPattern`).
- A pattern that ends in a dollar sign gets no end anchor, because the quoted sign already ends the text.
- `ResetRateLimit` takes a key, but no limiter keeps a key equal to its own name, so a reset clears the global
  history and nothing else (`LimiterRuns.ResetClearsOnlyGlobal`).
- `internal/router/router.go:133-138` installs the four stages before any middleware that sets `user_id`, so in
  that chain every request is anonymous at the user and API stages. Where a stage is installed after
  authentication, a user whose ID is `anonymous:` followed by an address shares the allowance of the anonymous
  user at that address (`LimiterRuns.UserKeysShared`).
- After `Deregister(id)` nothing is registered under `id` exactly if at most one service had it
  (`Registries.DeregisterClearsIff`); `Registries.SharedIdSurvives` is a run where two had it.
- The order of the last two passes of the SQL decoder shows exactly on inputs where their escapes overlap
  (`SqlDecoder.OrderMattersIff`); `SqlDecoder.OrderMatters` is such an input.

## Model

| member | source | states |
|---|---|---|
| SlidingWindow.MemoryRateLimiter.Allow | internal/middleware/ratelimit/ratelimit.go:42-70 | the pruning loop and the append give the answer and the store of the one-call specification |
| SlidingWindow.MemoryRateLimiter.Reset | internal/middleware/ratelimit/ratelimit.go:73-77 | only the given key is forgotten |
| SlidingWindow.WindowSafety | internal/middleware/ratelimit/ratelimit.go:42-77 | over any run with a clock that never goes back, the times accepted for a key since its last reset are sorted, any limit + 1 of them span the window, and every half-open interval of window length holds at most limit of them; none at all for a limit of zero or less |
| SlidingWindow.PruningRefinesNeverForgetting | internal/middleware/ratelimit/ratelimit.go:46-69 | every answer is that of a limiter that forgets nothing and counts the entries in (now - window, now]; the kept list is sorted and never longer than the limit |
| SlidingWindow.KeysAreIndependent | internal/middleware/ratelimit/ratelimit.go:50-68 | deleting every call on other keys from a run changes nothing for this key |
| SlidingWindow.SpacedBoundsCount | internal/middleware/ratelimit/ratelimit.go:62-69 | any sorted list whose entries limit apart differ by the window has at most limit entries in each window |
| LimiterOptimality.GreedyIsEarliest | internal/middleware/ratelimit/ratelimit.go:42-70 | for any arrivals and any sub-sequence of them that obeys the bound, the k-th admitted arrival comes no later than the k-th of the sub-sequence |
| LimiterOptimality.GreedyAdmitsMost | internal/middleware/ratelimit/ratelimit.go:42-70 | on every prefix of the arrivals no policy that obeys the bound admits more |
| LimiterOptimality.GreedyObeys | internal/middleware/ratelimit/ratelimit.go:42-70 | what the limiter admits obeys the bound, so it is one of the policies compared |
| LimiterChain.ApiNameInjective | internal/middleware/ratelimit/ratelimit.go:259-260 | two colon-free methods with paths share an API limiter name only if both are equal |
| LimiterChain.StageUses | internal/middleware/ratelimit/ratelimit.go:124-306 | each stage asks exactly the limiter the configuration binds the request to, under its configured rule, lets the request through exactly if that limiter admits it, and touches no other limiter; the registry invariant is kept |
| LimiterRuns.EveryStateIsOk | internal/middleware/ratelimit/ratelimit.go:98-117 | in every reachable state `ip` and `user` keep the configured rules, every other name belongs to one method and path with that path's rule, and each limiter's keys extend its name by a colon and more |
| LimiterRuns.StoreIsRun | internal/middleware/ratelimit/ratelimit.go:257-306 | however stages interleave, each limiter stores what it would store running alone on the calls made to it, whenever it was created |
| LimiterRuns.ResetClearsOnlyGlobal | internal/middleware/ratelimit/ratelimit.go:340-347 | a reset of any key in any reachable state leaves every registered limiter as it was and empties the global one |
| LimiterRuns.AdvanceEffect | internal/middleware/ratelimit/ratelimit.go:124-292 | one stage adds its time to the log of the limiter and key that apply exactly if the request passes, and to no other log |
| LimiterRuns.RequestAlone | internal/router/router.go:133-138 | an uninterrupted request adds one entry at each applicable stage it passes, none at the stage that rejects it or after; every other log is unchanged |
| LimiterRuns.ServedIsRun | internal/router/router.go:133-138 | in any run, the stage events of an uninterrupted request end in the chain, and with the number of stages passed, that serving it in sequence gives |
| LimiterRuns.EntriesAreRequests | internal/router/router.go:133-138 | however requests interleave, the log entries of a limiter and key in any interval are as many as the requests that passed that stage in it since the last reset that reached the limiter |
| LimiterRuns.HandledWithinEveryBound | internal/router/router.go:133-138 | however requests interleave, those that reach the handler satisfy every window bound that applies to them; a reset only starts the global count anew |
| LimiterRuns.HandledPassedEveryStage | internal/router/router.go:133-138 | each limiter that applies to a request that reached the handler has in its log the time the request passed it, unless a reset has cleared it |
| LimiterRuns.NoneForgiven | internal/middleware/ratelimit/ratelimit.go:340-347 | resets make no limiter but the global one forget a request |
| Admission.PassesIffAllowanceLeft | internal/middleware/ratelimit/ratelimit.go:124-292 | in every run, a stage rejects a request exactly if `limit` requests with the same address, user or endpoint got through there within the last window and since the last reset that reached that limiter, under the rule configured for it and 60,000,000,000 nanoseconds for the global one; without a rule it passes; no other request changes |
| Admission.NeverMoreThanAllowed | internal/router/router.go:133-138 | no interval as long as the window has more than `limit` requests let through on one allowance, in any run |
| Admission.SharesIsSameUse | internal/middleware/ratelimit/ratelimit.go:164-271 | two requests use the same limiter and key exactly if they share an allowance: all at the global stage, one address, one user, one method and path with one user or anonymous address |
| LimiterRuns.UserKeysShared | internal/middleware/ratelimit/ratelimit.go:199-219 | exactly which requests share a user-stage key |
| LimiterRuns.ApiKeysShared | internal/middleware/ratelimit/ratelimit.go:263-271 | exactly which requests share a key within one API limiter: the same user, or the same anonymous address |
| RateLimitMiddlewares.RateLimitMiddleware.constructor | internal/middleware/ratelimit/ratelimit.go:89-121 | the objects built for a configuration are the initial chain |
| RateLimitMiddlewares.RateLimitMiddleware.GlobalRateLimit | internal/middleware/ratelimit/ratelimit.go:124-147 | the object moves as the global stage of the chain does |
| RateLimitMiddlewares.RateLimitMiddleware.IPRateLimit | internal/middleware/ratelimit/ratelimit.go:150-182 | the object moves as the IP stage does |
| RateLimitMiddlewares.RateLimitMiddleware.UserRateLimit | internal/middleware/ratelimit/ratelimit.go:185-238 | the object moves as the user stage does, named or anonymous |
| RateLimitMiddlewares.RateLimitMiddleware.GetOrCreateAPILimiter | internal/middleware/ratelimit/ratelimit.go:295-306 | the object registered under the name is returned and nothing changes; if there is none, a fresh one is registered and every other name keeps its object |
| RateLimitMiddlewares.RateLimitMiddleware.APIRateLimit | internal/middleware/ratelimit/ratelimit.go:241-292 | the object moves as the API stage does |
| RateLimitMiddlewares.RateLimitMiddleware.Serve | internal/router/router.go:133-138 | the four stages in order, aborting at the first that rejects, move the object as the chain's stages do in sequence |
| RateLimitMiddlewares.RateLimitMiddleware.ResetRateLimit | internal/middleware/ratelimit/ratelimit.go:340-347 | the object moves as a reset of the chain does |
| RoutePattern.StarRewrite | internal/service/proxy/route_parser.go:171-172 | rewriting quoted stars in the quoted pattern finds exactly the stars of the pattern |
| RoutePattern.RegexIsPieces | internal/service/proxy/route_parser.go:170-178 | for every pattern, backslashes included, the emitted text parses, to the pieces of the pattern followed by an end anchor unless the last piece is a literal dollar sign |
| RoutePattern.EmittedIsQuoted | internal/service/proxy/route_parser.go:170-178 | every operator in the emitted text stands behind a backslash, in `.*`, in `[^/]+`, or is the last dollar sign |
| RoutePattern.MatchMeaning | internal/service/proxy/route_parser.go:161-178 | a pattern accepts a path exactly when some suffix of the path fits the glob; for a pattern ending in a dollar sign, exactly when some substring does |
| RoutePattern.MatchByParts | internal/service/proxy/route_parser.go:161-178 | a pattern accepts a path exactly when a stretch of it splits into parts: each literal piece itself, each star a text without newline, each segment a non-empty text without slash |
| RoutePattern.PlaceholderPieces | internal/service/proxy/route_parser.go:173 | backslash, slash, colon and a name up to the next slash or the end are read as a slash and a segment |
| RoutePattern.CharPieces | internal/service/proxy/route_parser.go:171-173 | everything else is read character by character, a star as a wildcard |
| RoutePattern.PlaceholdersNeedBackslash | internal/service/proxy/route_parser.go:173 | the placeholder rewrite is the identity exactly if no backslash, slash, colon and segment stand together in the pattern |
| RoutePattern.LiteralPattern | internal/service/proxy/route_parser.go:161-178 | a pattern without star or backslash matches exactly the paths that end in it, or, if it ends in a dollar sign, exactly those that contain it |
| RoutePattern.TrailingStar | internal/service/proxy/route_parser.go:161-178 | a pattern with one trailing star matches exactly the paths where the rest of it occurs with no newline after it |
| RouteSelection.MatchMethod | internal/service/proxy/route_parser.go:180-190 | true exactly for an empty list or a method that is, letter by letter, the same or the other case of the same letter |
| RouteSelection.EqualFoldMeaning | internal/service/proxy/route_parser.go:185 | against ASCII text the comparison accepts exactly texts of one length whose letters are equal or the capital and small form of one letter of the alphabet, or Kelvin sign and long s for k and s |
| RouteSelection.SelectMeaning | internal/service/proxy/route_parser.go:130-159 | the outcome is decided by the first fitting candidate alone: success with its stored service, or an error if that is missing; no route exactly if none fits |
| RouteSelection.SelectionByPlace | internal/service/proxy/route_parser.go:130-159 | by places in the configuration: the first route of the first group with a fitting prefix whose pattern and methods fit decides; without one, the first such global route; no route exactly if there is none at all |
| RouteParsers.RouteParser.MatchInGroup | internal/service/proxy/route_parser.go:137-145 | the loop over one group decides the outcome whatever follows, or leaves it to what follows |
| RouteParsers.RouteParser.MatchRoute | internal/service/proxy/route_parser.go:130-159 | the nested loops give the outcome that the places in the configuration in force decide |
| RouteParsers.RouteParser.LoadConfig | internal/service/proxy/route_parser.go:87-127 | a failed load changes nothing; a successful one installs exactly the new configuration in fresh cells |
| RouteParsers.SlicesSurviveReloads | internal/service/proxy/route_parser.go:193-204 | slices taken before any number of reloads still read the configuration they were taken from |
| MonitorStats.RecordConserves | internal/service/monitor/monitor.go:71-113 | recording keeps every conservation law: totals, codes, endpoints, errors, and each code over endpoints |
| MonitorStats.EveryStateConserved | internal/service/monitor/monitor.go:71-113 | the conservation laws hold after every run of recordings and resets |
| MonitorStats.CountersAreTallies | internal/service/monitor/monitor.go:91-99 | an endpoint is listed exactly if it was recorded since the last reset, and each of its code counters is how often it answered so |
| MonitorStats.AveragesAreStored | internal/service/monitor/monitor.go:84-110 | the global and per-endpoint averages are those of the samples since the last reset |
| MonitorStats.AverageError | internal/service/monitor/monitor.go:84-88 | without overflow the stored average is within one nanosecond below the exact recurrence, however many samples, and between the least and the greatest sample |
| MonitorStats.SmallSamplesFit | internal/service/monitor/monitor.go:84-88 | samples of at most half the 64-bit maximum never overflow the running average |
| MonitorStats.StepStaysBetween | internal/service/monitor/monitor.go:87 | one step stays between the old average and the sample exactly if their sum fits 64 bits |
| Monitors.Monitor.RecordRequest | internal/service/monitor/monitor.go:71-113 | the objects move as the value-level recording does |
| Monitors.Monitor.ResetMetrics | internal/service/monitor/monitor.go:199-211 | every figure is zero and no endpoint is left |
| Monitors.Monitor.GetMetrics | internal/service/monitor/monitor.go:116-150 | the copy equals the live metrics and shares no object with them |
| Monitors.Monitor.SnapshotThenRun | internal/service/monitor/monitor.go:116-150 | no later run of recordings and resets changes a snapshot |
| Monitors.PlaceOne | internal/service/monitor/monitor.go:243-247 | one inner loop of the exchange sort puts the next entry in place and keeps the list a list of all endpoints |
| Monitors.SortByRequests | internal/service/monitor/monitor.go:242-248 | the nested loops leave each endpoint listed once with its own figures, in non-increasing order of requests |
| Monitors.CutIsTop | internal/service/monitor/monitor.go:250-252 | a sorted full list cut at the limit has the top endpoints: as many as there are up to the limit, and none left out has more requests than one kept |
| Monitors.Monitor.GetTopEndpoints | internal/service/monitor/monitor.go:222-255 | for every iteration order the result lists as many endpoints as there are up to the limit, each with its own request count, average and errors in percent, in order of request counts, and none left out has more requests; a negative limit is a slice out of range |
| Registries.RunAgrees | internal/service/discovery/discovery.go:107-148 | after every run an instance stands in its place exactly if it was registered there and nothing since has displaced it |
| Registries.DiscoverMeaning | internal/service/discovery/discovery.go:151-168 | discovery fails exactly for a name never registered; otherwise it gives exactly the current instances whose last status is healthy |
| Registries.LateCheckIsInvisible | internal/service/discovery/discovery.go:235-272 | a late check of an instance that was removed or replaced changes no answer |
| Registries.CheckDecides | internal/service/discovery/discovery.go:251-271 | a check makes an instance healthy exactly if the probe succeeds, and a current instance is in the next answer exactly then |
| Registries.DeregisterClearsIff | internal/service/discovery/discovery.go:130-148 | after a deregistration nothing is current under its ID exactly if no two services had an instance current under it |
| Registries.OneNameClears | internal/service/discovery/discovery.go:130-148 | nothing is left under the ID whenever each ID is registered under one name |
| Registries.SharedIdSurvives | internal/service/discovery/discovery.go:130-148 | a run that fails: any two instances with one ID under two names, registered and deregistered once; the second is still current, and discovered if healthy |
| Discoveries.InMemoryDiscovery.Register | internal/service/discovery/discovery.go:107-127 | the instance is placed under its name and ID and nothing else moves; the call returns exactly if the service is unwatched, else it keeps the lock forever |
| Discoveries.InMemoryDiscovery.Deregister | internal/service/discovery/discovery.go:130-148 | in any iteration order, an error exactly if no service has the ID, else it is removed from one that has it; the call returns exactly if that one is unwatched |
| Discoveries.InMemoryDiscovery.Discover | internal/service/discovery/discovery.go:151-168 | an error exactly for a service never registered by the log, else each of its current instances whose last status is healthy, once; no answer once the lock is kept |
| Discoveries.InMemoryDiscovery.Watch | internal/service/discovery/discovery.go:171-189 | one more watcher of the service, and nothing else changes |
| Discoveries.InMemoryDiscovery.PerformHealthChecks | internal/service/discovery/discovery.go:223-232 | a round starts one check for every registered instance and for nothing else |
| Discoveries.InMemoryDiscovery.CheckInstanceHealth | internal/service/discovery/discovery.go:251-271 | the check makes its own instance, registered or not, healthy exactly if the probe succeeds, and writes no other; it returns unless the status changed and the service is watched |
| Discoveries.InMemoryDiscovery.RegisterHosts | internal/service/discovery/discovery.go:72-91 | every host gets a fresh healthy instance under service-host, only the first if the service is watched; every other place keeps what it had |
| LockProtocol.EveryStateOk | internal/service/discovery/discovery.go:107-204 | in every reachable state of every interleaving the lock excludes readers from the writer, the registry is the replay of its log, and every answer given was right for a prefix of that log |
| LockProtocol.ProgressIff | internal/service/discovery/discovery.go:107-204 | some thread can step exactly if a call is outstanding and the writer is not waiting for the nested read lock |
| LockProtocol.StuckMeansWatched | internal/service/discovery/discovery.go:192-204 | the only stuck reachable states are those where a call holding the write lock notifies a watched service |
| LockProtocol.CallEndsIffUnwatched | internal/service/discovery/discovery.go:107-147 | by what holds when a call gets the write lock: it poisons the lock in two steps if it registers under, deregisters from or changes the status in a watched service; otherwise it ends in its own next steps and frees the lock |
| LockProtocol.PoisonIsForever | internal/service/discovery/discovery.go:151-153 | once poisoned, no thread ever steps again: the nested read lock is never granted and registry, watchers and lock stay as they are |
| LockProtocol.WatchersAreNeverNotified | internal/service/discovery/discovery.go:192-204 | in no reachable state has notifyWatchers sent, or come to send, a message |
| LockProtocol.WatchThenRegisterPoisons | internal/service/discovery/discovery.go:171-189 | a run of two calls, watch then register, that ends poisoned with the instance registered |
| LockProtocol.CallsReturn | internal/service/discovery/discovery.go:107-272 | without new calls a run is bounded, and when no thread can step every call has returned or the lock is poisoned |
| LockProtocol.ReadersExcludeWriters | internal/service/discovery/discovery.go:151-168 | while a reader is in, no step changes the registry |
| LockProtocol.WaitingWriterIsNext | internal/service/discovery/discovery.go:107-204 | once a writer waits for the lock, no reader comes in before it |
| LockProtocol.AnswersAreLinearizable | internal/service/discovery/discovery.go:151-168 | every answer is that of the registry at a moment between the call and the return |
| LockProtocol.AnswerMeaning | internal/service/discovery/discovery.go:151-168 | under any interleaving, who is in an answer, in terms of the operations before it |
| LockProtocol.CallsTakeEffect | internal/service/discovery/discovery.go:107-272 | a call that is past its work did it in exactly one step since it was issued, and added what it says: a registration, a check with the outcome of its probe, or a deregistration under a service that had the ID, and nothing if none had it |
| LockProtocol.EntriesHaveCalls | internal/service/discovery/discovery.go:107-272 | every operation in the log was added by exactly one step of one call |
| LockProtocol.AnswerHasSeenFinishedCalls | internal/service/discovery/discovery.go:107-168 | an answer asked for after a call finished has seen the operation of that call |
| LockProtocol.EveryWatcherCounted | internal/service/discovery/discovery.go:171-189 | in every reachable state a service has one watcher for each finished watch call, and is unwatched without one |
| SqlDecoder.NoEscapeLeft | internal/middleware/security/sql_injection.go:254-265 | the decoded text has none of the seven escapes, for every input |
| SqlDecoder.PassesSpell | internal/middleware/security/sql_injection.go:258-264 | each pass writes the characters whose codes its escapes spell in hexadecimal |
| SqlDecoder.DecodeIdempotent | internal/middleware/security/sql_injection.go:254-265 | decoding twice is decoding once |
| SqlDecoder.PassCreatesNoEscape | internal/middleware/security/sql_injection.go:258-264 | no pass, on any string, creates an occurrence of any escape |
| SqlDecoder.OrderMattersIff | internal/middleware/security/sql_injection.go:263-264 | exchanging the last two passes leaves the result as it is exactly for the inputs with neither `%2F%2A%2F` nor `%2A%2F%2A` |
| PassOrder.OrderIff | internal/middleware/security/sql_injection.go:263-264 | two replacements of a two-token text and of its reverse may be exchanged exactly for the strings where no three tokens alternate |
| XssDecoder.AnyOrderIsOnePass | internal/middleware/security/xss.go:243-254 | the seven passes in any order equal one scan from left to right |
| XssDecoder.DecodeIsOnePass | internal/middleware/security/xss.go:243-254 | the decoder as written equals one scan from left to right |
| XssDecoder.TableSpells | internal/middleware/security/xss.go:246-252 | the seven escapes, each standing for the character its two digits spell |
| XssDecoder.DecodeFixedPoint | internal/middleware/security/xss.go:243-254 | the decoded text has none of the seven escapes, and decoding it again changes nothing |
| Strings.ChainLeavesNone | internal/middleware/security/sql_injection.go:258-264 | a chain of replacements that write no character any of them looks for leaves none of the replaced texts |
| Paging.PaginationRequest.Validate | internal/dto/response.go:162-176 | every request becomes valid, and what was valid stays |
| Paging.TotalPagesIsCeiling | internal/dto/response.go:122-123 | for every page size, the page count is the quotient rounded up exactly if the 64-bit sum does not overflow |
| Paging.OffsetInside | internal/dto/response.go:152-154 | up to the last page the offset does not wrap and lies inside the data, for every page size with an exact page count |
| Paging.PagesPartition | internal/dto/response.go:122-159 | each item is on exactly one page and no page up to the last is empty, for every page size with an exact page count |
| Paging.HasNextMeaning | internal/dto/response.go:130 | the answer repeats the request, and there is a next page exactly if page times size is below the total, for every page size with an exact page count |
| Paging.HasPrevMeaning | internal/dto/response.go:131 | up to the last page there is a previous page exactly if items come before this one |
| Paging.OffsetExactIff | internal/dto/response.go:152-154 | the offset is exact exactly while it fits 64 bits |
| Int64.WrapMeaning | internal/dto/response.go:153 | a wrapped result is in the signed 64-bit range and a multiple of 2^64 away from the exact one |
| Int64.QuotMeaning | internal/dto/response.go:123 | division truncates toward zero: the remainder is smaller than the divisor and has the sign of the dividend |

## Left out

- HTTP forwarding, handlers, logging, CORS, JWT, configuration files: I/O and library wrappers. Configuration, client address, user and clock readings are arguments.
- `SanitizeHTML`, `SanitizeSQL` and the detector patterns: they rest on the whole regular expression library, and one of them on map order.
- Text is a sequence of characters: invalid UTF-8 and Go's byte indexing are not modelled.
- `EqualFold` is exact when one side is ASCII, as a request method is (section 5.6.2 of RFC 9110); full Unicode folding between two non-ASCII strings is not modelled.
- `RoutePattern.Parse` covers the fragment of regular expressions the compiler emits and gives `None` for anything else.
- Request counters are unbounded integers: 64-bit wrap-around of a count is not modelled. The running average and paging do wrap.
- Error rates are exact reals in place of floating point. `LastUpdated`, `LastSeen` and reload times are not modelled.
- Limiter times are unbounded integers; saturation at the ends of Go's time range is not modelled.
- The unlocked reads of the `limiters` map in the IP, user and reset paths: each stage and each reset is one atomic step.
- `Discoveries`: calls come one at a time and a call that keeps the lock is its last; calls in parallel are in `LockProtocol`. What arrives on a watcher's channel is not modelled, and a health check is of an instance the object has seen.
- `LockProtocol`: goroutines started by a watch or a health round are calls that may be issued at any time, which allows more runs than the code has. A new writer and the readers that waited for the last one may enter in either order. What a channel holds is reduced to the count of messages sent by `notifyWatchers`.
- Route fields that selection does not read (roles, timeouts, headers) and the fields of instances that no operation reads (address, port, tags).
