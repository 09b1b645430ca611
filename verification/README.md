# mcp-federation: a verified model

mcp-federation puts many MCP servers ("leaves") behind one endpoint. This project models the algorithms and protocols
inside it, and proves what each of them promises. The network, the Kubernetes API server, `dig` and the clocks appear
only as what they can answer: parameters, scripted outcomes, or steps of a state machine that may come in any order.
`dafny verify dfyconfig.toml` checks everything.

| file | what it models |
|---|---|
| `Calendar.dfy` | the conversion of Unix seconds to an RFC 3339 text, against a calendar that walks one day at a time |
| `CrdProtocol.dfy` | the finalizer protocol of the `MCPServer` controller: users, API server, stale view, controller, registry |
| `RateLimit.dfy` | the token-bucket limiter over exact reals, against admission by windows |
| `Utf8.dfy`, `EventStream.dfy` | the byte-at-a-time decoder of a leaf's notification stream, against a declarative reading of the stream |
| `EventRoundTrip.dfy` | events written as `data:` lines and read back |
| `EventStandard.dfy` | the event-stream section of the WHATWG HTML Living Standard, and exactly when the decoder follows it |
| `EventBody.dfy` | the second decoder, for whole bodies, against the first |
| `LeafSession.dfy` | the client's session with a leaf, against any leaf and against a conforming one |
| `Namespacing.dfy` | `alias__tool` names, and their way through nested federations |
| `ToolCatalog.dfy` | the tool list that a client gets, and where a call of a listed tool goes |
| `LeafRegistry.dfy` | the shared registry under DNS reconciliation, configuration reload and other writers |
| `Sessions.dfy` | client sessions: signed expiry, idle time-out, pruning |
| `Notifications.dfy`, `BrokerProtocol.dfy` | the notification broker, alone and under concurrency |
| `LeafHealth.dfy` | the circuit breaker and its backoff |
| `Configuration.dfy` | interpolation of environment variables, and validation |

Code that updates state in place is a class or a loop, proved against functions and predicates; the theorems are
lemmas about those.

## Assumptions

* Custom resources: only the controller adds or removes its finalizer; its view of a resource only moves forward; the
  controller runs one reconcile call per resource at a time, and a patch is not applied after its call has returned; the
  API server refuses to add a finalizer to a terminating object. That a leaf never outlives its resource does not need
  distinct aliases. That a leaf stays does, and aliases are not always distinct: see `AliasCollision`.
* Dates: every unsigned subtraction of the conversion is typed `nat`, so that none underflows is part of its proof.
* Rate limiting: the clock is read before the lock is taken, so the readings that reach a bucket may be out of order.
* Leaf sessions: one request at a time. Concurrent renewals share one session id and are not modelled.
* Registry: while DNS discovery runs, nobody else writes aliases that begin with `dns-`. A reload runs among writers of
  any aliases.
* Tool catalog: list and call look at the same registry state. Leaves are registered under their configured alias.
* Sessions: subjects are fresh, the monotonic clock does not run backwards, the wall clock may. The ids' signature check
  is a property of the id. The `jsonwebtoken` 9 rule for `exp` is that an id is accepted up to and including
  `exp` + leeway.
* Broker: subscriber ids are fresh, and the read-write lock excludes a writer while anyone reads.

## Where the code and its documentation differ

* The repository's `README.md:360-361` says that HTTP 400 for a missing session is retried. The client retries a 400 only when it holds no
  session id. A leaf that lost its sessions and answers 400 to a stale id is never initialized again
  (`StaleIdIsNeverRenewed`).
* The repository's `README.md:404-406` says that each source manages its own aliases. A reload removes every alias that is not in the file,
  including those of DNS discovery and of custom resources (`QuietReloadSettles`).
* `src/crd_discovery.rs:65-67` documents the `alias` of an `MCPServer` spec as the alias the leaf is registered under. The
  controller never reads it; the alias comes from namespace and name alone (`ConfigDescribes`).
* Validation forbids `__` inside an alias only. An alias that ends in `_`, or the alias `federation`, is accepted, and its
  tools cannot be reached (`ValidatedAliases`, `UnderscoreAliasIsAccepted`, `ReachesHomeIff`).
* The notification decoder cites the event-stream specification for single rules. As a whole it departs from section 9.2.6
  of the WHATWG HTML Living Standard. On UTF-8 text without a byte order mark whose lines end in LF or CR LF it dispatches
  what the standard says exactly when no data is left open at the end of the stream, and every closed group with data
  starts with a non-empty value and does not hold the bare word `data` (`ReadsAsStandardIff`).
* A session's touch and its validation are two steps. Prunes go unnoticed exactly when no touch finds a session that has
  expired (`PruningUnnoticedIff`); one that does is noticed by the next validation (`LateTouchIsNoticed`). Only when the
  ttl is zero do they go unnoticed regardless, because then nothing is ever valid (`ZeroTtlHidesPruning`).

## Model

| member | source | states |
|---|---|---|
| Calendar.YearOfEraBounds | src/crd_discovery.rs:175-177 | the nested quotients pick exactly the year of the era that holds the day |
| Calendar.ConversionStep | src/crd_discovery.rs:171-181 | the next day number converts to the next date |
| Calendar.ConversionWalksCalendar | src/crd_discovery.rs:164-187 | for every day number the conversion is the calendar walked one day at a time from 1970-01-01 |
| Calendar.DayNumberInvertsWalk | src/crd_discovery.rs:171-181 | counting whole years, months and days gives back the day number |
| Calendar.UnixRoundTrip | src/crd_discovery.rs:164-187 | for every number of seconds the date is valid, and re-encoding date and time gives the seconds back |
| Calendar.TimestampRoundTrip | src/crd_discovery.rs:164-187 | every valid timestamp from 1970 on is the conversion of its own seconds |
| Calendar.WordsSuffice | src/crd_discovery.rs:165-181 | on 64-bit seconds every intermediate value of the conversion is non-negative and within a signed 64-bit word |
| Calendar.TextShape | src/crd_discovery.rs:183-186 | up to year 9999 the text is the 20-character UTC date-time of RFC 3339, section 5.6 |
| Calendar.TextReadsBack | src/crd_discovery.rs:183-186 | up to year 9999 the digits of the text read back as the year, month, day, hour, minute and second of the timestamp |
| Calendar.TextSortsInTimeOrder | src/crd_discovery.rs:164-187 | up to year 9999, texts compare as the times do, both ways |
| Calendar.SortsExactlyUpTo | src/crd_discovery.rs:164-187 | the end of year 9999 is exactly how far the texts sort in time order |
| Calendar.TextOrderFailsPast9999 | src/crd_discovery.rs:183-186 | every second of the first day of year 10000 prints before every second of the day before |
| CrdProtocol.StepKeepsInv | src/crd_discovery.rs:197-261 | every step of users, API server, view, controller and other writers keeps the invariant |
| CrdProtocol.LeafOnlyWhileHeld | src/crd_discovery.rs:197-261 | in every run, a leaf of the controller is registered only while its resource exists with our finalizer, and was built from a version since which the resource was never gone |
| CrdProtocol.LeafStaysAcrossRun | src/crd_discovery.rs:197-261 | a leaf survives any run without a cleanup of its resource and without a colliding alias |
| CrdProtocol.AliasCollision | src/crd_discovery.rs:109-111 | exactly when two resources get the same alias |
| CrdProtocol.CollisionTakesLeaf | src/crd_discovery.rs:206-221 | cleaning up `a-b`/`c` removes the leaf of `a`/`b-c` |
| CrdProtocol.CollisionIsReachable | src/crd_discovery.rs:197-261 | a run from the empty world ends with that cleanup about to happen while `a`/`b-c` is live, held and has its leaf |
| CrdProtocol.TwoRoundsArrive | src/crd_discovery.rs:197-261 | from every reachable world, once users are quiet and patches get through, two undisturbed rounds give a live resource our finalizer and a leaf with the url, transport and tags of its present spec, and leave a terminating one neither |
| CrdProtocol.DeletionCleansUp | src/crd_discovery.rs:206-223 | once the view has the deletion, one call removes the leaf and lets the object be collected |
| CrdProtocol.Controller.Reconcile | src/crd_discovery.rs:197-320 | one call is a run of the protocol's steps, also when the answer to an applied patch is lost; exactly when it answers requeue, await or an error; and the leaf that stands registered after a requeue of 300 seconds, described by the object's own spec |
| CrdProtocol.ConfigDescribes | src/crd_discovery.rs:189-256 | a spec has a leaf exactly for the two known transports; url, secrets, time-out and tags are the spec's, with `crd-discovered` added, and the alias is `crd-`namespace`-`name, whatever alias the spec asks for |
| CrdProtocol.PatchStores | src/crd_discovery.rs:211-235 | an applied patch keeps spec and deletion and stores the finalizers of the object the call was given, with ours added or, on deletion, taken out |
| CrdProtocol.OthersKeepTheirOrder | src/crd_discovery.rs:211-215 | taking our finalizer out leaves all others in their order |
| RateLimit.BucketDecidesByWindows | src/rate_limit.rs:27-46 | a bucket holds a token exactly when every window that ends with the request has room, even with out-of-order readings |
| RateLimit.ClockIsLatest | src/rate_limit.rs:27-35 | that clock is the latest reading so far: at least every reading, and one of them |
| RateLimit.AllowanceIsBurstPlusRate | src/rate_limit.rs:27-35 | the allowance of a window is burst + advance x rate, in numbers, for the advance of the clock over the window |
| RateLimit.EarlierAnswersStand | src/rate_limit.rs:37-45 | later requests do not change answers already given |
| RateLimit.TokenBucket.Refill | src/rate_limit.rs:27-35 | on a later reading the tokens are the lesser of the burst and old tokens + elapsed x rate; otherwise nothing changes |
| RateLimit.TokenBucket.TryAcquire | src/rate_limit.rs:37-45 | the answer is the one that the windows over the bucket's whole history dictate |
| RateLimit.RateLimiter.Check | src/rate_limit.rs:72-84 | the same for the key's bucket, made full on first use; always true and without effect when disabled |
| RateLimit.KeysAreIsolated | src/rate_limit.rs:72-84 | in any interleaving a key gets the answers that it would get alone |
| RateLimit.KeyIsDecidedByItsWindows | src/rate_limit.rs:72-84 | in every interleaved run from the start, each answer to a key is the one that the windows over all of that key's calls dictate, with a bucket full at the first of them |
| RateLimit.EveryWindowConforms | src/rate_limit.rs:27-46 | no window ever lets through more than its allowance |
| RateLimit.NoConformingRulePassesMore | src/rate_limit.rs:27-46 | no rule that keeps all windows within their allowance has let through more requests at any moment |
| Utf8.ValidAroundAscii | src/leaf_client.rs:410-411 | UTF-8 text splits at an ASCII byte into valid parts, and only so |
| Utf8.ValidIffEncoded | src/leaf_client.rs:410-411 | the bytes that count as text are exactly the encodings of sequences of scalar values |
| EventStream.SplitIsUnique | src/leaf_client.rs:405-417 | there is one way to cut a stream into lines |
| EventStream.EventTextAppend | src/leaf_client.rs:448-455 | the buffer rule for one more payload is the join of payloads without leading empty ones |
| EventStream.MemoryReadsStream | src/leaf_client.rs:405-417 | after any bytes the decoder holds the unterminated line, and the completed events and open data of the lines before it |
| EventStream.EndOfStream | src/leaf_client.rs:420-427 | the end of the stream adds the unterminated line and event |
| EventStream.CuttingsArrive | src/leaf_client.rs:396-404 | what arrives of a byte string, however it is cut into chunks, is the byte string |
| EventStream.NotificationReader.HandleSseLine | src/leaf_client.rs:430-459 | what one line does to the buffer and to what is dispatched |
| EventStream.NotificationReader.Run | src/leaf_client.rs:393-427 | for every byte string and every cutting of it into chunks, its events are dispatched; if a stream error follows the chunks, exactly the completed ones |
| EventRoundTrip.StreamDecodes | src/server.rs:225-228 | what the decoder recovers from a written stream, payload by payload |
| EventRoundTrip.JoinsPlainlyIff | src/leaf_client.rs:448-455 | the buffer rule is the plain join exactly unless the first of several payloads is empty |
| EventRoundTrip.RecoveredIffSurvives | src/leaf_client.rs:430-459 | a payload comes back as itself exactly when it is non-empty, does not start with LF and has no line that ends in CR |
| EventRoundTrip.RoundTripIff | src/server.rs:225-228 | writing payloads and reading them back is the identity exactly when every payload is such |
| EventRoundTrip.FramingCharacters | src/leaf_client.rs:405-448 | the bytes that frame an event, as characters |
| EventRoundTrip.BadLineActsBlank | src/leaf_client.rs:411-412 | a terminated line that encodes no text acts as a blank line, anywhere in a stream |
| EventRoundTrip.LastLineIsDispatched | src/leaf_client.rs:420-427 | a data line that the end of the stream cuts off is dispatched, and keeps its CR |
| EventStandard.DataField | src/leaf_client.rs:448-455 | the standard's data fields are the lines that the decoder takes for data, and the bare word |
| EventStandard.CutsAgree | src/leaf_client.rs:405-413 | where CRs only end lines, the standard's lines are the decoder's |
| EventStandard.GroupsAgree | src/leaf_client.rs:430-459 | the events of closed groups, and one event more, against what the standard dispatches |
| EventStandard.ReadsAsStandardIff | src/leaf_client.rs:389-459 | on UTF-8 text with LF or CR LF and no byte order mark: exactly when the decoder dispatches what the standard says |
| EventStandard.CompletedReadAsStandardIff | src/leaf_client.rs:389-417 | if only completed events count, as the standard says, the two agree exactly when every closed group reads alike |
| EventBody.ParseSseBody | src/leaf_client.rs:645-665 | the loop returns the joined data payloads of all lines, or None when there is no text |
| EventBody.BodyLinesAreStreamLines | src/leaf_client.rs:645-652 | on text both decoders take the same lines, but this one strips a trailing CR twice |
| EventBody.BodyMatchesStreamIff | src/leaf_client.rs:645-665 | for every UTF-8 body the batch text is the streaming events joined with LF exactly when no streamed payload ends in CR and no group after the first event starts with an empty payload |
| EventBody.PlainBodyReadsTheSame | src/leaf_client.rs:645-665 | on bodies whose payloads are neither empty nor end in CR both decoders agree; one event is its own text |
| EventBody.CrFreeBodyReadsTheSame | src/leaf_client.rs:645-665 | in particular on CR-free bodies without empty payloads |
| LeafSession.LeafClient.SendOnce | src/leaf_client.rs:561-634 | one exchange: its header, the id captured even when the body is lost, and its result |
| LeafSession.LeafClient.Initialize | src/leaf_client.rs:104-149 | an initialize call is a run of the protocol that sends a best-effort notification; it is Ok exactly when the leaf's first answer has a status from 200 to 299 and a result |
| LeafSession.LeafClient.SendRequest | src/leaf_client.rs:516-556 | a request is a run of the protocol with the caller's result, and leaves the latest id captured |
| LeafSession.RequestEnds | src/leaf_client.rs:516-556 | such a run is Ok exactly when its last exchange carries the request's body and is answered with a status from 200 to 299, and then returns that answer; unreachable exactly when no complete answer came |
| LeafSession.RenewsExactly | src/leaf_client.rs:525-527 | the session is renewed exactly on 404, or on 400 while no id is held, and only over Streamable HTTP |
| LeafSession.AtMostOneRenewal | src/leaf_client.rs:516-556 | against any leaf: at most two sends of the body, at most one initialize, and exactly when |
| LeafSession.HeaderIsLatest | src/leaf_client.rs:583-603 | against any leaf: every header is the latest id captured since the last clear |
| LeafSession.RequestSurvivesSessionLoss | src/leaf_client.rs:516-556 | against a conforming leaf (status 200 to 299 for what it executes) that loses sessions at any time: executed exactly once if Ok, never if Err, and Err only if the session just issued is lost again |
| LeafSession.PlainTransportNeedsNoSessions | src/leaf_client.rs:575-587 | over plain HTTP POST a conforming leaf answers exactly when it has no sessions |
| LeafSession.StaleIdIsNeverRenewed | src/leaf_client.rs:525-527 | a leaf that answers 400 to a stale id makes every later request fail after one exchange |
| Namespacing.PrintedNameParses | src/aggregator.rs:218-220 | a printed name with a well-formed alias parses back |
| Namespacing.ParsedNamePrints | src/aggregator.rs:218-220 | what is parsed prints back with a well-formed alias; a name without separator is not parsed |
| Namespacing.RoundTripIff | src/aggregator.rs:218-220 | for every tool, parsing inverts printing exactly when the alias has no `__` and does not end in `_` |
| Namespacing.NamesAreUnambiguous | src/aggregator.rs:179-190 | under well-formed aliases, printed names are equal exactly when alias and tool are |
| Namespacing.TrailingUnderscoreCollides | src/aggregator.rs:179-190 | `a_` with `b` prints as `a` with `_b` |
| Namespacing.PeeledHopByHop | src/router.rs:16-43 | a stacked name is peeled hop by hop through any chain of federations to the right node and tool |
| Namespacing.DeliveriesAreStacked | src/router.rs:16-43 | whatever arrives was stacked along such a chain |
| ToolCatalog.Resolve | src/rbac.rs:66-89 | the admin token first, then the first client with the token; the aliases that the result allows |
| ToolCatalog.AggregatedTools | src/aggregator.rs:27-75 | the native tools, then every named tool of every healthy leaf |
| ToolCatalog.ToolsList | src/server.rs:575-596 | the list of one client |
| ToolCatalog.ListedToolIsReached | src/server.rs:598-649 | every listed tool, called, is not denied and reaches the healthy leaf that advertises it under its own name, or a native handler |
| ToolCatalog.AllowedToolIsListed | src/server.rs:575-596 | a named tool of a healthy leaf is listed for exactly the clients that may use the leaf |
| ToolCatalog.HiddenToolIsDenied | src/server.rs:616-640 | what the filter removes is exactly what a call would be denied |
| ToolCatalog.ReachesHomeIff | src/router.rs:16-43 | a healthy leaf's tool is reached under its namespaced name exactly when the alias is well-formed and not `federation` |
| ToolCatalog.CallOutcome | src/router.rs:16-43 | each outcome of a call, by an if-and-only-if: denied, unknown leaf, unhealthy leaf, at its leaf; and the native names |
| ToolCatalog.NamelessCall | src/router.rs:21-26 | a name is refused as invalid exactly when it has no two underscores in a row |
| ToolCatalog.NativeToolsAreListed | src/aggregator.rs:109-174 | every client is shown the five native tools |
| ToolCatalog.ListHasNoDuplicates | src/aggregator.rs:27-75 | no duplicates when each leaf's own names are distinct |
| LeafRegistry.SanitizedIsRoutable | src/dns_discovery.rs:194-206 | a sanitized alias has the DNS prefix and can be routed |
| LeafRegistry.SanitizedCharacters | src/dns_discovery.rs:194-206 | an alias is `dns-` and one character for each one of the target without its trailing dots: which characters stay, which become lower case, which become hyphens |
| LeafRegistry.TrailingDotIsIgnored | src/dns_discovery.rs:196 | a trailing dot makes no difference |
| LeafRegistry.PlainTargetsStayApart | src/dns_discovery.rs:194-206 | targets of lower-case letters, digits and hyphens get equal aliases only if they are equal |
| LeafRegistry.DesiredAliases | src/dns_discovery.rs:120-123 | the desired aliases are exactly the sanitized targets |
| LeafRegistry.CollectIsLast | src/dns_discovery.rs:120-123 | of several records with one alias the last counts |
| LeafRegistry.DesiredRecord | src/dns_discovery.rs:120-123 | the record of an alias is the last one whose target sanitizes to it |
| LeafRegistry.NewLeafConfig | src/dns_discovery.rs:139-153 | a discovered leaf's url is scheme, target, port in decimal and path; its transport is the default one, it carries its mark and no secrets |
| LeafRegistry.DecimalReadsBack | src/dns_discovery.rs:139-142 | the printed port reads back as the port, without leading zeros |
| LeafRegistry.DnsDiscovery.Reconcile | src/dns_discovery.rs:119-192 | with other writers at every await, for every alias: a DNS alias of the start stays the same object if it is wanted, even if its port changed, and is gone if not; a wanted new one has the leaf of its record; the rest is what the others alone make of it |
| LeafRegistry.ForeignActionsStayApart | src/dns_discovery.rs:125-132 | actions on foreign aliases leave the DNS part alone |
| LeafRegistry.ConfigReloader.Reload | src/main.rs:356-411 | with other writers at every await: each configured alias is decided once, each other alias of the start is removed once, and every alias ends as these writes and the others' actions leave it, in their order |
| LeafRegistry.ConfiguredAliasIsRefreshed | src/main.rs:365-382 | a configured alias that nobody else touched has its configuration, as the same object if unchanged |
| LeafRegistry.EntryStaysIff | src/main.rs:367-378 | a leaf stays the same object exactly when url, token, token file, transport and time-out are as before; otherwise it is replaced by the new configuration |
| LeafRegistry.OtherAliases | src/main.rs:407-411 | any other alias of the start that nobody touched is gone; a new one is what the others alone make of it |
| LeafRegistry.QuietReloadSettles | src/main.rs:356-411 | undisturbed, exactly the configured leaves remain, unchanged ones as the same objects, and repeating it changes nothing |
| LeafRegistry.ReloadThenPoll | src/dns_discovery.rs:119-192 | from any registry, a reload and a DNS poll leave the configured foreign aliases and the sanitized targets |
| Sessions.SessionManager.ValidateSession | src/session.rs:107-116 | valid exactly when signed, within expiry and leeway, tracked and used less than the ttl ago |
| Sessions.SessionManager.Admit | src/server.rs:78-84 | a request is admitted exactly when its session is valid, and touches it after whatever comes in between |
| Sessions.SessionManager.PruneExpired | src/session.rs:153-159 | exactly the sessions that are not live are removed and counted |
| Sessions.PruningIsInvisible | src/session.rs:107-159 | prunes inserted anywhere change no validation answer, as long as no touch finds an expired session |
| Sessions.AtomicRequestsHidePruning | src/server.rs:78-84 | so they change none if requests validate and touch in one step |
| Sessions.PruningUnnoticedIff | src/session.rs:107-159 | for a positive ttl, prunes go unnoticed in a run exactly when no touch in it finds an expired session |
| Sessions.LateTouchIsNoticed | src/session.rs:119-124 | after any events, a prune just before a touch that finds an expired session turns the next validation from true to false |
| Sessions.ZeroTtlHidesPruning | src/session.rs:107-116 | with a ttl of zero nothing is ever valid, so prunes go unnoticed whatever is touched |
| Sessions.ValidMeansOpenAndRecent | src/session.rs:81-124 | a valid answer means: created, not terminated since, used recently, and not past creation + ttl + leeway |
| Sessions.ValidExactlyWhenKeptUp | src/session.rs:81-159 | over every run with atomic requests a session is valid exactly when it was created, not terminated since, never left idle for the ttl between its uses, and is not past creation + ttl + 5 seconds |
| Sessions.TerminatedIsFinal | src/session.rs:127-129 | a terminated session is never valid again |
| Sessions.OpenIsTracked | src/session.rs:81-103 | without prunes, what is created and not terminated stays tracked |
| Notifications.NotificationBroker.OfferAll | src/notifications.rs:72-87 | one offer to each subscriber, the number delivered and the subscribers found closed |
| Notifications.NotificationBroker.Publish | src/notifications.rs:68-96 | the message is appended to exactly the open channels with room, and exactly the closed subscribers are dropped |
| BrokerProtocol.StepKeepsInv | src/notifications.rs:53-97 | every interleaved step keeps the broker's invariant |
| BrokerProtocol.ReceivesInOrder | src/notifications.rs:68-87 | received followed by queued is the accepted offers in order; an offer is missed only when 64 messages were queued |
| BrokerProtocol.LiveSubscriberIsKept | src/notifications.rs:89-95 | no prune removes a subscriber whose receiver is there |
| BrokerProtocol.DeadAreDropped | src/notifications.rs:82-95 | a finished publication has taken every subscriber off the roster whose receiver it found gone |
| BrokerProtocol.OfferedOnceToAll | src/notifications.rs:68-97 | a finished publication has been offered exactly once to each subscriber present at its begin and to nobody else, and counts those that took it |
| BrokerProtocol.NobodyIsForgotten | src/notifications.rs:53-97 | whoever subscribed before a publication and is still there is offered its message exactly once, and nothing else by it |
| BrokerProtocol.PublicationCanFinish | src/notifications.rs:68-97 | no publication is ever stuck: from every reachable world publish calls alone can bring any one of them to its end |
| BrokerProtocol.OrderOfPublications | src/notifications.rs:72-87 | publications that do not overlap reach every subscriber in their order |
| LeafHealth.FailureRunIsTrailing | src/registry.rs:53-74 | what the run of failures is |
| LeafHealth.HealthIsDecidedByRun | src/health.rs:30-98 | the counter is the trailing run of failures; unhealthy exactly when it reaches the threshold or a failed initialize |
| LeafHealth.MonitorLeaf | src/health.rs:20-98 | the monitor's state and delays after any history |
| LeafHealth.DelayStep | src/health.rs:103-111 | past the threshold each failure multiplies the delay, up to 300 seconds |
| LeafHealth.DelayIsBoundedAndMonotone | src/health.rs:103-111 | the delay lies between the base, capped, and 300 seconds, and does not fall as failures add up |
| LeafHealth.ReachesCapIff | src/health.rs:103-111 | it reaches 300 seconds for good exactly when the base is at least that, or is positive and the multiplier exceeds 1 |
| Configuration.InterpolateEnvVars | src/config.rs:308-329 | the loop renders the parsed template in one pass |
| Configuration.UnparseOfParse | src/config.rs:308-329 | parsing a text into pieces loses nothing |
| Configuration.VariableIsReplaced | src/config.rs:313-320 | a closed `${name}` is replaced by `env[name]`, or by nothing if it is not set |
| Configuration.EchoIsIdentity | src/config.rs:308-329 | an environment that maps each name to its `${name}` returns every text unchanged |
| Configuration.InterpolationComposes | src/config.rs:308-329 | texts are interpolated piece by piece |
| Configuration.UnclosedKeepsRemainder | src/config.rs:321-324 | an unclosed `${` keeps its whole remainder |
| Configuration.Validate | src/config.rs:350-384 | accepted exactly when there are servers and none has a complaint; otherwise the first server's first complaint |
| Configuration.ComplaintExactly | src/config.rs:358-381 | each complaint, by an if-and-only-if on the server's own alias and url and on the aliases before it |
| Configuration.ValidatedAliases | src/config.rs:350-384 | validated aliases are distinct, and routable exactly when besides none ends in `_` or is `federation` |
| Configuration.UnderscoreAliasIsAccepted | src/config.rs:364-369 | the alias `a_` is accepted and its tools are routed to `a` |

## Left out

- `html_escape`, the status page, metrics, audit logs, the CLI, stdio and shutdown: no property beyond the ones above.
- HTTP, TLS, JSON, YAML, JWT signing, base64 and random keys: only their outcomes appear. An event counts as dispatched
  when it is handed on to be parsed as JSON.
- `parse_srv_line` and `parse_srv_output`: single-line field splitting; the model starts from the records.
- REST registration: its adds and removes appear as actions of other writers.
- Resources and prompts: namespaced and routed like tools.
- The native tools' descriptions, schemas and answers (only their names matter here), and the cache refreshes that run
  in the background.
- The axum framing of a reply as `data:` lines: taken to be one line per LF-separated piece, with one space.
- Concurrent requests on one leaf client: they share one session id.
- The client information in a session: stored without effect.
- RateLimit.RateLimiter.Check: exact reals instead of `f64`, so rounding is not modelled.
- LeafHealth.MonitorLeaf: exact reals instead of `f64`, unbounded counters instead of `u32`, and a finite part of the
  endless loop; the cast of the exponent to `i32` is not modelled.
- Notifications.NotificationBroker.Publish: one publication alone. Interleavings are in `BrokerProtocol`.
- LeafRegistry.ConfigReloader.Reload: the connection pool and the initialization of new leaves in the background are not
  modelled.
- EventStandard.ReadsAsStandardIff: streams with a CR that ends a line alone, with a byte order mark, or that are not UTF-8
  are not compared with the standard.
- LeafHealth: leaves that are added after the start are not monitored, as in the source.
