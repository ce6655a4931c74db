# A verified model of the concurrent and parsing core of paycloudhelper

This project models the parts of the workspace whose correctness is hard to see
by reading one function, and proves what they promise for every input, every run
and every interleaving.

- **Singleflight** (`Singleflight.dfy`). Callers sharing a key share one flight.
  The class `Group` and its `FlightGuard` hold the map and perform the two
  critical sections; the protocol interleaves any number of callers with
  completions, panics and cancellations.
- **JSON compaction** (`JsonGrammar.dfy`, `JsonLexer.dfy`, `JsonCompact.dfy`). The
  grammar of sections 2 to 7 of RFC 8259 is given declaratively (value trees and
  whitespace gaps) and as a recogniser (lexer and pushdown machine), proved to
  agree. The compacting loop is proved against it.
- **What rests on compaction** (`Signing.dfy`, `Idempotency.dfy`,
  `IdempotencyHeaders.dfy`). Symmetric signatures and idempotency keys over
  arbitrary hash and MAC functions, and the replay-protection flow over an
  expiring store.
- **DNS discovery** (`Discovery.dfy`, `DiscoverySafety.dfy`,
  `DiscoveryConvergence.dfy`). The refresher, its batches into a bounded queue,
  its two start modes, and its retry delays.
- **Two circuit breakers and the audit pool** (`Breaker.dfy`,
  `AuditPublisher.dfy`, `BreakerBisimulation.dfy`, `AuditPool.dfy`,
  `AuditAdmission.dfy`). The three-state breaker, the two-atomic breaker inside the audit publisher, their
  equivalence in sequential use, and the worker pool at the granularity of its
  atomic steps.
- **Log limiters and retry curves** (`LogVerdicts.dfy`, `Sampler.dfy`,
  `WindowLimiter.dfy`, `Backoff.dfy`). `Wrappers.dfy` and `Arithmetic.dfy` hold
  shared helpers.

Classes and methods with loops follow the code that updates state in place; each
is tied to a function of the old state, and the properties are lemmas about those
functions and about runs of them. Clocks, lookups, endpoint builds, publish
results, store replies and queue room are arbitrary inputs. Times are natural
numbers: milliseconds in the breakers, the log limiters, the store and the
refresher, nanoseconds in the backoff curve. `u32` counter wrap-around, `u64` and
`Duration` saturation and `i64` parsing limits are written out.

One remark on the code: in `verify_idempotency` the final guard `session < 4`
can never hold, because every earlier branch yields at least 4; the model keeps
it as it is.

## Model

| member | source | states |
|---|---|---|
| `Singleflight.Group.Enter` | crates/pc-resilience/src/singleflight.rs:87-109 | registers a new flight or joins the mapped one; the whole new map and counter |
| `Singleflight.FlightGuard.Drop` | crates/pc-resilience/src/singleflight.rs:125-138 | leaves the flight: the whole new map, untouched when the mapped flight is another |
| `Singleflight.Group.DoCall` | crates/pc-resilience/src/singleflight.rs:83-114 | a whole call that nothing interleaves with leaves the map as it was, except that producing a value retires the flight it joined |
| `Singleflight.StepKeepsInv` | crates/pc-resilience/src/singleflight.rs:83-139 | register, join, complete, return, cancel and panic-leave each keep the protocol invariant |
| `Singleflight.MapIsDetermined` | crates/pc-resilience/src/singleflight.rs:88-139 | after any run an entry exists exactly for a flight with live callers nobody has returned from, and its waiter count is the number of live guards |
| `Singleflight.AtMostOneActiveFlight` | crates/pc-resilience/src/singleflight.rs:83-139 | at most one uncompleted flight per key has callers; a flight outside the map is completed or abandoned |
| `Singleflight.LeaveNeverSaturates` | crates/pc-resilience/src/singleflight.rs:125-138 | the saturating subtraction never saturates; a guard of an older flight changes nothing; other keys are untouched |
| `Singleflight.NoCallerNoEntry` | CHANGELOG.md:95-104 | a key without live callers has no entry, so an abandoned flight is never served |
| `Singleflight.CallersOfAFlightAgree` | crates/pc-resilience/src/singleflight.rs:66-114 | every caller returns the value of the flight it joined, the same for all its callers |
| `Singleflight.CallAfterReturnIsFresh` | crates/pc-resilience/src/singleflight.rs:75-78 | once a caller returned from flight i, entering its key yields a strictly larger id |
| `Singleflight.LaterCallsRunAfresh` | crates/pc-resilience/src/singleflight.rs:75-78 | the same between any return and any later call of a whole run |
| `JsonGrammar.MachineIsExact` | crates/pc-core/src/json.rs:39-43 | the pushdown machine accepts exactly the token sequences of JSON value trees |
| `JsonGrammar.Terminals` | crates/pc-core/src/json.rs:39-43 | whitespace, digits, hex digits and exponent marks are the characters RFC 8259 lists |
| `JsonLexer.UnitSpan` | crates/pc-core/src/json.rs:15-20 | every character unit of a string (plain byte, short escape, `\u` escape) is read whole, whatever follows |
| `JsonLexer.BodySpan` | crates/pc-core/src/json.rs:15-20 | every concatenation of character units and its closing quotation mark is read as one string |
| `JsonLexer.StrLenSound` | crates/pc-core/src/json.rs:39-43 | a string that is read is a concatenation of character units |
| `JsonLexer.LexComplete` | crates/pc-core/src/json.rs:39-43 | any whitespace layout of a token sequence without neighbouring scalars lexes back to it |
| `JsonLexer.LexSound` | crates/pc-core/src/json.rs:39-43 | a lexed text is a whitespace layout of its valid tokens |
| `JsonLexer.RunSeparates` | crates/pc-core/src/json.rs:15-20 | grammatical sequences never have neighbouring scalars, so no tokens can merge |
| `JsonLexer.RecogniserIsExact` | crates/pc-core/src/json.rs:39-43 | the well-formedness gate finds a token sequence exactly when the grammar derives it |
| `JsonLexer.TokensAreUnique` | crates/pc-core/src/json.rs:38-45 | a text has at most one token sequence |
| `JsonCompact.CompactBytes` | crates/pc-core/src/json.rs:49-76 | the two-flag loop computes the scanner's output |
| `JsonCompact.JsonMinify` | crates/pc-core/src/json.rs:38-45 | succeeds exactly on JSON texts; the result is non-empty, has the same tokens, and is the shortest text with them |
| `JsonCompact.CompactIsJoined` | crates/pc-core/src/json.rs:15-20 | a well-formed text compacts to its verbatim token texts in order |
| `JsonCompact.CompactKeepsTokens` | crates/pc-core/src/json.rs:38-76 | the compacted text is well formed with the same tokens |
| `JsonCompact.SameBytesIffSameTokens` | crates/pc-core/src/json.rs:38-76 | two well-formed texts compact alike exactly when their tokens are equal |
| `JsonCompact.EmitTwice` | crates/pc-core/src/json.rs:53-74 | scanning the output passes through the states of scanning the input, for any bytes and any start state |
| `JsonCompact.CompactIsIdempotent` | crates/pc-core/src/json.rs:49-76 | compaction is idempotent on all byte strings |
| `JsonCompact.MinifyIsIdempotent` | crates/pc-snapbi/src/lib.rs:74-79 | minifying a minified body is the identity |
| `Signing.HashedAlikeIffSameTokens` | crates/pc-snapbi/src/lib.rs:87-91 | two bodies are hashed alike exactly when they have the same tokens or are both malformed |
| `Signing.VerifyMatchesSign` | crates/pc-snapbi/src/lib.rs:121-215 | verification accepts exactly what decodes to the signed MAC, in both layouts |
| `Signing.FieldsReadBack` | crates/pc-snapbi/src/lib.rs:87-104 | cut at its separator, the string to sign yields verb, url, token, body digest and timestamp in that order |
| `Signing.OtherBodyIsRefused` | crates/pc-snapbi/src/lib.rs:170-215 | without hash and MAC collisions a signature verifies for exactly the bodies with the signed tokens |
| `Signing.OtherFieldIsRefused` | crates/pc-snapbi/src/lib.rs:170-215 | a signature is refused when verb, url, token or timestamp alone differs |
| `Signing.SignatureSurvivesRespacing` | crates/pc-snapbi/src/lib.rs:121-215 | a signature made on one layout of a body verifies on every other |
| `Signing.KeySurvivesRespacing` | crates/pc-auth/src/lib.rs:50-61 | a key exists exactly for JSON texts, re-spacing keeps it, and it verifies |
| `Signing.KeyIsDigestOfTokens` | crates/pc-auth/src/lib.rs:50-61 | a submitted key is accepted exactly when it is the MD5 of the body's token texts |
| `Signing.KeyTellsTokens` | crates/pc-auth/src/lib.rs:50-61 | without MD5 collisions the key of a body is accepted for exactly the bodies with its tokens |
| `Idempotency.Middleware.VerifyIdempotency` | crates/pc-auth/src/lib.rs:173-296 | response and new store of the decision flow, every refusal included |
| `Idempotency.LifetimeIsBounded` | crates/pc-redis/src/lib.rs:84-129 | the stored lifetime lies between 4 seconds and the configured ceiling, never "no expiry" |
| `Idempotency.EntryStays` | crates/pc-redis/src/lib.rs:391-414 | while a handled request's lifetime lasts its entry stays exactly as written |
| `Idempotency.HandledOncePerLifetime` | crates/pc-auth/src/lib.rs:264-295 | two requests with one key are both handled only if the first lifetime has passed; before that the second gets the first one's body |
| `Idempotency.RetryInAnotherLayoutIsNotHandled` | crates/pc-auth/src/lib.rs:244-295 | the same for bodies differing only in whitespace, whatever keys are submitted |
| `IdempotencyHeaders.SessionIsExact` | crates/pc-auth/src/lib.rs:188-213 | the session header yields seconds exactly when it is empty or a decimal numeral of an `i64`, and which |
| `IdempotencyHeaders.ShownSession` | crates/pc-auth/src/lib.rs:199-201 | the decimal rendering of any number from 4 up asks for that many seconds |
| `IdempotencyHeaders.HandledIsExact` | crates/pc-auth/src/lib.rs:264-295 | when a request reaches the handler and when it is answered from the store, both exactly |
| `IdempotencyHeaders.RefusalsAreExact` | crates/pc-auth/src/lib.rs:181-262 | which refusal every request gets, told from the grammar of its headers and body |
| `IdempotencyHeaders.HandledExpiry` | crates/pc-redis/src/lib.rs:84-129 | a handled request is stored for exactly the seconds its header asks for, up to the configured ceiling |
| `IdempotencyHeaders.NoExpiryOnlyForNone` | crates/pc-redis/src/lib.rs:114-129 | a clamped TTL means "no expiry" only when none was asked for |
| `IdempotencyHeaders.HandledAgainAfterLifetime` | crates/pc-auth/src/lib.rs:264-295 | over any run, a later request with the key of a handled one is handled exactly when that one's lifetime has passed |
| `Discovery.PreferIpv4` | crates/pc-grpc/src/discovery.rs:77-83 | keeps all IPv4 addresses and only them when there is one; never loses the last address |
| `Discovery.Refresher.Send` | crates/pc-grpc/src/discovery.rs:119-130 | a batch is queued whole or not at all |
| `Discovery.Refresher.Apply` | crates/pc-grpc/src/discovery.rs:214-269 | the tick's effect on known addresses, seeds and change stream, and its outcome |
| `Discovery.Refresher.Run` | crates/pc-grpc/src/discovery.rs:168-212 | the loop over any script of ticks: final state and every delay slept |
| `Discovery.ConnectDiscovered` | crates/pc-grpc/src/lib.rs:415-525 | eager start: every error in the order the code meets it, else one pool queued per initial address; the queue never refuses |
| `Discovery.ConnectDiscoveredLazy` | crates/pc-grpc/src/lib.rs:468-525 | lazy start: every error in order, else the seed pool queued and nothing known |
| `DiscoverySafety.TickIsSafe` | crates/pc-grpc/src/discovery.rs:214-269 | any tick keeps stream and known in step, adds only answered addresses, removes only unanswered ones, and keeps one |
| `DiscoverySafety.TickStopsAtFirstRefusal` | crates/pc-grpc/src/discovery.rs:162-164 | a tick goes on while its batches find room and ends at the first refused one, reporting why |
| `DiscoverySafety.BalancerIsNeverEmptied` | crates/pc-grpc/src/discovery.rs:158-161 | at every non-empty prefix of the stream of every run the balancer is non-empty, each change acts, and known never empties again |
| `DiscoverySafety.KnownAgreesWithBalancer` | crates/pc-grpc/src/discovery.rs:141-146 | after any tick of any run the replayed stream is one pool per known address plus the remaining seeds |
| `DiscoveryConvergence.SteadyTickIsCloser` | crates/pc-grpc/src/discovery.rs:214-269 | a tick with room for one pool strictly decreases the distance to the answer |
| `DiscoveryConvergence.ConvergesThenSilent` | crates/pc-grpc/src/discovery.rs:162-164 | from any point of a run the answer is reached within the distance plus one ticks, then nothing is queued |
| `DiscoveryConvergence.RoomyTickIsExact` | crates/pc-grpc/src/discovery.rs:220-267 | with room for every batch a tick's result as a set expression, inserts first |
| `DiscoveryConvergence.RoomyTickSwaps` | crates/pc-grpc/src/discovery.rs:158-161 | a full swap takes one tick; one whose addresses do not build keeps the old ones |
| `DiscoveryConvergence.RetriesDouble` | crates/pc-grpc/src/discovery.rs:172-185 | while nothing is known the k-th delay is 2^k seconds capped at the refresh interval |
| `DiscoveryConvergence.EveryDelay` | crates/pc-grpc/src/discovery.rs:172-185 | every turn taken sleeps exactly once: the retry schedule while nothing is known, the refresh interval otherwise |
| `DiscoveryConvergence.SteadyDelay` | crates/pc-grpc/src/discovery.rs:183-185 | from the first known address on every delay is the refresh interval |
| `DiscoveryConvergence.DroppedChannelEndsTheLoop` | crates/pc-grpc/src/discovery.rs:186-212 | the loop ends exactly with the turn that meets a dropped channel, asleep or at a send; nothing is slept or queued after it |
| `Breaker.CircuitBreaker.TryAcquire` | crates/pc-resilience/src/breaker.rs:203-227 | admission and new state |
| `Breaker.CircuitBreaker.RecordSuccess` | crates/pc-resilience/src/breaker.rs:231-237 | new state |
| `Breaker.CircuitBreaker.RecordFailure` | crates/pc-resilience/src/breaker.rs:242-250 | new state, the counter wrapping as a `u32` |
| `Breaker.CircuitBreaker.Call` | crates/pc-resilience/src/breaker.rs:156-179 | short-circuits exactly when not admitted; outcome routing |
| `Breaker.CallIsItsSections` | crates/pc-resilience/src/breaker.rs:156-179 | a guarded call is its acquire and its record in a run; a cancelled call changes nothing more |
| `Breaker.CounterAndState` | crates/pc-resilience/src/breaker.rs:142-146 | after any run the counter is the failures since the last success, and closed means below the threshold |
| `Breaker.IdleWaitAdmits` | crates/pc-resilience/src/breaker.rs:198-202 | from any reachable state one idle cooldown makes the next acquire succeed |
| `Breaker.AdmissionsAreSpaced` | crates/pc-resilience/src/breaker.rs:185-202 | once tripped and until a success, admissions come at least a cooldown after the trip and apart |
| `Breaker.FailureRestartsCooldown` | crates/pc-resilience/src/breaker.rs:242-250 | after any run a failure restarts the cooldown exactly when it reaches the threshold or ends a probe, also when already open |
| `Breaker.AdmissionBoundAfterTrip` | crates/pc-resilience/src/breaker.rs:185-258 | hence after any run whose failures reach the threshold at t, late failures included, admissions start a cooldown after t and at most w / cooldown fall in (t, t+w] |
| `AuditPublisher.Publisher.Submit` | crates/pc-audit/src/lib.rs:573-607 | accepts exactly when running, closed and not full; appends to the queue |
| `AuditPublisher.Publisher.RecordFailure` | crates/pc-audit/src/lib.rs:629-641 | both atomics after a failure, the deadline saturating |
| `AuditPublisher.Publisher.WorkerIteration` | crates/pc-audit/src/lib.rs:487-547 | the oldest message leaves with its fate; both atomics |
| `AuditPublisher.Publisher.Stop` | crates/pc-audit/src/lib.rs:620-626 | every queued message gets a fate in order and the queue is empty |
| `BreakerBisimulation.CallKeepsRelated` | crates/pc-audit/src/lib.rs:495-545 | related breakers agree on a call and stay related; half-open shows only inside the call |
| `BreakerBisimulation.TheTwoBreakersAgree` | crates/pc-audit/src/lib.rs:882-917 | with equal settings and clock both breakers admit the same calls over every sequence of outcomes |
| `AuditPool.StepConserves` | crates/pc-audit/src/lib.rs:486-548 | every atomic step of every worker keeps the books |
| `AuditPool.EveryMessageIsAccountedFor` | crates/pc-audit/src/lib.rs:469-607 | FIFO within the bound; each accepted message is queued, held, published, dropped or failed, once; published at most once |
| `AuditPool.StoppedIsNeverStuck` | crates/pc-audit/src/lib.rs:487-490 | after stop some worker can step until all have exited |
| `AuditPool.WorkerStepDecreases` | crates/pc-audit/src/lib.rs:487-547 | every worker step decreases a measure |
| `AuditPool.StopDrains` | crates/pc-audit/src/lib.rs:619-626 | stop terminates with nothing queued or held and every accepted message settled |
| `AuditPool.AloneIsOneIteration` | crates/pc-audit/src/lib.rs:495-546 | the atomic steps of a worker running alone add up to one sequential iteration |
| `AuditAdmission.SubmitIsDecided` | crates/pc-audit/src/lib.rs:573-612 | at every point of every interleaving submit accepts exactly when not stopped, a cooldown after the last trip, and within the buffer |
| `AuditAdmission.TripsAtThreshold` | crates/pc-audit/src/lib.rs:629-641 | the breaker is tripped exactly by a failure that reaches the threshold since the last publish |
| `AuditAdmission.UnreachableBrokerTrips` | crates/pc-audit/src/lib.rs:495-545 | failures to connect and to publish count, marshalling errors do not; the threshold-th opens the breaker for one cooldown |
| `Sampler.Sampler.Check` | crates/pc-log/src/sampler.rs:97-136 | verdict and new entry; pass-through when disabled |
| `Sampler.ClosedForm` | crates/pc-log/src/sampler.rs:97-136 | over any run on a key, the per-window closed form of emitted lines and of calls neither emitted nor reported |
| `Sampler.InstalledSamples` | crates/pc-log/src/sampler.rs:154-162 | a sampler installed without a period samples by the second |
| `Sampler.KeysAreIndependent` | crates/pc-log/src/sampler.rs:104-110 | a key gets the verdicts of a sampler of its own |
| `WindowLimiter.RateLimiter.Check` | crates/pc-log/src/ratelimit.rs:42-68 | verdict and new entry; other keys untouched |
| `WindowLimiter.CallsAreConserved` | crates/pc-log/src/ratelimit.rs:42-68 | emitted, reported and pending calls add up to the calls made, for any mix of windows |
| `WindowLimiter.EmissionsAreSpacedAndReport` | crates/pc-log/src/ratelimit.rs:35-41 | each emission reports exactly the calls since the previous one; emissions are a window apart; only calls within a window are refused |
| `WindowLimiter.ZeroWindowIsTransparent` | crates/pc-log/src/ratelimit.rs:43-45 | a zero window always emits, reports nothing and changes no entry, anywhere in a run |
| `WindowLimiter.KeysAreIndependent` | crates/pc-log/src/ratelimit.rs:48-54 | a key gets the verdicts of a limiter of its own |
| `Backoff.CurveIsProduct` | crates/pc-grpc/src/lib.rs:686-690 | up to attempt 65535 the curve is min(initial * attempt^2, max) |
| `Backoff.CurveIsFlat` | crates/pc-grpc/src/lib.rs:686-690 | from attempt 65536 on the squared attempt saturates and the curve is constant |
| `Backoff.CurveIsMonotone` | crates/pc-grpc/src/lib.rs:686-690 | the curve never decreases, saturated or not |
| `Backoff.Retry` | crates/pc-grpc/src/lib.rs:558-578 | returns the first success or gives up after max_retries attempts, at least one; an exhausted loop sleeps max_retries - 1 times, by the curve |
| `Backoff.SumIsProductSum` | crates/pc-grpc/src/lib.rs:634-655 | the total slept by an exhausted loop is the product sum |

## Left out

- TheTwoBreakersAgree: clock readings are below `u64::MAX` milliseconds, where the saturated audit deadline and the exact one would differ; one caller at a time, outcomes success or failure only, as with several workers the clock read and the deadline store are separate steps.
- LaterCallsRunAfresh: freshness counts from a caller having returned; a join between the future's completion and the first return still gets that result, as in the code. Flight ids do not wrap at 2^64.
- EveryMessageIsAccountedFor: the failure counter of the audit publisher does not wrap at 2^64.
- HandledOncePerLifetime: one request at a time; the GET and SET of the middleware are not atomic together. No other writer or eviction touches the key.
- RetriesDouble: the doubling of a delay beyond `Duration::MAX`, possible only with a refresh interval of centuries, is not modelled.
- `CircuitBreaker`: each locked section reads the clock once; in a debug build the counter would panic at 2^32 failures instead of wrapping.
- `Idempotency.Middleware`: whether `serde_json` builds a value, and whether the body can be read, are inputs; the response bodies and request ids are not modelled.
- UTF-8 validity inside JSON strings: the validity pass does not check it either.
- Sockets, DNS, tonic, lapin, Redis, tokio scheduling and fairness; the draining of the change queue shows only as the room each send finds.
- SHA-256, HMAC, MD5, hex and base64 are arbitrary functions; freedom from collisions is a hypothesis where a refusal is stated, and the joined string to sign is not claimed to be injective.
- The other users of these parts (CSRF and revocation checks, asymmetric signatures, encryption, locks, HTTP, metrics, configuration) would add only easy members.
- `parse_host_port`, `dial_target`, `KeyTtl` and the environment presets of the sampler: single-branch facts.
