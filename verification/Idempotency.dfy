/** Replay protection: `verify_idempotency` of `crates/pc-auth/src/lib.rs` over
    the expiring store of `crates/pc-redis/src/lib.rs`, one request at a time.
    Times are milliseconds. */
module Idempotency {
  import opened Wrappers
  import opened JsonGrammar
  import opened JsonLexer
  import opened Signing

  const I64_MAX := 0x7FFF_FFFF_FFFF_FFFF
  const I64_MIN := -0x8000_0000_0000_0000
  const DEFAULT_MAX_TTL_MINUTES := 43200

  // ---------------------------------------------------------------------
  // TTL guardrail
  // ---------------------------------------------------------------------

  function Saturated(n: int): int {
    if n > I64_MAX then I64_MAX else if n < I64_MIN then I64_MIN else n
  }

  function MaxTtlMinutes(configured: Option<int>): int {
    if configured.Some? && configured.value > 0 then configured.value else DEFAULT_MAX_TTL_MINUTES
  }

  function ClampTtlWithMax(ttlMs: int, maxMinutes: int): int {
    if ttlMs < 0 then 0
    else
      var maxMs := Saturated(maxMinutes * 60_000);
      if ttlMs > maxMs then maxMs else ttlMs
  }

  function ClampTtl(ms: nat, maxMinutes: int): nat {
    var clamped := ClampTtlWithMax(if ms > I64_MAX then I64_MAX else ms, maxMinutes);
    if clamped < 0 then 0 else clamped
  }

  // ---------------------------------------------------------------------
  // Header checks
  // ---------------------------------------------------------------------

  predicate IsKeyChar(c: char) {
    'a' <= c <= 'z' || 'A' <= c <= 'Z' || '0' <= c <= '9' || c == '-' || c == '_'
  }

  predicate CharLibs(s: string) { forall i | 0 <= i < |s| :: IsKeyChar(s[i]) }

  predicate Digits(s: string) { |s| > 0 && forall i | 0 <= i < |s| :: '0' <= s[i] <= '9' }

  predicate NumericNullLibs(s: string) {
    s == "" || Digits(s) || (s[0] == '-' && Digits(s[1..]))
  }

  function DigitsValue(s: string): nat {
    if s == "" then 0
    else 10 * DigitsValue(s[..|s| - 1]) + (if '0' <= s[|s| - 1] <= '9' then s[|s| - 1] as int - '0' as int else 0)
  }

  function ParseI64(s: string): Option<int> {
    var v := if s != "" && s[0] == '-' then 0 - DigitsValue(s[1..]) else DigitsValue(s);
    if NumericNullLibs(s) && s != "" && I64_MIN <= v <= I64_MAX then Some(v) else None
  }

  /** Seconds to remember the request, or `None` for a bad session header. */
  function SessionSeconds(raw: string): Option<nat> {
    if raw != "" && (|raw| > 60 || !NumericNullLibs(raw)) then None
    else if raw == "" || raw == "0" then Some(9)
    else match ParseI64(raw)
      case None => None
      case Some(v) => Some(if v >= 4 then v else 9)
  }

  // ---------------------------------------------------------------------
  // The decision flow
  // ---------------------------------------------------------------------

  type Value(==)

  datatype Entry = Entry(value: Value, expires: Option<nat>)
  type Store = map<string, Entry>

  /** `body` is `None` when reading it failed, `parsed` when `serde_json` refused
      to build a value from it. */
  datatype Request = Request(key: string, session: string, isJson: bool, body: Option<bytes>, parsed: Option<Value>)

  /** What the store does for this request. A failed write may have happened. */
  datatype Redis = Redis(now: nat, getFails: bool, setFails: bool, failedSetWrites: bool)

  datatype Response =
    | InvalidFormat | InvalidSession | InvalidBody | KeyMismatch | ServerError
    | Accepted(cached: Value)
    | Handled

  function Lookup(store: Store, key: string, now: nat): Option<Value> {
    if key in store && (store[key].expires.None? || now < store[key].expires.value)
    then Some(store[key].value) else None
  }

  function Put(store: Store, key: string, value: Value, ttlMs: nat, maxMinutes: int, now: nat): Store {
    var ms := ClampTtl(ttlMs, maxMinutes);
    store[key := Entry(value, if ms == 0 then None else Some(now + ms))]
  }

  /** The checks before the store is consulted; `None` when they pass. */
  function Refusal(c: Crypto, req: Request): Option<Response> {
    if req.key == "" || |req.key| > 50 || !CharLibs(req.key) then Some(InvalidFormat)
    else if SessionSeconds(req.session).None? then Some(InvalidSession)
    else if !req.isJson then Some(InvalidBody)
    else if req.body.None? then Some(ServerError)
    else if req.parsed.None? then Some(InvalidBody)
    else match VerifyIdempotencyKey(c, req.key, req.body.value)
      case Err(_) => Some(InvalidBody)
      case Ok(false) => Some(KeyMismatch)
      case Ok(true) => None
  }

  function Handle(c: Crypto, maxMinutes: int, store: Store, req: Request, redis: Redis): (Store, Response) {
    if Refusal(c, req).Some? then (store, Refusal(c, req).value)
    else if redis.getFails then (store, ServerError)
    else match Lookup(store, req.key, redis.now)
      case Some(cached) => (store, Accepted(cached))
      case None =>
        if req.parsed.None? || SessionSeconds(req.session).None? then (store, ServerError)
        else
          var written := Put(store, req.key, req.parsed.value, SessionSeconds(req.session).value * 1000, maxMinutes, redis.now);
          if redis.setFails then (if redis.failedSetWrites then written else store, ServerError)
          else (written, Handled)
  }

  class Middleware {
    const crypto: Crypto
    const maxMinutes: int
    var store: Store

    constructor (crypto: Crypto, configured: Option<int>)
      ensures this.crypto == crypto && maxMinutes == MaxTtlMinutes(configured) && maxMinutes > 0 && store == map[]
    {
      this.crypto := crypto;
      this.maxMinutes := MaxTtlMinutes(configured);
      this.store := map[];
    }

    method VerifyIdempotency(req: Request, redis: Redis) returns (response: Response)
      modifies this
      ensures (store, response) == Handle(crypto, maxMinutes, old(store), req, redis)
    {
      if req.key == "" || |req.key| > 50 || !CharLibs(req.key) { return InvalidFormat; }
      if req.session != "" && (|req.session| > 60 || !NumericNullLibs(req.session)) { return InvalidSession; }
      var session: int;
      if req.session == "" || req.session == "0" {
        session := 9;
      } else {
        match ParseI64(req.session) {
          case None => return InvalidSession;
          case Some(value) => session := if value >= 4 then value else 9;
        }
      }
      if session < 4 { session := 9; }
      if !req.isJson { return InvalidBody; }
      if req.body.None? { return ServerError; }
      if req.parsed.None? { return InvalidBody; }
      match VerifyIdempotencyKey(crypto, req.key, req.body.value) {
        case Ok(true) =>
        case Ok(false) => return KeyMismatch;
        case Err(_) => return InvalidBody;
      }
      if redis.getFails { return ServerError; }
      match Lookup(store, req.key, redis.now) {
        case Some(cached) => return Accepted(cached);
        case None =>
          if !redis.setFails || redis.failedSetWrites {
            store := Put(store, req.key, req.parsed.value, session * 1000, maxMinutes, redis.now);
          }
          return if redis.setFails then ServerError else Handled;
      }
    }
  }

  // ---------------------------------------------------------------------
  // Lifetimes
  // ---------------------------------------------------------------------

  function Lifetime(req: Request, maxMinutes: int): nat {
    match SessionSeconds(req.session)
    case None => 0
    case Some(seconds) => ClampTtl(seconds * 1000, maxMinutes)
  }

  /** A remembered request always expires: after at least 4 seconds and no later
      than the configured ceiling. */
  lemma LifetimeIsBounded(req: Request, configured: Option<int>)
    requires SessionSeconds(req.session).Some?
    ensures var max := MaxTtlMinutes(configured); 4_000 <= Lifetime(req, max) <= max * 60_000
  {
  }

  // ---------------------------------------------------------------------
  // Runs of requests
  // ---------------------------------------------------------------------

  datatype Arrival = Arrival(req: Request, redis: Redis)

  predicate Ordered(as_: seq<Arrival>) {
    forall i, j | 0 <= i <= j < |as_| :: as_[i].redis.now <= as_[j].redis.now
  }

  function StoreAfter(c: Crypto, maxMinutes: int, store: Store, run: seq<Arrival>): Store
    decreases |run|
  {
    if run == [] then store
    else
      var n := |run| - 1;
      Handle(c, maxMinutes, StoreAfter(c, maxMinutes, store, run[..n]), run[n].req, run[n].redis).0
  }

  /** The response to the `i`-th request of a run that starts with `store`. */
  function ResponseTo(c: Crypto, maxMinutes: int, store: Store, run: seq<Arrival>, i: nat): Response
    requires i < |run|
  {
    Handle(c, maxMinutes, StoreAfter(c, maxMinutes, store, run[..i]), run[i].req, run[i].redis).1
  }

  /** A request to handle writes an entry that expires after its lifetime. */
  lemma HandledWrites(c: Crypto, maxMinutes: int, store: Store, req: Request, redis: Redis)
    requires maxMinutes > 0 && Handle(c, maxMinutes, store, req, redis).1 == Handled
    ensures var s := Handle(c, maxMinutes, store, req, redis).0;
      && req.key in s && req.parsed.Some?
      && s[req.key] == Entry(req.parsed.value, Some(redis.now + Lifetime(req, maxMinutes)))
  {
  }

  /** No request touches an entry that is still alive. */
  lemma AliveEntryStays(c: Crypto, maxMinutes: int, store: Store, req: Request, redis: Redis, key: string)
    requires Lookup(store, key, redis.now).Some?
    ensures var s := Handle(c, maxMinutes, store, req, redis).0; key in s && s[key] == store[key]
  {
  }

  /** While the lifetime of a handled request lasts, its entry stays as written. */
  lemma {:induction false} EntryStays(c: Crypto, maxMinutes: int, store: Store, run: seq<Arrival>, i: nat, n: nat)
    requires maxMinutes > 0 && Ordered(run) && i < n <= |run|
    requires ResponseTo(c, maxMinutes, store, run, i) == Handled
    requires run[n - 1].redis.now < run[i].redis.now + Lifetime(run[i].req, maxMinutes)
    ensures var s := StoreAfter(c, maxMinutes, store, run[..n]); var key := run[i].req.key;
      && key in s && run[i].req.parsed.Some?
      && s[key] == Entry(run[i].req.parsed.value, Some(run[i].redis.now + Lifetime(run[i].req, maxMinutes)))
    decreases n
  {
    assert run[..n][..n - 1] == run[..n - 1] && run[..n][n - 1] == run[n - 1];
    var before := StoreAfter(c, maxMinutes, store, run[..n - 1]);
    if n > i + 1 {
      EntryStays(c, maxMinutes, store, run, i, n - 1);
      AliveEntryStays(c, maxMinutes, before, run[n - 1].req, run[n - 1].redis, run[i].req.key);
    } else {
      HandledWrites(c, maxMinutes, before, run[i].req, run[i].redis);
    }
  }

  /** Two requests with the same key both reach the handler only if the stored
      lifetime of the first has passed; before that the second gets the body
      stored for the first, or an error of the store. */
  lemma HandledOncePerLifetime(c: Crypto, maxMinutes: int, store: Store, run: seq<Arrival>, i: nat, j: nat)
    requires maxMinutes > 0 && Ordered(run) && i < j < |run| && run[i].req.key == run[j].req.key
    requires ResponseTo(c, maxMinutes, store, run, i) == Handled
    requires run[j].redis.now < run[i].redis.now + Lifetime(run[i].req, maxMinutes)
    ensures ResponseTo(c, maxMinutes, store, run, j) != Handled
    ensures Refusal(c, run[j].req).None? && !run[j].redis.getFails ==>
      run[i].req.parsed.Some? && ResponseTo(c, maxMinutes, store, run, j) == Accepted(run[i].req.parsed.value)
  {
    EntryStays(c, maxMinutes, store, run, i, j);
  }

  /** The same for bodies that differ only in insignificant whitespace, whatever
      keys are submitted with them. */
  lemma RetryInAnotherLayoutIsNotHandled(c: Crypto, maxMinutes: int, store: Store, run: seq<Arrival>, i: nat, j: nat)
    requires maxMinutes > 0 && Ordered(run) && i < j < |run|
    requires run[i].req.body.Some? && run[j].req.body.Some?
    requires JsonTokens(run[i].req.body.value) == JsonTokens(run[j].req.body.value)
    requires ResponseTo(c, maxMinutes, store, run, i) == Handled
    ensures ResponseTo(c, maxMinutes, store, run, j) == Handled
      ==> run[j].redis.now >= run[i].redis.now + Lifetime(run[i].req, maxMinutes)
  {
    KeySurvivesRespacing(c, run[i].req.body.value, run[j].req.body.value);
    if run[i].req.key == run[j].req.key && run[j].redis.now < run[i].redis.now + Lifetime(run[i].req, maxMinutes) {
      HandledOncePerLifetime(c, maxMinutes, store, run, i, j);
    }
  }
}
