/** What the headers and the body of a request decide in `verify_idempotency` of
    `crates/pc-auth/src/lib.rs`, told from decimal numerals, the JSON grammar and
    the history of the key. */
module IdempotencyHeaders {
  import opened Arithmetic
  import opened Wrappers
  import opened JsonGrammar
  import opened JsonLexer
  import opened JsonCompact
  import opened Signing
  import opened Idempotency

  // ---------------------------------------------------------------------
  // Decimal numerals
  // ---------------------------------------------------------------------

  function DigitOf(d: nat): char
    requires d < 10
  {
    "0123456789"[d]
  }

  function Show(n: nat): string {
    if n < 10 then [DigitOf(n)] else Show(n / 10) + [DigitOf(n % 10)]
  }

  function Zeros(k: nat): string { seq(k, _ => '0') }

  function Shown(zeros: nat, n: nat): string { Zeros(zeros) + Show(n) }

  /** `raw` is an optional minus sign, leading zeros and the decimal rendering of `n`. */
  ghost predicate Numeral(raw: string, negative: bool, zeros: nat, n: nat) {
    raw == (if negative then "-" else "") + Shown(zeros, n)
  }

  function SignedValue(negative: bool, n: nat): int { if negative then 0 - n else n }

  lemma {:induction false} ZerosValue(k: nat)
    ensures DigitsValue(Zeros(k)) == 0
    decreases k
  {
    if k > 0 {
      assert Zeros(k)[..k - 1] == Zeros(k - 1);
      ZerosValue(k - 1);
    }
  }

  lemma ValueOfSnoc(s: string, d: nat)
    requires d < 10
    ensures DigitsValue(s + [DigitOf(d)]) == 10 * DigitsValue(s) + d
  {
    assert (s + [DigitOf(d)])[..|s|] == s;
  }

  lemma {:induction false} ShownValue(zeros: nat, n: nat)
    ensures Digits(Shown(zeros, n)) && DigitsValue(Shown(zeros, n)) == n
    decreases n
  {
    if n < 10 {
      ZerosValue(zeros);
      ValueOfSnoc(Zeros(zeros), n);
    } else {
      ShownValue(zeros, n / 10);
      ValueOfSnoc(Shown(zeros, n / 10), n % 10);
      assert Shown(zeros, n) == Shown(zeros, n / 10) + [DigitOf(n % 10)];
    }
  }

  lemma ShowSnoc(m: nat, d: nat)
    requires m > 0 && d < 10
    ensures Show(10 * m + d) == Show(m) + [DigitOf(d)]
  {
    DivUnique(10 * m + d, m, d, 10);
  }

  lemma ShownSnoc(zeros: nat, m: nat, d: nat) returns (zeros': nat)
    requires d < 10
    ensures Shown(zeros, m) + [DigitOf(d)] == Shown(zeros', 10 * m + d)
  {
    if m > 0 {
      zeros' := zeros;
      ShowSnoc(m, d);
    } else {
      zeros' := zeros + 1;
      assert Zeros(zeros) + "0" == Zeros(zeros + 1);
    }
  }

  lemma LastDigit(s: string) returns (d: nat)
    requires Digits(s)
    ensures d < 10 && s == s[..|s| - 1] + [DigitOf(d)]
    ensures |s| > 1 ==> Digits(s[..|s| - 1])
  {
    d := s[|s| - 1] as int - '0' as int;
  }

  lemma ShownDigit(d: nat)
    requires d < 10
    ensures [DigitOf(d)] == Shown(0, DigitsValue([DigitOf(d)]))
  {
    ValueOfSnoc("", d);
    assert "" + [DigitOf(d)] == [DigitOf(d)] == Zeros(0) + [DigitOf(d)];
  }

  /** Every string of digits renders its value, with leading zeros. */
  lemma {:induction false} DigitsAreShown(s: string) returns (zeros: nat)
    requires Digits(s)
    ensures s == Shown(zeros, DigitsValue(s))
    decreases |s|
  {
    var d := LastDigit(s);
    if |s| == 1 {
      zeros := 0;
      assert s == [DigitOf(d)];
      ShownDigit(d);
    } else {
      var init := s[..|s| - 1];
      zeros := DigitsAreShown(init);
      ValueOfSnoc(init, d);
      zeros := ShownSnoc(zeros, DigitsValue(init), d);
    }
  }

  function Pow10(k: nat): nat { if k == 0 then 1 else 10 * Pow10(k - 1) }

  lemma {:induction false} ShowLength(n: nat, k: nat)
    requires k > 0 && n < Pow10(k)
    ensures |Show(n)| <= k
    decreases k
  {
    if n >= 10 {
      assert k > 1 by { assert Pow10(1) == 10; }
      ShowLength(n / 10, k - 1);
    }
  }

  // ---------------------------------------------------------------------
  // The session header
  // ---------------------------------------------------------------------

  /** The header asks to be remembered for `seconds`: 9 when it is empty or below 4,
      else the number it renders, which must fit an `i64`. */
  ghost predicate Asks(raw: string, seconds: nat) {
    || (raw == "" && seconds == 9)
    || (|raw| <= 60 && exists negative, zeros, n: nat ::
          && Numeral(raw, negative, zeros, n) && I64_MIN <= SignedValue(negative, n) <= I64_MAX
          && seconds == if SignedValue(negative, n) >= 4 then SignedValue(negative, n) else 9)
  }

  lemma PositiveParses(s: string)
    requires Digits(s)
    ensures NumericNullLibs(s) && ParseI64(s) == if DigitsValue(s) <= I64_MAX then Some(DigitsValue(s)) else None
  {
    assert '0' <= s[0] <= '9';
  }

  lemma NegativeParses(s: string)
    requires Digits(s)
    ensures var raw := "-" + s;
      NumericNullLibs(raw) && ParseI64(raw) == if I64_MIN <= 0 - DigitsValue(s) then Some(0 - DigitsValue(s)) else None
  {
    assert ("-" + s)[0] == '-' && ("-" + s)[1..] == s;
  }

  lemma NumeralParses(raw: string, negative: bool, zeros: nat, n: nat)
    requires Numeral(raw, negative, zeros, n)
    ensures raw != "" && NumericNullLibs(raw)
    ensures var v := SignedValue(negative, n); ParseI64(raw) == if I64_MIN <= v <= I64_MAX then Some(v) else None
  {
    ShownValue(zeros, n);
    if negative {
      NegativeParses(Shown(zeros, n));
    } else {
      assert raw == Shown(zeros, n);
      PositiveParses(raw);
    }
  }

  lemma ZeroParses()
    ensures ParseI64("0") == Some(0)
  {
    assert DigitsValue("0") == DigitsValue("") * 10 + 0;
    PositiveParses("0");
  }

  lemma NumeralSession(raw: string, negative: bool, zeros: nat, n: nat)
    requires Numeral(raw, negative, zeros, n)
    ensures var v := SignedValue(negative, n);
      SessionSeconds(raw) == if |raw| <= 60 && I64_MIN <= v <= I64_MAX then Some(if v >= 4 then v else 9) else None
  {
    NumeralParses(raw, negative, zeros, n);
    ZeroParses();
  }

  lemma SessionNumeral(raw: string) returns (negative: bool, zeros: nat, n: nat)
    requires raw != "" && NumericNullLibs(raw)
    ensures Numeral(raw, negative, zeros, n)
  {
    negative := raw[0] == '-';
    var digits := if negative then raw[1..] else raw;
    zeros := DigitsAreShown(digits);
    n := DigitsValue(digits);
  }

  /** The session header is understood exactly as it asks; a header that asks for
      nothing is refused. */
  lemma SessionIsExact(raw: string, seconds: nat)
    ensures SessionSeconds(raw) == Some(seconds) <==> Asks(raw, seconds)
  {
    if raw != "" && SessionSeconds(raw).Some? {
      var negative, zeros, n := SessionNumeral(raw);
      NumeralSession(raw, negative, zeros, n);
    }
    if raw != "" && Asks(raw, seconds) {
      var negative, zeros, n: nat :|
        && Numeral(raw, negative, zeros, n) && I64_MIN <= SignedValue(negative, n) <= I64_MAX
        && seconds == if SignedValue(negative, n) >= 4 then SignedValue(negative, n) else 9;
      NumeralSession(raw, negative, zeros, n);
    }
  }

  /** Any number of seconds from 4 up that fits an `i64` can be asked for. */
  lemma ShownSession(v: nat)
    requires 4 <= v <= I64_MAX
    ensures SessionSeconds(Show(v)) == Some(v)
  {
    assert Pow10(5) == 100_000;
    assert Pow10(10) == 10_000_000_000;
    assert Pow10(15) == 1_000_000_000_000_000;
    assert Pow10(19) == 10_000_000_000_000_000_000;
    ShowLength(v, 19);
    assert Shown(0, v) == Show(v);
    assert Numeral(Show(v), false, 0, v);
    NumeralSession(Show(v), false, 0, v);
  }

  // ---------------------------------------------------------------------
  // The whole decision
  // ---------------------------------------------------------------------

  predicate IsPlain(c: char) {
    c in "abcdefghijklmnopqrstuvwxyz" || c in "ABCDEFGHIJKLMNOPQRSTUVWXYZ" || c in "0123456789-_"
  }

  predicate ProperKey(key: string) { 1 <= |key| <= 50 && forall i | 0 <= i < |key| :: IsPlain(key[i]) }

  lemma KeyCharacters(c: char)
    ensures IsKeyChar(c) <==> IsPlain(c)
  {
  }

  lemma KeyIsProper(key: string)
    ensures ProperKey(key) <==> key != "" && |key| <= 50 && CharLibs(key)
  {
    forall i | 0 <= i < |key| ensures IsKeyChar(key[i]) <==> IsPlain(key[i]) { KeyCharacters(key[i]); }
  }

  /** The key is the MD5 of the token texts of the body. */
  ghost predicate KeyOf(c: Crypto, key: string, body: bytes) {
    exists ts :: JsonText(body, ts) && key == c.md5Hex(Joined(ts))
  }

  lemma KeyOfIsExact(c: Crypto, key: string, body: bytes)
    ensures VerifyIdempotencyKey(c, key, body) == Ok(true) <==> KeyOf(c, key, body)
    ensures VerifyIdempotencyKey(c, key, body).Ok? <==> exists ts :: JsonText(body, ts)
  {
    KeyIsDigestOfTokens(c, key, body);
    forall ts ensures JsonTokens(body) == Some(ts) <==> JsonText(body, ts) { RecogniserIsExact(body, ts); }
  }

  predicate Alive(store: Store, key: string, now: nat) {
    key in store && (store[key].expires == None || store[key].expires.value > now)
  }

  /** Key and session header are well formed. */
  ghost predicate HeadersOk(req: Request) {
    ProperKey(req.key) && exists seconds :: Asks(req.session, seconds)
  }

  /** Every check before the store is consulted passes. */
  ghost predicate Acceptable(c: Crypto, req: Request) {
    HeadersOk(req) && req.isJson && req.body.Some? && req.parsed.Some? && KeyOf(c, req.key, req.body.value)
  }

  lemma HeadersAreExact(req: Request)
    ensures HeadersOk(req) <==>
      req.key != "" && |req.key| <= 50 && CharLibs(req.key) && SessionSeconds(req.session).Some?
  {
    KeyIsProper(req.key);
    forall seconds: nat ensures SessionSeconds(req.session) == Some(seconds) <==> Asks(req.session, seconds) {
      SessionIsExact(req.session, seconds);
    }
  }

  lemma RefusalIsExact(c: Crypto, req: Request)
    ensures Refusal(c, req).None? <==> Acceptable(c, req)
  {
    HeadersAreExact(req);
    if req.body.Some? { KeyOfIsExact(c, req.key, req.body.value); }
  }

  /** A request reaches the handler exactly when it is acceptable, nothing alive is
      stored under its key, and the store works. */
  lemma HandledIsExact(c: Crypto, maxMinutes: int, store: Store, req: Request, redis: Redis)
    ensures var r := Handle(c, maxMinutes, store, req, redis).1;
      && (r == Handled <==> (Acceptable(c, req) && !redis.getFails && !Alive(store, req.key, redis.now) && !redis.setFails))
      && (r.Accepted? <==> (Acceptable(c, req) && !redis.getFails && Alive(store, req.key, redis.now)))
      && (r.Accepted? ==> r == Accepted(store[req.key].value))
  {
    RefusalIsExact(c, req);
  }

  /** Which refusal every request gets; whatever is left is a server error. */
  lemma RefusalsAreExact(c: Crypto, maxMinutes: int, store: Store, req: Request, redis: Redis)
    ensures var r := Handle(c, maxMinutes, store, req, redis).1;
      var isText := req.body.Some? && exists ts :: JsonText(req.body.value, ts);
      && (r == InvalidFormat <==> !ProperKey(req.key))
      && (r == InvalidSession <==> (ProperKey(req.key) && !HeadersOk(req)))
      && (r == InvalidBody <==> (HeadersOk(req) && (!req.isJson || (req.body.Some? && (req.parsed.None? || !isText)))))
      && (r == KeyMismatch <==> (HeadersOk(req) && req.isJson && req.parsed.Some? && isText && !KeyOf(c, req.key, req.body.value)))
  {
    KeyIsProper(req.key);
    HeadersAreExact(req);
    if req.body.Some? { KeyOfIsExact(c, req.key, req.body.value); }
  }

  // ---------------------------------------------------------------------
  // How long a request is remembered
  // ---------------------------------------------------------------------

  /** Milliseconds: what is asked for, up to the configured ceiling or 30 days. */
  function Remembered(seconds: nat, configured: Option<int>): int {
    var ceiling := (if configured.Some? && configured.value > 0 then configured.value else 30 * 24 * 60) * 60 * 1000;
    if I64_MAX < seconds * 1000 && I64_MAX < ceiling then I64_MAX
    else if seconds * 1000 < ceiling then seconds * 1000 else ceiling
  }

  lemma ClampIsRemembered(seconds: nat, configured: Option<int>)
    ensures ClampTtl(seconds * 1000, MaxTtlMinutes(configured)) == Remembered(seconds, configured)
  {
  }

  lemma LifetimeIsRemembered(req: Request, configured: Option<int>, seconds: nat)
    requires SessionSeconds(req.session) == Some(seconds)
    ensures Lifetime(req, MaxTtlMinutes(configured)) == Remembered(seconds, configured)
  {
    ClampIsRemembered(seconds, configured);
  }

  /** A handled request is stored under its key for exactly what its session header
      asks, within the ceiling. */
  lemma HandledExpiry(c: Crypto, configured: Option<int>, store: Store, req: Request, redis: Redis, seconds: nat)
    requires Asks(req.session, seconds)
    requires Handle(c, MaxTtlMinutes(configured), store, req, redis).1 == Handled
    ensures var s := Handle(c, MaxTtlMinutes(configured), store, req, redis).0;
      req.key in s && s[req.key].expires == Some(redis.now + Remembered(seconds, configured))
    ensures Lifetime(req, MaxTtlMinutes(configured)) == Remembered(seconds, configured)
  {
    SessionIsExact(req.session, seconds);
    LifetimeIsRemembered(req, configured, seconds);
    HandledWrites(c, MaxTtlMinutes(configured), store, req, redis);
  }

  /** No expiry is stored only for a TTL that is zero or negative. */
  lemma NoExpiryOnlyForNone(ttlMs: int, maxMinutes: int)
    requires maxMinutes > 0
    ensures ClampTtlWithMax(ttlMs, maxMinutes) == 0 <==> ttlMs <= 0
    ensures 0 < ttlMs ==> ClampTtlWithMax(ttlMs, maxMinutes) <= ttlMs
  {
  }

  // ---------------------------------------------------------------------
  // After the lifetime
  // ---------------------------------------------------------------------

  /** Storing may have been tried with this response. */
  predicate Tries(r: Response, redis: Redis) {
    r == Handled || (r == ServerError && redis.setFails && redis.failedSetWrites)
  }

  lemma HandleKeepsEntry(c: Crypto, maxMinutes: int, store: Store, req: Request, redis: Redis, key: string)
    requires req.key == key ==> !Tries(Handle(c, maxMinutes, store, req, redis).1, redis)
    ensures var s := Handle(c, maxMinutes, store, req, redis).0;
      (key in s <==> key in store) && (key in s ==> s[key] == store[key])
  {
  }

  /** The `m`-th request stores something under `key`, or fails in trying to. */
  predicate MayWrite(c: Crypto, maxMinutes: int, store: Store, run: seq<Arrival>, m: nat, key: string)
    requires m < |run|
  {
    run[m].req.key == key && Tries(ResponseTo(c, maxMinutes, store, run, m), run[m].redis)
  }

  lemma StoreStep(c: Crypto, maxMinutes: int, store: Store, run: seq<Arrival>, n: nat)
    requires n < |run|
    ensures StoreAfter(c, maxMinutes, store, run[..n + 1])
         == Handle(c, maxMinutes, StoreAfter(c, maxMinutes, store, run[..n]), run[n].req, run[n].redis).0
  {
    assert run[..n + 1][..n] == run[..n] && run[..n + 1][n] == run[n];
  }

  lemma {:induction false} QuietKeepsEntry(c: Crypto, maxMinutes: int, store: Store, run: seq<Arrival>, i: nat, n: nat, key: string)
    requires i <= n <= |run| && forall m | i <= m < n :: !MayWrite(c, maxMinutes, store, run, m, key)
    ensures var before, after := StoreAfter(c, maxMinutes, store, run[..i]), StoreAfter(c, maxMinutes, store, run[..n]);
      (key in before <==> key in after) && (key in after ==> after[key] == before[key])
    decreases n
  {
    if i < n {
      StoreStep(c, maxMinutes, store, run, n - 1);
      QuietKeepsEntry(c, maxMinutes, store, run, i, n - 1, key);
      assert !MayWrite(c, maxMinutes, store, run, n - 1, key);
      HandleKeepsEntry(c, maxMinutes, StoreAfter(c, maxMinutes, store, run[..n - 1]), run[n - 1].req, run[n - 1].redis, key);
    }
  }

  lemma HandledStores(c: Crypto, maxMinutes: int, store: Store, run: seq<Arrival>, i: nat)
    requires maxMinutes > 0 && i < |run| && ResponseTo(c, maxMinutes, store, run, i) == Handled
    ensures var s := StoreAfter(c, maxMinutes, store, run[..i + 1]); var key := run[i].req.key;
      key in s && s[key].expires == Some(run[i].redis.now + Lifetime(run[i].req, maxMinutes))
  {
    StoreStep(c, maxMinutes, store, run, i);
    HandledWrites(c, maxMinutes, StoreAfter(c, maxMinutes, store, run[..i]), run[i].req, run[i].redis);
  }

  /** While nothing else is written under its key, the entry of a handled request
      stands as written, alive or not. */
  lemma EntryOutlives(c: Crypto, maxMinutes: int, store: Store, run: seq<Arrival>, i: nat, j: nat)
    requires maxMinutes > 0 && i < j <= |run|
    requires ResponseTo(c, maxMinutes, store, run, i) == Handled
    requires forall m | i < m < j :: !MayWrite(c, maxMinutes, store, run, m, run[i].req.key)
    ensures var s := StoreAfter(c, maxMinutes, store, run[..j]); var key := run[i].req.key;
      key in s && s[key].expires == Some(run[i].redis.now + Lifetime(run[i].req, maxMinutes))
  {
    HandledStores(c, maxMinutes, store, run, i);
    QuietKeepsEntry(c, maxMinutes, store, run, i + 1, j, run[i].req.key);
  }

  /** After a handled request, and while nothing else is written under its key, an
      acceptable request with that key is handled again exactly when the lifetime
      of the first has passed. */
  lemma HandledAgainAfterLifetime(c: Crypto, maxMinutes: int, store: Store, run: seq<Arrival>, i: nat, j: nat)
    requires maxMinutes > 0 && i < j < |run| && run[i].req.key == run[j].req.key
    requires ResponseTo(c, maxMinutes, store, run, i) == Handled
    requires forall m | i < m < j :: !MayWrite(c, maxMinutes, store, run, m, run[i].req.key)
    requires Acceptable(c, run[j].req) && !run[j].redis.getFails && !run[j].redis.setFails
    ensures ResponseTo(c, maxMinutes, store, run, j) == Handled
      <==> run[j].redis.now >= run[i].redis.now + Lifetime(run[i].req, maxMinutes)
  {
    var before := StoreAfter(c, maxMinutes, store, run[..j]);
    EntryOutlives(c, maxMinutes, store, run, i, j);
    HandledIsExact(c, maxMinutes, before, run[j].req, run[j].redis);
  }
}
