/** Retry schedules of `crates/pc-grpc/src/lib.rs`: the quadratic backoff curve and
    the two loops that sleep by it. Durations are nanoseconds. */
module Backoff {
  import opened Arithmetic
  import opened Wrappers

  const U32_MAX: nat := 0xFFFF_FFFF
  const DURATION_MAX: nat := 0xFFFF_FFFF_FFFF_FFFF * 1_000_000_000 + 999_999_999

  /** `initial * attempt^2`, saturating as `u32` and as `Duration`, capped at `max`. */
  function BackoffCurve(initial: nat, max: nat, attempt: nat): nat {
    Min(Min(initial * Min(attempt * attempt, U32_MAX), DURATION_MAX), max)
  }

  lemma SquareMonotone(a: nat, b: nat)
    requires a <= b
    ensures a * a <= b * b
  {
    MulMonotone(a, a, b);
    MulMonotone(b, a, b);
  }

  /** Up to the last attempt whose square fits a `u32` the curve is the product
      formula. */
  lemma CurveIsProduct(initial: nat, max: nat, attempt: nat)
    requires max <= DURATION_MAX && attempt <= 65535
    ensures BackoffCurve(initial, max, attempt) == Min(initial * (attempt * attempt), max)
  {
    SquareMonotone(attempt, 65535);
  }

  /** Beyond that the square saturates, and the curve stays where it is. */
  lemma CurveIsFlat(initial: nat, max: nat, attempt: nat)
    requires max <= DURATION_MAX && attempt >= 65536
    ensures BackoffCurve(initial, max, attempt) == Min(initial * 0xFFFF_FFFF, max)
  {
    SquareMonotone(65536, attempt);
  }

  /** It never decreases, saturated or not. */
  lemma CurveIsMonotone(initial: nat, max: nat, a: nat, b: nat)
    requires a <= b
    ensures BackoffCurve(initial, max, a) <= BackoffCurve(initial, max, b)
  {
    SquareMonotone(a, b);
    MulMonotone(initial, Min(a * a, U32_MAX), Min(b * b, U32_MAX));
  }

  datatype Exhausted = Exhausted

  /** Sum of the curve over attempts 1 to n. */
  function CurveSum(initial: nat, max: nat, n: nat): nat {
    if n == 0 then 0 else CurveSum(initial, max, n - 1) + BackoffCurve(initial, max, n)
  }

  function Attempts(maxRetries: nat): nat { if maxRetries == 0 then 1 else maxRetries }

  /** `initial_lookup` and `prewarm`: `tries(i)` is what attempt `i` yields, with an
      empty lookup answer as `None`. They return the first success, or give up
      after `maxRetries` attempts, of which there is at least one; they sleep
      after every failure but the last. */
  method Retry<T>(initial: nat, max: nat, maxRetries: nat, tries: nat -> Option<T>)
    returns (r: Result<T, Exhausted>, sleeps: seq<nat>, slept: nat)
    ensures r.Err? <==> tries(1).None? && forall i | 1 <= i <= maxRetries :: tries(i).None?
    ensures r.Ok? ==> (|sleeps| == 0 || |sleeps| < maxRetries) && tries(|sleeps| + 1) == Some(r.value)
    ensures forall i | 1 <= i <= |sleeps| :: tries(i).None?
    ensures r.Err? ==> |sleeps| == if maxRetries >= 1 then maxRetries - 1 else 0
    ensures forall i | 0 <= i < |sleeps| :: sleeps[i] == BackoffCurve(initial, max, i + 1)
    ensures slept == CurveSum(initial, max, |sleeps|)
  {
    var attempts := Attempts(maxRetries);
    sleeps, slept := [], 0;
    for attempt := 1 to attempts + 1
      invariant forall i | 1 <= i < attempt :: tries(i).None?
      invariant |sleeps| == if attempt > attempts then attempts - 1 else attempt - 1
      invariant forall i | 0 <= i < |sleeps| :: sleeps[i] == BackoffCurve(initial, max, i + 1)
      invariant slept == CurveSum(initial, max, |sleeps|)
    {
      match tries(attempt) {
        case Some(value) => return Ok(value), sleeps, slept;
        case None =>
          if attempt < attempts {
            var pause := BackoffCurve(initial, max, attempt);
            sleeps, slept := sleeps + [pause], slept + pause;
          }
      }
    }
    r := Err(Exhausted);
  }

  /** Sum of `min(initial * i * i, max)` for `i` from 1 to n. */
  function ProductSum(initial: nat, max: nat, n: nat): nat {
    if n == 0 then 0 else ProductSum(initial, max, n - 1) + Min(initial * (n * n), max)
  }

  /** An exhausted loop of up to 65536 attempts sleeps for exactly the product sum. */
  lemma {:induction false} SumIsProductSum(initial: nat, max: nat, n: nat)
    requires max <= DURATION_MAX && n <= 65535
    ensures CurveSum(initial, max, n) == ProductSum(initial, max, n)
    decreases n
  {
    if n > 0 {
      SumIsProductSum(initial, max, n - 1);
      CurveIsProduct(initial, max, n);
    }
  }
}
