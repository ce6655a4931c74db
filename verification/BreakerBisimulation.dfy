/** Used by one caller at a time with the same threshold, cooldown and clock, the
    audit publisher's two atomics and the three-state breaker admit exactly the
    same calls. */
module BreakerBisimulation {
  import opened Wrappers
  import B = Breaker
  import A = AuditPublisher

  /** One call: admission check at `start`; if admitted, success or failure at `end`. */
  datatype Turn = Turn(start: nat, ok: bool, end: nat)

  predicate Timed(from: nat, calls: seq<Turn>)
    decreases |calls|
  {
    calls == [] || (from <= calls[0].start <= calls[0].end < A.U64_MAX && Timed(calls[0].end, calls[1..]))
  }

  function Met(t: Turn): A.Meets { A.Meets(t.start, true, true, t.ok, t.end) }

  /** Which calls the three-state breaker admits. */
  function BreakerAdmits(c: B.Config, b: B.Inner, calls: seq<Turn>): seq<bool>
    decreases |calls|
  {
    if calls == [] then []
    else
      var t := calls[0];
      [B.Admits(c, b, t.start)]
      + BreakerAdmits(c, B.AfterCall(c, b, t.start, if t.ok then B.Success else B.Failure, t.end), calls[1..])
  }

  /** Which messages the audit worker does not discard at its breaker check. */
  function AuditAdmits(c: A.Config, a: A.Atomics, calls: seq<Turn>): seq<bool>
    decreases |calls|
  {
    if calls == [] then []
    else [!A.CircuitOpen(a, calls[0].start)] + AuditAdmits(c, A.Iterate(c, a, Met(calls[0])).0, calls[1..])
  }

  /** The bisimulation, between calls: the half-open state does not show, and a
      deadline left over from an earlier trip is in the past once closed. */
  ghost predicate Related(c: B.Config, b: B.Inner, a: A.Atomics, now: nat) {
    && b.failures == a.failures % B.U32
    && match b.state
       case Closed => b == B.Inner(B.Closed, a.failures, None, None) && a.failures < c.threshold && a.openUntil <= now
       case Open =>
         b.openedAt.Some? && a.failures >= c.threshold
         && a.openUntil == A.SaturatingAdd(b.openedAt.value, if c.cooldown > A.U64_MAX then A.U64_MAX else c.cooldown)
       case HalfOpen => false
  }

  predicate Twins(c: B.Config, d: A.Config) {
    c.threshold == d.threshold && c.cooldown == d.cooldown && 1 <= c.threshold < B.U32
  }

  /** Related breakers agree on one call and are related after it. */
  lemma CallKeepsRelated(c: B.Config, d: A.Config, b: B.Inner, a: A.Atomics, now: nat, t: Turn)
    requires Twins(c, d) && Related(c, b, a, now) && now <= t.start <= t.end < A.U64_MAX
    ensures B.Admits(c, b, t.start) <==> !A.CircuitOpen(a, t.start)
    ensures B.Acquired(c, b, t.start).state.HalfOpen? <==> b.state.Open? && B.Admits(c, b, t.start)
    ensures Related(c, B.AfterCall(c, b, t.start, if t.ok then B.Success else B.Failure, t.end), A.Iterate(d, a, Met(t)).0, t.end)
  {
  }

  lemma {:induction false} RelatedAdmitAlike(c: B.Config, d: A.Config, b: B.Inner, a: A.Atomics, now: nat, calls: seq<Turn>)
    requires Twins(c, d) && Related(c, b, a, now) && Timed(now, calls)
    ensures BreakerAdmits(c, b, calls) == AuditAdmits(d, a, calls)
    decreases |calls|
  {
    if calls != [] {
      var t := calls[0];
      CallKeepsRelated(c, d, b, a, now, t);
      RelatedAdmitAlike(c, d, B.AfterCall(c, b, t.start, if t.ok then B.Success else B.Failure, t.end),
                        A.Iterate(d, a, Met(t)).0, t.end, calls[1..]);
    }
  }

  /** For every threshold, cooldown and sequence of calls the two breakers admit
      the same calls. */
  lemma TheTwoBreakersAgree(threshold: nat, cooldown: nat, buffer: nat, calls: seq<Turn>)
    requires threshold < B.U32 && Timed(0, calls)
    ensures BreakerAdmits(B.Configured(threshold, cooldown), B.FRESH, calls)
         == AuditAdmits(A.Configured(threshold, cooldown, buffer), A.ZEROED, calls)
  {
    RelatedAdmitAlike(B.Configured(threshold, cooldown), A.Configured(threshold, cooldown, buffer), B.FRESH, A.ZEROED, 0, calls);
  }
}
