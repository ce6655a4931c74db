/** The consecutive-failure breaker of `crates/pc-resilience/src/breaker.rs`.
    Every method body is one lock-held section and reads the clock once; times
    are natural numbers. The failure counter wraps as a `u32` does in a release
    build. */
module Breaker {
  import opened Arithmetic
  import opened Wrappers

  const U32: nat := 0x1_0000_0000

  datatype State = Closed | Open | HalfOpen

  datatype Inner = Inner(state: State, failures: nat, openedAt: Option<nat>, probeStartedAt: Option<nat>)

  const FRESH := Inner(Closed, 0, None, None)

  datatype Config = Config(threshold: nat, cooldown: nat)

  function Configured(threshold: nat, cooldown: nat): Config {
    Config(if threshold == 0 then 1 else threshold, cooldown)
  }

  /** `t.elapsed() >= cooldown`, also true without a stamp. */
  predicate Elapsed(stamp: Option<nat>, now: nat, cooldown: nat) {
    stamp.None? || now >= stamp.value + cooldown
  }

  // ---------------------------------------------------------------------
  // The locked sections
  // ---------------------------------------------------------------------

  predicate Admits(c: Config, b: Inner, now: nat) {
    match b.state
    case Closed => true
    case Open => Elapsed(b.openedAt, now, c.cooldown)
    case HalfOpen => Elapsed(b.probeStartedAt, now, c.cooldown)
  }

  function Acquired(c: Config, b: Inner, now: nat): Inner {
    if b.state.Closed? || !Admits(c, b, now) then b
    else b.(state := HalfOpen, probeStartedAt := Some(now))
  }

  function Succeeded(b: Inner): Inner { FRESH }

  function Failed(c: Config, b: Inner, now: nat): Inner {
    var n := (b.failures + 1) % U32;
    if b.state.HalfOpen? || n >= c.threshold then Inner(Open, n, Some(now), None) else b.(failures := n)
  }

  datatype Outcome = Success | Cancelled | Failure

  class CircuitBreaker {
    const config: Config
    var state: State
    var consecutiveFailures: nat
    var openedAt: Option<nat>
    var probeStartedAt: Option<nat>

    constructor (threshold: nat, cooldown: nat)
      ensures config == Configured(threshold, cooldown) && Contents() == FRESH
    {
      config := Configured(threshold, cooldown);
      state, consecutiveFailures, openedAt, probeStartedAt := Closed, 0, None, None;
    }

    function Contents(): Inner
      reads this
    {
      Inner(state, consecutiveFailures, openedAt, probeStartedAt)
    }

    method TryAcquire(now: nat) returns (admitted: bool)
      modifies this
      ensures admitted == Admits(config, old(Contents()), now)
      ensures Contents() == Acquired(config, old(Contents()), now)
    {
      match state {
        case Closed => admitted := true;
        case Open =>
          admitted := openedAt.None? || now >= openedAt.value + config.cooldown;
          if admitted { state, probeStartedAt := HalfOpen, Some(now); }
        case HalfOpen =>
          admitted := probeStartedAt.None? || now >= probeStartedAt.value + config.cooldown;
          if admitted { probeStartedAt := Some(now); }
      }
    }

    method RecordSuccess()
      modifies this
      ensures Contents() == Succeeded(old(Contents()))
    {
      consecutiveFailures, state, openedAt, probeStartedAt := 0, Closed, None, None;
    }

    method RecordFailure(now: nat)
      modifies this
      ensures Contents() == Failed(config, old(Contents()), now)
    {
      consecutiveFailures := (consecutiveFailures + 1) % U32;
      if state.HalfOpen? || consecutiveFailures >= config.threshold {
        state, openedAt, probeStartedAt := Open, Some(now), None;
      }
    }

    method RecordCancel()
      ensures Contents() == old(Contents())
    {
    }

    /** One guarded call, nothing else using the breaker meanwhile; `None` when
        it was short-circuited. */
    method Call(start: nat, outcome: Outcome, end: nat) returns (ran: Option<Outcome>)
      modifies this
      ensures ran == if Admits(config, old(Contents()), start) then Some(outcome) else None
      ensures Contents() == AfterCall(config, old(Contents()), start, outcome, end)
    {
      var admitted := TryAcquire(start);
      if !admitted { return None; }
      match outcome {
        case Success => RecordSuccess();
        case Cancelled => RecordCancel();
        case Failure => RecordFailure(end);
      }
      ran := Some(outcome);
    }
  }

  function AfterCall(c: Config, b: Inner, start: nat, outcome: Outcome, end: nat): Inner {
    var a := Acquired(c, b, start);
    if !Admits(c, b, start) then a
    else match outcome
      case Success => Succeeded(a)
      case Cancelled => a
      case Failure => Failed(c, a, end)
  }

  // ---------------------------------------------------------------------
  // Runs: any interleaving of sections, by any number of callers
  // ---------------------------------------------------------------------

  datatype Event = Acquire(at: nat) | Succeed(at: nat) | Fail(at: nat) | Cancel(at: nat)

  function Step(c: Config, b: Inner, e: Event): Inner {
    match e
    case Acquire(now) => Acquired(c, b, now)
    case Succeed(_) => Succeeded(b)
    case Fail(now) => Failed(c, b, now)
    case Cancel(_) => b
  }

  function Run(c: Config, b: Inner, es: seq<Event>): Inner
    decreases |es|
  {
    if es == [] then b else Run(c, Step(c, b, es[0]), es[1..])
  }

  /** The clock never goes back, from `from` on. */
  predicate Timed(from: nat, es: seq<Event>)
    decreases |es|
  {
    es == [] || (from <= es[0].at && Timed(es[0].at, es[1..]))
  }

  function LastAt(from: nat, es: seq<Event>): nat { if es == [] then from else es[|es| - 1].at }

  /** Times of the admissions of a run. */
  function Admissions(c: Config, b: Inner, es: seq<Event>): seq<nat>
    decreases |es|
  {
    if es == [] then []
    else
      (if es[0].Acquire? && Admits(c, b, es[0].at) then [es[0].at] else [])
      + Admissions(c, Step(c, b, es[0]), es[1..])
  }

  /** Failures recorded since the last success. */
  function FailuresSince(n: nat, es: seq<Event>): nat
    decreases |es|
  {
    if es == [] then n
    else FailuresSince(match es[0] case Succeed(_) => 0 case Fail(_) => n + 1 case _ => n, es[1..])
  }

  function Recorded(outcome: Outcome, end: nat): Event {
    match outcome
    case Success => Succeed(end)
    case Cancelled => Cancel(end)
    case Failure => Fail(end)
  }

  /** A guarded call is its two locked sections, or only the first when it is
      short-circuited: what holds of runs holds of calls. */
  lemma CallIsItsSections(c: Config, b: Inner, start: nat, outcome: Outcome, end: nat)
    ensures AfterCall(c, b, start, outcome, end)
         == Run(c, b, if Admits(c, b, start) then [Acquire(start), Recorded(outcome, end)] else [Acquire(start)])
  {
    var last := Recorded(outcome, end);
    var a := Acquired(c, b, start);
    assert [Acquire(start), last][1..] == [last] && [last][1..] == [] && [Acquire(start)][1..] == [];
    assert Run(c, a, []) == a && Run(c, a, [last]) == Run(c, Step(c, a, last), []) == Step(c, a, last);
  }

  // ---------------------------------------------------------------------
  // Counter and state
  // ---------------------------------------------------------------------

  ghost predicate Consistent(c: Config, b: Inner, n: nat, now: nat) {
    && 1 <= c.threshold < U32
    && b.failures == n % U32
    && (b.state.Closed? <==> n < c.threshold)
    && (b.state.Closed? ==> b == Inner(Closed, n, None, None))
    && (b.state.Open? ==> b.openedAt.Some? && b.openedAt.value <= now && b.probeStartedAt.None?)
    && (b.state.HalfOpen? ==> b.probeStartedAt.Some? && b.probeStartedAt.value <= now)
  }

  lemma {:induction false} RunStaysConsistent(c: Config, b: Inner, n: nat, from: nat, es: seq<Event>)
    requires Consistent(c, b, n, from) && Timed(from, es)
    ensures Consistent(c, Run(c, b, es), FailuresSince(n, es), LastAt(from, es))
    decreases |es|
  {
    if es != [] {
      var m := match es[0] case Succeed(_) => 0 case Fail(_) => n + 1 case _ => n;
      assert Consistent(c, Step(c, b, es[0]), m, es[0].at);
      RunStaysConsistent(c, Step(c, b, es[0]), m, es[0].at, es[1..]);
    }
  }

  /** After every run the counter is the number of failures since the last success
      (as a `u32`), and the breaker is closed exactly while that number is below
      the threshold. */
  lemma CounterAndState(threshold: nat, cooldown: nat, es: seq<Event>)
    requires threshold < U32 && Timed(0, es)
    ensures var c := Configured(threshold, cooldown);
      var b := Run(c, FRESH, es); var n := FailuresSince(0, es);
      b.failures == n % U32 && (b.state.Closed? <==> n < c.threshold)
  {
    RunStaysConsistent(Configured(threshold, cooldown), FRESH, 0, 0, es);
  }

  /** From any reachable state an idle wait of one cooldown makes the next acquire
      succeed: no lost probe wedges the breaker. */
  lemma IdleWaitAdmits(threshold: nat, cooldown: nat, es: seq<Event>, now: nat)
    requires threshold < U32 && Timed(0, es) && now >= LastAt(0, es) + cooldown
    ensures Admits(Configured(threshold, cooldown), Run(Configured(threshold, cooldown), FRESH, es), now)
  {
    RunStaysConsistent(Configured(threshold, cooldown), FRESH, 0, 0, es);
  }

  // ---------------------------------------------------------------------
  // Spacing of admissions after a trip
  // ---------------------------------------------------------------------

  /** The breaker is tripped and admits nothing before `gate + cooldown`. */
  predicate Gated(c: Config, b: Inner, gate: nat) {
    match b.state
    case Closed => false
    case Open => b.openedAt.Some? && b.openedAt.value >= gate
    case HalfOpen => b.probeStartedAt.Some? && b.probeStartedAt.value >= gate
  }

  /** `times` starts at least `gap` after `from` and steps by at least `gap`. */
  predicate Spaced(times: seq<nat>, from: nat, gap: nat)
    decreases |times|
  {
    times == [] || (times[0] >= from + gap && Spaced(times[1..], times[0], gap))
  }

  predicate NoSuccess(es: seq<Event>) { forall i | 0 <= i < |es| :: !es[i].Succeed? }

  lemma {:induction false} AdmissionsAreSpaced(c: Config, b: Inner, gate: nat, now: nat, es: seq<Event>)
    requires Gated(c, b, gate) && gate <= now && Timed(now, es) && NoSuccess(es)
    ensures Spaced(Admissions(c, b, es), gate, c.cooldown)
    decreases |es|
  {
    if es != [] {
      var e, next := es[0], Step(c, b, es[0]);
      if e.Acquire? && Admits(c, b, e.at) {
        AdmissionsAreSpaced(c, next, e.at, e.at, es[1..]);
      } else {
        AdmissionsAreSpaced(c, next, gate, e.at, es[1..]);
        assert Admissions(c, b, es) == Admissions(c, next, es[1..]);
      }
    }
  }

  function CountUpTo(times: seq<nat>, limit: nat): nat {
    if times == [] then 0 else (if times[0] <= limit then 1 else 0) + CountUpTo(times[1..], limit)
  }

  lemma {:induction false} SpacedCount(times: seq<nat>, from: nat, gap: nat, limit: nat)
    requires Spaced(times, from, gap)
    ensures CountUpTo(times, limit) * gap <= (if limit >= from then limit - from else 0)
    decreases |times|
  {
    if times != [] {
      SpacedCount(times[1..], times[0], gap, limit);
      var k := CountUpTo(times[1..], limit);
      if times[0] <= limit {
        assert (k + 1) * gap == k * gap + gap;
      } else {
        NoneUpTo(times[1..], times[0], gap, limit);
      }
    }
  }

  lemma {:induction false} NoneUpTo(times: seq<nat>, from: nat, gap: nat, limit: nat)
    requires Spaced(times, from, gap) && from > limit
    ensures CountUpTo(times, limit) == 0
    decreases |times|
  {
    if times != [] { NoneUpTo(times[1..], times[0], gap, limit); }
  }

  lemma {:induction false} RunSnoc(c: Config, b: Inner, es: seq<Event>, e: Event)
    ensures Run(c, b, es + [e]) == Step(c, Run(c, b, es), e)
    decreases |es|
  {
    if es == [] {
      assert [] + [e] == [e];
    } else {
      assert (es + [e])[1..] == es[1..] + [e];
      RunSnoc(c, Step(c, b, es[0]), es[1..], e);
    }
  }

  lemma CounterWraps(n: nat)
    ensures (n % U32 + 1) % U32 == (n + 1) % U32
  {
    DivStep(n, U32);
  }

  lemma FailureStep(c: Config, b: Inner, n: nat, now: nat, t: nat)
    requires Consistent(c, b, n, now)
    ensures Failed(c, b, t) ==
      if (n + 1) % U32 >= c.threshold || b.state.HalfOpen?
      then Inner(Open, (n + 1) % U32, Some(t), None) else b.(failures := (n + 1) % U32)
  {
    CounterWraps(n);
  }

  /** A failure recorded at `t` after any run (re)starts the cooldown at `t` exactly
      when it reaches the threshold, counted since the last success as a `u32`, or
      ends a probe. A late failure of a breaker that is already open is no exception. */
  lemma FailureRestartsCooldown(threshold: nat, cooldown: nat, before: seq<Event>, t: nat)
    requires threshold < U32 && Timed(0, before) && LastAt(0, before) <= t
    ensures var c := Configured(threshold, cooldown);
      var b, n := Run(c, FRESH, before + [Fail(t)]), FailuresSince(0, before) + 1;
      if n % U32 >= c.threshold || Run(c, FRESH, before).state.HalfOpen?
      then b == Inner(Open, n % U32, Some(t), None)
      else b == Run(c, FRESH, before).(failures := n % U32)
  {
    var c := Configured(threshold, cooldown);
    RunStaysConsistent(c, FRESH, 0, 0, before);
    FailureStep(c, Run(c, FRESH, before), FailuresSince(0, before), LastAt(0, before), t);
    RunSnoc(c, FRESH, before, Fail(t));
  }

  /** After any run, from a failure at time `t` that reaches the threshold or ends a
      probe, and until the next success, whatever failures, cancellations and lost
      probes interleave: admissions are spaced by the cooldown, so at most
      `w / cooldown` of them fall in the window `(t, t + w]`. Each later failure
      past the threshold postpones them again. */
  lemma AdmissionBoundAfterTrip(threshold: nat, cooldown: nat, before: seq<Event>, t: nat, after: seq<Event>, w: nat)
    requires threshold < U32 && cooldown > 0
    requires Timed(0, before) && LastAt(0, before) <= t && Timed(t, after) && NoSuccess(after)
    requires var c := Configured(threshold, cooldown);
      (FailuresSince(0, before) + 1) % U32 >= c.threshold || Run(c, FRESH, before).state.HalfOpen?
    ensures var c := Configured(threshold, cooldown);
      var times := Admissions(c, Run(c, FRESH, before + [Fail(t)]), after);
      Spaced(times, t, cooldown) && CountUpTo(times, t + w) <= w / cooldown
  {
    var c := Configured(threshold, cooldown);
    var b := Run(c, FRESH, before + [Fail(t)]);
    FailureRestartsCooldown(threshold, cooldown, before, t);
    AdmissionsAreSpaced(c, b, t, t, after);
    var times := Admissions(c, b, after);
    SpacedCount(times, t, cooldown, t + w);
    QuotientBound(CountUpTo(times, t + w), cooldown, w);
  }
}
