/** The audit publisher of `crates/pc-audit/src/lib.rs`: `submit`, the body of
    the worker loop, the two-atomic breaker and `stop`. Clock readings are
    milliseconds of a `u64`. */
module AuditPublisher {
  import opened Wrappers

  type Message(==, !new)

  const U64_MAX: nat := 0xFFFF_FFFF_FFFF_FFFF

  function Max1(n: nat): nat { if n == 0 then 1 else n }

  function SaturatingAdd(a: nat, b: nat): nat { if a + b > U64_MAX then U64_MAX else a + b }

  /** Threshold and buffer size are at least one. */
  datatype Config = Config(threshold: nat, cooldown: nat, capacity: nat)

  function Configured(threshold: nat, cooldown: nat, buffer: nat): Config {
    Config(Max1(threshold), cooldown, Max1(buffer))
  }

  /** The two atomics. */
  datatype Atomics = Atomics(failures: nat, openUntil: nat)

  const ZEROED := Atomics(0, 0)

  predicate CircuitOpen(a: Atomics, now: nat) { now < a.openUntil }

  function OpenUntil(c: Config, now: nat): nat {
    SaturatingAdd(now, if c.cooldown > U64_MAX then U64_MAX else c.cooldown)
  }

  function FailureRecorded(c: Config, a: Atomics, now: nat): Atomics {
    Atomics(a.failures + 1, if a.failures + 1 >= c.threshold then OpenUntil(c, now) else a.openUntil)
  }

  datatype Fate = Published | Dropped | Failed

  /** What one worker iteration meets: the clock at its breaker check, whether the
      client is ready, whether marshalling works, whether the publish succeeds,
      and the clock at its failure record. */
  datatype Meets = Meets(start: nat, ready: bool, marshals: bool, publishes: bool, end: nat)

  function Iterate(c: Config, a: Atomics, e: Meets): (Atomics, Fate) {
    if CircuitOpen(a, e.start) then (a, Dropped)
    else if !e.ready then (FailureRecorded(c, a, e.end), Dropped)
    else if !e.marshals then (a, Dropped)
    else if e.publishes then (a.(failures := 0), Published)
    else (FailureRecorded(c, a, e.end), Failed)
  }

  function IterateAll(c: Config, a: Atomics, es: seq<Meets>): (r: (Atomics, seq<Fate>))
    ensures |r.1| == |es|
  {
    if es == [] then (a, [])
    else
      var (before, fates) := IterateAll(c, a, es[..|es| - 1]);
      var (after, fate) := Iterate(c, before, es[|es| - 1]);
      (after, fates + [fate])
  }

  predicate Accepts(c: Config, a: Atomics, queue: seq<Message>, stopped: bool, now: nat) {
    !stopped && !CircuitOpen(a, now) && |queue| < c.capacity
  }

  class Publisher {
    const config: Config
    var queue: seq<Message>
    var failures: nat
    var openUntilMs: nat
    var stopped: bool

    constructor (threshold: nat, cooldown: nat, buffer: nat)
      ensures config == Configured(threshold, cooldown, buffer)
      ensures Both() == ZEROED && queue == [] && !stopped
    {
      config := Configured(threshold, cooldown, buffer);
      queue, failures, openUntilMs, stopped := [], 0, 0, false;
    }

    function Both(): Atomics
      reads this
    {
      Atomics(failures, openUntilMs)
    }

    method Submit(payload: Message, now: nat) returns (accepted: bool)
      modifies `queue
      ensures accepted == Accepts(config, Both(), old(queue), stopped, now)
      ensures queue == if accepted then old(queue) + [payload] else old(queue)
    {
      if stopped { return false; }
      if now < openUntilMs { return false; }
      if |queue| >= config.capacity { return false; }
      queue := queue + [payload];
      accepted := true;
    }

    method RecordFailure(now: nat)
      modifies `failures, `openUntilMs
      ensures Both() == FailureRecorded(config, old(Both()), now)
    {
      failures := failures + 1;
      var count := failures;
      if count >= config.threshold {
        openUntilMs := SaturatingAdd(now, if config.cooldown > U64_MAX then U64_MAX else config.cooldown);
      }
    }

    /** One turn of a worker that nothing interleaves with; `None` when there is
        nothing queued. */
    method WorkerIteration(e: Meets) returns (fate: Option<(Message, Fate)>)
      modifies this
      ensures stopped == old(stopped)
      ensures old(queue) == [] ==> fate == None && queue == [] && Both() == old(Both())
      ensures old(queue) != [] ==>
        && fate == Some((old(queue)[0], Iterate(config, old(Both()), e).1))
        && queue == old(queue)[1..] && Both() == Iterate(config, old(Both()), e).0
    {
      if queue == [] { return None; }
      var payload := queue[0];
      queue := queue[1..];
      if e.start < openUntilMs { return Some((payload, Dropped)); }
      if !e.ready {
        RecordFailure(e.end);
        return Some((payload, Dropped));
      }
      if !e.marshals { return Some((payload, Dropped)); }
      if e.publishes {
        failures := 0;
        return Some((payload, Published));
      }
      RecordFailure(e.end);
      fate := Some((payload, Failed));
    }

    /** `stop` with one worker: every queued message gets a fate, in order.
        `meets` says what each of those iterations meets. */
    method Stop(meets: seq<Meets>) returns (fates: seq<(Message, Fate)>)
      requires |meets| == |queue|
      modifies this
      ensures stopped && queue == [] && |fates| == |old(queue)|
      ensures Both() == IterateAll(config, old(Both()), meets).0
      ensures forall i | 0 <= i < |fates| ::
        fates[i] == (old(queue)[i], IterateAll(config, old(Both()), meets).1[i])
    {
      stopped := true;
      fates := [];
      ghost var all := queue;
      for i := 0 to |queue|
        invariant queue == all[i..] && |fates| == i && stopped
        invariant Both() == IterateAll(config, old(Both()), meets[..i]).0
        invariant forall k | 0 <= k < i :: fates[k] == (all[k], IterateAll(config, old(Both()), meets[..i]).1[k])
      {
        assert meets[..i + 1][..i] == meets[..i];
        var fate := WorkerIteration(meets[i]);
        fates := fates + [fate.value];
      }
      assert meets[..|meets|] == meets;
    }
  }
}
