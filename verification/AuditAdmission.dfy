/** When `submit` accepts, told from the history of the pool alone: failures
    counted since the last publish, and the last time the breaker was tripped. */
module AuditAdmission {
  import opened Wrappers
  import opened AuditPublisher
  import opened AuditPool

  function CountedBy(n: nat, e: Event): nat {
    match e
    case FetchAdd(_) => n + 1
    case PublishReturns(_, true) => 0
    case _ => n
  }

  /** Failures counted since the last successful publish. */
  function Counted(n: nat, es: seq<Event>): nat
    decreases |es|
  {
    if es == [] then n else Counted(CountedBy(n, es[0]), es[1..])
  }

  function TrippedBy(last: Option<nat>, e: Event): Option<nat> {
    if e.StoreDeadline? then Some(e.now) else last
  }

  /** The clock at the last trip. */
  function LastTrip(last: Option<nat>, es: seq<Event>): Option<nat>
    decreases |es|
  {
    if es == [] then last else LastTrip(TrippedBy(last, es[0]), es[1..])
  }

  /** A trip at `t` refuses messages before `t + cooldown`, saturating as a `u64`. */
  function RefusedBefore(c: Config, trip: Option<nat>): nat {
    match trip
    case None => 0
    case Some(t) => if t + c.cooldown < U64_MAX then t + c.cooldown else U64_MAX
  }

  lemma {:induction false} AtomicsFollowHistory(c: Config, p: Pool, es: seq<Event>, n: nat, last: Option<nat>)
    requires ValidRun(c, p, es) && p.atomics == Atomics(n, RefusedBefore(c, last))
    ensures After(c, p, es).atomics == Atomics(Counted(n, es), RefusedBefore(c, LastTrip(last, es)))
    decreases |es|
  {
    if es != [] {
      StepFollowsHistory(c, p, es[0], n, last);
      AtomicsFollowHistory(c, Step(c, p, es[0]), es[1..], CountedBy(n, es[0]), TrippedBy(last, es[0]));
    }
  }

  lemma StepFollowsHistory(c: Config, p: Pool, e: Event, n: nat, last: Option<nat>)
    requires Enabled(p, e) && p.atomics == Atomics(n, RefusedBefore(c, last))
    ensures Step(c, p, e).atomics == Atomics(CountedBy(n, e), RefusedBefore(c, TrippedBy(last, e)))
  {
    if IsHandling(e) { MoveFollowsHistory(c, n, last, p.workers[e.w], e); }
  }

  lemma MoveFollowsHistory(c: Config, n: nat, last: Option<nat>, ph: Phase, e: Event)
    requires Fits(ph, e)
    ensures MoveOf(c, Atomics(n, RefusedBefore(c, last)), ph, e).atomics
         == Atomics(CountedBy(n, e), RefusedBefore(c, TrippedBy(last, e)))
  {
  }

  lemma StepStops(c: Config, p: Pool, e: Event)
    requires Enabled(p, e)
    ensures Step(c, p, e).stopped <==> p.stopped || e == Stop
  {
  }

  lemma {:induction false} StoppedByStop(c: Config, p: Pool, es: seq<Event>)
    requires ValidRun(c, p, es)
    ensures After(c, p, es).stopped <==> p.stopped || Stop in es
    decreases |es|
  {
    if es != [] {
      assert es == [es[0]] + es[1..];
      StepStops(c, p, es[0]);
      StoppedByStop(c, Step(c, p, es[0]), es[1..]);
    }
  }

  lemma {:induction false} RunSnoc(c: Config, p: Pool, es: seq<Event>, e: Event)
    requires ValidRun(c, p, es + [e])
    ensures ValidRun(c, p, es) && Enabled(After(c, p, es), e)
    ensures After(c, p, es + [e]) == Step(c, After(c, p, es), e)
    decreases |es|
  {
    if es == [] {
      assert [] + [e] == [e];
    } else {
      assert (es + [e])[1..] == es[1..] + [e];
      RunSnoc(c, Step(c, p, es[0]), es[1..], e);
    }
  }

  /** Worker `w` recorded a failure that reached the threshold. */
  ghost predicate Reached(c: Config, es: seq<Event>, w: nat) {
    exists i | 0 <= i < |es| :: es[i] == FetchAdd(w) && Counted(0, es[..i + 1]) >= c.threshold
  }

  lemma ReachedStays(c: Config, es: seq<Event>, e: Event, w: nat)
    requires Reached(c, es, w)
    ensures Reached(c, es + [e], w)
  {
    var i :| 0 <= i < |es| && es[i] == FetchAdd(w) && Counted(0, es[..i + 1]) >= c.threshold;
    assert (es + [e])[..i + 1] == es[..i + 1] && (es + [e])[i] == es[i];
  }

  lemma MoveTrips(c: Config, a: Atomics, ph: Phase, e: Event)
    requires Fits(ph, e) && MoveOf(c, a, ph, e).next.Tripping?
    ensures e.FetchAdd? && a.failures + 1 >= c.threshold
  {
  }

  lemma StepTrips(c: Config, p: Pool, e: Event, w: nat)
    requires Enabled(p, e) && w < |Step(c, p, e).workers| && Step(c, p, e).workers[w].Tripping?
    ensures w < |p.workers|
    ensures p.workers[w].Tripping? || (e == FetchAdd(w) && p.atomics.failures + 1 >= c.threshold)
  {
    if IsHandling(e) {
      assert Step(c, p, e).workers == p.workers[e.w := MoveOf(c, p.atomics, p.workers[e.w], e).next];
      if e.w == w { MoveTrips(c, p.atomics, p.workers[w], e); }
    } else if IsWorkerEvent(e) {
      var next := if e.Lock? then Receiving else if e.Recv? then Checking(p.queue[0]) else Exited;
      assert Step(c, p, e).workers == p.workers[e.w := next];
    }
  }

  lemma {:induction false} CountedSnoc(n: nat, es: seq<Event>, w: nat)
    ensures Counted(n, es + [FetchAdd(w)]) == Counted(n, es) + 1
    decreases |es|
  {
    if es == [] {
      assert [] + [FetchAdd(w)] == [FetchAdd(w)];
    } else {
      assert (es + [FetchAdd(w)])[1..] == es[1..] + [FetchAdd(w)];
      CountedSnoc(CountedBy(n, es[0]), es[1..], w);
    }
  }

  lemma ReachedNow(c: Config, es: seq<Event>, w: nat)
    requires Counted(0, es) + 1 >= c.threshold
    ensures Reached(c, es + [FetchAdd(w)], w)
  {
    CountedSnoc(0, es, w);
    var all := es + [FetchAdd(w)];
    assert all[..|es| + 1] == all && all[|es|] == FetchAdd(w);
  }

  ghost predicate TripsKnown(c: Config, workerCount: nat, es: seq<Event>, w: nat)
    requires ValidRun(c, Fresh(workerCount), es)
  {
    var ws := After(c, Fresh(workerCount), es).workers;
    w < |ws| && ws[w].Tripping? ==> Reached(c, es, w)
  }

  lemma StepKeepsTripsKnown(c: Config, workerCount: nat, es: seq<Event>, e: Event, w: nat)
    requires ValidRun(c, Fresh(workerCount), es) && TripsKnown(c, workerCount, es, w)
    requires ValidRun(c, Fresh(workerCount), es + [e])
    ensures TripsKnown(c, workerCount, es + [e], w)
  {
    RunSnoc(c, Fresh(workerCount), es, e);
    AtomicsFollowHistory(c, Fresh(workerCount), es, 0, None);
    var p := After(c, Fresh(workerCount), es);
    if w < |Step(c, p, e).workers| && Step(c, p, e).workers[w].Tripping? {
      StepTrips(c, p, e, w);
      if Reached(c, es, w) {
        ReachedStays(c, es, e, w);
      } else {
        ReachedNow(c, es, w);
      }
    }
  }

  lemma {:induction false} TrippingReached(c: Config, workerCount: nat, es: seq<Event>, w: nat)
    requires ValidRun(c, Fresh(workerCount), es)
    ensures TripsKnown(c, workerCount, es, w)
    decreases |es|
  {
    if es != [] {
      var init, e := es[..|es| - 1], es[|es| - 1];
      assert es == init + [e];
      RunSnoc(c, Fresh(workerCount), init, e);
      TrippingReached(c, workerCount, init, w);
      StepKeepsTripsKnown(c, workerCount, init, e, w);
    }
  }

  /** Whoever trips the breaker has just counted a failure that reached the
      threshold since the last publish; and every such failure goes on to trip. */
  lemma TripsAtThreshold(c: Config, workerCount: nat, es: seq<Event>, e: Event)
    requires ValidRun(c, Fresh(workerCount), es) && Enabled(After(c, Fresh(workerCount), es), e)
    ensures e.StoreDeadline? ==> Reached(c, es, e.w)
    ensures e.FetchAdd? ==>
      (Step(c, After(c, Fresh(workerCount), es), e).workers[e.w].Tripping? <==> Counted(0, es) + 1 >= c.threshold)
  {
    AtomicsFollowHistory(c, Fresh(workerCount), es, 0, None);
    if e.StoreDeadline? { TrippingReached(c, workerCount, es, e.w); }
  }

  /** At every point of every interleaving `submit` appends its message exactly when
      nobody has stopped the publisher, a cooldown has passed since the last trip,
      and fewer than `capacity` accepted messages are still waiting. */
  lemma SubmitIsDecided(c: Config, workerCount: nat, es: seq<Event>, m: Message, now: nat)
    requires ValidRun(c, Fresh(workerCount), es)
    ensures var p := After(c, Fresh(workerCount), es);
      var accepted := Stop !in es && now >= RefusedBefore(c, LastTrip(None, es)) && |p.accepted| - |p.dequeued| < c.capacity;
      Step(c, p, Submit(m, now)) == if accepted then p.(queue := p.queue + [m], accepted := p.accepted + [m]) else p
  {
    AtomicsFollowHistory(c, Fresh(workerCount), es, 0, None);
    StoppedByStop(c, Fresh(workerCount), es);
    FreshIsConserved(c, workerCount);
    RunConserves(c, Fresh(workerCount), es);
  }

  // ---------------------------------------------------------------------
  // What counts as a failure
  // ---------------------------------------------------------------------

  /** A broker that is not ready, or refuses a publish, fails; a message that does
      not marshal says nothing about the broker. */
  predicate BrokerFails(e: Meets) { !e.ready || (e.marshals && !e.publishes) }

  function BrokerFailures(es: seq<Meets>): nat {
    if es == [] then 0
    else BrokerFailures(es[..|es| - 1]) + if BrokerFails(es[|es| - 1]) then 1 else 0
  }

  lemma {:induction false} BelowThreshold(c: Config, es: seq<Meets>)
    requires BrokerFailures(es) < c.threshold && forall i | 0 <= i < |es| :: BrokerFails(es[i]) || (es[i].ready && !es[i].marshals)
    ensures IterateAll(c, ZEROED, es).0 == Atomics(BrokerFailures(es), 0)
    decreases |es|
  {
    if es != [] { BelowThreshold(c, es[..|es| - 1]); }
  }

  /** While nothing is published, the broker failure that makes `threshold` of them
      opens the breaker for one cooldown, and none before it does. */
  lemma UnreachableBrokerTrips(c: Config, es: seq<Meets>, e: Meets, now: nat)
    requires BrokerFailures(es) + 1 == c.threshold && BrokerFails(e)
    requires forall i | 0 <= i < |es| :: BrokerFails(es[i]) || (es[i].ready && !es[i].marshals)
    ensures !CircuitOpen(IterateAll(c, ZEROED, es).0, now)
    ensures CircuitOpen(IterateAll(c, ZEROED, es + [e]).0, now) <==> now < RefusedBefore(c, Some(e.end))
  {
    BelowThreshold(c, es);
    assert (es + [e])[..|es|] == es;
  }
}
