/** The audit publisher with any number of workers, at the granularity of its
    atomic steps: the receiver lock, `recv`, each load and store of the two
    atomics, and the publish call are separate steps that interleave freely. */
module AuditPool {
  import opened Wrappers
  import opened AuditPublisher

  /** Where a worker is in its loop. `Counting` is before the `fetch_add` of
      `record_failure`, `Tripping` between it and the store of the deadline; the
      fate is the one the message gets when the iteration ends. */
  datatype Phase =
    | Idle
    | Receiving
    | Checking(m: Message)
    | Readying(m: Message)
    | Publishing(m: Message)
    | Counting(m: Message, fate: Fate)
    | Tripping(m: Message, fate: Fate)
    | Exited

  /** Queue, atomics, stop flag and workers; the rest is history. */
  datatype Pool = Pool(
    queue: seq<Message>,
    atomics: Atomics,
    stopped: bool,
    workers: seq<Phase>,
    accepted: seq<Message>,
    dequeued: seq<Message>,
    attempts: multiset<Message>,
    published: multiset<Message>,
    dropped: multiset<Message>,
    failed: multiset<Message>)

  function Fresh(workerCount: nat): Pool {
    Pool([], ZEROED, false, seq(Max1(workerCount), _ => Idle), [], [], multiset{}, multiset{}, multiset{}, multiset{})
  }

  datatype Event =
    | Submit(m: Message, now: nat)
    | Stop
    | Lock(w: nat)
    | Recv(w: nat)
    | Exit(w: nat)
    | CheckBreaker(w: nat, now: nat)
    | CheckReady(w: nat, ready: bool, marshals: bool)
    | PublishReturns(w: nat, ok: bool)
    | FetchAdd(w: nat)
    | StoreDeadline(w: nat, now: nat)

  /** `e` is the step a worker in phase `ph` takes with the message it holds. */
  predicate Fits(ph: Phase, e: Event) {
    match e
    case CheckBreaker(_, _) => ph.Checking?
    case CheckReady(_, _, _) => ph.Readying?
    case PublishReturns(_, _) => ph.Publishing?
    case FetchAdd(_) => ph.Counting?
    case StoreDeadline(_, _) => ph.Tripping?
    case _ => false
  }

  predicate IsWorkerEvent(e: Event) { !e.Submit? && !e.Stop? }

  predicate Enabled(p: Pool, e: Event) {
    match e
    case Submit(_, _) => true
    case Stop => !p.stopped
    case Lock(w) => w < |p.workers| && p.workers[w].Idle? && Receiving !in p.workers
    case Recv(w) => w < |p.workers| && p.workers[w].Receiving? && p.queue != []
    case Exit(w) => w < |p.workers| && p.workers[w].Receiving? && p.queue == [] && p.stopped
    case _ => e.w < |p.workers| && Fits(p.workers[e.w], e)
  }

  /** What a worker does at one step to a message it holds: where it goes, the
      fate it gives the message if it lets go of it, whether it calls `publish`,
      and the atomics as it leaves them. */
  datatype Move = Move(next: Phase, fate: Option<Fate>, calls: bool, atomics: Atomics)

  predicate Holding(ph: Phase) { !ph.Idle? && !ph.Receiving? && !ph.Exited? }

  /** The events of a worker that holds a message. */
  predicate IsHandling(e: Event) { IsWorkerEvent(e) && !e.Lock? && !e.Recv? && !e.Exit? }

  function MoveOf(c: Config, a: Atomics, ph: Phase, e: Event): Move
    requires Fits(ph, e)
  {
    match e
    case CheckBreaker(_, now) =>
      if CircuitOpen(a, now) then Move(Idle, Some(Dropped), false, a) else Move(Readying(ph.m), None, false, a)
    case CheckReady(_, ready, marshals) =>
      if !ready then Move(Counting(ph.m, Dropped), None, false, a)
      else if !marshals then Move(Idle, Some(Dropped), false, a)
      else Move(Publishing(ph.m), None, true, a)
    case PublishReturns(_, ok) =>
      if ok then Move(Idle, Some(Published), false, a.(failures := 0))
      else Move(Counting(ph.m, Failed), None, false, a)
    case FetchAdd(_) =>
      var counted := a.(failures := a.failures + 1);
      if counted.failures >= c.threshold then Move(Tripping(ph.m, ph.fate), None, false, counted)
      else Move(Idle, Some(ph.fate), false, counted)
    case StoreDeadline(_, now) =>
      Move(Idle, Some(ph.fate), false, a.(openUntil := OpenUntil(c, now)))
  }

  function If(b: bool, m: Message): multiset<Message> { if b then multiset{m} else multiset{} }

  function Perform(p: Pool, w: nat, m: Message, mv: Move): Pool
    requires w < |p.workers|
  {
    p.(workers := p.workers[w := mv.next],
       atomics := mv.atomics,
       attempts := p.attempts + If(mv.calls, m),
       published := p.published + If(mv.fate == Some(Published), m),
       dropped := p.dropped + If(mv.fate == Some(Dropped), m),
       failed := p.failed + If(mv.fate == Some(Failed), m))
  }

  function Goto(p: Pool, w: nat, next: Phase): Pool
    requires w < |p.workers|
  {
    p.(workers := p.workers[w := next])
  }

  function Step(c: Config, p: Pool, e: Event): Pool
    requires Enabled(p, e)
  {
    match e
    case Submit(m, now) =>
      if Accepts(c, p.atomics, p.queue, p.stopped, now)
      then p.(queue := p.queue + [m], accepted := p.accepted + [m]) else p
    case Stop => p.(stopped := true)
    case Lock(w) => Goto(p, w, Receiving)
    case Recv(w) => Goto(p, w, Checking(p.queue[0])).(queue := p.queue[1..], dequeued := p.dequeued + [p.queue[0]])
    case Exit(w) => Goto(p, w, Exited)
    case _ => Perform(p, e.w, p.workers[e.w].m, MoveOf(c, p.atomics, p.workers[e.w], e))
  }

  predicate ValidRun(c: Config, p: Pool, es: seq<Event>)
    decreases |es|
  {
    es == [] || (Enabled(p, es[0]) && ValidRun(c, Step(c, p, es[0]), es[1..]))
  }

  function After(c: Config, p: Pool, es: seq<Event>): Pool
    requires ValidRun(c, p, es)
    decreases |es|
  {
    if es == [] then p else After(c, Step(c, p, es[0]), es[1..])
  }

  // ---------------------------------------------------------------------
  // Conservation
  // ---------------------------------------------------------------------

  /** Whether a worker holds message `x`, and whether it has handed it to `publish`. */
  function Holds(ph: Phase, x: Message): nat {
    if Holding(ph) && ph.m == x then 1 else 0
  }

  function Tries(ph: Phase, x: Message): nat {
    if ph.Publishing? || ((ph.Counting? || ph.Tripping?) && ph.fate.Failed?) then Holds(ph, x) else 0
  }

  function Held(ws: seq<Phase>, x: Message): nat {
    if ws == [] then 0 else Holds(ws[0], x) + Held(ws[1..], x)
  }

  function Tried(ws: seq<Phase>, x: Message): nat {
    if ws == [] then 0 else Tries(ws[0], x) + Tried(ws[1..], x)
  }

  lemma {:induction false} GotoCounts(ws: seq<Phase>, w: nat, next: Phase, x: Message)
    requires w < |ws|
    ensures Held(ws[w := next], x) == Held(ws, x) - Holds(ws[w], x) + Holds(next, x)
    ensures Tried(ws[w := next], x) == Tried(ws, x) - Tries(ws[w], x) + Tries(next, x)
    decreases |ws|
  {
    if w > 0 {
      GotoCounts(ws[1..], w - 1, next, x);
      assert ws[w := next][1..] == ws[1..][w - 1 := next];
    } else {
      assert ws[0 := next][1..] == ws[1..];
    }
  }

  /** Each dequeued `x` is held, published, dropped or failed, once; each call of
      `publish` on `x` is in flight, succeeded, or failed. */
  ghost predicate Balanced(p: Pool, x: Message) {
    && multiset(p.dequeued)[x] == Held(p.workers, x) + p.published[x] + p.dropped[x] + p.failed[x]
    && p.attempts[x] == Tried(p.workers, x) + p.published[x] + p.failed[x]
  }

  /** A failure record is never of a published message. */
  predicate FateOk(ph: Phase) { (ph.Counting? || ph.Tripping?) ==> !ph.fate.Published? }

  predicate FatesOk(ws: seq<Phase>) { forall i | 0 <= i < |ws| :: FateOk(ws[i]) }

  predicate ExitsWhenDrained(p: Pool) {
    Exited in p.workers ==> p.stopped && p.queue == []
  }

  ghost predicate Conserved(c: Config, p: Pool) {
    && p.accepted == p.dequeued + p.queue
    && |p.queue| <= c.capacity
    && FatesOk(p.workers)
    && (forall x :: Balanced(p, x))
    && ExitsWhenDrained(p)
  }

  /** A move passes its message on, or books it under one fate; a call of
      `publish` is in flight until it is booked as published or failed. */
  lemma MoveBalances(c: Config, a: Atomics, ph: Phase, e: Event, x: Message)
    requires Fits(ph, e) && FateOk(ph)
    ensures var mv := MoveOf(c, a, ph, e);
      && Holds(ph, x) == Holds(mv.next, x) + If(mv.fate.Some?, ph.m)[x]
      && Tries(ph, x) + If(mv.calls, ph.m)[x] == Tries(mv.next, x) + If(mv.fate.Some? && !mv.fate.value.Dropped?, ph.m)[x]
      && FateOk(mv.next) && !mv.next.Exited?
  {
  }

  lemma HandlingKeepsBalance(c: Config, p: Pool, e: Event, x: Message)
    requires Balanced(p, x) && FatesOk(p.workers) && Enabled(p, e) && IsHandling(e)
    ensures Balanced(Step(c, p, e), x)
  {
    var ph := p.workers[e.w];
    var mv := MoveOf(c, p.atomics, ph, e);
    MoveBalances(c, p.atomics, ph, e, x);
    GotoCounts(p.workers, e.w, mv.next, x);
    BooksOf(p, e.w, ph.m, mv, x);
  }

  lemma BooksOf(p: Pool, w: nat, m: Message, mv: Move, x: Message)
    requires w < |p.workers|
    ensures var q := Perform(p, w, m, mv);
      && q.published[x] + q.dropped[x] + q.failed[x] == p.published[x] + p.dropped[x] + p.failed[x] + If(mv.fate.Some?, m)[x]
      && q.published[x] + q.failed[x] == p.published[x] + p.failed[x] + If(mv.fate.Some? && !mv.fate.value.Dropped?, m)[x]
      && q.attempts[x] == p.attempts[x] + If(mv.calls, m)[x]
  {
  }

  lemma StepKeepsBalance(c: Config, p: Pool, e: Event, x: Message)
    requires Balanced(p, x) && FatesOk(p.workers) && Enabled(p, e)
    ensures Balanced(Step(c, p, e), x)
  {
    match e
    case Submit(_, _) =>
    case Stop =>
    case Lock(w) => GotoCounts(p.workers, w, Receiving, x);
    case Recv(w) =>
      GotoCounts(p.workers, w, Checking(p.queue[0]), x);
      assert multiset(p.dequeued + [p.queue[0]]) == multiset(p.dequeued) + multiset{p.queue[0]};
    case Exit(w) => GotoCounts(p.workers, w, Exited, x);
    case _ => HandlingKeepsBalance(c, p, e, x);
  }

  lemma ReplacePhase(ws: seq<Phase>, w: nat, next: Phase)
    requires w < |ws| && FatesOk(ws) && FateOk(next)
    ensures FatesOk(ws[w := next])
    ensures next != Exited ==> (Exited in ws[w := next] ==> Exited in ws)
  {
  }

  lemma StepKeepsRest(c: Config, p: Pool, e: Event)
    requires FatesOk(p.workers) && ExitsWhenDrained(p) && Enabled(p, e)
    ensures FatesOk(Step(c, p, e).workers) && ExitsWhenDrained(Step(c, p, e))
  {
    match e
    case Submit(_, _) =>
    case Stop =>
    case Lock(w) => ReplacePhase(p.workers, w, Receiving);
    case Recv(w) => ReplacePhase(p.workers, w, Checking(p.queue[0]));
    case Exit(w) => ReplacePhase(p.workers, w, Exited);
    case _ => HandlingKeepsRest(c, p, e);
  }

  lemma HandlingKeepsRest(c: Config, p: Pool, e: Event)
    requires FatesOk(p.workers) && ExitsWhenDrained(p) && Enabled(p, e) && IsHandling(e)
    ensures FatesOk(Step(c, p, e).workers) && ExitsWhenDrained(Step(c, p, e))
  {
    MoveBalances(c, p.atomics, p.workers[e.w], e, p.workers[e.w].m);
    ReplacePhase(p.workers, e.w, MoveOf(c, p.atomics, p.workers[e.w], e).next);
  }

  lemma StepKeepsQueue(c: Config, p: Pool, e: Event)
    requires p.accepted == p.dequeued + p.queue && |p.queue| <= c.capacity && Enabled(p, e)
    ensures var q := Step(c, p, e);
      q.accepted == q.dequeued + q.queue && |q.queue| <= c.capacity && |q.workers| == |p.workers|
  {
    if e.Recv? {
      assert p.dequeued + p.queue == (p.dequeued + [p.queue[0]]) + p.queue[1..];
    }
  }

  lemma StepConserves(c: Config, p: Pool, e: Event)
    requires Conserved(c, p) && Enabled(p, e)
    ensures Conserved(c, Step(c, p, e)) && |Step(c, p, e).workers| == |p.workers|
  {
    StepKeepsQueue(c, p, e);
    StepKeepsRest(c, p, e);
    forall x ensures Balanced(Step(c, p, e), x) { StepKeepsBalance(c, p, e, x); }
  }

  lemma {:induction false} RunConserves(c: Config, p: Pool, es: seq<Event>)
    requires Conserved(c, p) && ValidRun(c, p, es)
    ensures Conserved(c, After(c, p, es)) && |After(c, p, es).workers| == |p.workers|
    decreases |es|
  {
    if es != [] {
      StepConserves(c, p, es[0]);
      RunConserves(c, Step(c, p, es[0]), es[1..]);
    }
  }

  lemma {:induction false} IdleHoldsNothing(n: nat, x: Message)
    ensures Held(seq(n, _ => Idle), x) == 0 && Tried(seq(n, _ => Idle), x) == 0
    decreases n
  {
    if n > 0 {
      IdleHoldsNothing(n - 1, x);
      assert seq<Phase>(n, _ => Idle)[1..] == seq<Phase>(n - 1, _ => Idle);
    }
  }

  lemma FreshIsConserved(c: Config, workerCount: nat)
    ensures Conserved(c, Fresh(workerCount))
  {
    forall x ensures Balanced(Fresh(workerCount), x) { IdleHoldsNothing(Max1(workerCount), x); }
  }

  /** At every point of every interleaving: messages leave the queue in the order
      they were accepted; the queue stays within its bound; every accepted message
      is queued, held, published, dropped or failed, in exactly one of them; and
      it is handed to `publish` at most once. */
  lemma EveryMessageIsAccountedFor(c: Config, workerCount: nat, es: seq<Event>, x: Message)
    requires ValidRun(c, Fresh(workerCount), es)
    ensures var p := After(c, Fresh(workerCount), es);
      && p.accepted == p.dequeued + p.queue && |p.queue| <= c.capacity
      && multiset(p.accepted)[x]
         == multiset(p.queue)[x] + Held(p.workers, x) + p.published[x] + p.dropped[x] + p.failed[x]
      && p.published[x] <= p.attempts[x] <= multiset(p.accepted)[x]
  {
    FreshIsConserved(c, workerCount);
    RunConserves(c, Fresh(workerCount), es);
    var p := After(c, Fresh(workerCount), es);
    assert Balanced(p, x);
    assert multiset(p.accepted) == multiset(p.dequeued) + multiset(p.queue);
    TriedIsHeld(p.workers, x);
  }

  lemma {:induction false} TriedIsHeld(ws: seq<Phase>, x: Message)
    ensures Tried(ws, x) <= Held(ws, x)
    decreases |ws|
  {
    if ws != [] { TriedIsHeld(ws[1..], x); }
  }

  // ---------------------------------------------------------------------
  // Draining
  // ---------------------------------------------------------------------

  function Weight(ph: Phase): nat {
    match ph
    case Exited => 0
    case Receiving => 1
    case Idle => 2
    case Tripping(_, _) => 3
    case Counting(_, _) => 4
    case Publishing(_) => 5
    case Readying(_) => 6
    case Checking(_) => 7
  }

  function Weights(ws: seq<Phase>): nat {
    if ws == [] then 0 else Weight(ws[0]) + Weights(ws[1..])
  }

  /** An upper bound on the worker steps left once no more is accepted. */
  function Remaining(p: Pool): nat { 7 * |p.queue| + Weights(p.workers) }

  lemma {:induction false} GotoWeights(ws: seq<Phase>, w: nat, next: Phase)
    requires w < |ws|
    ensures Weights(ws[w := next]) == Weights(ws) - Weight(ws[w]) + Weight(next)
    decreases |ws|
  {
    if w > 0 {
      GotoWeights(ws[1..], w - 1, next);
      assert ws[w := next][1..] == ws[1..][w - 1 := next];
    } else {
      assert ws[0 := next][1..] == ws[1..];
    }
  }

  lemma MoveIsLighter(c: Config, a: Atomics, ph: Phase, e: Event)
    requires Fits(ph, e)
    ensures Weight(MoveOf(c, a, ph, e).next) < Weight(ph)
  {
  }

  lemma WorkerStepDecreases(c: Config, p: Pool, e: Event)
    requires Enabled(p, e) && IsWorkerEvent(e)
    ensures Remaining(Step(c, p, e)) < Remaining(p) && Step(c, p, e).stopped == p.stopped
  {
    if IsHandling(e) {
      MoveIsLighter(c, p.atomics, p.workers[e.w], e);
      GotoWeights(p.workers, e.w, MoveOf(c, p.atomics, p.workers[e.w], e).next);
    } else {
      GotoWeights(p.workers, e.w, if e.Lock? then Receiving else if e.Recv? then Checking(p.queue[0]) else Exited);
    }
  }

  /** The worker step that worker `w` can take next, if its client and clock
      answer; the answers do not matter. */
  function NextOf(p: Pool, w: nat): Event
    requires w < |p.workers|
  {
    match p.workers[w]
    case Idle => Lock(w)
    case Receiving => if p.queue == [] then Exit(w) else Recv(w)
    case Checking(_) => CheckBreaker(w, 0)
    case Readying(_) => CheckReady(w, true, true)
    case Publishing(_) => PublishReturns(w, true)
    case Counting(_, _) => FetchAdd(w)
    case Tripping(_, _) => StoreDeadline(w, 0)
    case Exited => Exit(w)
  }

  /** A stopped pool is stuck only when every worker has exited. */
  lemma StoppedIsNeverStuck(p: Pool) returns (e: Event)
    requires p.stopped && exists w :: 0 <= w < |p.workers| && !p.workers[w].Exited?
    ensures Enabled(p, e) && IsWorkerEvent(e)
  {
    var w :| 0 <= w < |p.workers| && !p.workers[w].Exited?;
    if p.workers[w].Idle? && Receiving in p.workers {
      w :| 0 <= w < |p.workers| && p.workers[w] == Receiving;
    }
    e := NextOf(p, w);
  }

  lemma {:induction false} StoppedRunsAreShort(c: Config, p: Pool, es: seq<Event>)
    requires p.stopped && ValidRun(c, p, es) && forall e <- es :: IsWorkerEvent(e)
    ensures |es| + Remaining(After(c, p, es)) <= Remaining(p) && After(c, p, es).stopped
    decreases |es|
  {
    if es != [] {
      assert es[0] in es;
      WorkerStepDecreases(c, p, es[0]);
      StoppedRunsAreShort(c, Step(c, p, es[0]), es[1..]);
    }
  }

  lemma {:induction false} AllExitedHoldNothing(ws: seq<Phase>, x: Message)
    requires forall w | 0 <= w < |ws| :: ws[w].Exited?
    ensures Held(ws, x) == 0
    decreases |ws|
  {
    if ws != [] { AllExitedHoldNothing(ws[1..], x); }
  }

  /** `stop` terminates and drains: after it, every run of the workers is at most
      `Remaining` steps long, and one that cannot go on has all workers exited,
      nothing queued or held, and every accepted message published, dropped or
      failed. */
  lemma StopDrains(c: Config, workerCount: nat, before: seq<Event>, es: seq<Event>, x: Message)
    requires ValidRun(c, Fresh(workerCount), before) && After(c, Fresh(workerCount), before).stopped
    requires ValidRun(c, After(c, Fresh(workerCount), before), es) && forall e <- es :: IsWorkerEvent(e)
    ensures var p := After(c, Fresh(workerCount), before); var q := After(c, p, es);
      && |es| <= Remaining(p)
      && ((forall e :: IsWorkerEvent(e) ==> !Enabled(q, e)) ==>
            && (forall w | 0 <= w < |q.workers| :: q.workers[w].Exited?)
            && q.queue == [] && Held(q.workers, x) == 0 && q.dequeued == q.accepted
            && multiset(q.accepted)[x] == q.published[x] + q.dropped[x] + q.failed[x])
  {
    FreshIsConserved(c, workerCount);
    RunConserves(c, Fresh(workerCount), before);
    var p := After(c, Fresh(workerCount), before);
    RunConserves(c, p, es);
    StoppedRunsAreShort(c, p, es);
    var q := After(c, p, es);
    if forall e :: IsWorkerEvent(e) ==> !Enabled(q, e) {
      if exists w :: 0 <= w < |q.workers| && !q.workers[w].Exited? {
        var e := StoppedIsNeverStuck(q);
      }
      assert q.workers[0].Exited?;
      AllExitedHoldNothing(q.workers, x);
      assert Balanced(q, x);
      assert q.dequeued + [] == q.dequeued;
    }
  }

  // ---------------------------------------------------------------------
  // A worker nothing interleaves with
  // ---------------------------------------------------------------------

  lemma RunOne(c: Config, p: Pool, e: Event, es: seq<Event>)
    requires Enabled(p, e) && ValidRun(c, Step(c, p, e), es)
    ensures ValidRun(c, p, [e] + es) && After(c, p, [e] + es) == After(c, Step(c, p, e), es)
  {
    assert ([e] + es)[1..] == es;
  }

  /** The pool after worker `w` has let go of `m` with fate `fate`. */
  function Finished(p: Pool, w: nat, m: Message, fate: Fate, atomics: Atomics, called: bool): Pool
    requires w < |p.workers|
  {
    Perform(p, w, m, Move(Idle, Some(fate), called, atomics))
  }

  /** A move that keeps the message, then the rest of the iteration. */
  lemma MoveThenFinish(p: Pool, w: nat, m: Message, mv: Move, fate: Fate, atomics: Atomics, called: bool)
    requires w < |p.workers| && mv.fate == None && !(mv.calls && called)
    ensures Finished(Perform(p, w, m, mv), w, m, fate, atomics, called)
         == Finished(p, w, m, fate, atomics, mv.calls || called)
  {
    assert p.workers[w := mv.next][w := Idle] == p.workers[w := Idle];
    var none: multiset<Message> := multiset{};
    assert p.published + none == p.published && p.dropped + none == p.dropped && p.failed + none == p.failed;
    assert p.attempts + none == p.attempts && p.attempts + multiset{m} + none == p.attempts + multiset{m};
  }

  lemma RecordAlone(c: Config, p: Pool, w: nat, now: nat) returns (es: seq<Event>)
    requires w < |p.workers| && p.workers[w].Counting?
    ensures ValidRun(c, p, es)
    ensures After(c, p, es)
         == Finished(p, w, p.workers[w].m, p.workers[w].fate, FailureRecorded(c, p.atomics, now), false)
  {
    var ph := p.workers[w];
    var mv := MoveOf(c, p.atomics, ph, FetchAdd(w));
    var q := Perform(p, w, ph.m, mv);
    if mv.next.Tripping? {
      RunOne(c, q, StoreDeadline(w, now), []);
      es := [StoreDeadline(w, now)];
      assert es + [] == es;
      MoveThenFinish(p, w, ph.m, mv, ph.fate, FailureRecorded(c, p.atomics, now), false);
    } else {
      es := [];
    }
    RunOne(c, p, FetchAdd(w), es);
    es := [FetchAdd(w)] + es;
  }

  lemma PublishAlone(c: Config, p: Pool, w: nat, ok: bool, now: nat) returns (es: seq<Event>)
    requires w < |p.workers| && p.workers[w].Publishing?
    ensures ValidRun(c, p, es)
    ensures After(c, p, es) == Finished(p, w, p.workers[w].m, if ok then Published else Failed,
      if ok then p.atomics.(failures := 0) else FailureRecorded(c, p.atomics, now), false)
  {
    var m := p.workers[w].m;
    es := [];
    if !ok {
      var mv := MoveOf(c, p.atomics, p.workers[w], PublishReturns(w, ok));
      es := RecordAlone(c, Perform(p, w, m, mv), w, now);
      MoveThenFinish(p, w, m, mv, Failed, FailureRecorded(c, p.atomics, now), false);
    }
    RunOne(c, p, PublishReturns(w, ok), es);
    es := [PublishReturns(w, ok)] + es;
  }

  lemma ReadyAlone(c: Config, p: Pool, w: nat, e: Meets) returns (es: seq<Event>)
    requires w < |p.workers| && p.workers[w].Readying? && !CircuitOpen(p.atomics, e.start)
    ensures ValidRun(c, p, es)
    ensures After(c, p, es) == Finished(p, w, p.workers[w].m,
      Iterate(c, p.atomics, e).1, Iterate(c, p.atomics, e).0, e.ready && e.marshals)
  {
    var m := p.workers[w].m;
    var check := CheckReady(w, e.ready, e.marshals);
    var mv := MoveOf(c, p.atomics, p.workers[w], check);
    var (atomics, fate) := Iterate(c, p.atomics, e);
    es := [];
    if !e.ready {
      es := RecordAlone(c, Perform(p, w, m, mv), w, e.end);
      MoveThenFinish(p, w, m, mv, fate, atomics, false);
    } else if e.marshals {
      es := PublishAlone(c, Perform(p, w, m, mv), w, e.publishes, e.end);
      MoveThenFinish(p, w, m, mv, fate, atomics, false);
    }
    RunOne(c, p, check, es);
    es := [check] + es;
  }

  /** The fine-grained steps of a worker that runs alone add up to one sequential
      iteration: same atomics, same fate. */
  lemma AloneIsOneIteration(c: Config, p: Pool, w: nat, e: Meets) returns (es: seq<Event>)
    requires w < |p.workers| && p.workers[w].Checking?
    ensures ValidRun(c, p, es)
    ensures After(c, p, es) == Finished(p, w, p.workers[w].m, Iterate(c, p.atomics, e).1, Iterate(c, p.atomics, e).0,
      !CircuitOpen(p.atomics, e.start) && e.ready && e.marshals)
  {
    var m := p.workers[w].m;
    var check := CheckBreaker(w, e.start);
    var mv := MoveOf(c, p.atomics, p.workers[w], check);
    es := [];
    if !CircuitOpen(p.atomics, e.start) {
      es := ReadyAlone(c, Perform(p, w, m, mv), w, e);
      MoveThenFinish(p, w, m, mv, Iterate(c, p.atomics, e).1, Iterate(c, p.atomics, e).0, e.ready && e.marshals);
    }
    RunOne(c, p, check, es);
    es := [check] + es;
  }
}
