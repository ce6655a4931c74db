/** In-flight call de-duplication: `Singleflight::do_call` and the drop guard of
    `crates/pc-resilience/src/singleflight.rs`.

    The two critical sections (register or join, and leave) are the functions
    `EnterCalls` and `LeaveCalls`; the class performs them on its fields. The
    protocol lets any number of callers interleave them with the completion or
    panic of the shared futures. A flight id stands for its shared future. */
module Singleflight {
  type Key(==, !new)
  type Value(==, !new)

  datatype Flight = Flight(id: nat, waiters: nat)

  // ---------------------------------------------------------------------
  // The critical sections
  // ---------------------------------------------------------------------

  /** The flight a caller of `key` gets: the registered one, else a new id. */
  function EntryId(calls: map<Key, Flight>, nextId: nat, key: Key): nat {
    if key in calls then calls[key].id else nextId
  }

  function EnterCalls(calls: map<Key, Flight>, nextId: nat, key: Key): map<Key, Flight> {
    if key in calls
    then calls[key := calls[key].(waiters := calls[key].waiters + 1)]
    else calls[key := Flight(nextId, 1)]
  }

  function SaturatingPred(n: nat): nat {
    if n == 0 then 0 else n - 1
  }

  function LeaveCalls(calls: map<Key, Flight>, key: Key, id: nat, finished: bool): map<Key, Flight> {
    if key !in calls || calls[key].id != id then calls
    else
      var waiters := SaturatingPred(calls[key].waiters);
      if finished || waiters == 0 then calls - {key}
      else calls[key := Flight(id, waiters)]
  }

  class Group {
    var calls: map<Key, Flight>
    var nextId: nat

    constructor ()
      ensures calls == map[] && nextId == 0
    {
      calls, nextId := map[], 0;
    }

    /** Register or join under the shard lock. */
    method Enter(key: Key) returns (guard: FlightGuard)
      modifies this
      ensures fresh(guard) && guard.group == this && guard.key == key && !guard.finished
      ensures guard.id == EntryId(old(calls), old(nextId), key)
      ensures calls == EnterCalls(old(calls), old(nextId), key)
      ensures nextId == if key in old(calls) then old(nextId) else old(nextId) + 1
    {
      var id: nat;
      if key in calls {
        var flight := calls[key];
        calls := calls[key := flight.(waiters := flight.waiters + 1)];
        id := flight.id;
      } else {
        id := nextId;
        nextId := nextId + 1;
        calls := calls[key := Flight(id, 1)];
      }
      guard := new FlightGuard(this, key, id);
    }

    /** One whole call that nothing interleaves with; `produced` is false when it
        is cancelled or panics. It leaves no trace, but that producing a value
        retires a flight it joined. */
    method DoCall(key: Key, produced: bool) returns (id: nat)
      requires forall k <- calls :: calls[k].waiters >= 1
      modifies this
      ensures id == EntryId(old(calls), old(nextId), key)
      ensures calls == if produced then old(calls) - {key} else old(calls)
    {
      var guard := Enter(key);
      id := guard.id;
      if produced { guard.Finish(); }
      guard.Drop();
    }
  }

  class FlightGuard {
    const group: Group
    const key: Key
    const id: nat
    var finished: bool

    constructor (group: Group, key: Key, id: nat)
      ensures this.group == group && this.key == key && this.id == id && !finished
    {
      this.group, this.key, this.id, this.finished := group, key, id, false;
    }

    /** The shared future produced a value. */
    method Finish()
      modifies this
      ensures finished
    {
      finished := true;
    }

    method Drop()
      modifies group
      ensures group.calls == LeaveCalls(old(group.calls), key, id, finished)
      ensures group.nextId == old(group.nextId)
    {
      if key in group.calls && group.calls[key].id == id {
        var flight := group.calls[key];
        flight := flight.(waiters := if flight.waiters == 0 then 0 else flight.waiters - 1);
        if finished || flight.waiters == 0 {
          group.calls := group.calls - {key};
        } else {
          group.calls := group.calls[key := flight];
        }
      }
    }
  }

  // ---------------------------------------------------------------------
  // The protocol: any interleaving of callers
  // ---------------------------------------------------------------------

  type Caller = nat

  datatype Outcome = Produced(value: Value) | Panicked
  datatype Guard = Guard(key: Key, id: nat)

  /** `calls` and `nextId` are the group's fields. The rest is history: the key
      each flight was registered for, the outcome of each completed future, the
      guards now live, the flight every caller ever joined, what each returned
      caller got, and the flights some caller has returned from. */
  datatype State = State(
    calls: map<Key, Flight>,
    nextId: nat,
    keyOf: seq<Key>,
    outcome: map<nat, Outcome>,
    guards: map<Caller, Guard>,
    joined: map<Caller, nat>,
    results: map<Caller, Value>,
    returnedFrom: set<nat>)

  const INIT: State := State(map[], 0, [], map[], map[], map[], map[], {})

  datatype Event =
    | Call(caller: Caller, key: Key)
    | Complete(id: nat, outcome: Outcome)
    | Return(caller: Caller)
    | Cancel(caller: Caller)
    | PanicLeave(caller: Caller)

  /** Callers whose guard is for flight `id`. */
  function Holders(guards: map<Caller, Guard>, id: nat): set<Caller> {
    set c | c in guards && guards[c].id == id
  }

  /** Callers still awaiting flight `id`. */
  function Live(s: State, id: nat): set<Caller> {
    Holders(s.guards, id)
  }

  /** A future advances only while one of its callers polls it. */
  predicate Enabled(s: State, e: Event) {
    match e
    case Call(c, _) => c !in s.joined
    case Complete(id, _) => id !in s.outcome && Live(s, id) != {}
    case Return(c) => c in s.guards && s.guards[c].id in s.outcome && s.outcome[s.guards[c].id].Produced?
    case Cancel(c) => c in s.guards
    case PanicLeave(c) => c in s.guards && s.guards[c].id in s.outcome && s.outcome[s.guards[c].id].Panicked?
  }

  function Leave(s: State, c: Caller, finished: bool): State
    requires c in s.guards
  {
    var g := s.guards[c];
    s.(calls := LeaveCalls(s.calls, g.key, g.id, finished), guards := s.guards - {c})
  }

  function Step(s: State, e: Event): State
    requires Enabled(s, e)
  {
    match e
    case Call(c, k) =>
      var id := EntryId(s.calls, s.nextId, k);
      s.(calls := EnterCalls(s.calls, s.nextId, k),
         nextId := if k in s.calls then s.nextId else s.nextId + 1,
         keyOf := if k in s.calls then s.keyOf else s.keyOf + [k],
         guards := s.guards[c := Guard(k, id)],
         joined := s.joined[c := id])
    case Complete(id, o) => s.(outcome := s.outcome[id := o])
    case Return(c) =>
      var id := s.guards[c].id;
      Leave(s, c, true).(results := s.results[c := s.outcome[id].value], returnedFrom := s.returnedFrom + {id})
    case Cancel(c) => Leave(s, c, false)
    case PanicLeave(c) => Leave(s, c, false)
  }

  predicate ValidRun(s: State, es: seq<Event>)
    decreases |es|
  {
    es == [] || (Enabled(s, es[0]) && ValidRun(Step(s, es[0]), es[1..]))
  }

  function After(s: State, es: seq<Event>): State
    requires ValidRun(s, es)
    decreases |es|
  {
    if es == [] then s else After(Step(s, es[0]), es[1..])
  }

  // ---------------------------------------------------------------------
  // Invariant
  // ---------------------------------------------------------------------

  /** The map holds flight `id` for key `k`. */
  predicate Mapped(calls: map<Key, Flight>, k: Key, id: nat) {
    k in calls && calls[k].id == id
  }

  ghost predicate HistoryOk(s: State) {
    && |s.keyOf| == s.nextId
    && (forall c <- s.guards :: c in s.joined && s.joined[c] == s.guards[c].id)
    && (forall c <- s.joined :: s.joined[c] < s.nextId)
    && (forall c <- s.results :: c in s.joined && c !in s.guards && s.joined[c] in s.outcome
                                 && s.outcome[s.joined[c]] == Produced(s.results[c]))
    && (forall id <- s.returnedFrom :: id in s.outcome)
    && (forall id <- s.outcome :: id < s.nextId)
  }

  ghost predicate IdsOk(keyOf: seq<Key>, guards: map<Caller, Guard>, returned: set<nat>) {
    && (forall c <- guards :: guards[c].id < |keyOf| && keyOf[guards[c].id] == guards[c].key)
    && (forall id <- returned :: id < |keyOf|)
  }

  /** A flight is mapped exactly while it has a live caller and nobody returned from it. */
  ghost predicate MappedIffLive(calls: map<Key, Flight>, keyOf: seq<Key>, guards: map<Caller, Guard>, returned: set<nat>) {
    forall id: nat | id < |keyOf| :: Mapped(calls, keyOf[id], id) <==> Holders(guards, id) != {} && id !in returned
  }

  /** Every entry is for a flight of its key and counts its live guards. */
  ghost predicate EntriesCount(calls: map<Key, Flight>, keyOf: seq<Key>, guards: map<Caller, Guard>) {
    forall k <- calls ::
      calls[k].id < |keyOf| && keyOf[calls[k].id] == k && calls[k].waiters == |Holders(guards, calls[k].id)|
  }

  /** No entry is older than another flight of its key. */
  ghost predicate EntriesNewest(calls: map<Key, Flight>, keyOf: seq<Key>) {
    forall id: nat | id < |keyOf| && keyOf[id] in calls :: id <= calls[keyOf[id]].id
  }

  /** The map is exactly what the history says. */
  ghost predicate MapOk(calls: map<Key, Flight>, keyOf: seq<Key>, guards: map<Caller, Guard>, returned: set<nat>) {
    && MappedIffLive(calls, keyOf, guards, returned)
    && EntriesCount(calls, keyOf, guards)
    && EntriesNewest(calls, keyOf)
  }

  ghost predicate Inv(s: State) {
    && HistoryOk(s)
    && IdsOk(s.keyOf, s.guards, s.returnedFrom)
    && MapOk(s.calls, s.keyOf, s.guards, s.returnedFrom)
  }

  lemma HoldersAfterEnter(guards: map<Caller, Guard>, c: Caller, g: Guard)
    requires c !in guards
    ensures forall i: nat ::
      Holders(guards[c := g], i) == (if i == g.id then Holders(guards, i) + {c} else Holders(guards, i))
    ensures |Holders(guards[c := g], g.id)| == |Holders(guards, g.id)| + 1
  {
    forall i: nat
      ensures Holders(guards[c := g], i) == (if i == g.id then Holders(guards, i) + {c} else Holders(guards, i)) {}
  }

  lemma JoinKeepsMap(calls: map<Key, Flight>, keyOf: seq<Key>, guards: map<Caller, Guard>, returned: set<nat>, c: Caller, k: Key)
    requires IdsOk(keyOf, guards, returned) && MapOk(calls, keyOf, guards, returned) && c !in guards && k in calls
    ensures var guards' := guards[c := Guard(k, calls[k].id)];
      IdsOk(keyOf, guards', returned) && MapOk(EnterCalls(calls, |keyOf|, k), keyOf, guards', returned)
  {
    var n := calls[k].id;
    HoldersAfterEnter(guards, c, Guard(k, n));
    assert Mapped(calls, keyOf[n], n);
    var calls' := EnterCalls(calls, |keyOf|, k);
    assert forall id: nat | id < |keyOf| :: Mapped(calls', keyOf[id], id) <==> Mapped(calls, keyOf[id], id);
  }

  lemma RegisterKeepsMap(calls: map<Key, Flight>, keyOf: seq<Key>, guards: map<Caller, Guard>, returned: set<nat>, c: Caller, k: Key)
    requires IdsOk(keyOf, guards, returned) && MapOk(calls, keyOf, guards, returned) && c !in guards && k !in calls
    ensures var guards' := guards[c := Guard(k, |keyOf|)];
      IdsOk(keyOf + [k], guards', returned) && MapOk(EnterCalls(calls, |keyOf|, k), keyOf + [k], guards', returned)
  {
    var n := |keyOf|;
    var guards' := guards[c := Guard(k, n)];
    var calls' := EnterCalls(calls, n, k);
    var keyOf' := keyOf + [k];
    assert IdsOk(keyOf', guards', returned);
    HoldersAfterEnter(guards, c, Guard(k, n));
    assert Holders(guards, n) == {};
    forall id: nat | id < n
      ensures Mapped(calls', keyOf'[id], id) <==> Holders(guards', id) != {} && id !in returned
    {
      assert Mapped(calls, keyOf[id], id) <==> Holders(guards, id) != {} && id !in returned;
    }
  }

  lemma HoldersAfterLeave(guards: map<Caller, Guard>, c: Caller)
    requires c in guards
    ensures forall i: nat ::
      Holders(guards - {c}, i) == (if i == guards[c].id then Holders(guards, i) - {c} else Holders(guards, i))
    ensures c in Holders(guards, guards[c].id)
    ensures |Holders(guards - {c}, guards[c].id)| == |Holders(guards, guards[c].id)| - 1
  {
    forall i: nat
      ensures Holders(guards - {c}, i) == (if i == guards[c].id then Holders(guards, i) - {c} else Holders(guards, i)) {}
  }

  lemma LeaveKeepsMapped(calls: map<Key, Flight>, keyOf: seq<Key>, guards: map<Caller, Guard>, returned: set<nat>, c: Caller, finished: bool)
    requires IdsOk(keyOf, guards, returned) && MapOk(calls, keyOf, guards, returned) && c in guards
    ensures MappedIffLive(LeaveCalls(calls, guards[c].key, guards[c].id, finished), keyOf, guards - {c},
                          if finished then returned + {guards[c].id} else returned)
  {
    HoldersAfterLeave(guards, c);
    var n := guards[c].id;
    var calls' := LeaveCalls(calls, guards[c].key, n, finished);
    forall id: nat | id < |keyOf|
      ensures Mapped(calls', keyOf[id], id)
        <==> Holders(guards - {c}, id) != {} && id !in (if finished then returned + {n} else returned)
    {
      assert Mapped(calls, keyOf[id], id) <==> Holders(guards, id) != {} && id !in returned;
      assert id != n ==> (Mapped(calls', keyOf[id], id) <==> Mapped(calls, keyOf[id], id));
    }
  }

  lemma LeaveKeepsMap(calls: map<Key, Flight>, keyOf: seq<Key>, guards: map<Caller, Guard>, returned: set<nat>, c: Caller, finished: bool)
    requires IdsOk(keyOf, guards, returned) && MapOk(calls, keyOf, guards, returned) && c in guards
    ensures var guards' := guards - {c};
      var returned' := if finished then returned + {guards[c].id} else returned;
      && IdsOk(keyOf, guards', returned')
      && MapOk(LeaveCalls(calls, guards[c].key, guards[c].id, finished), keyOf, guards', returned')
  {
    LeaveKeepsMapped(calls, keyOf, guards, returned, c, finished);
    HoldersAfterLeave(guards, c);
  }

  lemma CallKeepsHistory(s: State, c: Caller, k: Key)
    requires HistoryOk(s) && c !in s.joined
    requires k in s.calls ==> s.calls[k].id < s.nextId
    ensures HistoryOk(Step(s, Call(c, k)))
  {
    var t := Step(s, Call(c, k));
    assert forall d <- t.results :: t.joined[d] == s.joined[d];
  }

  lemma CallKeepsInv(s: State, c: Caller, k: Key)
    requires Inv(s) && c !in s.joined
    ensures Inv(Step(s, Call(c, k)))
  {
    CallKeepsHistory(s, c, k);
    if k in s.calls {
      JoinKeepsMap(s.calls, s.keyOf, s.guards, s.returnedFrom, c, k);
    } else {
      RegisterKeepsMap(s.calls, s.keyOf, s.guards, s.returnedFrom, c, k);
    }
  }

  lemma LeaveKeepsHistory(s: State, c: Caller, finished: bool)
    requires HistoryOk(s) && c in s.guards
    requires finished ==> s.guards[c].id in s.outcome && s.outcome[s.guards[c].id].Produced?
    ensures HistoryOk(if finished then Step(s, Return(c)) else Leave(s, c, false))
  {
  }

  lemma LeaveKeepsInv(s: State, c: Caller, finished: bool)
    requires Inv(s) && c in s.guards
    requires finished ==> s.guards[c].id in s.outcome && s.outcome[s.guards[c].id].Produced?
    ensures Inv(if finished then Step(s, Return(c)) else Leave(s, c, false))
  {
    LeaveKeepsHistory(s, c, finished);
    LeaveKeepsMap(s.calls, s.keyOf, s.guards, s.returnedFrom, c, finished);
  }

  /** Every step of the protocol keeps the invariant. */
  lemma StepKeepsInv(s: State, e: Event)
    requires Inv(s) && Enabled(s, e)
    ensures Inv(Step(s, e))
  {
    match e
    case Call(c, k) => CallKeepsInv(s, c, k);
    case Complete(id, o) =>
      var c :| c in Live(s, id);
    case Return(c) => LeaveKeepsInv(s, c, true);
    case Cancel(c) => LeaveKeepsInv(s, c, false);
    case PanicLeave(c) => LeaveKeepsInv(s, c, false);
  }

  lemma {:induction false} RunKeepsInv(s: State, es: seq<Event>)
    requires Inv(s) && ValidRun(s, es)
    ensures Inv(After(s, es))
    decreases |es|
  {
    if es != [] {
      StepKeepsInv(s, es[0]);
      RunKeepsInv(Step(s, es[0]), es[1..]);
    }
  }

  // ---------------------------------------------------------------------
  // What every interleaving guarantees
  // ---------------------------------------------------------------------

  /** After any run, the map is determined by the history alone. In particular a
      mapped flight has waiters equal to its live guards and at least one. */
  lemma MapIsDetermined(es: seq<Event>, k: Key, id: nat, w: nat)
    requires ValidRun(INIT, es)
    ensures var s := After(INIT, es);
      (k in s.calls && s.calls[k] == Flight(id, w))
      <==> (id < |s.keyOf| && s.keyOf[id] == k && w == |Live(s, id)| && w > 0 && id !in s.returnedFrom)
  {
    RunKeepsInv(INIT, es);
    var s := After(INIT, es);
    if id < |s.keyOf| && s.keyOf[id] == k {
      assert Mapped(s.calls, k, id) <==> Live(s, id) != {} && id !in s.returnedFrom;
    }
  }

  /** At most one not-yet-completed flight per key has callers, and a flight
      outside the map is completed or has no live caller. */
  lemma AtMostOneActiveFlight(es: seq<Event>, i: nat, j: nat)
    requires ValidRun(INIT, es)
    requires var s := After(INIT, es); i < |s.keyOf| && j < |s.keyOf| && s.keyOf[i] == s.keyOf[j]
    ensures var s := After(INIT, es);
      && (i !in s.outcome && j !in s.outcome && Live(s, i) != {} && Live(s, j) != {} ==> i == j)
      && (!Mapped(s.calls, s.keyOf[i], i) ==> i in s.outcome || Live(s, i) == {})
  {
    RunKeepsInv(INIT, es);
    var s := After(INIT, es);
    assert forall n <- {i, j} :: Mapped(s.calls, s.keyOf[n], n) <==> Live(s, n) != {} && n !in s.returnedFrom;
  }

  lemma LeaveIsLocal(calls: map<Key, Flight>, key: Key, id: nat, finished: bool)
    ensures LeaveCalls(calls, key, id, finished) - {key} == calls - {key}
    ensures !Mapped(calls, key, id) ==> LeaveCalls(calls, key, id, finished) == calls
  {
  }

  /** The saturating subtraction never saturates; a guard whose flight is no longer
      the mapped one leaves the map alone; other keys are never touched. */
  lemma LeaveNeverSaturates(es: seq<Event>, c: Caller, finished: bool)
    requires ValidRun(INIT, es) && c in After(INIT, es).guards
    ensures var s := After(INIT, es); var g := s.guards[c];
      && (Mapped(s.calls, g.key, g.id) ==> s.calls[g.key].waiters >= 1)
      && (!Mapped(s.calls, g.key, g.id) ==> Leave(s, c, finished).calls == s.calls)
      && Leave(s, c, finished).calls - {g.key} == s.calls - {g.key}
  {
    RunKeepsInv(INIT, es);
    var s := After(INIT, es);
    var g := s.guards[c];
    LeaveIsLocal(s.calls, g.key, g.id, finished);
    assert c in Holders(s.guards, g.id);
  }

  /** A key none of whose callers is live has no entry, so the next call on it
      registers a fresh flight: nothing abandoned is ever served. */
  lemma NoCallerNoEntry(es: seq<Event>, k: Key)
    requires ValidRun(INIT, es)
    ensures var s := After(INIT, es);
      (forall c <- s.guards :: s.guards[c].key != k) ==> k !in s.calls && EntryId(s.calls, s.nextId, k) == s.nextId
  {
    RunKeepsInv(INIT, es);
    var s := After(INIT, es);
    if k in s.calls {
      assert Mapped(s.calls, s.keyOf[s.calls[k].id], s.calls[k].id);
      var c :| c in Live(s, s.calls[k].id);
    }
  }

  /** A caller returns the value its flight produced, so two callers of one
      flight return the same value. */
  lemma CallersOfAFlightAgree(es: seq<Event>, c: Caller, d: Caller)
    requires ValidRun(INIT, es)
    requires var s := After(INIT, es);
      && c in s.results && d in s.results
      && c in s.joined && d in s.joined && s.joined[c] == s.joined[d]
    ensures var s := After(INIT, es);
      && s.joined[c] in s.outcome
      && s.outcome[s.joined[c]] == Produced(s.results[c])
      && s.results[c] == s.results[d]
  {
    RunKeepsInv(INIT, es);
  }

  // ---------------------------------------------------------------------
  // Freshness across a run
  // ---------------------------------------------------------------------

  /** What later steps never change. */
  ghost predicate Extends(s: State, t: State) {
    && s.keyOf <= t.keyOf
    && (forall id <- s.outcome :: id in t.outcome && t.outcome[id] == s.outcome[id])
    && (forall c <- s.joined :: c in t.joined && t.joined[c] == s.joined[c])
    && (forall c <- s.results :: c in t.results && t.results[c] == s.results[c])
    && s.returnedFrom <= t.returnedFrom
  }

  lemma StepExtends(s: State, e: Event)
    requires Inv(s) && Enabled(s, e)
    ensures Extends(s, Step(s, e))
  {
  }

  lemma {:induction false} RunExtends(s: State, es: seq<Event>)
    requires Inv(s) && ValidRun(s, es)
    ensures Extends(s, After(s, es))
    decreases |es|
  {
    if es != [] {
      StepKeepsInv(s, es[0]);
      StepExtends(s, es[0]);
      RunExtends(Step(s, es[0]), es[1..]);
    }
  }

  lemma {:induction false} RunSplits(s: State, es: seq<Event>, n: nat)
    requires ValidRun(s, es) && n <= |es|
    ensures ValidRun(s, es[..n]) && ValidRun(After(s, es[..n]), es[n..])
    ensures After(After(s, es[..n]), es[n..]) == After(s, es)
    decreases |es|
  {
    if n == 0 {
      assert es[..0] == [] && es[0..] == es;
    } else {
      RunSplits(Step(s, es[0]), es[1..], n - 1);
      assert es[1..][..n - 1] == es[..n][1..] && es[1..][n - 1..] == es[n..];
    }
  }

  /** Once any caller has returned from flight `i`, no later call on its key joins
      `i`: the call gets a strictly larger id. */
  lemma CallAfterReturnIsFresh(s: State, i: nat)
    requires Inv(s) && i in s.returnedFrom
    ensures i < |s.keyOf| && EntryId(s.calls, s.nextId, s.keyOf[i]) > i
  {
    assert !Mapped(s.calls, s.keyOf[i], i);
  }

  /** The same over a whole run: the return is event `p`, the later call event `q`. */
  lemma LaterCallsRunAfresh(es: seq<Event>, p: nat, q: nat)
    requires ValidRun(INIT, es) && p < q < |es|
    requires es[p].Return? && es[q].Call?
    ensures var s := After(INIT, es);
      && es[p].caller in s.joined && es[q].caller in s.joined && s.joined[es[p].caller] < |s.keyOf|
      && (s.keyOf[s.joined[es[p].caller]] == es[q].key ==> s.joined[es[q].caller] > s.joined[es[p].caller])
  {
    RunSplits(INIT, es, q);
    RunKeepsInv(INIT, es[..q]);
    var before := After(INIT, es[..q]);
    var i := ReturnIsRemembered(es[..q], p);
    CallAfterReturnIsFresh(before, i);
    StepKeepsInv(before, es[q]);
    assert es[q..][0] == es[q];
    RunExtends(before, es[q..]);
    RunExtends(Step(before, es[q]), es[q..][1..]);
    assert Step(before, es[q]).joined[es[q].caller] == EntryId(before.calls, before.nextId, es[q].key);
  }

  lemma ReturnIsRemembered(es: seq<Event>, p: nat) returns (i: nat)
    requires ValidRun(INIT, es) && p < |es| && es[p].Return?
    ensures var s := After(INIT, es);
      i in s.returnedFrom && es[p].caller in s.joined && s.joined[es[p].caller] == i
  {
    RunSplits(INIT, es, p);
    RunKeepsInv(INIT, es[..p]);
    var before := After(INIT, es[..p]);
    assert es[p..][0] == es[p];
    StepKeepsInv(before, es[p]);
    RunExtends(Step(before, es[p]), es[p..][1..]);
    i := before.guards[es[p].caller].id;
    assert Step(before, es[p]).joined[es[p].caller] == i;
  }
}
