/** With a steady answer the refresher reaches it in a bounded number of ticks
    and then falls silent; while nothing is known its delays double up to the
    refresh interval. */
module DiscoveryConvergence {
  import opened Arithmetic
  import W = Wrappers
  import opened Discovery
  import opened DiscoverySafety

  /** Distance to holding exactly `answer` and no seed. */
  function Distance(v: View, answer: set<SocketAddr>): nat {
    |v.known - answer| + |answer - v.known| + (if v.seedSlots > 0 then 1 else 0)
  }

  /** A tick that sees `answer`, builds all of it, keeps its channel, and finds
      room for one pool at its first send. */
  ghost predicate Steady(t: Tick, answer: set<SocketAddr>, pool: nat) {
    && t.Looked? && t.found == W.Some(answer) && answer <= t.builds
    && (forall i: nat :: t.rooms(i).Free?)
    && t.rooms(0).Free? && t.rooms(0).slots >= pool
  }

  lemma {:induction false} InsertAllOpen(p: Progress, pool: nat, added: seq<SocketAddr>, builds: set<SocketAddr>, rooms: Rooms)
    requires !p.sent.Closed? && forall i: nat :: rooms(i).Free?
    ensures !InsertAll(p, pool, added, builds, rooms).sent.Closed?
    decreases |added|
  {
    if added != [] && p.sent.Ok? {
      var q := SendBatch(p, InsertEach(AddrSlots(added[0], pool)), rooms(p.sends), p.v.known + {added[0]}, p.v.seedSlots);
      InsertAllOpen(if added[0] in builds then q else p, pool, added[1..], builds, rooms);
    }
  }

  lemma {:induction false} RemoveAllOpen(p: Progress, pool: nat, gone: seq<SocketAddr>, rooms: Rooms)
    requires !p.sent.Closed? && forall i: nat :: rooms(i).Free?
    ensures !RemoveAll(p, pool, gone, rooms).sent.Closed?
    decreases |gone|
  {
    if gone != [] && p.sent.Ok? {
      var q := SendBatch(p, RemoveEach(AddrSlots(gone[0], pool)), rooms(p.sends), p.v.known - {gone[0]}, p.v.seedSlots);
      RemoveAllOpen(q, pool, gone[1..], rooms);
    }
  }

  lemma FirstInsertLands(v: View, pool: nat, added: seq<SocketAddr>, builds: set<SocketAddr>, rooms: Rooms)
    requires Good(v, pool) && Unrepeated(added) && (forall a <- added :: a !in v.known && a in builds)
    requires added != [] && rooms(0).Free? && rooms(0).slots >= pool
    ensures added[0] in InsertAll(Progress(v, 0, Ok), pool, added, builds, rooms).v.known
  {
    InsertKeepsGood(v, pool, added[0]);
    var q := SendBatch(Progress(v, 0, Ok), InsertEach(AddrSlots(added[0], pool)), rooms(0), v.known + {added[0]}, v.seedSlots);
    InsertAllSafe(q, pool, added[1..], builds, rooms);
  }

  lemma FirstRemovalLands(v: View, pool: nat, gone: seq<SocketAddr>, rooms: Rooms, stays: SocketAddr)
    requires Good(v, pool) && Unrepeated(gone) && (forall a <- gone :: a in v.known)
    requires stays in v.known && stays !in gone
    requires gone != [] && rooms(0).Free? && rooms(0).slots >= pool
    ensures gone[0] !in RemoveAll(Progress(v, 0, Ok), pool, gone, rooms).v.known
  {
    RemoveKeepsGood(v, pool, gone[0], stays);
    var q := SendBatch(Progress(v, 0, Ok), RemoveEach(AddrSlots(gone[0], pool)), rooms(0), v.known - {gone[0]}, v.seedSlots);
    RemoveAllSafe(q, pool, gone[1..], rooms, stays);
  }

  /** A steady tick at distance zero queues nothing. */
  lemma SettledTickIsSilent(v: View, pool: nat, t: Tick, answer: set<SocketAddr>)
    requires answer != {} && Steady(t, answer, pool) && Distance(v, answer) == 0
    ensures v.known == answer && v.seedSlots == 0
    ensures ApplyLookup(v, pool, answer, t.builds, t.rooms) == Progress(v, 0, Ok)
  {
    assert v.known - answer == {} && answer - v.known == {};
    assert v.known == answer;
  }

  /** An address newly inserted, or newly removed, brings the view closer. */
  lemma Closer(v: View, w: View, answer: set<SocketAddr>)
    requires v.known * answer <= w.known <= v.known + answer
    requires w.seedSlots == v.seedSlots || w.seedSlots == 0
    ensures Distance(w, answer) <= Distance(v, answer)
    ensures w.known != v.known ==> Distance(w, answer) < Distance(v, answer)
  {
    CardinalityMonotone(w.known - answer, v.known - answer);
    CardinalityMonotone(answer - w.known, answer - v.known);
    if w.known - answer == v.known - answer && answer - w.known == answer - v.known {
      forall a ensures a in w.known <==> a in v.known {
        assert a in w.known - answer <==> a in v.known - answer;
        assert a in answer - w.known <==> a in answer - v.known;
      }
    }
  }

  /** Any other steady tick comes closer. */
  lemma SteadyTickIsCloser(v: View, pool: nat, t: Tick, answer: set<SocketAddr>)
    requires Good(v, pool) && answer != {} && Steady(t, answer, pool) && Distance(v, answer) > 0
    ensures Distance(ApplyLookup(v, pool, answer, t.builds, t.rooms).v, answer) < Distance(v, answer)
  {
    var w := ApplyLookup(v, pool, answer, t.builds, t.rooms).v;
    var (added, gone) := DiffAddrs(v.known, answer);
    TickIsSafe(v, pool, answer, t.builds, t.rooms);
    Closer(v, w, answer);
    if added != [] {
      AdditionLands(v, pool, t, answer);
    } else if gone != [] {
      RemovalLands(v, pool, t, answer);
    } else {
      assert v.known - answer == {} && answer - v.known == {};
      assert v.known == answer;
      assert |SeedSlots(v.seedSlots)| == v.seedSlots;
    }
  }

  lemma AdditionLands(v: View, pool: nat, t: Tick, answer: set<SocketAddr>)
    requires Good(v, pool) && answer != {} && Steady(t, answer, pool) && DiffAddrs(v.known, answer).0 != []
    ensures ApplyLookup(v, pool, answer, t.builds, t.rooms).v.known != v.known
  {
    var (added, gone) := DiffAddrs(v.known, answer);
    forall i, j | 0 <= i < j < |added| ensures added[i] != added[j] { assert Before(added[i], added[j]); }
    FirstInsertLands(v, pool, added, t.builds, t.rooms);
    AdditionsAreSafe(v, pool, answer, t.builds, t.rooms);
    var p := InsertAll(Progress(v, 0, Ok), pool, added, t.builds, t.rooms);
    assert added[0] in added;
    if |p.v.known| > |gone| {
      RemovalsAreSafe(p, pool, v.known, answer, t.rooms);
      SeedDropIsSafe(RemoveAll(p, pool, gone, t.rooms), pool, t.rooms);
    } else {
      SeedDropIsSafe(p, pool, t.rooms);
    }
  }

  lemma RemovalLands(v: View, pool: nat, t: Tick, answer: set<SocketAddr>)
    requires Good(v, pool) && answer != {} && Steady(t, answer, pool)
    requires DiffAddrs(v.known, answer).0 == [] && DiffAddrs(v.known, answer).1 != []
    ensures ApplyLookup(v, pool, answer, t.builds, t.rooms).v.known != v.known
  {
    var gone := DiffAddrs(v.known, answer).1;
    forall i, j | 0 <= i < j < |gone| ensures gone[i] != gone[j] { assert Before(gone[i], gone[j]); }
    assert answer - v.known == {};
    var stays :| stays in answer;
    assert stays in v.known;
    CardinalityMonotone(v.known - answer, v.known);
    assert v.known - answer != v.known;
    FirstRemovalLands(v, pool, gone, t.rooms, stays);
    var p := Progress(v, 0, Ok);
    RemovalsAreSafe(p, pool, v.known, answer, t.rooms);
    SeedDropIsSafe(RemoveAll(p, pool, gone, t.rooms), pool, t.rooms);
    assert gone[0] in gone;
  }

  lemma SteadyTickStaysOpen(v: View, pool: nat, t: Tick, answer: set<SocketAddr>)
    requires Steady(t, answer, pool)
    ensures !ApplyLookup(v, pool, answer, t.builds, t.rooms).sent.Closed?
  {
    var (added, gone) := DiffAddrs(v.known, answer);
    InsertAllOpen(Progress(v, 0, Ok), pool, added, t.builds, t.rooms);
    var p := InsertAll(Progress(v, 0, Ok), pool, added, t.builds, t.rooms);
    RemoveAllOpen(p, pool, gone, t.rooms);
    DropSeedsOpen(if |p.v.known| > |gone| then RemoveAll(p, pool, gone, t.rooms) else p, t.rooms);
  }

  lemma DropSeedsOpen(p: Progress, rooms: Rooms)
    requires !p.sent.Closed? && forall i: nat :: rooms(i).Free?
    ensures !DropSeeds(p, rooms).sent.Closed?
  {
  }

  /** After as many steady ticks as the distance, the refresher holds exactly the
      answer with the seeds gone; all further steady ticks queue nothing. */
  lemma {:induction false} SettlesWithinDistance(l: Loop, pool: nat, refresh: nat, ticks: seq<Tick>, answer: set<SocketAddr>)
    requires Good(l.v, pool) && !l.done && answer != {}
    requires forall t <- ticks :: Steady(t, answer, pool)
    ensures var m := RunLoop(l, pool, refresh, ticks);
      && Good(m.v, pool) && !m.done
      && (Distance(l.v, answer) <= |ticks| ==> m.v.known == answer && m.v.seedSlots == 0)
      && (Distance(l.v, answer) == 0 ==> m.v == l.v)
    decreases |ticks|
  {
    if ticks == [] {
      if Distance(l.v, answer) == 0 {
        assert l.v.known - answer == {} && answer - l.v.known == {};
      }
    } else {
      var t := ticks[0];
      assert t in ticks;
      TickIsSafe(l.v, pool, answer, t.builds, t.rooms);
      SteadyTickStaysOpen(l.v, pool, t, answer);
      if Distance(l.v, answer) == 0 {
        SettledTickIsSilent(l.v, pool, t, answer);
      } else {
        SteadyTickIsCloser(l.v, pool, t, answer);
      }
      SettlesWithinDistance(Turn(l, pool, refresh, t), pool, refresh, ticks[1..], answer);
    }
  }

  /** From any point of any run: at most |known \ answer| + |answer \ known| + 1
      steady ticks to settle, then silence. */
  lemma ConvergesThenSilent(v: View, pool: nat, refresh: nat, immediate: bool, before: seq<Tick>, l: Loop,
                            ticks: seq<Tick>, later: seq<Tick>, answer: set<SocketAddr>)
    requires pool >= 1 && Started(v, pool, immediate) && answer != {}
    requires l == RunLoop(StartLoop(v, immediate, refresh), pool, refresh, before) && !l.done
    requires (forall t <- ticks :: Steady(t, answer, pool)) && (forall t <- later :: Steady(t, answer, pool))
    requires |ticks| >= |l.v.known - answer| + |answer - l.v.known| + 1
    ensures var m := RunLoop(l, pool, refresh, ticks);
      && m.v.known == answer && m.v.seedSlots == 0
      && RunLoop(m, pool, refresh, later).v.stream == m.v.stream
  {
    StartIsGood(v, pool, immediate);
    LoopIsSafe(StartLoop(v, immediate, refresh), pool, refresh, before);
    SettlesWithinDistance(l, pool, refresh, ticks, answer);
    SettlesWithinDistance(RunLoop(l, pool, refresh, ticks), pool, refresh, later, answer);
  }

  // ---------------------------------------------------------------------
  // A tick with room for everything
  // ---------------------------------------------------------------------

  ghost predicate Roomy(rooms: Rooms, pool: nat) { forall i: nat :: rooms(i).Free? && rooms(i).slots >= pool }

  lemma {:induction false} InsertAllRoomy(p: Progress, pool: nat, added: seq<SocketAddr>, builds: set<SocketAddr>, rooms: Rooms)
    requires p.sent.Ok? && Roomy(rooms, pool)
    ensures var q := InsertAll(p, pool, added, builds, rooms);
      q.sent.Ok? && q.v.seedSlots == p.v.seedSlots && q.v.known == p.v.known + set a | a in added && a in builds
    decreases |added|
  {
    if added != [] {
      if added[0] !in builds {
        InsertAllRoomy(p, pool, added[1..], builds, rooms);
      } else {
        var q := SendBatch(p, InsertEach(AddrSlots(added[0], pool)), rooms(p.sends), p.v.known + {added[0]}, p.v.seedSlots);
        InsertAllRoomy(q, pool, added[1..], builds, rooms);
      }
    }
  }

  lemma {:induction false} RemoveAllRoomy(p: Progress, pool: nat, gone: seq<SocketAddr>, rooms: Rooms)
    requires p.sent.Ok? && Roomy(rooms, pool)
    ensures var q := RemoveAll(p, pool, gone, rooms);
      q.sent.Ok? && q.v.seedSlots == p.v.seedSlots && q.v.known == p.v.known - set a | a in gone
    decreases |gone|
  {
    if gone != [] {
      var q := SendBatch(p, RemoveEach(AddrSlots(gone[0], pool)), rooms(p.sends), p.v.known - {gone[0]}, p.v.seedSlots);
      RemoveAllRoomy(q, pool, gone[1..], rooms);
    }
  }

  /** What a tick with enough room makes of the known addresses, as sets: what
      builds is added first; then what left the answer goes, unless that is all. */
  function KnownAfter(known: set<SocketAddr>, found: set<SocketAddr>, builds: set<SocketAddr>): set<SocketAddr> {
    if found == {} then known
    else
      var grown := known + found * builds;
      if |grown| > |known - found| then grown - (known - found) else grown
  }

  lemma AdditionsRoomy(v: View, pool: nat, found: set<SocketAddr>, builds: set<SocketAddr>, rooms: Rooms)
    requires Roomy(rooms, pool)
    ensures var p := InsertAll(Progress(v, 0, Ok), pool, DiffAddrs(v.known, found).0, builds, rooms);
      p.sent.Ok? && p.v.seedSlots == v.seedSlots && p.v.known == v.known + found * builds
  {
    var added := DiffAddrs(v.known, found).0;
    InsertAllRoomy(Progress(v, 0, Ok), pool, added, builds, rooms);
    assert v.known + (set a | a in added && a in builds) == v.known + found * builds;
  }

  lemma RemovalsRoomy(p: Progress, pool: nat, was: set<SocketAddr>, found: set<SocketAddr>, rooms: Rooms)
    requires p.sent.Ok? && Roomy(rooms, pool)
    ensures var gone := DiffAddrs(was, found).1; var q := RemoveAll(p, pool, gone, rooms);
      && q.sent.Ok? && q.v.seedSlots == p.v.seedSlots
      && q.v.known == p.v.known - (if found == {} then {} else was - found)
      && |gone| == |if found == {} then {} else was - found|
  {
    var gone := DiffAddrs(was, found).1;
    RemoveAllRoomy(p, pool, gone, rooms);
    assert (set a | a in gone) == (if found == {} then {} else was - found);
  }

  lemma DropSeedsRoomy(q: Progress, pool: nat, rooms: Rooms)
    requires q.sent.Ok? && Roomy(rooms, pool) && q.v.seedSlots <= pool
    ensures var w := DropSeeds(q, rooms);
      w.sent.Ok? && w.v.known == q.v.known && w.v.seedSlots == (if q.v.known == {} then q.v.seedSlots else 0)
  {
    assert |SeedSlots(q.v.seedSlots)| == q.v.seedSlots;
  }

  /** With room for every batch a tick does exactly that and drops the seeds. */
  lemma RoomyTickIsExact(v: View, pool: nat, found: set<SocketAddr>, builds: set<SocketAddr>, rooms: Rooms)
    requires Good(v, pool) && Roomy(rooms, pool)
    ensures var p := ApplyLookup(v, pool, found, builds, rooms);
      && p.sent.Ok? && p.v.known == KnownAfter(v.known, found, builds)
      && p.v.seedSlots == (if p.v.known == {} then v.seedSlots else 0)
  {
    var (added, gone) := DiffAddrs(v.known, found);
    AdditionsRoomy(v, pool, found, builds, rooms);
    var p := InsertAll(Progress(v, 0, Ok), pool, added, builds, rooms);
    RemovalsRoomy(p, pool, v.known, found, rooms);
    DropSeedsRoomy(if |p.v.known| > |gone| then RemoveAll(p, pool, gone, rooms) else p, pool, rooms);
    if found == {} { assert v.known + found * builds == v.known == v.known - {}; }
  }

  lemma KnownAfterSwap(known: set<SocketAddr>, found: set<SocketAddr>, builds: set<SocketAddr>)
    requires found != {}
    ensures found <= builds ==> KnownAfter(known, found, builds) == found
    ensures found * builds == {} && found * known == {} ==> KnownAfter(known, found, builds) == known
  {
    if found <= builds {
      assert found * builds == found;
      CardinalityMonotone(known - found, known + found);
      var a :| a in found;
      assert a in known + found && a !in known - found;
      assert (known + found) - (known - found) == found;
    }
    if found * builds == {} && found * known == {} {
      assert known - found == known && known + found * builds == known;
    }
  }

  /** So one roomy tick reaches an answer that builds, a full swap included; and a
      swap none of whose addresses builds changes nothing. */
  lemma RoomyTickSwaps(v: View, pool: nat, found: set<SocketAddr>, builds: set<SocketAddr>, rooms: Rooms)
    requires Good(v, pool) && Roomy(rooms, pool) && found != {}
    ensures found <= builds ==> ApplyLookup(v, pool, found, builds, rooms).v.known == found
    ensures found * builds == {} && found * v.known == {} ==> ApplyLookup(v, pool, found, builds, rooms).v.known == v.known
  {
    RoomyTickIsExact(v, pool, found, builds, rooms);
    KnownAfterSwap(v.known, found, builds);
  }

  // ---------------------------------------------------------------------
  // Retry delays while nothing is known
  // ---------------------------------------------------------------------

  function Pow2(k: nat): nat { if k == 0 then 1 else 2 * Pow2(k - 1) }

  function RetryDelay(k: nat, refresh: nat): nat { Min(Pow2(k) * FIRST_RETRY, refresh) }

  /** The `k`-th delay of a run, counting an immediate first lookup as delay 0. */
  function ExpectedDelay(k: nat, immediate: bool, refresh: nat): nat {
    if !immediate then RetryDelay(k, refresh) else if k == 0 then 0 else RetryDelay(k - 1, refresh)
  }

  ghost predicate OnSchedule(l: Loop, immediate: bool, refresh: nat) {
    && (l.first <==> immediate && l.delays == [])
    && l.retry == RetryDelay(|l.delays| - (if immediate && l.delays != [] then 1 else 0), refresh)
    && (forall k: nat | k < |l.delays| :: l.delays[k] == ExpectedDelay(k, immediate, refresh))
  }

  lemma RetryDoubles(k: nat, refresh: nat)
    ensures Min(RetryDelay(k, refresh) * 2, refresh) == RetryDelay(k + 1, refresh)
  {
  }

  lemma SleptOnSchedule(l: Loop, refresh: nat, immediate: bool)
    requires OnSchedule(l, immediate, refresh) && l.v.known == {}
    ensures OnSchedule(Slept(l, refresh), immediate, refresh)
  {
    if !l.first { RetryDoubles(|l.delays| - (if immediate then 1 else 0), refresh); }
  }

  lemma TurnFollowsSchedule(l: Loop, pool: nat, refresh: nat, t: Tick)
    requires !l.done
    ensures var next := Turn(l, pool, refresh, t); var slept := Slept(l, refresh);
      next.first == slept.first && next.retry == slept.retry && next.delays == slept.delays
  {
  }

  lemma {:induction false} StaysOnSchedule(l: Loop, pool: nat, refresh: nat, ticks: seq<Tick>, immediate: bool)
    requires Good(l.v, pool) && OnSchedule(l, immediate, refresh)
    requires RunLoop(l, pool, refresh, ticks).v.known == {}
    ensures OnSchedule(RunLoop(l, pool, refresh, ticks), immediate, refresh)
    decreases |ticks|
  {
    LoopIsSafe(l, pool, refresh, ticks);
    if l.done {
      DoneStays(l, pool, refresh, ticks);
    } else if ticks != [] {
      TurnIsSafe(l, pool, refresh, ticks[0]);
      SleptOnSchedule(l, refresh, immediate);
      TurnFollowsSchedule(l, pool, refresh, ticks[0]);
      StaysOnSchedule(Turn(l, pool, refresh, ticks[0]), pool, refresh, ticks[1..], immediate);
    }
  }

  /** As long as no address is known, the `k`-th delay is 2^k seconds capped at
      the refresh interval, after an immediate first lookup in lazy mode. */
  lemma RetriesDouble(pool: nat, refresh: nat, v: View, immediate: bool, ticks: seq<Tick>, k: nat)
    requires pool >= 1 && Good(v, pool)
    ensures var m := RunLoop(StartLoop(v, immediate, refresh), pool, refresh, ticks);
      m.v.known == {} && k < |m.delays| ==> m.delays[k] == ExpectedDelay(k, immediate, refresh)
  {
    var l := StartLoop(v, immediate, refresh);
    if RunLoop(l, pool, refresh, ticks).v.known == {} {
      StaysOnSchedule(l, pool, refresh, ticks, immediate);
    }
  }

  // ---------------------------------------------------------------------
  // Every turn of every run
  // ---------------------------------------------------------------------

  lemma {:induction false} RunSplit(l: Loop, pool: nat, refresh: nat, ticks: seq<Tick>, k: nat)
    requires k <= |ticks|
    ensures RunLoop(l, pool, refresh, ticks) == RunLoop(RunLoop(l, pool, refresh, ticks[..k]), pool, refresh, ticks[k..])
    decreases k
  {
    if k == 0 {
      assert ticks[0..] == ticks;
    } else {
      assert ticks[1..][..k - 1] == ticks[..k][1..] && ticks[1..][k - 1..] == ticks[k..];
      RunSplit(Turn(l, pool, refresh, ticks[0]), pool, refresh, ticks[1..], k - 1);
    }
  }

  /** Delays are only ever added, one by each turn taken. */
  lemma {:induction false} OneDelayPerTurn(l: Loop, pool: nat, refresh: nat, ticks: seq<Tick>)
    ensures var m := RunLoop(l, pool, refresh, ticks);
      && l.delays <= m.delays
      && (!m.done ==> |m.delays| == |l.delays| + |ticks|)
      && (!m.done ==> m.first == (l.first && ticks == []))
    decreases |ticks|
  {
    if l.done {
      DoneStays(l, pool, refresh, ticks);
    } else if ticks != [] {
      TurnFollowsSchedule(l, pool, refresh, ticks[0]);
      OneDelayPerTurn(Turn(l, pool, refresh, ticks[0]), pool, refresh, ticks[1..]);
    }
  }

  /** Turn `k`, taken from the loop `b`, sleeps the delay that `b` calls for. */
  lemma TurnSleeps(l: Loop, pool: nat, refresh: nat, ticks: seq<Tick>, k: nat, b: Loop)
    requires k < |ticks| && l.delays == [] && b == RunLoop(l, pool, refresh, ticks[..k]) && !b.done
    ensures var m := RunLoop(l, pool, refresh, ticks); k < |m.delays| && m.delays[k] == Delay(b, refresh)
    ensures |b.delays| == k && b.first == (l.first && k == 0)
  {
    RunSplit(l, pool, refresh, ticks, k);
    OneDelayPerTurn(l, pool, refresh, ticks[..k]);
    TurnFollowsSchedule(b, pool, refresh, ticks[k]);
    OneDelayPerTurn(Turn(b, pool, refresh, ticks[k]), pool, refresh, ticks[k..][1..]);
  }

  lemma KnownStays(l: Loop, pool: nat, refresh: nat, ticks: seq<Tick>, j: nat, k: nat)
    requires Good(l.v, pool) && j <= k <= |ticks|
    requires RunLoop(l, pool, refresh, ticks[..j]).v.known != {}
    ensures RunLoop(l, pool, refresh, ticks[..k]).v.known != {}
  {
    RunSplit(l, pool, refresh, ticks[..k], j);
    assert ticks[..k][..j] == ticks[..j];
    LoopIsSafe(l, pool, refresh, ticks[..j]);
    LoopIsSafe(RunLoop(l, pool, refresh, ticks[..j]), pool, refresh, ticks[..k][j..]);
  }

  lemma DelayOnSchedule(b: Loop, immediate: bool, refresh: nat)
    requires OnSchedule(b, immediate, refresh) && b.v.known == {}
    ensures Delay(b, refresh) == ExpectedDelay(|b.delays|, immediate, refresh)
  {
  }

  /** Every turn taken sleeps exactly once: the retry schedule while no address is
      known, and nothing before an immediate first lookup. */
  lemma EveryDelay(v: View, pool: nat, refresh: nat, immediate: bool, ticks: seq<Tick>, k: nat, b: Loop)
    requires Good(v, pool) && k < |ticks|
    requires b == RunLoop(StartLoop(v, immediate, refresh), pool, refresh, ticks[..k]) && !b.done
    ensures var delays := RunLoop(StartLoop(v, immediate, refresh), pool, refresh, ticks).delays;
      k < |delays| && delays[k] ==
        if b.v.known == {} || (immediate && k == 0) then ExpectedDelay(k, immediate, refresh) else refresh
  {
    var l := StartLoop(v, immediate, refresh);
    TurnSleeps(l, pool, refresh, ticks, k, b);
    if b.v.known == {} {
      StaysOnSchedule(l, pool, refresh, ticks[..k], immediate);
      DelayOnSchedule(b, immediate, refresh);
    }
  }

  /** From the first known address on, every delay is the refresh interval. */
  lemma SteadyDelay(v: View, pool: nat, refresh: nat, immediate: bool, ticks: seq<Tick>, j: nat, k: nat)
    requires Good(v, pool) && j <= k < |ticks| && !(immediate && k == 0)
    requires RunLoop(StartLoop(v, immediate, refresh), pool, refresh, ticks[..j]).v.known != {}
    requires !RunLoop(StartLoop(v, immediate, refresh), pool, refresh, ticks[..k]).done
    ensures var delays := RunLoop(StartLoop(v, immediate, refresh), pool, refresh, ticks).delays;
      k < |delays| && delays[k] == refresh
  {
    var l := StartLoop(v, immediate, refresh);
    KnownStays(l, pool, refresh, ticks, j, k);
    EveryDelay(v, pool, refresh, immediate, ticks, k, RunLoop(l, pool, refresh, ticks[..k]));
  }

  /** One of the sends of a tick finds the channel gone. */
  ghost predicate MeetsGone(p: Progress, rooms: Rooms) { exists i: nat | i < p.sends :: rooms(i).Gone? }

  lemma ClosedMeetsGone(p: Progress, pool: nat, rooms: Rooms)
    requires StopsAtRefusal(p, pool, rooms)
    ensures p.sent.Closed? <==> MeetsGone(p, rooms)
    ensures forall i: nat | i < p.sends && rooms(i).Gone? :: i == p.sends - 1
  {
    forall i: nat | i < p.sends && rooms(i).Gone? ensures i == p.sends - 1 {
      assert Reserve(rooms(i), pool) == Closed;
    }
    if p.sent.Closed? { assert rooms(p.sends - 1).Gone?; }
  }

  /** The loop ends exactly with the turn that meets a dropped channel, asleep or at
      a send; nothing is slept, looked up or queued after it. */
  lemma DroppedChannelEndsTheLoop(v: View, pool: nat, refresh: nat, immediate: bool, ticks: seq<Tick>, k: nat, b: Loop)
    requires Good(v, pool) && k < |ticks|
    requires b == RunLoop(StartLoop(v, immediate, refresh), pool, refresh, ticks[..k]) && !b.done
    ensures var l := StartLoop(v, immediate, refresh);
      var m, t := RunLoop(l, pool, refresh, ticks[..k + 1]), ticks[k];
      && (m.done <==> t.Dropped? || (t.found.Some? && MeetsGone(ApplyLookup(b.v, pool, t.found.value, t.builds, t.rooms), t.rooms)))
      && (t.Dropped? || t.found.None? ==> m.v == b.v)
      && |m.delays| == k + 1
      && (m.done ==> RunLoop(l, pool, refresh, ticks) == m)
  {
    var l, t := StartLoop(v, immediate, refresh), ticks[k];
    RunSplit(l, pool, refresh, ticks, k + 1);
    RunSplit(l, pool, refresh, ticks[..k + 1], k);
    assert ticks[..k + 1][..k] == ticks[..k] && ticks[..k + 1][k..] == [t] && [t][1..] == [];
    TurnSleeps(l, pool, refresh, ticks, k, b);
    LoopIsSafe(l, pool, refresh, ticks[..k]);
    if t.Looked? && t.found.Some? {
      TickStopsAtFirstRefusal(b.v, pool, t.found.value, t.builds, t.rooms);
      ClosedMeetsGone(ApplyLookup(b.v, pool, t.found.value, t.builds, t.rooms), pool, t.rooms);
    }
    var m := RunLoop(l, pool, refresh, ticks[..k + 1]);
    assert m == Turn(b, pool, refresh, t);
    if m.done { DoneStays(m, pool, refresh, ticks[k + 1..]); }
  }
}
