/** The refresher never empties the balancer, and what it thinks is there is
    there: at every point of every run, from both start modes. */
module DiscoverySafety {
  import W = Wrappers
  import opened Discovery

  // ---------------------------------------------------------------------
  // Replaying batches
  // ---------------------------------------------------------------------

  lemma {:induction false} ReplayAppend(keys: set<EndpointKey>, a: seq<Change>, b: seq<Change>)
    ensures ReplayFrom(keys, a + b) == ReplayFrom(ReplayFrom(keys, a), b)
    ensures SoundFrom(keys, a + b) <==> SoundFrom(keys, a) && SoundFrom(ReplayFrom(keys, a), b)
    decreases |a|
  {
    if a == [] {
      assert a + b == b;
    } else {
      assert (a + b)[1..] == a[1..] + b;
      ReplayAppend(Apply1(keys, a[0]), a[1..], b);
    }
  }

  predicate Distinct(ks: seq<EndpointKey>) {
    forall i, j | 0 <= i < j < |ks| :: ks[i] != ks[j]
  }

  lemma {:induction false} InsertBatch(keys: set<EndpointKey>, ks: seq<EndpointKey>)
    requires Distinct(ks) && forall k <- ks :: k !in keys
    ensures SoundFrom(keys, InsertEach(ks))
    ensures forall k :: k in ReplayFrom(keys, InsertEach(ks)) <==> k in keys || k in ks
    decreases |ks|
  {
    if ks != [] {
      assert InsertEach(ks)[1..] == InsertEach(ks[1..]);
      InsertBatch(keys + {ks[0]}, ks[1..]);
    }
  }

  /** Removing keys while `stays` is not among them empties nothing. */
  lemma {:induction false} RemoveBatch(keys: set<EndpointKey>, ks: seq<EndpointKey>, stays: EndpointKey)
    requires Distinct(ks) && (forall k <- ks :: k in keys) && stays in keys && stays !in ks
    ensures SoundFrom(keys, RemoveEach(ks))
    ensures forall k :: k in ReplayFrom(keys, RemoveEach(ks)) <==> k in keys && k !in ks
    decreases |ks|
  {
    if ks != [] {
      assert RemoveEach(ks)[1..] == RemoveEach(ks[1..]);
      assert stays in keys - {ks[0]};
      RemoveBatch(keys - {ks[0]}, ks[1..], stays);
    }
  }

  // ---------------------------------------------------------------------
  // The invariant
  // ---------------------------------------------------------------------

  predicate Present(v: View, pool: nat, k: EndpointKey) {
    match k
    case Seed(slot) => slot < v.seedSlots
    case Addr(a, slot) => a in v.known && slot < pool
  }

  /** The stream is sound from an empty balancer, its replay is exactly one pool
      per known address plus the remaining seeds, and that is not nothing. */
  ghost predicate Good(v: View, pool: nat) {
    && pool >= 1
    && SoundFrom({}, v.stream)
    && (forall k :: k in Replay(v.stream) <==> Present(v, pool, k))
    && (v.seedSlots == 0 || v.seedSlots == pool)
    && (v.known == {} ==> v.seedSlots > 0)
  }

  lemma InsertKeepsGood(v: View, pool: nat, a: SocketAddr)
    requires SoundFrom({}, v.stream) && (forall k :: k in Replay(v.stream) <==> Present(v, pool, k)) && a !in v.known
    ensures var w := View(v.known + {a}, v.seedSlots, v.stream + InsertEach(AddrSlots(a, pool)));
      SoundFrom({}, w.stream) && forall k :: k in Replay(w.stream) <==> Present(w, pool, k)
  {
    var ks := AddrSlots(a, pool);
    InsertBatch(Replay(v.stream), ks);
    ReplayAppend({}, v.stream, InsertEach(ks));
    forall k ensures k in ks <==> k.Addr? && k.addr == a && k.slot < pool {
      if k.Addr? && k.addr == a && k.slot < pool { assert ks[k.slot] == k; }
    }
  }

  lemma RemoveKeepsGood(v: View, pool: nat, a: SocketAddr, stays: SocketAddr)
    requires Good(v, pool) && a in v.known && stays in v.known && stays != a
    ensures Good(View(v.known - {a}, v.seedSlots, v.stream + RemoveEach(AddrSlots(a, pool))), pool)
  {
    var ks := AddrSlots(a, pool);
    assert Present(v, pool, Addr(stays, 0));
    RemoveBatch(Replay(v.stream), ks, Addr(stays, 0));
    ReplayAppend({}, v.stream, RemoveEach(ks));
    assert stays in v.known - {a};
    forall k ensures k in ks <==> k.Addr? && k.addr == a && k.slot < pool {
      if k.Addr? && k.addr == a && k.slot < pool { assert ks[k.slot] == k; }
    }
  }

  lemma DropSeedsKeepsGood(v: View, pool: nat)
    requires Good(v, pool) && v.known != {}
    ensures Good(View(v.known, 0, v.stream + RemoveEach(SeedSlots(v.seedSlots))), pool)
  {
    var ks := SeedSlots(v.seedSlots);
    var stays :| stays in v.known;
    assert Present(v, pool, Addr(stays, 0));
    RemoveBatch(Replay(v.stream), ks, Addr(stays, 0));
    ReplayAppend({}, v.stream, RemoveEach(ks));
    forall k ensures k in ks <==> k.Seed? && k.slot < v.seedSlots {
      if k.Seed? && k.slot < v.seedSlots { assert ks[k.slot] == k; }
    }
  }

  // ---------------------------------------------------------------------
  // One tick
  // ---------------------------------------------------------------------

  predicate Unrepeated(addrs: seq<SocketAddr>) {
    forall i, j | 0 <= i < j < |addrs| :: addrs[i] != addrs[j]
  }

  lemma {:induction false} InsertAllSafe(p: Progress, pool: nat, added: seq<SocketAddr>, builds: set<SocketAddr>, rooms: Rooms)
    requires Good(p.v, pool) && Unrepeated(added) && forall a <- added :: a !in p.v.known
    ensures var q := InsertAll(p, pool, added, builds, rooms);
      && Good(q.v, pool) && p.v.stream <= q.v.stream && q.v.seedSlots == p.v.seedSlots
      && p.v.known <= q.v.known && (forall a <- q.v.known :: a in p.v.known || a in added)
    decreases |added|
  {
    if added != [] && p.sent.Ok? {
      if added[0] !in builds {
        InsertAllSafe(p, pool, added[1..], builds, rooms);
      } else {
        InsertKeepsGood(p.v, pool, added[0]);
        var q := SendBatch(p, InsertEach(AddrSlots(added[0], pool)), rooms(p.sends), p.v.known + {added[0]}, p.v.seedSlots);
        InsertAllSafe(q, pool, added[1..], builds, rooms);
      }
    }
  }

  lemma {:induction false} RemoveAllSafe(p: Progress, pool: nat, gone: seq<SocketAddr>, rooms: Rooms, stays: SocketAddr)
    requires Good(p.v, pool) && Unrepeated(gone) && (forall a <- gone :: a in p.v.known)
    requires stays in p.v.known && stays !in gone
    ensures var q := RemoveAll(p, pool, gone, rooms);
      && Good(q.v, pool) && p.v.stream <= q.v.stream && q.v.seedSlots == p.v.seedSlots
      && q.v.known <= p.v.known && stays in q.v.known && (forall a <- p.v.known :: a in q.v.known || a in gone)
    decreases |gone|
  {
    if gone != [] && p.sent.Ok? {
      RemoveKeepsGood(p.v, pool, gone[0], stays);
      var q := SendBatch(p, RemoveEach(AddrSlots(gone[0], pool)), rooms(p.sends), p.v.known - {gone[0]}, p.v.seedSlots);
      RemoveAllSafe(q, pool, gone[1..], rooms, stays);
    }
  }

  /** More addresses than are to be removed leave one that stays. */
  lemma SomethingStays(known: set<SocketAddr>, gone: seq<SocketAddr>, was: set<SocketAddr>) returns (stays: SocketAddr)
    requires |known| > |gone| && |gone| == |was| && forall a :: a in gone <==> a in was
    ensures stays in known && stays !in gone
  {
    if known <= was { CardinalityMonotone(known, was); }
    assert exists a :: a in known && a !in was;
    stays :| stays in known && stays !in was;
  }

  lemma {:induction false} CardinalityMonotone<T>(a: set<T>, b: set<T>)
    requires a <= b
    ensures |a| <= |b| && (a != b ==> |a| < |b|)
    decreases |a|
  {
    if a == {} {
      if b != {} { var y :| y in b; assert |b| == |b - {y}| + 1; }
    } else {
      var x :| x in a;
      if a != b { var y :| y in b && y !in a; assert y in b - {x}; }
      CardinalityMonotone(a - {x}, b - {x});
    }
  }

  /** The inserting half of a tick. */
  lemma AdditionsAreSafe(v: View, pool: nat, found: set<SocketAddr>, builds: set<SocketAddr>, rooms: Rooms)
    requires Good(v, pool)
    ensures var p := InsertAll(Progress(v, 0, Ok), pool, DiffAddrs(v.known, found).0, builds, rooms);
      && Good(p.v, pool) && v.stream <= p.v.stream && p.v.seedSlots == v.seedSlots
      && v.known <= p.v.known <= v.known + found
  {
    var added := DiffAddrs(v.known, found).0;
    forall i, j | 0 <= i < j < |added| ensures added[i] != added[j] { assert Before(added[i], added[j]); }
    InsertAllSafe(Progress(v, 0, Ok), pool, added, builds, rooms);
  }

  /** The removing half: only addresses outside a non-empty answer go, and one stays. */
  lemma RemovalsAreSafe(p: Progress, pool: nat, was: set<SocketAddr>, found: set<SocketAddr>, rooms: Rooms)
    requires Good(p.v, pool) && was <= p.v.known && |p.v.known| > |DiffAddrs(was, found).1|
    ensures var q := RemoveAll(p, pool, DiffAddrs(was, found).1, rooms);
      && Good(q.v, pool) && p.v.stream <= q.v.stream && q.v.seedSlots == p.v.seedSlots && q.v.known != {}
      && (if found == {} then q == p else p.v.known - (was - found) <= q.v.known <= p.v.known)
  {
    var gone := DiffAddrs(was, found).1;
    forall i, j | 0 <= i < j < |gone| ensures gone[i] != gone[j] { assert Before(gone[i], gone[j]); }
    var stays := SomethingStays(p.v.known, gone, if found == {} then {} else was - found);
    RemoveAllSafe(p, pool, gone, rooms, stays);
  }

  lemma SeedDropIsSafe(q: Progress, pool: nat, rooms: Rooms)
    requires Good(q.v, pool)
    ensures var w := DropSeeds(q, rooms).v;
      && Good(w, pool) && q.v.stream <= w.stream && w.known == q.v.known
      && (w.seedSlots == q.v.seedSlots || (w.seedSlots == 0 && w.known != {}))
  {
    if q.v.known != {} { DropSeedsKeepsGood(q.v, pool); }
  }

  /** A tick keeps the invariant whatever it meets: failing builds, a full queue
      half-way, a dropped channel. It only adds addresses of the answer, only
      removes addresses outside it, and never forgets the last one. */
  lemma TickIsSafe(v: View, pool: nat, found: set<SocketAddr>, builds: set<SocketAddr>, rooms: Rooms)
    requires Good(v, pool)
    ensures var w := ApplyLookup(v, pool, found, builds, rooms).v;
      && Good(w, pool) && v.stream <= w.stream
      && (v.known != {} ==> w.known != {})
      && (w.seedSlots == v.seedSlots || (w.seedSlots == 0 && w.known != {}))
      && (if found == {} then w.known == v.known else v.known * found <= w.known <= v.known + found)
  {
    var (added, gone) := DiffAddrs(v.known, found);
    var p := InsertAll(Progress(v, 0, Ok), pool, added, builds, rooms);
    AdditionsAreSafe(v, pool, found, builds, rooms);
    var q := if |p.v.known| > |gone| then RemoveAll(p, pool, gone, rooms) else p;
    if |p.v.known| > |gone| {
      RemovalsAreSafe(p, pool, v.known, found, rooms);
    }
    SeedDropIsSafe(q, pool, rooms);
  }

  // ---------------------------------------------------------------------
  // Where a tick stops
  // ---------------------------------------------------------------------

  /** All sends but possibly the last found room for a whole pool; the last did
      too, or its refusal is how the tick ended. */
  ghost predicate StopsAtRefusal(p: Progress, pool: nat, rooms: Rooms) {
    && (forall i: nat | i < p.sends - 1 :: Reserve(rooms(i), pool).Ok?)
    && (p.sends == 0 ==> p.sent.Ok?)
    && (p.sends > 0 ==> p.sent == Reserve(rooms(p.sends - 1), pool))
  }

  lemma SendStops(p: Progress, pool: nat, batch: seq<Change>, rooms: Rooms, known: set<SocketAddr>, seedSlots: nat)
    requires StopsAtRefusal(p, pool, rooms) && p.sent.Ok? && |batch| == pool
    ensures StopsAtRefusal(SendBatch(p, batch, rooms(p.sends), known, seedSlots), pool, rooms)
  {
  }

  lemma {:induction false} InsertAllStops(p: Progress, pool: nat, added: seq<SocketAddr>, builds: set<SocketAddr>, rooms: Rooms)
    requires StopsAtRefusal(p, pool, rooms)
    ensures StopsAtRefusal(InsertAll(p, pool, added, builds, rooms), pool, rooms)
    decreases |added|
  {
    if added != [] && p.sent.Ok? {
      var q := SendBatch(p, InsertEach(AddrSlots(added[0], pool)), rooms(p.sends), p.v.known + {added[0]}, p.v.seedSlots);
      SendStops(p, pool, InsertEach(AddrSlots(added[0], pool)), rooms, p.v.known + {added[0]}, p.v.seedSlots);
      InsertAllStops(if added[0] in builds then q else p, pool, added[1..], builds, rooms);
    }
  }

  lemma {:induction false} RemoveAllStops(p: Progress, pool: nat, gone: seq<SocketAddr>, rooms: Rooms)
    requires StopsAtRefusal(p, pool, rooms)
    ensures StopsAtRefusal(RemoveAll(p, pool, gone, rooms), pool, rooms)
    decreases |gone|
  {
    if gone != [] && p.sent.Ok? {
      var q := SendBatch(p, RemoveEach(AddrSlots(gone[0], pool)), rooms(p.sends), p.v.known - {gone[0]}, p.v.seedSlots);
      SendStops(p, pool, RemoveEach(AddrSlots(gone[0], pool)), rooms, p.v.known - {gone[0]}, p.v.seedSlots);
      RemoveAllStops(q, pool, gone[1..], rooms);
    }
  }

  /** A tick stops at the first refused batch, and reports why. */
  lemma TickStopsAtFirstRefusal(v: View, pool: nat, found: set<SocketAddr>, builds: set<SocketAddr>, rooms: Rooms)
    requires Good(v, pool)
    ensures StopsAtRefusal(ApplyLookup(v, pool, found, builds, rooms), pool, rooms)
  {
    var (added, gone) := DiffAddrs(v.known, found);
    var p := InsertAll(Progress(v, 0, Ok), pool, added, builds, rooms);
    InsertAllStops(Progress(v, 0, Ok), pool, added, builds, rooms);
    AdditionsAreSafe(v, pool, found, builds, rooms);
    var q := if |p.v.known| > |gone| then RemoveAll(p, pool, gone, rooms) else p;
    if |p.v.known| > |gone| {
      RemoveAllStops(p, pool, gone, rooms);
      RemovalsAreSafe(p, pool, v.known, found, rooms);
    }
    if q.sent.Ok? && q.v.seedSlots > 0 && q.v.known != {} {
      SendStops(q, pool, RemoveEach(SeedSlots(q.v.seedSlots)), rooms, q.v.known, 0);
    }
  }

  // ---------------------------------------------------------------------
  // Whole runs
  // ---------------------------------------------------------------------

  lemma TurnIsSafe(l: Loop, pool: nat, refresh: nat, t: Tick)
    requires Good(l.v, pool)
    ensures var m := Turn(l, pool, refresh, t);
      Good(m.v, pool) && l.v.stream <= m.v.stream && (l.v.known != {} ==> m.v.known != {})
  {
    if !l.done && t.Looked? && t.found.Some? {
      TickIsSafe(l.v, pool, t.found.value, t.builds, t.rooms);
    }
  }

  lemma {:induction false} LoopIsSafe(l: Loop, pool: nat, refresh: nat, ticks: seq<Tick>)
    requires Good(l.v, pool)
    ensures var m := RunLoop(l, pool, refresh, ticks);
      Good(m.v, pool) && l.v.stream <= m.v.stream && (l.v.known != {} ==> m.v.known != {})
    decreases |ticks|
  {
    if ticks != [] {
      TurnIsSafe(l, pool, refresh, ticks[0]);
      LoopIsSafe(Turn(l, pool, refresh, ticks[0]), pool, refresh, ticks[1..]);
    }
  }

  lemma {:induction false} InsertAddrsIsGood(addrs: seq<SocketAddr>, pool: nat)
    requires Unrepeated(addrs)
    ensures var v := View(set a | a in addrs, 0, InsertAddrs(addrs, pool));
      SoundFrom({}, v.stream) && forall k :: k in Replay(v.stream) <==> Present(v, pool, k)
    decreases |addrs|
  {
    if addrs != [] {
      var n := |addrs| - 1;
      InsertAddrsIsGood(addrs[..n], pool);
      var v := View(set a | a in addrs[..n], 0, InsertAddrs(addrs[..n], pool));
      assert addrs[n] !in addrs[..n];
      InsertKeepsGood(v, pool, addrs[n]);
      assert addrs == addrs[..n] + [addrs[n]];
      assert (set a | a in addrs) == v.known + {addrs[n]};
    }
  }

  /** Where a run may start: a started refresher of either mode. */
  ghost predicate Started(v: View, pool: nat, immediate: bool) {
    || (!immediate && v.known != {} && v == View(v.known, 0, InsertAddrs(Ascending(v.known), pool)))
    || (immediate && v == View({}, pool, InsertEach(SeedSlots(pool))))
  }

  lemma StartIsGood(v: View, pool: nat, immediate: bool)
    requires pool >= 1 && Started(v, pool, immediate)
    ensures Good(v, pool)
  {
    if immediate {
      var ks := SeedSlots(pool);
      InsertBatch({}, ks);
      forall k ensures k in ks <==> k.Seed? && k.slot < pool {
        if k.Seed? && k.slot < pool { assert ks[k.slot] == k; }
      }
    } else {
      var addrs := Ascending(v.known);
      forall i, j | 0 <= i < j < |addrs| ensures addrs[i] != addrs[j] { assert Before(addrs[i], addrs[j]); }
      InsertAddrsIsGood(addrs, pool);
      assert v.known == set a | a in addrs;
    }
  }

  /** Every non-empty prefix of a sound stream leaves something balanced, and each
      change acts: it inserts an absent key or removes a present one. */
  lemma SoundPrefix(cs: seq<Change>, n: nat)
    requires SoundFrom({}, cs) && n <= |cs|
    ensures n > 0 ==> Replay(cs[..n]) != {}
    ensures n < |cs| ==> (if cs[n].Insert? then cs[n].key !in Replay(cs[..n]) else cs[n].key in Replay(cs[..n]))
  {
    assert cs == cs[..n] + cs[n..];
    ReplayAppend({}, cs[..n], cs[n..]);
    if n > 0 {
      assert cs[..n] == cs[..n - 1] + [cs[n - 1]];
      ReplayAppend({}, cs[..n - 1], [cs[n - 1]]);
    }
  }

  /** At every prefix of the change stream of every run, from either start mode,
      the balancer is non-empty; each change acts; and once an address is known
      some address stays known. */
  lemma BalancerIsNeverEmptied(v: View, pool: nat, refresh: nat, immediate: bool, ticks: seq<Tick>, l: Loop, later: seq<Tick>, n: nat)
    requires pool >= 1 && Started(v, pool, immediate)
    requires l == RunLoop(StartLoop(v, immediate, refresh), pool, refresh, ticks)
    ensures 0 < n <= |l.v.stream| ==> Replay(l.v.stream[..n]) != {}
    ensures n < |l.v.stream| ==>
      var c := l.v.stream[n]; if c.Insert? then c.key !in Replay(l.v.stream[..n]) else c.key in Replay(l.v.stream[..n])
    ensures l.v.known != {} ==> RunLoop(l, pool, refresh, later).v.known != {}
  {
    StartIsGood(v, pool, immediate);
    LoopIsSafe(StartLoop(v, immediate, refresh), pool, refresh, ticks);
    if n <= |l.v.stream| { SoundPrefix(l.v.stream, n); }
    LoopIsSafe(l, pool, refresh, later);
  }

  /** After any tick of any run the queued changes add up to exactly one pool per
      known address plus the remaining seeds. */
  lemma KnownAgreesWithBalancer(v: View, pool: nat, refresh: nat, immediate: bool, ticks: seq<Tick>, l: Loop, k: EndpointKey)
    requires pool >= 1 && Started(v, pool, immediate)
    requires l == RunLoop(StartLoop(v, immediate, refresh), pool, refresh, ticks)
    ensures k in Replay(l.v.stream) <==> (match k
      case Seed(slot) => slot < l.v.seedSlots
      case Addr(a, slot) => a in l.v.known && slot < pool)
  {
    StartIsGood(v, pool, immediate);
    LoopIsSafe(StartLoop(v, immediate, refresh), pool, refresh, ticks);
  }
}
