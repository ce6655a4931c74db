/** DNS discovery: `Refresher` of `crates/pc-grpc/src/discovery.rs` and its two
    start modes in `crates/pc-grpc/src/lib.rs`.

    A refresher is seen as its `known` addresses, the seed slots still in the
    balancer, and the stream of changes queued so far; what the balancer holds
    is the replay of a prefix of that stream. Lookups, endpoint builds and the
    room found in the change queue at each send are arbitrary. */
module Discovery {
  import opened Arithmetic
  import W = Wrappers

  // ---------------------------------------------------------------------
  // Addresses
  // ---------------------------------------------------------------------

  /** A socket address; `n` ranks addresses of one family as `Ord` does. */
  datatype SocketAddr = V4(n: nat) | V6(n: nat)

  predicate Before(a: SocketAddr, b: SocketAddr) {
    (a.V4? && b.V6?) || (a.V4? == b.V4? && a.n < b.n)
  }

  predicate IsLeast(a: SocketAddr, s: set<SocketAddr>) {
    a in s && forall b <- s :: b == a || Before(a, b)
  }

  lemma {:induction false} LeastExists(s: set<SocketAddr>) returns (least: SocketAddr)
    requires s != {}
    ensures IsLeast(least, s)
    decreases |s|
  {
    least :| least in s;
    if s != {least} {
      var m := LeastExists(s - {least});
      forall b | b in s ensures b == (if Before(least, m) then least else m) || Before(if Before(least, m) then least else m, b) {
        assert b == least || b in s - {least};
      }
      if !Before(least, m) { least := m; }
    } else {
      assert forall b <- s :: b == least;
    }
  }

  function Least(s: set<SocketAddr>): (a: SocketAddr)
    requires s != {}
    ensures IsLeast(a, s)
  {
    assert exists a :: IsLeast(a, s) by { var a := LeastExists(s); }
    var a :| IsLeast(a, s);
    a
  }

  /** Iteration order of a `BTreeSet`. */
  function Ascending(s: set<SocketAddr>): (r: seq<SocketAddr>)
    ensures forall a :: a in r <==> a in s
    ensures forall i, j | 0 <= i < j < |r| :: Before(r[i], r[j])
    ensures |r| == |s|
    decreases |s|
  {
    if s == {} then [] else [Least(s)] + Ascending(s - {Least(s)})
  }

  /** IPv4 addresses only, when there is any. */
  function PreferIpv4(addrs: set<SocketAddr>): (r: set<SocketAddr>)
    ensures r <= addrs && (r == {} <==> addrs == {})
    ensures (exists a <- r :: a.V4?) ==> forall a <- r :: a.V4?
    ensures forall a <- addrs :: a.V4? ==> a in r
    ensures (forall a <- addrs :: a.V6?) ==> r == addrs
  {
    var v4 := set a | a in addrs && a.V4?;
    assert forall a <- addrs :: a.V4? ==> a in v4;
    if exists a <- addrs :: a.V4? then v4 else addrs
  }

  /** `(to_insert, to_remove)`; an empty answer changes nothing. */
  function DiffAddrs(old_: set<SocketAddr>, new_: set<SocketAddr>): (seq<SocketAddr>, seq<SocketAddr>) {
    if new_ == {} then ([], []) else (Ascending(new_ - old_), Ascending(old_ - new_))
  }

  // ---------------------------------------------------------------------
  // Changes and the balancer
  // ---------------------------------------------------------------------

  datatype EndpointKey = Seed(slot: nat) | Addr(addr: SocketAddr, slot: nat)
  datatype Change = Insert(key: EndpointKey) | Remove(key: EndpointKey)

  function Apply1(keys: set<EndpointKey>, c: Change): set<EndpointKey> {
    match c
    case Insert(k) => keys + {k}
    case Remove(k) => keys - {k}
  }

  function ReplayFrom(keys: set<EndpointKey>, cs: seq<Change>): set<EndpointKey>
    decreases |cs|
  {
    if cs == [] then keys else ReplayFrom(Apply1(keys, cs[0]), cs[1..])
  }

  /** What the balancer holds after draining `cs`. */
  function Replay(cs: seq<Change>): set<EndpointKey> { ReplayFrom({}, cs) }

  /** Every change inserts an absent key or removes a present one, and none
      leaves the balancer empty. */
  predicate SoundFrom(keys: set<EndpointKey>, cs: seq<Change>)
    decreases |cs|
  {
    cs == [] ||
    (var next := Apply1(keys, cs[0]);
     && (if cs[0].Insert? then cs[0].key !in keys else cs[0].key in keys)
     && next != {}
     && SoundFrom(next, cs[1..]))
  }

  function AddrSlots(a: SocketAddr, pool: nat): seq<EndpointKey> { seq(pool, (slot: nat) => Addr(a, slot)) }
  function SeedSlots(n: nat): seq<EndpointKey> { seq(n, (slot: nat) => Seed(slot)) }
  function InsertEach(ks: seq<EndpointKey>): seq<Change> { seq(|ks|, i requires 0 <= i < |ks| => Insert(ks[i])) }
  function RemoveEach(ks: seq<EndpointKey>): seq<Change> { seq(|ks|, i requires 0 <= i < |ks| => Remove(ks[i])) }

  // ---------------------------------------------------------------------
  // One tick
  // ---------------------------------------------------------------------

  datatype Sent = Ok | Full | Closed

  /** What one `try_reserve_many` finds: free slots, or a dropped channel. */
  datatype Room = Free(slots: nat) | Gone

  /** The room found by each send of a tick, in order. */
  type Rooms = nat -> Room

  datatype View = View(known: set<SocketAddr>, seedSlots: nat, stream: seq<Change>)

  /** A refresher part-way through a tick, after `sends` sends. */
  datatype Progress = Progress(v: View, sends: nat, sent: Sent)

  function Reserve(room: Room, n: nat): Sent {
    match room
    case Gone => Closed
    case Free(slots) => if n <= slots then Ok else Full
  }

  /** All-or-nothing queueing of one batch; `known` and `seedSlots` as they
      become on success. */
  function SendBatch(p: Progress, batch: seq<Change>, room: Room, known: set<SocketAddr>, seedSlots: nat): Progress {
    var sent := Reserve(room, |batch|);
    Progress(if sent.Ok? then View(known, seedSlots, p.v.stream + batch) else p.v, p.sends + 1, sent)
  }

  function InsertAll(p: Progress, pool: nat, added: seq<SocketAddr>, builds: set<SocketAddr>, rooms: Rooms): Progress
    decreases |added|
  {
    if added == [] || !p.sent.Ok? then p
    else if added[0] !in builds then InsertAll(p, pool, added[1..], builds, rooms)
    else
      var q := SendBatch(p, InsertEach(AddrSlots(added[0], pool)), rooms(p.sends), p.v.known + {added[0]}, p.v.seedSlots);
      InsertAll(q, pool, added[1..], builds, rooms)
  }

  function RemoveAll(p: Progress, pool: nat, gone: seq<SocketAddr>, rooms: Rooms): Progress
    decreases |gone|
  {
    if gone == [] || !p.sent.Ok? then p
    else
      var q := SendBatch(p, RemoveEach(AddrSlots(gone[0], pool)), rooms(p.sends), p.v.known - {gone[0]}, p.v.seedSlots);
      RemoveAll(q, pool, gone[1..], rooms)
  }

  function DropSeeds(p: Progress, rooms: Rooms): Progress {
    if !p.sent.Ok? || p.v.seedSlots == 0 || p.v.known == {} then p
    else SendBatch(p, RemoveEach(SeedSlots(p.v.seedSlots)), rooms(p.sends), p.v.known, 0)
  }

  function ApplyLookup(v: View, pool: nat, found: set<SocketAddr>, builds: set<SocketAddr>, rooms: Rooms): Progress {
    var (added, gone) := DiffAddrs(v.known, found);
    var p := InsertAll(Progress(v, 0, Ok), pool, added, builds, rooms);
    var q := if |p.v.known| > |gone| then RemoveAll(p, pool, gone, rooms) else p;
    DropSeeds(q, rooms)
  }

  // ---------------------------------------------------------------------
  // The refresher loop
  // ---------------------------------------------------------------------

  const FIRST_RETRY: nat := 1000

  /** One turn of the loop: the channel goes while sleeping, or a lookup ends.
      `found` is `None` for a failed or timed-out lookup. */
  datatype Tick =
    | Dropped
    | Looked(found: W.Option<set<SocketAddr>>, builds: set<SocketAddr>, rooms: Rooms)

  datatype Loop = Loop(v: View, first: bool, retry: nat, delays: seq<nat>, done: bool)

  function StartLoop(v: View, immediate: bool, refresh: nat): Loop {
    Loop(v, immediate, Min(FIRST_RETRY, refresh), [], false)
  }

  function Delay(l: Loop, refresh: nat): nat {
    if l.first then 0 else if l.v.known == {} then l.retry else refresh
  }

  /** The schedule after choosing the next delay. */
  function Slept(l: Loop, refresh: nat): Loop {
    l.(first := false,
       retry := if !l.first && l.v.known == {} then Min(l.retry * 2, refresh) else l.retry,
       delays := l.delays + [Delay(l, refresh)])
  }

  function Turn(l: Loop, pool: nat, refresh: nat, t: Tick): Loop {
    if l.done then l
    else
      match t
      case Dropped => Slept(l, refresh).(done := true)
      case Looked(None, _, _) => Slept(l, refresh)
      case Looked(Some(found), builds, rooms) =>
        var p := ApplyLookup(l.v, pool, found, builds, rooms);
        Slept(l, refresh).(v := p.v, done := p.sent.Closed?)
  }

  function RunLoop(l: Loop, pool: nat, refresh: nat, ticks: seq<Tick>): Loop
    decreases |ticks|
  {
    if ticks == [] then l else RunLoop(Turn(l, pool, refresh, ticks[0]), pool, refresh, ticks[1..])
  }

  class Refresher {
    const pool: nat
    const refresh: nat
    var known: set<SocketAddr>
    var seedSlots: nat
    var stream: seq<Change>

    constructor (v: View, pool: nat, refresh: nat)
      ensures this.pool == pool && this.refresh == refresh && Shown() == v
    {
      this.pool, this.refresh := pool, refresh;
      this.known, this.seedSlots, this.stream := v.known, v.seedSlots, v.stream;
    }

    function Shown(): View
      reads this
    {
      View(known, seedSlots, stream)
    }

    method Send(batch: seq<Change>, room: Room) returns (sent: Sent)
      modifies `stream
      ensures sent == Reserve(room, |batch|)
      ensures stream == if sent.Ok? then old(stream) + batch else old(stream)
    {
      match room {
        case Gone => sent := Closed;
        case Free(slots) =>
          if |batch| <= slots {
            stream := stream + batch;
            sent := Ok;
          } else {
            sent := Full;
          }
      }
    }

    method AddAll(added: seq<SocketAddr>, builds: set<SocketAddr>, rooms: Rooms) returns (sends: nat, sent: Sent)
      modifies `known, `stream
      ensures Progress(Shown(), sends, sent) == InsertAll(Progress(old(Shown()), 0, Ok), pool, added, builds, rooms)
    {
      sends := 0;
      ghost var p := InsertAll(Progress(Shown(), 0, Ok), pool, added, builds, rooms);
      for i := 0 to |added|
        invariant seedSlots == old(seedSlots)
        invariant InsertAll(Progress(Shown(), sends, Ok), pool, added[i..], builds, rooms) == p
      {
        var addr := added[i];
        assert added[i..][1..] == added[i + 1..];
        if addr in builds {
          sent := Send(InsertEach(AddrSlots(addr, pool)), rooms(sends));
          sends := sends + 1;
          if !sent.Ok? { return; }
          known := known + {addr};
        }
      }
      sent := Ok;
    }

    method DropAll(start: nat, gone: seq<SocketAddr>, rooms: Rooms) returns (sends: nat, sent: Sent)
      modifies `known, `stream
      ensures Progress(Shown(), sends, sent) == RemoveAll(Progress(old(Shown()), start, Ok), pool, gone, rooms)
    {
      sends := start;
      ghost var p := RemoveAll(Progress(Shown(), start, Ok), pool, gone, rooms);
      for i := 0 to |gone|
        invariant seedSlots == old(seedSlots)
        invariant RemoveAll(Progress(Shown(), sends, Ok), pool, gone[i..], rooms) == p
      {
        assert gone[i..][1..] == gone[i + 1..];
        sent := Send(RemoveEach(AddrSlots(gone[i], pool)), rooms(sends));
        sends := sends + 1;
        if !sent.Ok? { return; }
        known := known - {gone[i]};
      }
      sent := Ok;
    }

    method Apply(found: set<SocketAddr>, builds: set<SocketAddr>, rooms: Rooms) returns (sent: Sent)
      modifies `known, `seedSlots, `stream
      ensures var p := ApplyLookup(old(Shown()), pool, found, builds, rooms); Shown() == p.v && sent == p.sent
    {
      var (added, gone) := DiffAddrs(known, found);
      var sends;
      sends, sent := AddAll(added, builds, rooms);
      if !sent.Ok? { return; }
      if |known| > |gone| {
        sends, sent := DropAll(sends, gone, rooms);
        if !sent.Ok? { return; }
      }
      if seedSlots > 0 && known != {} {
        sent := Send(RemoveEach(SeedSlots(seedSlots)), rooms(sends));
        if sent.Ok? { seedSlots := 0; }
      }
    }

    /** The loop over a script of what happens to it; returns the delays slept. */
    method Run(immediate: bool, ticks: seq<Tick>) returns (delays: seq<nat>)
      modifies `known, `seedSlots, `stream
      ensures var l := RunLoop(StartLoop(old(Shown()), immediate, refresh), pool, refresh, ticks);
        Shown() == l.v && delays == l.delays
    {
      var first, retry := immediate, Min(FIRST_RETRY, refresh);
      delays := [];
      ghost var end := RunLoop(StartLoop(Shown(), immediate, refresh), pool, refresh, ticks);
      for i := 0 to |ticks|
        invariant RunLoop(Loop(Shown(), first, retry, delays, false), pool, refresh, ticks[i..]) == end
      {
        ghost var l := Loop(Shown(), first, retry, delays, false);
        ghost var next := Turn(l, pool, refresh, ticks[i]);
        var delay;
        if first {
          first := false;
          delay := 0;
        } else if known == {} {
          delay := retry;
          retry := Min(retry * 2, refresh);
        } else {
          delay := refresh;
        }
        delays := delays + [delay];
        match ticks[i] {
          case Dropped =>
            DoneStays(next, pool, refresh, ticks[i..][1..]);
            return;
          case Looked(None, _, _) =>
          case Looked(Some(found), builds, rooms) =>
            var sent := Apply(found, builds, rooms);
            if sent.Closed? {
              DoneStays(next, pool, refresh, ticks[i..][1..]);
              return;
            }
        }
      }
    }
  }

  // ---------------------------------------------------------------------
  // The two start modes
  // ---------------------------------------------------------------------

  const DISCOVERY_BUFFER: nat := 1024

  datatype StartError =
    | ZeroRefresh | PoolTooLarge | LookupFailed | BuildFailed | PrewarmFailed | TooManyAddresses | Rejected

  function InsertAddrs(addrs: seq<SocketAddr>, pool: nat): seq<Change> {
    if addrs == [] then []
    else InsertAddrs(addrs[..|addrs| - 1], pool) + InsertEach(AddrSlots(addrs[|addrs| - 1], pool))
  }

  /** Build and queue one pool per address; `try_send` into the fresh queue is
      refused only when the buffer is full. */
  method QueuePools(addrs: seq<SocketAddr>, pool: nat, builds: set<SocketAddr>) returns (stream: seq<Change>, error: W.Option<StartError>)
    requires |addrs| * pool <= DISCOVERY_BUFFER
    ensures error == if forall a <- addrs :: a in builds then W.None else W.Some(BuildFailed)
    ensures error == W.None ==> stream == InsertAddrs(addrs, pool)
  {
    stream := [];
    for i := 0 to |addrs|
      invariant forall k | 0 <= k < i :: addrs[k] in builds
      invariant stream == InsertAddrs(addrs[..i], pool)
    {
      if addrs[i] !in builds { return stream, W.Some(BuildFailed); }
      FitsInBuffer(addrs, i, pool);
      var ok;
      stream, ok := QueueEach(stream, AddrSlots(addrs[i], pool));
      if !ok { return stream, W.Some(Rejected); }
      assert addrs[..i + 1][..i] == addrs[..i] && addrs[..i + 1][i] == addrs[i];
    }
    assert addrs[..|addrs|] == addrs;
    error := W.None;
  }

  /** `connect_discovered_with`. `lookup` is the outcome of the initial lookups,
      never an empty answer; the first address is built and dialled before the
      size check, which rules out that the queue refuses a change: `Rejected`
      never occurs. */
  method ConnectDiscovered(refresh: nat, pool: nat, lookup: W.Option<set<SocketAddr>>, prewarms: bool, builds: set<SocketAddr>)
    returns (r: W.Result<View, StartError>)
    requires lookup != W.Some({})
    ensures r == (
      if refresh == 0 then W.Err(ZeroRefresh)
      else if pool > 1024 then W.Err(PoolTooLarge)
      else if lookup.None? then W.Err(LookupFailed)
      else if Least(lookup.value) !in builds then W.Err(BuildFailed)
      else if !prewarms then W.Err(PrewarmFailed)
      else if |lookup.value| * pool > 1024 then W.Err(TooManyAddresses)
      else if !(lookup.value <= builds) then W.Err(BuildFailed)
      else W.Ok(View(lookup.value, 0, InsertAddrs(Ascending(lookup.value), pool))))
  {
    if refresh == 0 { return W.Err(ZeroRefresh); }
    if pool > DISCOVERY_BUFFER { return W.Err(PoolTooLarge); }
    if lookup.None? { return W.Err(LookupFailed); }
    var initial := lookup.value;
    var first := Ascending(initial)[0];
    if first !in builds { return W.Err(BuildFailed); }
    if !prewarms { return W.Err(PrewarmFailed); }
    if |initial| * pool > DISCOVERY_BUFFER { return W.Err(TooManyAddresses); }
    var stream, error := QueuePools(Ascending(initial), pool, builds);
    r := if error.Some? then W.Err(error.value) else W.Ok(View(initial, 0, stream));
  }

  lemma {:induction false} InsertAddrsLength(addrs: seq<SocketAddr>, pool: nat)
    ensures |InsertAddrs(addrs, pool)| == |addrs| * pool
    decreases |addrs|
  {
    if addrs != [] {
      InsertAddrsLength(addrs[..|addrs| - 1], pool);
      assert (|addrs| - 1) * pool + pool == |addrs| * pool;
    }
  }

  lemma FitsInBuffer(addrs: seq<SocketAddr>, i: nat, pool: nat)
    requires i < |addrs| && |addrs| * pool <= DISCOVERY_BUFFER
    ensures |InsertAddrs(addrs[..i], pool)| + pool <= DISCOVERY_BUFFER
  {
    InsertAddrsLength(addrs[..i], pool);
    assert (i + 1) * pool <= |addrs| * pool;
  }

  /** `try_send` one insert per key, as far as the fresh queue has room. */
  method QueueEach(stream: seq<Change>, keys: seq<EndpointKey>) returns (out: seq<Change>, ok: bool)
    ensures ok <==> keys == [] || |stream| + |keys| <= DISCOVERY_BUFFER
    ensures ok ==> out == stream + InsertEach(keys)
  {
    out := stream;
    for slot := 0 to |keys|
      invariant out == stream + InsertEach(keys[..slot]) && (slot > 0 ==> |out| <= DISCOVERY_BUFFER)
    {
      if |out| >= DISCOVERY_BUFFER { return out, false; }
      out := out + [Insert(keys[slot])];
      assert InsertEach(keys[..slot + 1]) == InsertEach(keys[..slot]) + [Insert(keys[slot])];
    }
    assert keys[..|keys|] == keys;
    ok := true;
  }

  /** `connect_discovered_lazy_with`: the host-name pool as seed, nothing known. */
  method ConnectDiscoveredLazy(refresh: nat, pool: nat, buildsSeed: bool) returns (r: W.Result<View, StartError>)
    ensures r == (
      if refresh == 0 then W.Err(ZeroRefresh)
      else if pool > 1024 then W.Err(PoolTooLarge)
      else if !buildsSeed then W.Err(BuildFailed)
      else W.Ok(View({}, pool, InsertEach(SeedSlots(pool)))))
  {
    if refresh == 0 { return W.Err(ZeroRefresh); }
    if pool > DISCOVERY_BUFFER { return W.Err(PoolTooLarge); }
    if !buildsSeed { return W.Err(BuildFailed); }
    var stream, ok := QueueEach([], SeedSlots(pool));
    if !ok { return W.Err(Rejected); }
    assert [] + InsertEach(SeedSlots(pool)) == InsertEach(SeedSlots(pool));
    return W.Ok(View({}, pool, stream));
  }

  lemma {:induction false} DoneStays(l: Loop, pool: nat, refresh: nat, ticks: seq<Tick>)
    requires l.done
    ensures RunLoop(l, pool, refresh, ticks) == l
    decreases |ticks|
  {
    if ticks != [] { DoneStays(l, pool, refresh, ticks[1..]); }
  }
}
