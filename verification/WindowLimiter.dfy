/** The per-key window limiter of `crates/pc-log/src/ratelimit.rs`. */
module WindowLimiter {
  import opened LogVerdicts
  import opened Wrappers

  datatype Entry = Entry(lastEmit: Option<nat>, suppressed: nat)

  const UNUSED := Entry(None, 0)

  function CheckEntry(e: Entry, now: nat, window: nat): (Entry, Verdict) {
    if window == 0 then (e, Verdict(true, 0))
    else if e.lastEmit.Some? && Since(now, e.lastEmit.value) < window
    then (e.(suppressed := e.suppressed + 1), Verdict(false, 0))
    else (Entry(Some(now), 0), Verdict(true, e.suppressed))
  }

  /** An absent entry behaves as an unused one. */
  function Get(entries: map<string, Entry>, key: string): Entry {
    if key in entries then entries[key] else UNUSED
  }

  class RateLimiter {
    var entries: map<string, Entry>

    constructor ()
      ensures entries == map[]
    {
      entries := map[];
    }

    method Check(key: string, now: nat, window: nat) returns (v: Verdict)
      modifies this
      ensures v == CheckEntry(Get(old(entries), key), now, window).1
      ensures forall k ::
        Get(entries, k) == (if k == key then CheckEntry(Get(old(entries), key), now, window).0 else Get(old(entries), k))
    {
      if window == 0 { return Verdict(true, 0); }
      var entry := if key in entries then entries[key] else UNUSED;
      if entry.lastEmit.Some? && Since(now, entry.lastEmit.value) < window {
        entries := entries[key := entry.(suppressed := entry.suppressed + 1)];
        return Verdict(false, 0);
      }
      entries := entries[key := Entry(Some(now), 0)];
      v := Verdict(true, entry.suppressed);
    }
  }

  // ---------------------------------------------------------------------
  // One key over a run
  // ---------------------------------------------------------------------

  datatype Call = Call(at: nat, window: nat)

  function Verdicts(e: Entry, calls: seq<Call>): seq<Verdict>
    decreases |calls|
  {
    if calls == [] then []
    else
      var (entry, v) := CheckEntry(e, calls[0].at, calls[0].window);
      [v] + Verdicts(entry, calls[1..])
  }

  function EntryAfter(e: Entry, calls: seq<Call>): Entry
    decreases |calls|
  {
    if calls == [] then e else EntryAfter(CheckEntry(e, calls[0].at, calls[0].window).0, calls[1..])
  }

  /** Whatever windows the calls use: emitted, reported and still pending calls add
      up to the calls made. */
  lemma {:induction false} CallsAreConserved(e: Entry, calls: seq<Call>)
    ensures Emitted(Verdicts(e, calls)) + Reported(Verdicts(e, calls)) + EntryAfter(e, calls).suppressed
         == |calls| + e.suppressed
    decreases |calls|
  {
    if calls != [] {
      var (entry, v) := CheckEntry(e, calls[0].at, calls[0].window);
      assert Verdicts(e, calls)[1..] == Verdicts(entry, calls[1..]);
      CallsAreConserved(entry, calls[1..]);
    }
  }

  /** Every emission reports the refused calls since the previous one, of which
      `pending` precede the first. */
  predicate ReportsGaps(vs: seq<Verdict>, pending: nat)
    decreases |vs|
  {
    vs == [] ||
    (if vs[0].allowed then vs[0].suppressed == pending && ReportsGaps(vs[1..], 0)
     else vs[0].suppressed == 0 && ReportsGaps(vs[1..], pending + 1))
  }

  /** Emission times, starting at least a window after `last` and a window apart. */
  predicate Spaced(calls: seq<Call>, vs: seq<Verdict>, last: Option<nat>, window: nat)
    requires |calls| == |vs|
    decreases |calls|
  {
    calls == [] ||
    (if vs[0].allowed
     then (last.None? || calls[0].at >= last.value + window) && Spaced(calls[1..], vs[1..], Some(calls[0].at), window)
     else last.Some? && calls[0].at < last.value + window && Spaced(calls[1..], vs[1..], last, window))
  }

  /** With a fixed non-zero window: each emission reports exactly the calls since
      the previous one, emissions are at least a window apart, and a call is
      refused only within a window of one, whatever the clock does. */
  lemma {:induction false} EmissionsAreSpacedAndReport(e: Entry, calls: seq<Call>, window: nat)
    requires window > 0 && forall c <- calls :: c.window == window
    ensures |Verdicts(e, calls)| == |calls|
    ensures ReportsGaps(Verdicts(e, calls), e.suppressed)
    ensures Spaced(calls, Verdicts(e, calls), e.lastEmit, window)
    decreases |calls|
  {
    if calls != [] {
      assert calls[0] in calls;
      var (entry, v) := CheckEntry(e, calls[0].at, calls[0].window);
      assert Verdicts(e, calls)[1..] == Verdicts(entry, calls[1..]);
      EmissionsAreSpacedAndReport(entry, calls[1..], window);
    }
  }

  /** A call with a zero window always emits, reports nothing, and leaves the entry
      as the calls before it left it, wherever in a run it stands. */
  lemma {:induction false} ZeroWindowIsTransparent(e: Entry, calls: seq<Call>, k: nat)
    requires k < |calls| && calls[k].window == 0
    ensures |Verdicts(e, calls)| == |calls| && Verdicts(e, calls)[k] == Verdict(true, 0)
    ensures EntryAfter(e, calls[..k + 1]) == EntryAfter(e, calls[..k])
    decreases k
  {
    var (entry, v) := CheckEntry(e, calls[0].at, calls[0].window);
    VerdictPerCall(e, calls);
    assert calls[..k + 1][1..] == calls[1..][..k];
    if k > 0 {
      assert calls[..k][1..] == calls[1..][..k - 1];
      ZeroWindowIsTransparent(entry, calls[1..], k - 1);
    }
  }

  lemma {:induction false} VerdictPerCall(e: Entry, calls: seq<Call>)
    ensures |Verdicts(e, calls)| == |calls|
    decreases |calls|
  {
    if calls != [] { VerdictPerCall(CheckEntry(e, calls[0].at, calls[0].window).0, calls[1..]); }
  }

  // ---------------------------------------------------------------------
  // Keys are independent
  // ---------------------------------------------------------------------

  function AllVerdicts(entries: map<string, Entry>, calls: seq<Keyed<Call>>): seq<Verdict>
    decreases |calls|
  {
    if calls == [] then []
    else
      var (entry, v) := CheckEntry(Get(entries, calls[0].key), calls[0].call.at, calls[0].call.window);
      [v] + AllVerdicts(entries[calls[0].key := entry], calls[1..])
  }

  /** However calls on other keys interleave, a key gets the verdicts of a limiter
      of its own. */
  lemma {:induction false} KeysAreIndependent(entries: map<string, Entry>, calls: seq<Keyed<Call>>, key: string)
    ensures |AllVerdicts(entries, calls)| == |calls|
    ensures VerdictsOf(key, calls, AllVerdicts(entries, calls)) == Verdicts(Get(entries, key), CallsOf(key, calls))
    decreases |calls|
  {
    if calls != [] {
      var (entry, v) := CheckEntry(Get(entries, calls[0].key), calls[0].call.at, calls[0].call.window);
      var entries' := entries[calls[0].key := entry];
      KeysAreIndependent(entries', calls[1..], key);
      assert AllVerdicts(entries, calls)[1..] == AllVerdicts(entries', calls[1..]);
      if calls[0].key == key {
        assert CallsOf(key, calls)[1..] == CallsOf(key, calls[1..]);
      } else {
        assert CallsOf(key, calls) == CallsOf(key, calls[1..]);
      }
    }
  }
}
