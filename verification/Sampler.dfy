/** The per-key log sampler of `crates/pc-log/src/sampler.rs`. Each check is one
    exclusive access to the key's entry; the clock reading may be older than the
    entry's reset, as it is taken before the entry is locked. */
module Sampler {
  import opened Arithmetic
  import opened LogVerdicts
  import opened Wrappers

  datatype SamplerConfig = SamplerConfig(initial: nat, thereafter: nat, period: nat)

  datatype Entry = Entry(count: nat, reset: nat)

  /** One second replaces an omitted period of an enabled sampler. */
  function Initialized(config: Option<SamplerConfig>): Option<SamplerConfig> {
    match config
    case None => None
    case Some(c) => Some(if c.period == 0 && c.initial > 0 then c.(period := 1000) else c)
  }

  predicate Enabled(config: Option<SamplerConfig>) { config.Some? && config.value.initial > 0 }

  function Judge(c: SamplerConfig, n: nat): Verdict {
    if n <= c.initial then Verdict(true, 0)
    else if c.thereafter == 0 then Verdict(false, 0)
    else if (n - c.initial) % c.thereafter == 0 then Verdict(true, c.thereafter - 1)
    else Verdict(false, 0)
  }

  function CheckEntry(c: SamplerConfig, e: Option<Entry>, now: nat): (Entry, Verdict) {
    var entry := if e.Some? then e.value else Entry(0, now);
    if Since(now, entry.reset) >= c.period then (Entry(1, now), Verdict(true, 0))
    else (Entry(entry.count + 1, entry.reset), Judge(c, entry.count + 1))
  }

  function Get(entries: map<string, Entry>, key: string): Option<Entry> {
    if key in entries then Some(entries[key]) else None
  }

  class Sampler {
    const config: Option<SamplerConfig>
    var entries: map<string, Entry>

    constructor (config: Option<SamplerConfig>)
      ensures this.config == config && entries == map[]
    {
      this.config, this.entries := config, map[];
    }

    method Check(key: string, now: nat) returns (v: Verdict)
      modifies this
      ensures !Enabled(config) ==> v == Verdict(true, 0) && entries == old(entries)
      ensures Enabled(config) ==>
        v == CheckEntry(config.value, Get(old(entries), key), now).1
        && entries == old(entries)[key := CheckEntry(config.value, Get(old(entries), key), now).0]
    {
      if config.None? || config.value.initial == 0 { return Verdict(true, 0); }
      var c := config.value;
      var entry := if key in entries then entries[key] else Entry(0, now);
      if Since(now, entry.reset) >= c.period {
        entries := entries[key := Entry(1, now)];
        return Verdict(true, 0);
      }
      entry := entry.(count := entry.count + 1);
      entries := entries[key := entry];
      var n := entry.count;
      if n <= c.initial { return Verdict(true, 0); }
      if c.thereafter == 0 { return Verdict(false, 0); }
      var over := n - c.initial;
      if over % c.thereafter == 0 { return Verdict(true, c.thereafter - 1); }
      v := Verdict(false, 0);
    }
  }

  // ---------------------------------------------------------------------
  // One key over a run
  // ---------------------------------------------------------------------

  function Verdicts(c: SamplerConfig, e: Option<Entry>, times: seq<nat>): seq<Verdict>
    decreases |times|
  {
    if times == [] then []
    else
      var (entry, v) := CheckEntry(c, e, times[0]);
      [v] + Verdicts(c, Some(entry), times[1..])
  }

  /** Sizes of the sampling windows of a run, told from the clock alone: a window
      opened at `reset`, holding `size` calls so far, takes every call less than
      a period after it, and the next call opens another. */
  function WindowSizes(period: nat, reset: nat, size: nat, times: seq<nat>): seq<nat>
    decreases |times|
  {
    if times == [] then [size]
    else if period > 0 && times[0] < reset + period then WindowSizes(period, reset, size + 1, times[1..])
    else [size] + WindowSizes(period, times[0], 1, times[1..])
  }

  /** Calls beyond the initial burst. */
  function Over(c: SamplerConfig, n: nat): nat { if n <= c.initial then 0 else n - c.initial }

  /** Lines emitted for `n` calls in one window, and calls neither emitted nor
      reported at its end. */
  function WindowEmits(c: SamplerConfig, n: nat): nat {
    (if n <= c.initial then n else c.initial) + (if c.thereafter == 0 then 0 else Over(c, n) / c.thereafter)
  }

  function WindowLoses(c: SamplerConfig, n: nat): nat {
    if c.thereafter == 0 then Over(c, n) else Over(c, n) % c.thereafter
  }

  function SumEmits(c: SamplerConfig, sizes: seq<nat>): nat {
    if sizes == [] then 0 else WindowEmits(c, sizes[0]) + SumEmits(c, sizes[1..])
  }

  function SumLoses(c: SamplerConfig, sizes: seq<nat>): nat {
    if sizes == [] then 0 else WindowLoses(c, sizes[0]) + SumLoses(c, sizes[1..])
  }

  /** One more call in a window changes its totals by that call's verdict. */
  lemma JudgeStep(c: SamplerConfig, n: nat)
    requires c.initial > 0
    ensures var v := Judge(c, n + 1);
      && WindowEmits(c, n + 1) == WindowEmits(c, n) + (if v.allowed then 1 else 0)
      && WindowLoses(c, n + 1) + (if v.allowed then 1 else 0) + v.suppressed == WindowLoses(c, n) + 1
  {
    if c.thereafter > 0 && n >= c.initial { DivStep(n - c.initial, c.thereafter); }
  }

  lemma {:induction false} RunTotals(c: SamplerConfig, e: Entry, times: seq<nat>)
    requires c.initial > 0 && e.count >= 1
    ensures var vs := Verdicts(c, Some(e), times); var sizes := WindowSizes(c.period, e.reset, e.count, times);
      && Emitted(vs) + WindowEmits(c, e.count) == SumEmits(c, sizes)
      && Emitted(vs) + Reported(vs) + SumLoses(c, sizes) == |times| + WindowLoses(c, e.count)
    decreases |times|
  {
    if times == [] {
      SumsOfCons(c, e.count, []);
      assert [e.count] + [] == [e.count];
    } else {
      var (entry, v) := CheckEntry(c, Some(e), times[0]);
      TotalsOfCons(v, Verdicts(c, Some(entry), times[1..]));
      RunTotals(c, entry, times[1..]);
      if c.period > 0 && times[0] < e.reset + c.period {
        JudgeStep(c, e.count);
      } else {
        SumsOfCons(c, e.count, WindowSizes(c.period, times[0], 1, times[1..]));
        OneCall(c);
      }
    }
  }

  lemma SumsOfCons(c: SamplerConfig, size: nat, sizes: seq<nat>)
    ensures SumEmits(c, [size] + sizes) == WindowEmits(c, size) + SumEmits(c, sizes)
    ensures SumLoses(c, [size] + sizes) == WindowLoses(c, size) + SumLoses(c, sizes)
  {
    assert ([size] + sizes)[1..] == sizes;
  }

  lemma OneCall(c: SamplerConfig)
    requires c.initial > 0
    ensures WindowEmits(c, 1) == 1 && WindowLoses(c, 1) == 0
  {
    if c.thereafter > 0 { DivUnique(0, 0, 0, c.thereafter); }
  }

  /** Over every run on a key, with the windows told from the clock: each window
      of `n` calls emits `min(n, initial) + max(0, n - initial) / thereafter`
      lines, and emitted plus reported calls fall short of all calls by exactly
      the remainders. */
  lemma ClosedForm(c: SamplerConfig, first: nat, times: seq<nat>)
    requires c.initial > 0
    ensures var vs := Verdicts(c, None, [first] + times); var sizes := WindowSizes(c.period, first, 1, times);
      && Emitted(vs) == SumEmits(c, sizes)
      && Emitted(vs) + Reported(vs) + SumLoses(c, sizes) == |times| + 1
  {
    var (entry, v) := CheckEntry(c, None, first);
    assert ([first] + times)[1..] == times;
    TotalsOfCons(v, Verdicts(c, Some(entry), times));
    RunTotals(c, entry, times);
    OneCall(c);
  }

  lemma {:induction false} OneWindow(period: nat, reset: nat, size: nat, times: seq<nat>)
    requires period > 0 && forall i | 0 <= i < |times| :: times[i] < reset + period
    ensures WindowSizes(period, reset, size, times) == [size + |times|]
    decreases |times|
  {
    if times != [] { OneWindow(period, reset, size + 1, times[1..]); }
  }

  lemma OneWindowEmits(c: SamplerConfig, first: nat, times: seq<nat>)
    requires c.initial > 0 && c.period > 0 && forall i | 0 <= i < |times| :: times[i] < first + c.period
    ensures Emitted(Verdicts(c, None, [first] + times)) == WindowEmits(c, |times| + 1)
  {
    ClosedForm(c, first, times);
    OneWindow(c.period, first, 1, times);
    var n := |times| + 1;
    SumsOfCons(c, n, []);
    assert [n] + [] == [n];
  }

  /** A sampler installed with `initial > 0` samples even with no period given: `n`
      calls on a key within one period of the first, or within a second of it when
      none is given, emit as one window. */
  lemma InstalledSamples(c: SamplerConfig, first: nat, times: seq<nat>)
    requires c.initial > 0
    requires forall i | 0 <= i < |times| :: times[i] < first + if c.period > 0 then c.period else 1000
    ensures var d := Initialized(Some(c));
      && Enabled(d) && d.value.initial == c.initial && d.value.thereafter == c.thereafter
      && Emitted(Verdicts(d.value, None, [first] + times)) == WindowEmits(d.value, |times| + 1)
  {
    var d := Initialized(Some(c)).value;
    OneWindowEmits(d, first, times);
  }

  // ---------------------------------------------------------------------
  // Keys are independent
  // ---------------------------------------------------------------------

  /** Verdicts of a run over many keys. */
  function AllVerdicts(c: SamplerConfig, entries: map<string, Entry>, calls: seq<Keyed<nat>>): seq<Verdict>
    decreases |calls|
  {
    if calls == [] then []
    else
      var (entry, v) := CheckEntry(c, Get(entries, calls[0].key), calls[0].call);
      [v] + AllVerdicts(c, entries[calls[0].key := entry], calls[1..])
  }

  /** However calls on other keys interleave, a key gets the verdicts of a sampler
      of its own. */
  lemma {:induction false} KeysAreIndependent(c: SamplerConfig, entries: map<string, Entry>, calls: seq<Keyed<nat>>, key: string)
    ensures |AllVerdicts(c, entries, calls)| == |calls|
    ensures VerdictsOf(key, calls, AllVerdicts(c, entries, calls)) == Verdicts(c, Get(entries, key), CallsOf(key, calls))
    decreases |calls|
  {
    if calls != [] {
      var (entry, v) := CheckEntry(c, Get(entries, calls[0].key), calls[0].call);
      var entries' := entries[calls[0].key := entry];
      KeysAreIndependent(c, entries', calls[1..], key);
      assert AllVerdicts(c, entries, calls)[1..] == AllVerdicts(c, entries', calls[1..]);
      if calls[0].key == key {
        assert CallsOf(key, calls)[1..] == CallsOf(key, calls[1..]);
      } else {
        assert CallsOf(key, calls) == CallsOf(key, calls[1..]);
      }
    }
  }
}
