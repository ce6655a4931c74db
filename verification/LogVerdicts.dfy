/** What the two log limiters answer, and runs of calls over many keys. */
module LogVerdicts {
  /** Whether to emit, and how many suppressed calls the line reports. */
  datatype Verdict = Verdict(allowed: bool, suppressed: nat)

  /** `duration_since`, which saturates. */
  function Since(now: nat, earlier: nat): nat { if now >= earlier then now - earlier else 0 }

  function Emitted(vs: seq<Verdict>): nat {
    if vs == [] then 0 else (if vs[0].allowed then 1 else 0) + Emitted(vs[1..])
  }

  function Reported(vs: seq<Verdict>): nat {
    if vs == [] then 0 else vs[0].suppressed + Reported(vs[1..])
  }

  lemma TotalsOfCons(v: Verdict, vs: seq<Verdict>)
    ensures Emitted([v] + vs) == (if v.allowed then 1 else 0) + Emitted(vs)
    ensures Reported([v] + vs) == v.suppressed + Reported(vs)
  {
    assert ([v] + vs)[1..] == vs;
  }

  datatype Keyed<T> = Keyed(key: string, call: T)

  /** The calls of a run on `key`. */
  function CallsOf<T>(key: string, calls: seq<Keyed<T>>): seq<T> {
    if calls == [] then []
    else (if calls[0].key == key then [calls[0].call] else []) + CallsOf(key, calls[1..])
  }

  /** The verdicts of a run on the calls on `key`. */
  function VerdictsOf<T>(key: string, calls: seq<Keyed<T>>, vs: seq<Verdict>): seq<Verdict>
    requires |calls| == |vs|
    decreases |calls|
  {
    if calls == [] then []
    else (if calls[0].key == key then [vs[0]] else []) + VerdictsOf(key, calls[1..], vs[1..])
  }
}
