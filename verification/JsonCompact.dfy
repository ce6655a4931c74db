/** `json_minify` and `compact_bytes` of `crates/pc-core/src/json.rs`: the
    two-flag scanner that drops whitespace outside strings, behind the
    well-formedness gate. */
module JsonCompact {
  import opened Wrappers
  import opened JsonGrammar
  import opened JsonLexer

  // ---------------------------------------------------------------------
  // The scanner
  // ---------------------------------------------------------------------

  datatype Scan = Scan(inString: bool, escaped: bool)

  const OUTSIDE := Scan(false, false)
  const INSIDE := Scan(true, false)

  function Next(st: Scan, b: byte): Scan {
    if st.inString then
      if st.escaped then INSIDE
      else if b == BACKSLASH then Scan(true, true)
      else if b == QUOTE then Scan(false, false)
      else st
    else if b == QUOTE then Scan(true, st.escaped) else st
  }

  predicate Kept(st: Scan, b: byte) { st.inString || !IsWs(b) }

  /** What the scanner writes for `s`, and the state it ends in. */
  function Emit(st: Scan, s: seq<byte>): seq<byte>
    decreases |s|
  {
    if s == [] then [] else (if Kept(st, s[0]) then [s[0]] else []) + Emit(Next(st, s[0]), s[1..])
  }

  function End(st: Scan, s: seq<byte>): Scan
    decreases |s|
  {
    if s == [] then st else End(Next(st, s[0]), s[1..])
  }

  function Compacted(raw: seq<byte>): seq<byte> { Emit(OUTSIDE, raw) }

  lemma EmitOne(st: Scan, b: byte, s: seq<byte>)
    ensures Emit(st, [b] + s) == (if Kept(st, b) then [b] + Emit(Next(st, b), s) else Emit(Next(st, b), s))
    ensures End(st, [b] + s) == End(Next(st, b), s)
  {
    assert ([b] + s)[1..] == s;
  }

  method CompactBytes(raw: seq<byte>) returns (out: seq<byte>)
    ensures out == Compacted(raw)
  {
    out := [];
    var inString, escaped := false, false;
    for i := 0 to |raw|
      invariant out + Emit(Scan(inString, escaped), raw[i..]) == Compacted(raw)
    {
      var b := raw[i];
      ghost var st, before := Scan(inString, escaped), out;
      if inString {
        out := out + [b];
        if escaped {
          escaped := false;
        } else if b == BACKSLASH {
          escaped := true;
        } else if b == QUOTE {
          inString := false;
        }
      } else if !IsWs(b) {
        if b == QUOTE { inString := true; }
        out := out + [b];
      }
      EmitStep(before, st, raw, i);
      assert Scan(inString, escaped) == Next(st, b);
      assert out == before + (if Kept(st, b) then [b] else []);
    }
  }

  lemma EmitStep(before: seq<byte>, st: Scan, raw: seq<byte>, i: nat)
    requires i < |raw|
    ensures (before + (if Kept(st, raw[i]) then [raw[i]] else [])) + Emit(Next(st, raw[i]), raw[i + 1..]) == before + Emit(st, raw[i..])
  {
    EmitOne(st, raw[i], raw[i + 1..]);
    assert raw[i..] == [raw[i]] + raw[i + 1..];
    var rest := Emit(Next(st, raw[i]), raw[i + 1..]);
    assert (before + [raw[i]]) + rest == before + ([raw[i]] + rest);
    assert before + [] == before;
  }

  datatype MinifyError = Malformed

  function Minified(raw: seq<byte>): Result<seq<byte>, MinifyError> {
    if JsonTokens(raw).Some? then Ok(Compacted(raw)) else Err(Malformed)
  }

  // ---------------------------------------------------------------------
  // The scanner on tokens and gaps
  // ---------------------------------------------------------------------

  lemma {:induction false} EmitAppend(st: Scan, a: seq<byte>, b: seq<byte>)
    ensures Emit(st, a + b) == Emit(st, a) + Emit(End(st, a), b)
    ensures End(st, a + b) == End(End(st, a), b)
    decreases |a|
  {
    if a == [] {
      assert a + b == b;
    } else {
      assert (a + b)[1..] == a[1..] + b;
      EmitAppend(Next(st, a[0]), a[1..], b);
    }
  }

  lemma {:induction false} ScanGap(gap: seq<byte>)
    requires AllWs(gap)
    ensures Emit(OUTSIDE, gap) == [] && End(OUTSIDE, gap) == OUTSIDE
    decreases |gap|
  {
    if gap != [] { ScanGap(gap[1..]); }
  }

  predicate Plain(s: seq<byte>) { forall i | 0 <= i < |s| :: !IsWs(s[i]) && s[i] != QUOTE }

  lemma {:induction false} ScanPlain(s: seq<byte>)
    requires Plain(s)
    ensures Emit(OUTSIDE, s) == s && End(OUTSIDE, s) == OUTSIDE
    decreases |s|
  {
    if s != [] {
      ScanPlain(s[1..]);
      assert s == [s[0]] + s[1..];
    }
  }

  lemma PlainFracExp(s: seq<byte>)
    requires IsFracExp(s)
    ensures Plain(s)
  {
    var f, e :| s == f + e && IsFrac(f) && IsExp(e);
    assert Plain(f) by { assert forall i | 1 <= i < |f| :: f[i] == f[1..][i - 1]; }
    assert Plain(e) by {
      assert forall i | 1 <= i < |e| :: e[i] == e[1..][i - 1];
      assert forall i | 2 <= i < |e| :: e[i] == e[2..][i - 2];
    }
  }

  lemma PlainMagnitude(s: seq<byte>)
    requires IsMagnitude(s)
    ensures Plain(s)
  {
    var i, r :| s == i + r && IsInt(i) && IsFracExp(r);
    PlainFracExp(r);
  }

  lemma PlainNumber(s: seq<byte>)
    requires IsNumber(s)
    ensures Plain(s)
  {
    if IsMagnitude(s) {
      PlainMagnitude(s);
    } else {
      PlainMagnitude(s[1..]);
      assert forall i | 1 <= i < |s| :: s[i] == s[1..][i - 1];
    }
  }

  /** Inside a string every byte is kept. */
  lemma {:induction false} EmitInside(us: seq<seq<byte>>)
    requires AllUnits(us)
    ensures Emit(INSIDE, Concat(us)) == Concat(us) && End(INSIDE, Concat(us)) == INSIDE
    decreases |us|
  {
    if us != [] {
      ScanUnit(us[0]);
      EmitInside(us[1..]);
      EmitAppend(INSIDE, us[0], Concat(us[1..]));
    }
  }

  /** Bytes that are neither special nor escaped leave the scanner inside. */
  lemma {:induction false} ScanOrdinary(s: seq<byte>)
    requires forall i | 0 <= i < |s| :: s[i] != QUOTE && s[i] != BACKSLASH
    ensures Emit(INSIDE, s) == s && End(INSIDE, s) == INSIDE
    decreases |s|
  {
    if s != [] {
      ScanOrdinary(s[1..]);
      assert s == [s[0]] + s[1..];
    }
  }

  lemma ScanUnit(s: seq<byte>)
    requires IsUnit(s)
    ensures Emit(INSIDE, s) == s && End(INSIDE, s) == INSIDE
  {
    if s[0] == BACKSLASH {
      ScanOrdinary(s[2..]);
      EmitOne(Scan(true, true), s[1], s[2..]);
      EmitOne(INSIDE, s[0], [s[1]] + s[2..]);
      assert s == [s[0]] + ([s[1]] + s[2..]);
    } else {
      assert s == [s[0]];
      ScanOrdinary(s);
    }
  }

  lemma ScanQuoted(body: seq<byte>)
    requires IsBody(body)
    ensures var s := [QUOTE] + (body + [QUOTE]); Emit(OUTSIDE, s) == s && End(OUTSIDE, s) == OUTSIDE
  {
    var us :| AllUnits(us) && body == Concat(us);
    EmitInside(us);
    assert Emit(INSIDE, [QUOTE]) == [QUOTE] && End(INSIDE, [QUOTE]) == OUTSIDE by {
      EmitOne(INSIDE, QUOTE, []);
      assert [QUOTE] + [] == [QUOTE];
    }
    EmitAppend(INSIDE, body, [QUOTE]);
    EmitOne(OUTSIDE, QUOTE, body + [QUOTE]);
  }

  lemma ScanString(s: seq<byte>)
    requires IsString(s)
    ensures Emit(OUTSIDE, s) == s && End(OUTSIDE, s) == OUTSIDE
  {
    var body := s[1..|s| - 1];
    assert s == [QUOTE] + (body + [QUOTE]);
    ScanQuoted(body);
  }

  lemma ScanToken(t: Token)
    requires ValidToken(t)
    ensures Emit(OUTSIDE, TextOf(t)) == TextOf(t) && End(OUTSIDE, TextOf(t)) == OUTSIDE
  {
    if t.Str? {
      ScanString(t.text);
    } else {
      if t.Num? { PlainNumber(t.text); }
      ScanPlain(TextOf(t));
    }
  }

  // ---------------------------------------------------------------------
  // Compaction of a well-formed text
  // ---------------------------------------------------------------------

  /** The token texts with nothing between them. */
  function Joined(ts: seq<Token>): seq<byte> {
    if ts == [] then [] else TextOf(ts[0]) + Joined(ts[1..])
  }

  lemma {:induction false} CompactSpelling(gaps: seq<seq<byte>>, ts: seq<Token>)
    requires |gaps| == |ts| + 1 && WsGaps(gaps) && ValidTokens(ts)
    ensures Compacted(Spell(gaps, ts)) == Joined(ts) && End(OUTSIDE, Spell(gaps, ts)) == OUTSIDE
    decreases |ts|
  {
    ScanGap(gaps[0]);
    if ts != [] {
      var rest := Spell(gaps[1..], ts[1..]);
      ScanToken(ts[0]);
      CompactSpelling(gaps[1..], ts[1..]);
      EmitAppend(OUTSIDE, TextOf(ts[0]), rest);
      EmitAppend(OUTSIDE, gaps[0], TextOf(ts[0]) + rest);
    }
  }

  /** A well-formed text compacts to its token texts, verbatim and in order. */
  lemma CompactIsJoined(text: seq<byte>)
    requires JsonTokens(text).Some?
    ensures Compacted(text) == Joined(JsonTokens(text).value)
  {
    var gaps := LexSound(text);
    CompactSpelling(gaps, JsonTokens(text).value);
  }

  lemma {:induction false} JoinedSpells(ts: seq<Token>) returns (gaps: seq<seq<byte>>)
    ensures |gaps| == |ts| + 1 && WsGaps(gaps) && Joined(ts) == Spell(gaps, ts)
    decreases |ts|
  {
    if ts == [] {
      gaps := [[]];
    } else {
      var more := JoinedSpells(ts[1..]);
      gaps := [[]] + more;
      SpellOne(ts[0], more, ts[1..]);
      assert [ts[0]] + ts[1..] == ts;
    }
  }

  /** Compaction never merges or splits tokens: the compacted text is well formed
      with the same verbatim token sequence. */
  lemma CompactKeepsTokens(text: seq<byte>)
    requires JsonTokens(text).Some?
    ensures JsonTokens(Compacted(text)) == JsonTokens(text)
  {
    var ts := JsonTokens(text).value;
    RecogniserIsExact(text, ts);
    CompactIsJoined(text);
    var gaps := JoinedSpells(ts);
    RecogniserIsExact(Compacted(text), ts);
  }

  /** Two well-formed texts compact to the same bytes exactly when they have the
      same tokens. */
  lemma SameBytesIffSameTokens(a: seq<byte>, b: seq<byte>)
    requires JsonTokens(a).Some? && JsonTokens(b).Some?
    ensures Compacted(a) == Compacted(b) <==> JsonTokens(a) == JsonTokens(b)
  {
    CompactIsJoined(a);
    CompactIsJoined(b);
    CompactKeepsTokens(a);
    CompactKeepsTokens(b);
  }

  /** `json_minify` answers on exactly the JSON texts of the grammar, and its
      answer is the shortest text with the same tokens. */
  method JsonMinify(raw: seq<byte>) returns (r: Result<seq<byte>, MinifyError>)
    ensures r == Minified(raw)
    ensures r.Ok? <==> exists ts :: JsonText(raw, ts)
    ensures r.Ok? ==> r.value != [] && forall ts :: JsonText(raw, ts) <==> JsonText(r.value, ts)
    ensures r.Ok? ==> forall other, ts :: JsonText(raw, ts) && JsonText(other, ts) ==> |r.value| <= |other|
  {
    forall text, ts ensures JsonTokens(text) == Some(ts) <==> JsonText(text, ts) { RecogniserIsExact(text, ts); }
    if JsonTokens(raw).Some? {
      var out := CompactBytes(raw);
      r := Ok(out);
      CompactKeepsTokens(raw);
      forall other, ts | JsonText(raw, ts) && JsonText(other, ts) ensures |out| <= |other| {
        SameBytesIffSameTokens(raw, other);
        EmitShrinks(OUTSIDE, other);
      }
      assert JsonTokens([]) == None;
    } else {
      r := Err(Malformed);
    }
  }

  lemma {:induction false} EmitShrinks(st: Scan, s: seq<byte>)
    ensures |Emit(st, s)| <= |s|
    decreases |s|
  {
    if s != [] { EmitShrinks(Next(st, s[0]), s[1..]); }
  }

  // ---------------------------------------------------------------------
  // Any byte string, well formed or not
  // ---------------------------------------------------------------------

  /** Scanning the output takes the same states as scanning the input, so it
      drops nothing more. */
  lemma {:induction false} EmitTwice(st: Scan, s: seq<byte>)
    ensures Emit(st, Emit(st, s)) == Emit(st, s) && End(st, Emit(st, s)) == End(st, s)
    decreases |s|
  {
    if s != [] {
      EmitTwice(Next(st, s[0]), s[1..]);
      assert s == [s[0]] + s[1..];
      EmitOne(st, s[0], s[1..]);
      EmitOne(st, s[0], Emit(Next(st, s[0]), s[1..]));
    }
  }

  lemma CompactIsIdempotent(raw: seq<byte>)
    ensures Compacted(Compacted(raw)) == Compacted(raw)
  {
    EmitTwice(OUTSIDE, raw);
  }

  /** Minifying twice is minifying once, also through the gate. */
  lemma MinifyIsIdempotent(raw: seq<byte>)
    requires Minified(raw).Ok?
    ensures Minified(Minified(raw).value) == Minified(raw)
  {
    CompactKeepsTokens(raw);
    CompactIsIdempotent(raw);
  }
}
