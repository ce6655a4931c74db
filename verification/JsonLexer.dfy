/** A recogniser of JSON texts: a lexer with longest-match numbers, then the
    pushdown machine of JsonGrammar. `RecogniserIsExact` shows it finds a token
    sequence exactly when the grammar derives one, so a text has at most one. */
module JsonLexer {
  import opened Wrappers
  import opened JsonGrammar

  function DigitSpan(s: seq<byte>): (n: nat)
    ensures n <= |s| && AllDigits(s[..n]) && (n < |s| ==> !IsDigit(s[n]))
  {
    if s == [] || !IsDigit(s[0]) then 0 else 1 + DigitSpan(s[1..])
  }

  function IntLen(s: seq<byte>): Option<nat> {
    if s == [] || !IsDigit(s[0]) then None else if s[0] == 0x30 then Some(1) else Some(DigitSpan(s))
  }

  function FracLen(s: seq<byte>): Option<nat> {
    if s == [] || s[0] != DOT then Some(0)
    else if DigitSpan(s[1..]) == 0 then None else Some(1 + DigitSpan(s[1..]))
  }

  function ExpLen(s: seq<byte>): Option<nat> {
    if s == [] || !IsExpMark(s[0]) then Some(0)
    else
      var skip := if |s| > 1 && (s[1] == PLUS || s[1] == MINUS) then 2 else 1;
      if DigitSpan(s[skip..]) == 0 then None else Some(skip + DigitSpan(s[skip..]))
  }

  function FracExpLen(s: seq<byte>): Option<nat> {
    match FracLen(s)
    case None => None
    case Some(f) =>
      match ExpLen(s[f..])
      case None => None
      case Some(e) => Some(f + e)
  }

  function MagnitudeLen(s: seq<byte>): Option<nat> {
    match IntLen(s)
    case None => None
    case Some(i) =>
      match FracExpLen(s[i..])
      case None => None
      case Some(r) => Some(i + r)
  }

  /** Length of the longest number at the start of `s`. */
  function NumLen(s: seq<byte>): Option<nat> {
    if s != [] && s[0] == MINUS then
      match MagnitudeLen(s[1..])
      case None => None
      case Some(n) => Some(1 + n)
    else MagnitudeLen(s)
  }

  /** Length of the character unit that starts a string body, 0 when none does. */
  function UnitLen(s: seq<byte>): nat {
    if s == [] then 0
    else if s[0] == BACKSLASH then
      if |s| < 2 then 0
      else if s[1] in {0x22, 0x5C, 0x2F, 0x62, 0x66, 0x6E, 0x72, 0x74} then 2
      else if s[1] == 0x75 && |s| >= 6 && IsHex(s[2]) && IsHex(s[3]) && IsHex(s[4]) && IsHex(s[5]) then 6
      else 0
    else if s[0] >= 0x20 && s[0] != QUOTE then 1
    else 0
  }

  /** Length of a string body and its closing quotation mark. */
  function StrLen(s: seq<byte>): Option<nat>
    decreases |s|
  {
    if s == [] then None
    else if s[0] == QUOTE then Some(1)
    else if UnitLen(s) == 0 then None
    else match StrLen(s[UnitLen(s)..])
      case None => None
      case Some(n) => Some(UnitLen(s) + n)
  }

  function LexOne(s: seq<byte>): Option<Token>
    requires s != []
  {
    if s[0] == 0x7B then Some(LBrace)
    else if s[0] == 0x7D then Some(RBrace)
    else if s[0] == 0x5B then Some(LBracket)
    else if s[0] == 0x5D then Some(RBracket)
    else if s[0] == 0x3A then Some(Colon)
    else if s[0] == 0x2C then Some(Comma)
    else if s[0] == 0x74 then if TRUE_TEXT <= s then Some(True) else None
    else if s[0] == 0x66 then if FALSE_TEXT <= s then Some(False) else None
    else if s[0] == 0x6E then if NULL_TEXT <= s then Some(Null) else None
    else if s[0] == QUOTE then
      match StrLen(s[1..])
      case None => None
      case Some(n) => if 1 + n <= |s| then Some(Str(s[..1 + n])) else None
    else
      match NumLen(s)
      case None => None
      case Some(n) => if n <= |s| then Some(Num(s[..n])) else None
  }

  function Lex(s: seq<byte>): Option<seq<Token>>
    decreases |s|
  {
    if s == [] then Some([])
    else if IsWs(s[0]) then Lex(s[1..])
    else
      match LexOne(s)
      case None => None
      case Some(t) =>
        if 0 < |TextOf(t)| <= |s| then
          match Lex(s[|TextOf(t)|..])
          case None => None
          case Some(ts) => Some([t] + ts)
        else None
  }

  /** The tokens of `text`, or `None` when it is not a JSON text. */
  function JsonTokens(text: seq<byte>): Option<seq<Token>> {
    match Lex(text)
    case None => None
    case Some(ts) => if Accepts(ts) then Some(ts) else None
  }

  // ---------------------------------------------------------------------
  // Numbers
  // ---------------------------------------------------------------------

  /** Bytes that could prolong a number. */
  predicate ProlongsNumber(b: byte) { IsDigit(b) || b == DOT || IsExpMark(b) || b == PLUS || b == MINUS }

  predicate EndsNumber(rest: seq<byte>) { rest == [] || !ProlongsNumber(rest[0]) }

  lemma {:induction false} SpanOfDigits(d: seq<byte>, rest: seq<byte>)
    requires AllDigits(d) && (rest == [] || !IsDigit(rest[0]))
    ensures DigitSpan(d + rest) == |d|
    decreases |d|
  {
    if d == [] {
      assert d + rest == rest;
    } else {
      assert (d + rest)[1..] == d[1..] + rest;
      SpanOfDigits(d[1..], rest);
    }
  }

  lemma IntSpan(i: seq<byte>, rest: seq<byte>)
    requires IsInt(i) && (rest == [] || !IsDigit(rest[0]))
    ensures IntLen(i + rest) == Some(|i|)
  {
    if i != [0x30] { SpanOfDigits(i, rest); }
  }

  lemma FracSpan(f: seq<byte>, rest: seq<byte>)
    requires IsFrac(f) && (rest == [] || (!IsDigit(rest[0]) && rest[0] != DOT))
    ensures FracLen(f + rest) == Some(|f|)
  {
    if f == [] {
      assert f + rest == rest;
    } else {
      assert (f + rest)[1..] == f[1..] + rest;
      SpanOfDigits(f[1..], rest);
    }
  }

  lemma ExpSpan(e: seq<byte>, rest: seq<byte>)
    requires IsExp(e) && EndsNumber(rest)
    ensures ExpLen(e + rest) == Some(|e|)
  {
    if e == [] {
      assert e + rest == rest;
    } else {
      var skip := if e[1] == PLUS || e[1] == MINUS then 2 else 1;
      assert (e + rest)[skip..] == e[skip..] + rest;
      SpanOfDigits(e[skip..], rest);
    }
  }

  lemma Assoc(a: seq<byte>, b: seq<byte>, c: seq<byte>)
    ensures (a + b) + c == a + (b + c)
  {
  }

  lemma FracExpStart(f: seq<byte>, e: seq<byte>, rest: seq<byte>)
    requires IsFrac(f) && IsExp(e) && EndsNumber(rest)
    ensures var s := e + rest; s == [] || (!IsDigit(s[0]) && s[0] != DOT)
    ensures var s := f + (e + rest); s == [] || !IsDigit(s[0])
  {
  }

  lemma FracExpSpan(f: seq<byte>, e: seq<byte>, rest: seq<byte>)
    requires IsFrac(f) && IsExp(e) && EndsNumber(rest)
    ensures FracExpLen((f + e) + rest) == Some(|f| + |e|)
  {
    var t := (f + e) + rest;
    Assoc(f, e, rest);
    assert t[|f|..] == e + rest;
    FracExpStart(f, e, rest);
    FracSpan(f, e + rest);
    ExpSpan(e, rest);
  }

  lemma MagnitudeOf(t: seq<byte>, i: nat, r: nat)
    requires IntLen(t) == Some(i) && i <= |t| && FracExpLen(t[i..]) == Some(r)
    ensures MagnitudeLen(t) == Some(i + r)
  {
  }

  lemma MagnitudeSpanOf(t: seq<byte>, i: seq<byte>, f: seq<byte>, e: seq<byte>, rest: seq<byte>)
    requires IsInt(i) && IsFrac(f) && IsExp(e) && EndsNumber(rest) && t == i + ((f + e) + rest)
    ensures MagnitudeLen(t) == Some(|i| + (|f| + |e|))
  {
    assert t[|i|..] == (f + e) + rest;
    FracExpSpan(f, e, rest);
    assert IntLen(t) == Some(|i|) by {
      Assoc(f, e, rest);
      FracExpStart(f, e, rest);
      IntSpan(i, (f + e) + rest);
    }
    MagnitudeOf(t, |i|, |f| + |e|);
  }

  lemma StartsWithDigit(w: seq<byte>, i: seq<byte>, r: seq<byte>)
    requires w == i + r && IsInt(i)
    ensures |w| > 0 && IsDigit(w[0])
  {
  }

  lemma MagnitudeSpanParts(w: seq<byte>, i: seq<byte>, f: seq<byte>, e: seq<byte>, rest: seq<byte>)
    requires IsInt(i) && IsFrac(f) && IsExp(e) && EndsNumber(rest) && w == i + (f + e)
    ensures MagnitudeLen(w + rest) == Some(|w|)
  {
    Assoc(i, f + e, rest);
    MagnitudeSpanOf(w + rest, i, f, e, rest);
  }

  lemma MagnitudeSpan(s: seq<byte>, rest: seq<byte>)
    requires IsMagnitude(s) && EndsNumber(rest)
    ensures MagnitudeLen(s + rest) == Some(|s|) && |s| > 0 && IsDigit(s[0])
  {
    var i, r :| s == i + r && IsInt(i) && IsFracExp(r);
    var f, e :| r == f + e && IsFrac(f) && IsExp(e);
    MagnitudeSpanParts(s, i, f, e, rest);
    StartsWithDigit(s, i, r);
  }

  lemma PositiveLen(t: seq<byte>, n: nat)
    requires t != [] && t[0] != MINUS && MagnitudeLen(t) == Some(n)
    ensures NumLen(t) == Some(n)
  {
  }

  lemma NegativeLen(t: seq<byte>, n: nat)
    requires t != [] && t[0] == MINUS && MagnitudeLen(t[1..]) == Some(n)
    ensures NumLen(t) == Some(1 + n)
  {
  }

  lemma DropFirst(s: seq<byte>, rest: seq<byte>)
    requires s != []
    ensures (s + rest)[0] == s[0] && (s + rest)[1..] == s[1..] + rest
  {
  }

  lemma PositiveSpan(text: seq<byte>, rest: seq<byte>)
    requires IsMagnitude(text) && EndsNumber(rest)
    ensures NumLen(text + rest) == Some(|text|) && |text| > 0 && IsDigit(text[0])
  {
    MagnitudeSpan(text, rest);
    PositiveLen(text + rest, |text|);
  }

  lemma NegativeSpan(text: seq<byte>, rest: seq<byte>)
    requires text != [] && text[0] == MINUS && IsMagnitude(text[1..]) && EndsNumber(rest)
    ensures NumLen(text + rest) == Some(|text|)
  {
    MagnitudeSpan(text[1..], rest);
    DropFirst(text, rest);
    NegativeLen(text + rest, |text| - 1);
  }

  /** Longest match on a number stops at its end when nothing prolongs it. */
  lemma NumberSpan(text: seq<byte>, rest: seq<byte>)
    requires IsNumber(text) && EndsNumber(rest)
    ensures NumLen(text + rest) == Some(|text|) && |text| > 0 && (IsDigit(text[0]) || text[0] == MINUS)
  {
    if IsMagnitude(text) {
      PositiveSpan(text, rest);
    } else {
      NegativeSpan(text, rest);
    }
  }

  lemma FracLenSound(s: seq<byte>)
    requires FracLen(s).Some?
    ensures FracLen(s).value <= |s| && IsFrac(s[..FracLen(s).value])
  {
    var n := FracLen(s).value;
    if n > 0 { assert s[..n][1..] == s[1..][..n - 1]; }
  }

  lemma Slices(s: seq<byte>, a: nat, b: nat)
    requires a + b <= |s|
    ensures s[..a + b] == s[..a] + s[a..][..b]
  {
  }

  lemma FracExpFrom(f: seq<byte>, e: seq<byte>)
    requires IsFrac(f) && IsExp(e)
    ensures IsFracExp(f + e)
  {
  }

  lemma MagnitudeFrom(i: seq<byte>, r: seq<byte>)
    requires IsInt(i) && IsFracExp(r)
    ensures IsMagnitude(i + r)
  {
  }

  lemma IntLenSound(s: seq<byte>)
    requires IntLen(s).Some?
    ensures 0 < IntLen(s).value <= |s| && IsInt(s[..IntLen(s).value])
  {
  }

  lemma FracExpLenSound(s: seq<byte>)
    requires FracExpLen(s).Some?
    ensures FracExpLen(s).value <= |s| && IsFracExp(s[..FracExpLen(s).value])
  {
    FracLenSound(s);
    var f := FracLen(s).value;
    ExpLenSound(s[f..]);
    var e := ExpLen(s[f..]).value;
    FracExpFrom(s[..f], s[f..][..e]);
    Slices(s, f, e);
  }

  lemma MagnitudeLenSound(s: seq<byte>)
    requires MagnitudeLen(s).Some?
    ensures 0 < MagnitudeLen(s).value <= |s| && IsMagnitude(s[..MagnitudeLen(s).value])
  {
    IntLenSound(s);
    var i := IntLen(s).value;
    FracExpLenSound(s[i..]);
    var r := FracExpLen(s[i..]).value;
    MagnitudeFrom(s[..i], s[i..][..r]);
    Slices(s, i, r);
  }

  /** What longest match returns is a number. */
  lemma NumLenSound(s: seq<byte>)
    requires NumLen(s).Some?
    ensures 0 < NumLen(s).value <= |s| && IsNumber(s[..NumLen(s).value])
  {
    if s[0] == MINUS {
      MagnitudeLenSound(s[1..]);
      assert s[..NumLen(s).value][1..] == s[1..][..NumLen(s).value - 1];
    } else {
      MagnitudeLenSound(s);
    }
  }

  lemma ExpLenSound(s: seq<byte>)
    requires ExpLen(s).Some?
    ensures ExpLen(s).value <= |s| && IsExp(s[..ExpLen(s).value])
  {
    var n := ExpLen(s).value;
    if n > 0 {
      var skip := if |s| > 1 && (s[1] == PLUS || s[1] == MINUS) then 2 else 1;
      assert s[..n][skip..] == s[skip..][..n - skip];
    }
  }

  // ---------------------------------------------------------------------
  // Strings
  // ---------------------------------------------------------------------

  lemma UnitSpan(u: seq<byte>, rest: seq<byte>)
    requires IsUnit(u)
    ensures UnitLen(u + rest) == |u| && u[0] != QUOTE
  {
  }

  lemma UnitLenSound(s: seq<byte>)
    requires UnitLen(s) > 0
    ensures UnitLen(s) <= |s| && IsUnit(s[..UnitLen(s)])
  {
  }

  lemma {:induction false} BodySpan(us: seq<seq<byte>>, rest: seq<byte>)
    requires AllUnits(us)
    ensures StrLen(Concat(us) + ([QUOTE] + rest)) == Some(|Concat(us)| + 1)
    decreases |us|
  {
    var s := Concat(us) + ([QUOTE] + rest);
    if us == [] {
      assert s[0] == QUOTE;
    } else {
      var more := Concat(us[1..]) + ([QUOTE] + rest);
      Assoc(us[0], Concat(us[1..]), [QUOTE] + rest);
      UnitSpan(us[0], more);
      assert s[|us[0]|..] == more;
      BodySpan(us[1..], rest);
    }
  }

  lemma OneMoreUnit(u: seq<byte>, us: seq<seq<byte>>)
    requires IsUnit(u) && AllUnits(us)
    ensures AllUnits([u] + us) && Concat([u] + us) == u + Concat(us)
  {
    assert ([u] + us)[1..] == us;
  }

  lemma StrLenStep(s: seq<byte>)
    requires StrLen(s).Some? && s[0] != QUOTE
    ensures 0 < UnitLen(s) <= |s| && IsUnit(s[..UnitLen(s)])
    ensures StrLen(s[UnitLen(s)..]).Some? && StrLen(s).value == UnitLen(s) + StrLen(s[UnitLen(s)..]).value
  {
    UnitLenSound(s);
  }

  lemma {:induction false} StrLenSound(s: seq<byte>) returns (us: seq<seq<byte>>)
    requires StrLen(s).Some?
    ensures var n := StrLen(s).value; 0 < n <= |s| && s[n - 1] == QUOTE && AllUnits(us) && s[..n - 1] == Concat(us)
    decreases |s|
  {
    if s[0] == QUOTE {
      us := [];
    } else {
      StrLenStep(s);
      var u := UnitLen(s);
      var more := StrLenSound(s[u..]);
      OneMoreUnit(s[..u], more);
      var m := StrLen(s[u..]).value;
      Slices(s, u, m - 1);
      assert s[u + m - 1] == s[u..][m - 1];
      us := [s[..u]] + more;
    }
  }

  // ---------------------------------------------------------------------
  // One token, then the whole text
  // ---------------------------------------------------------------------

  predicate FollowOk(t: Token, rest: seq<byte>) { t.Num? ==> EndsNumber(rest) }

  lemma LexQuoted(s: seq<byte>, n: nat)
    requires s != [] && s[0] == QUOTE && StrLen(s[1..]) == Some(n) && 1 + n <= |s|
    ensures LexOne(s) == Some(Str(s[..1 + n]))
  {
  }

  lemma LexString(text: seq<byte>, rest: seq<byte>)
    requires IsString(text)
    ensures LexOne(text + rest) == Some(Str(text))
  {
    var s, body := text + rest, text[1..|text| - 1];
    var us :| AllUnits(us) && body == Concat(us);
    assert s[1..] == body + ([QUOTE] + rest);
    BodySpan(us, rest);
    LexQuoted(s, |body| + 1);
    assert s[..|text|] == text;
  }

  lemma LexOneNumber(s: seq<byte>, n: nat)
    requires s != [] && (IsDigit(s[0]) || s[0] == MINUS) && NumLen(s) == Some(n) && n <= |s|
    ensures LexOne(s) == Some(Num(s[..n]))
  {
  }

  lemma LexNumber(text: seq<byte>, rest: seq<byte>)
    requires IsNumber(text) && EndsNumber(rest)
    ensures LexOne(text + rest) == Some(Num(text)) && |text| > 0 && !IsWs(text[0])
  {
    NumberSpan(text, rest);
    assert (text + rest)[..|text|] == text;
    LexOneNumber(text + rest, |text|);
  }

  lemma LexOneToken(t: Token, rest: seq<byte>)
    requires ValidToken(t) && FollowOk(t, rest)
    ensures TextOf(t) != [] && !IsWs(TextOf(t)[0])
    ensures !IsScalar(t) ==> !ProlongsNumber(TextOf(t)[0])
    ensures LexOne(TextOf(t) + rest) == Some(t)
  {
    match t
    case Str(text) => LexString(text, rest);
    case Num(text) => LexNumber(text, rest);
    case True => assert (TRUE_TEXT + rest)[..4] == TRUE_TEXT;
    case False => assert (FALSE_TEXT + rest)[..5] == FALSE_TEXT;
    case Null => assert (NULL_TEXT + rest)[..4] == NULL_TEXT;
    case _ =>
  }

  lemma LexStringSound(s: seq<byte>)
    requires s != [] && s[0] == QUOTE && StrLen(s[1..]).Some?
    ensures var n := 1 + StrLen(s[1..]).value; n <= |s| && IsString(s[..n])
  {
    var us := StrLenSound(s[1..]);
    var n := StrLen(s[1..]).value;
    assert s[..1 + n][1..n] == s[1..][..n - 1];
  }

  lemma LexedText(s: seq<byte>)
    requires s != [] && LexOne(s).Some?
    ensures var t := LexOne(s).value;
      && (t.Str? ==> s[0] == QUOTE && StrLen(s[1..]).Some? && 1 + StrLen(s[1..]).value <= |s| && t.text == s[..1 + StrLen(s[1..]).value])
      && (t.Num? ==> NumLen(s).Some? && NumLen(s).value <= |s| && t.text == s[..NumLen(s).value])
      && (!t.Str? && !t.Num? ==> TextOf(t) <= s)
  {
  }

  lemma LexOneSound(s: seq<byte>)
    requires s != [] && LexOne(s).Some?
    ensures ValidToken(LexOne(s).value) && 0 < |TextOf(LexOne(s).value)| && TextOf(LexOne(s).value) <= s
  {
    LexedText(s);
    var t := LexOne(s).value;
    if t.Str? {
      LexStringSound(s);
    } else if t.Num? {
      NumLenSound(s);
    }
  }

  lemma {:induction false} LexSkips(gap: seq<byte>, s: seq<byte>)
    requires AllWs(gap)
    ensures Lex(gap + s) == Lex(s)
    decreases |gap|
  {
    if gap == [] {
      assert gap + s == s;
    } else {
      assert (gap + s)[1..] == gap[1..] + s;
      LexSkips(gap[1..], s);
    }
  }

  /** No two neighbouring tokens are both scalars. */
  predicate Separated(ts: seq<Token>) {
    forall i | 0 <= i < |ts| - 1 :: IsScalar(ts[i]) ==> !IsScalar(ts[i + 1])
  }

  /** The machine refuses neighbouring scalars: this is why dropping the
      whitespace between tokens never merges them. */
  lemma {:induction false} RunSeparates(m: Machine, ts: seq<Token>)
    requires Run(m, ts) != Failed
    ensures Separated(ts)
    ensures ts != [] && m.Machine? && (m.mode.AfterValue? || m.mode.WantColon?) ==> !IsScalar(ts[0])
    decreases |ts|
  {
    if ts != [] {
      if Advance(m, ts[0]) == Failed { RunFailed(ts[1..]); }
      if m == Failed { RunFailed(ts); }
      RunSeparates(Advance(m, ts[0]), ts[1..]);
    }
  }

  lemma FirstByte(gaps: seq<seq<byte>>, ts: seq<Token>)
    requires |gaps| == |ts| + 1 && WsGaps(gaps) && ValidTokens(ts) && (ts != [] ==> !IsScalar(ts[0]))
    ensures EndsNumber(Spell(gaps, ts))
  {
    if gaps[0] == [] && ts != [] {
      LexOneToken(ts[0], []);
      assert Spell(gaps, ts) == TextOf(ts[0]) + Spell(gaps[1..], ts[1..]);
    }
  }

  lemma {:induction false} LexComplete(gaps: seq<seq<byte>>, ts: seq<Token>)
    requires |gaps| == |ts| + 1 && WsGaps(gaps) && ValidTokens(ts) && Separated(ts)
    ensures Lex(Spell(gaps, ts)) == Some(ts)
    decreases |ts|
  {
    if ts == [] {
      LexSkips(gaps[0], []);
      assert gaps[0] + [] == gaps[0];
    } else {
      var rest := Spell(gaps[1..], ts[1..]);
      if ts[0].Num? { FirstByte(gaps[1..], ts[1..]); }
      LexSkips(gaps[0], TextOf(ts[0]) + rest);
      LexOneToken(ts[0], rest);
      assert (TextOf(ts[0]) + rest)[|TextOf(ts[0])|..] == rest;
      LexComplete(gaps[1..], ts[1..]);
      assert [ts[0]] + ts[1..] == ts;
    }
  }

  ghost predicate SpelledBy(s: seq<byte>, gaps: seq<seq<byte>>, ts: seq<Token>) {
    ValidTokens(ts) && |gaps| == |ts| + 1 && WsGaps(gaps) && s == Spell(gaps, ts)
  }

  lemma {:induction false} LexSound(s: seq<byte>) returns (gaps: seq<seq<byte>>)
    requires Lex(s).Some?
    ensures SpelledBy(s, gaps, Lex(s).value)
    decreases |s|
  {
    if s == [] {
      gaps := [[]];
    } else if IsWs(s[0]) {
      var more := LexSound(s[1..]);
      gaps := [[s[0]] + more[0]] + more[1..];
      SpelledAfterWs(s, more, Lex(s[1..]).value);
    } else {
      var t := LexOne(s).value;
      var more := LexSound(s[|TextOf(t)|..]);
      gaps := [[]] + more;
      LexOneSound(s);
      SpelledAfterToken(s, t, more, Lex(s[|TextOf(t)|..]).value);
    }
  }

  lemma SpelledAfterWs(s: seq<byte>, gaps: seq<seq<byte>>, ts: seq<Token>)
    requires s != [] && IsWs(s[0]) && SpelledBy(s[1..], gaps, ts)
    ensures SpelledBy(s, [[s[0]] + gaps[0]] + gaps[1..], ts)
  {
    SpellWs(s[0], gaps, ts);
    assert s == [s[0]] + s[1..];
  }

  lemma SpelledAfterToken(s: seq<byte>, t: Token, gaps: seq<seq<byte>>, ts: seq<Token>)
    requires ValidToken(t) && TextOf(t) <= s && SpelledBy(s[|TextOf(t)|..], gaps, ts)
    ensures SpelledBy(s, [[]] + gaps, [t] + ts)
  {
    SpellOne(t, gaps, ts);
    assert s == TextOf(t) + s[|TextOf(t)|..];
  }

  lemma SpellWs(w: byte, gaps: seq<seq<byte>>, ts: seq<Token>)
    requires |gaps| == |ts| + 1
    ensures Spell([[w] + gaps[0]] + gaps[1..], ts) == [w] + Spell(gaps, ts)
  {
    assert ([[w] + gaps[0]] + gaps[1..])[1..] == gaps[1..];
  }

  lemma SpellOne(t: Token, gaps: seq<seq<byte>>, ts: seq<Token>)
    requires |gaps| == |ts| + 1
    ensures Spell([[]] + gaps, [t] + ts) == TextOf(t) + Spell(gaps, ts)
  {
    assert ([[]] + gaps)[1..] == gaps && ([t] + ts)[1..] == ts;
  }

  /** A recognised token sequence spells and is derivable, and conversely. */
  lemma RecogniserIsExact(text: seq<byte>, ts: seq<Token>)
    ensures JsonTokens(text) == Some(ts) <==> JsonText(text, ts)
  {
    if JsonTokens(text) == Some(ts) {
      var gaps := LexSound(text);
      MachineIsExact(ts);
    }
    if JsonText(text, ts) {
      var gaps :| |gaps| == |ts| + 1 && WsGaps(gaps) && text == Spell(gaps, ts);
      DerivableIsValid(ts);
      MachineIsExact(ts);
      RunSeparates(START, ts);
      LexComplete(gaps, ts);
    }
  }

  /** A text has at most one token sequence. */
  lemma TokensAreUnique(text: seq<byte>, a: seq<Token>, b: seq<Token>)
    ensures JsonText(text, a) && JsonText(text, b) ==> a == b
  {
    RecogniserIsExact(text, a);
    RecogniserIsExact(text, b);
  }

  lemma DerivableIsValid(ts: seq<Token>)
    requires Derivable(ts)
    ensures ValidTokens(ts)
  {
    var j :| Proper(j) && Tokens(j) == ts;
    ProperIsValid(j);
  }

  lemma ProperIsValid(j: Json)
    requires Proper(j)
    ensures ValidTokens(Tokens(j))
    decreases j
  {
    match j
    case Scalar(_) =>
    case Array(items) => if items.Item? { ProperIsValid(items.head); ItemsAreValid(items.tail); }
    case Object(members) => if members.Member? { ProperIsValid(members.value); MembersAreValid(members.tail); }
  }

  lemma ItemsAreValid(items: Items)
    requires ProperItems(items)
    ensures ValidTokens(MoreItems(items))
    decreases items
  {
    if items.Item? { ProperIsValid(items.head); ItemsAreValid(items.tail); }
  }

  lemma MembersAreValid(members: Members)
    requires ProperMembers(members)
    ensures ValidTokens(MoreMembers(members))
    decreases members
  {
    if members.Member? { ProperIsValid(members.value); MembersAreValid(members.tail); }
  }
}
