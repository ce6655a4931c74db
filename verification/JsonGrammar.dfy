/** JSON texts as RFC 8259 defines them (sections 2 to 7), over bytes.

    A text spells a token sequence with whitespace in the gaps, and the tokens
    are those of a value tree. `MachineIsExact` shows that a pushdown machine
    accepts exactly the token sequences of value trees; module JsonLexer adds
    the lexer. Bytes from 0x80 up are accepted inside strings, as the validity
    pass used by `crates/pc-core/src/json.rs` does not decode UTF-8 there. */
module JsonGrammar {
  type byte = b: int | 0 <= b < 0x100

  const QUOTE: byte := 0x22
  const BACKSLASH: byte := 0x5C
  const MINUS: byte := 0x2D
  const PLUS: byte := 0x2B
  const DOT: byte := 0x2E

  predicate IsWs(b: byte) { b == 0x20 || b == 0x09 || b == 0x0A || b == 0x0D }
  predicate IsDigit(b: byte) { 0x30 <= b <= 0x39 }
  predicate IsHex(b: byte) { IsDigit(b) || 0x41 <= b <= 0x46 || 0x61 <= b <= 0x66 }
  predicate IsExpMark(b: byte) { b == 0x65 || b == 0x45 }

  predicate AllWs(s: seq<byte>) { forall i | 0 <= i < |s| :: IsWs(s[i]) }
  predicate AllDigits(s: seq<byte>) { forall i | 0 <= i < |s| :: IsDigit(s[i]) }

  /** The terminals as RFC 8259 writes them. */
  lemma Terminals(b: byte)
    ensures IsWs(b) <==> b as char in " \t\n\r"
    ensures IsDigit(b) <==> b as char in "0123456789"
    ensures IsHex(b) <==> b as char in "0123456789abcdefABCDEF"
    ensures IsExpMark(b) <==> b as char in "eE"
  {
  }

  // ---------------------------------------------------------------------
  // Tokens
  // ---------------------------------------------------------------------

  /** A token; strings and numbers carry their verbatim text. */
  datatype Token =
    | LBrace | RBrace | LBracket | RBracket | Colon | Comma
    | True | False | Null
    | Str(text: seq<byte>)
    | Num(text: seq<byte>)

  const TRUE_TEXT: seq<byte> := [0x74, 0x72, 0x75, 0x65]
  const FALSE_TEXT: seq<byte> := [0x66, 0x61, 0x6C, 0x73, 0x65]
  const NULL_TEXT: seq<byte> := [0x6E, 0x75, 0x6C, 0x6C]

  function TextOf(t: Token): seq<byte> {
    match t
    case LBrace => [0x7B]
    case RBrace => [0x7D]
    case LBracket => [0x5B]
    case RBracket => [0x5D]
    case Colon => [0x3A]
    case Comma => [0x2C]
    case True => TRUE_TEXT
    case False => FALSE_TEXT
    case Null => NULL_TEXT
    case Str(s) => s
    case Num(s) => s
  }

  function Ascii(s: seq<byte>): string { seq(|s|, i requires 0 <= i < |s| => s[i] as char) }

  lemma FixedTexts()
    ensures Ascii(TextOf(LBrace)) == "{" && Ascii(TextOf(RBrace)) == "}"
    ensures Ascii(TextOf(LBracket)) == "[" && Ascii(TextOf(RBracket)) == "]"
    ensures Ascii(TextOf(Colon)) == ":" && Ascii(TextOf(Comma)) == ","
    ensures Ascii(TextOf(True)) == "true" && Ascii(TextOf(False)) == "false" && Ascii(TextOf(Null)) == "null"
    ensures Ascii([QUOTE, BACKSLASH, MINUS, PLUS, DOT]) == "\"\\-+."
  {
  }

  predicate IsScalar(t: Token) { t.Str? || t.Num? || t.True? || t.False? || t.Null? }

  /** char: an unescaped byte, a backslash and one of eight letters, or a
      backslash, `u` and four hex digits. */
  predicate IsUnit(u: seq<byte>) {
    || (|u| == 1 && u[0] >= 0x20 && u[0] != QUOTE && u[0] != BACKSLASH)
    || (|u| == 2 && u[0] == BACKSLASH && u[1] as char in "\"\\/bfnrt")
    || (|u| == 6 && u[0] == BACKSLASH && u[1] as char == 'u' && forall i | 2 <= i < 6 :: IsHex(u[i]))
  }

  predicate AllUnits(us: seq<seq<byte>>) { forall i | 0 <= i < |us| :: IsUnit(us[i]) }

  function Concat(parts: seq<seq<byte>>): seq<byte> {
    if parts == [] then [] else parts[0] + Concat(parts[1..])
  }

  ghost predicate IsBody(s: seq<byte>) {
    exists us :: AllUnits(us) && s == Concat(us)
  }

  /** string = quotation-mark *char quotation-mark. */
  ghost predicate IsString(s: seq<byte>) {
    |s| >= 2 && s[0] == QUOTE && s[|s| - 1] == QUOTE && IsBody(s[1..|s| - 1])
  }

  predicate IsInt(s: seq<byte>) {
    s == [0x30] || (|s| > 0 && AllDigits(s) && s[0] != 0x30)
  }

  predicate IsFrac(s: seq<byte>) {
    s == [] || (|s| > 1 && s[0] == DOT && AllDigits(s[1..]))
  }

  predicate IsExp(s: seq<byte>) {
    s == [] || (|s| > 1 && IsExpMark(s[0]) && AllDigits(s[1..]))
    || (|s| > 2 && IsExpMark(s[0]) && (s[1] == PLUS || s[1] == MINUS) && AllDigits(s[2..]))
  }

  ghost predicate IsFracExp(s: seq<byte>) {
    exists f, e :: s == f + e && IsFrac(f) && IsExp(e)
  }

  ghost predicate IsMagnitude(s: seq<byte>) {
    exists i, r :: s == i + r && IsInt(i) && IsFracExp(r)
  }

  /** number = [ minus ] int [ frac ] [ exp ]. */
  ghost predicate IsNumber(s: seq<byte>) {
    IsMagnitude(s) || (s != [] && s[0] == MINUS && IsMagnitude(s[1..]))
  }

  ghost predicate ValidToken(t: Token) {
    && (t.Str? ==> IsString(t.text))
    && (t.Num? ==> IsNumber(t.text))
  }

  ghost predicate ValidTokens(ts: seq<Token>) { forall i | 0 <= i < |ts| :: ValidToken(ts[i]) }

  // ---------------------------------------------------------------------
  // The grammar, declaratively
  // ---------------------------------------------------------------------

  datatype Json = Scalar(token: Token) | Array(items: Items) | Object(members: Members)
  datatype Items = NoItems | Item(head: Json, tail: Items)
  datatype Members = NoMembers | Member(key: Token, value: Json, tail: Members)

  function Tokens(j: Json): seq<Token> {
    match j
    case Scalar(t) => [t]
    case Array(NoItems) => [LBracket, RBracket]
    case Array(Item(h, tl)) => [LBracket] + (Tokens(h) + (MoreItems(tl) + [RBracket]))
    case Object(NoMembers) => [LBrace, RBrace]
    case Object(Member(k, v, tl)) => [LBrace] + (([k, Colon] + Tokens(v)) + (MoreMembers(tl) + [RBrace]))
  }

  function MoreItems(items: Items): seq<Token> {
    match items
    case NoItems => []
    case Item(h, tl) => [Comma] + (Tokens(h) + MoreItems(tl))
  }

  function MoreMembers(members: Members): seq<Token> {
    match members
    case NoMembers => []
    case Member(k, v, tl) => [Comma] + (([k, Colon] + Tokens(v)) + MoreMembers(tl))
  }

  /** Leaves are valid scalars and keys are valid strings. */
  ghost predicate Proper(j: Json) {
    match j
    case Scalar(t) => IsScalar(t) && ValidToken(t)
    case Array(items) => ProperItems(items)
    case Object(members) => ProperMembers(members)
  }

  ghost predicate ProperItems(items: Items) {
    match items
    case NoItems => true
    case Item(h, tl) => Proper(h) && ProperItems(tl)
  }

  ghost predicate ProperMembers(members: Members) {
    match members
    case NoMembers => true
    case Member(k, v, tl) => k.Str? && ValidToken(k) && Proper(v) && ProperMembers(tl)
  }

  ghost predicate WsGaps(gaps: seq<seq<byte>>) { forall i | 0 <= i < |gaps| :: AllWs(gaps[i]) }

  /** The tokens with the given gaps before, between and after them. */
  function Spell(gaps: seq<seq<byte>>, ts: seq<Token>): seq<byte>
    requires |gaps| == |ts| + 1
    decreases |ts|
  {
    if ts == [] then gaps[0] else gaps[0] + (TextOf(ts[0]) + Spell(gaps[1..], ts[1..]))
  }

  ghost predicate Spells(text: seq<byte>, ts: seq<Token>) {
    exists gaps :: |gaps| == |ts| + 1 && WsGaps(gaps) && text == Spell(gaps, ts)
  }

  ghost predicate Derivable(ts: seq<Token>) {
    exists j :: Proper(j) && Tokens(j) == ts
  }

  /** `text` is a JSON text with the token sequence `ts`. */
  ghost predicate JsonText(text: seq<byte>, ts: seq<Token>) {
    Spells(text, ts) && Derivable(ts)
  }

  // ---------------------------------------------------------------------
  // The grammar as a pushdown machine over tokens
  // ---------------------------------------------------------------------

  datatype Frame = InArray | InObject
  datatype Mode = WantValue | WantValueOrClose | WantKey | WantKeyOrClose | WantColon | AfterValue
  datatype Machine = Machine(mode: Mode, stack: seq<Frame>) | Failed

  const START := Machine(WantValue, [])
  const ACCEPT := Machine(AfterValue, [])

  function BeginValue(stack: seq<Frame>, t: Token): Machine {
    if IsScalar(t) then Machine(AfterValue, stack)
    else if t.LBracket? then Machine(WantValueOrClose, [InArray] + stack)
    else if t.LBrace? then Machine(WantKeyOrClose, [InObject] + stack)
    else Failed
  }

  function Advance(m: Machine, t: Token): Machine {
    match m
    case Failed => Failed
    case Machine(WantValue, stack) => BeginValue(stack, t)
    case Machine(WantValueOrClose, stack) =>
      if t.RBracket? && stack != [] && stack[0] == InArray then Machine(AfterValue, stack[1..]) else BeginValue(stack, t)
    case Machine(WantKey, stack) =>
      if t.Str? then Machine(WantColon, stack) else Failed
    case Machine(WantKeyOrClose, stack) =>
      if t.RBrace? && stack != [] && stack[0] == InObject then Machine(AfterValue, stack[1..])
      else if t.Str? then Machine(WantColon, stack) else Failed
    case Machine(WantColon, stack) =>
      if t.Colon? then Machine(WantValue, stack) else Failed
    case Machine(AfterValue, stack) =>
      if stack == [] then Failed
      else if t.Comma? then Machine(if stack[0] == InArray then WantValue else WantKey, stack)
      else if t == (if stack[0] == InArray then RBracket else RBrace) then Machine(AfterValue, stack[1..])
      else Failed
  }

  function Run(m: Machine, ts: seq<Token>): Machine
    decreases |ts|
  {
    if ts == [] then m else Run(Advance(m, ts[0]), ts[1..])
  }

  predicate Accepts(ts: seq<Token>) { Run(START, ts) == ACCEPT }

  // ---------------------------------------------------------------------
  // The machine accepts exactly the derivable token sequences
  // ---------------------------------------------------------------------

  lemma {:induction false} RunAppend(m: Machine, a: seq<Token>, b: seq<Token>)
    ensures Run(m, a + b) == Run(Run(m, a), b)
    decreases |a|
  {
    if a == [] {
      assert a + b == b;
    } else {
      assert (a + b)[1..] == a[1..] + b;
      RunAppend(Advance(m, a[0]), a[1..], b);
    }
  }

  lemma {:induction false} RunOne(m: Machine, t: Token, ts: seq<Token>)
    ensures Run(m, [t] + ts) == Run(Advance(m, t), ts)
  {
    assert ([t] + ts)[1..] == ts;
  }

  lemma RunFailed(ts: seq<Token>)
    ensures Run(Failed, ts) == Failed
  {
  }

  /** A value takes the machine from wanting it to having it, whatever surrounds it. */
  lemma {:induction false} RunValue(j: Json, m: Machine)
    requires Proper(j) && m.Machine? && (m.mode.WantValue? || m.mode.WantValueOrClose?)
    ensures Run(m, Tokens(j)) == Machine(AfterValue, m.stack)
    decreases j
  {
    match j
    case Scalar(t) =>
      RunOne(m, t, []);
      assert [t] + [] == [t];
    case Array(items) => RunArray(items, m);
    case Object(members) => RunObject(members, m);
  }

  lemma RunPair(m: Machine, t: Token, u: Token)
    ensures Run(m, [t, u]) == Advance(Advance(m, t), u)
  {
    RunOne(m, t, [u]);
    assert [t] + [u] == [t, u];
    RunOne(Advance(m, t), u, []);
    assert [u] + [] == [u];
  }

  lemma {:induction false} RunArray(items: Items, m: Machine)
    requires ProperItems(items) && m.Machine? && (m.mode.WantValue? || m.mode.WantValueOrClose?)
    ensures Run(m, Tokens(Array(items))) == Machine(AfterValue, m.stack)
    decreases items
  {
    var inner := [InArray] + m.stack;
    match items
    case NoItems => RunPair(m, LBracket, RBracket);
    case Item(h, tl) =>
      var open := Machine(WantValueOrClose, inner);
      RunOne(m, LBracket, Tokens(h) + (MoreItems(tl) + [RBracket]));
      RunAppend(open, Tokens(h), MoreItems(tl) + [RBracket]);
      RunValue(h, open);
      RunItems(tl, inner);
  }

  /** Key and colon take the machine to where it wants the member's value. */
  lemma RunKey(m: Machine, k: Token, ts: seq<Token>)
    requires m.Machine? && (m.mode.WantKey? || m.mode.WantKeyOrClose?) && k.Str?
    ensures Run(m, [k, Colon] + ts) == Run(Machine(WantValue, m.stack), ts)
  {
    RunAppend(m, [k, Colon], ts);
    RunPair(m, k, Colon);
  }

  lemma {:induction false} RunObject(members: Members, m: Machine)
    requires ProperMembers(members) && m.Machine? && (m.mode.WantValue? || m.mode.WantValueOrClose?)
    ensures Run(m, Tokens(Object(members))) == Machine(AfterValue, m.stack)
    decreases members
  {
    var inner := [InObject] + m.stack;
    match members
    case NoMembers => RunPair(m, LBrace, RBrace);
    case Member(k, v, tl) =>
      var close := MoreMembers(tl) + [RBrace];
      RunOne(m, LBrace, ([k, Colon] + Tokens(v)) + close);
      assert ([k, Colon] + Tokens(v)) + close == [k, Colon] + (Tokens(v) + close);
      RunKey(Machine(WantKeyOrClose, inner), k, Tokens(v) + close);
      RunAppend(Machine(WantValue, inner), Tokens(v), close);
      RunValue(v, Machine(WantValue, inner));
      RunMembers(tl, inner);
  }

  lemma {:induction false} RunItems(items: Items, stack: seq<Frame>)
    requires ProperItems(items) && stack != [] && stack[0] == InArray
    ensures Run(Machine(AfterValue, stack), MoreItems(items) + [RBracket]) == Machine(AfterValue, stack[1..])
    decreases items
  {
    match items
    case NoItems =>
      assert MoreItems(items) + [RBracket] == [RBracket] + [];
      RunOne(Machine(AfterValue, stack), RBracket, []);
    case Item(h, tl) =>
      var rest := MoreItems(tl) + [RBracket];
      assert MoreItems(items) + [RBracket] == [Comma] + (Tokens(h) + rest);
      RunOne(Machine(AfterValue, stack), Comma, Tokens(h) + rest);
      RunAppend(Machine(WantValue, stack), Tokens(h), rest);
      RunValue(h, Machine(WantValue, stack));
      RunItems(tl, stack);
  }

  lemma {:induction false} RunMembers(members: Members, stack: seq<Frame>)
    requires ProperMembers(members) && stack != [] && stack[0] == InObject
    ensures Run(Machine(AfterValue, stack), MoreMembers(members) + [RBrace]) == Machine(AfterValue, stack[1..])
    decreases members
  {
    match members
    case NoMembers =>
      assert MoreMembers(members) + [RBrace] == [RBrace] + [];
      RunOne(Machine(AfterValue, stack), RBrace, []);
    case Member(k, v, tl) =>
      var rest := MoreMembers(tl) + [RBrace];
      assert MoreMembers(members) + [RBrace] == [Comma] + ([k, Colon] + (Tokens(v) + rest));
      RunOne(Machine(AfterValue, stack), Comma, [k, Colon] + (Tokens(v) + rest));
      RunKey(Machine(WantKey, stack), k, Tokens(v) + rest);
      RunAppend(Machine(WantValue, stack), Tokens(v), rest);
      RunValue(v, Machine(WantValue, stack));
      RunMembers(tl, stack);
  }

  /** An accepting run that has not arrived yet goes on with a token that does not fail. */
  lemma NextToken(m: Machine, ts: seq<Token>)
    requires ValidTokens(ts) && Run(m, ts) == ACCEPT && m != ACCEPT
    ensures ts != [] && Advance(m, ts[0]) != Failed
    ensures Run(Advance(m, ts[0]), ts[1..]) == ACCEPT && ValidTokens(ts[1..]) && ValidToken(ts[0])
  {
    if ts != [] { RunFailed(ts[1..]); }
  }

  /** From an accepting run that wants a value, the value can be read off. */
  lemma {:induction false} ReadValue(m: Machine, ts: seq<Token>) returns (j: Json, rest: seq<Token>)
    requires ValidTokens(ts) && Run(m, ts) == ACCEPT && m.Machine?
    requires m.mode.WantValue? || (m.mode.WantValueOrClose? && ts != [] && !ts[0].RBracket?)
    ensures Proper(j) && ts == Tokens(j) + rest && |rest| < |ts| && ValidTokens(rest)
    ensures Run(Machine(AfterValue, m.stack), rest) == ACCEPT
    decreases |ts|, 0
  {
    NextToken(m, ts);
    var ts1 := ts[1..];
    if IsScalar(ts[0]) {
      j, rest := Scalar(ts[0]), ts1;
    } else if ts[0].LBracket? {
      j, rest := ReadArray(ts1, m.stack);
      assert ts == [LBracket] + ts1;
    } else {
      j, rest := ReadObject(ts1, m.stack);
      assert ts == [LBrace] + ts1;
    }
  }

  lemma Regroup(a: seq<Token>, b: seq<Token>, c: seq<Token>, rest: seq<Token>)
    ensures a + (b + c) + rest == a + (b + (c + rest))
  {
  }

  lemma RegroupTail(a: seq<Token>, b: seq<Token>, c: seq<Token>, close: seq<Token>, rest: seq<Token>)
    ensures a + (b + ((c + close) + rest)) == ((a + (b + c)) + close) + rest
  {
  }

  lemma {:induction false} ReadArray(ts: seq<Token>, stack: seq<Frame>) returns (j: Json, rest: seq<Token>)
    requires ValidTokens(ts) && Run(Machine(WantValueOrClose, [InArray] + stack), ts) == ACCEPT
    ensures Proper(j) && [LBracket] + ts == Tokens(j) + rest && |rest| < |ts| && ValidTokens(rest)
    ensures Run(Machine(AfterValue, stack), rest) == ACCEPT
    decreases |ts|, 1
  {
    var open := Machine(WantValueOrClose, [InArray] + stack);
    NextToken(open, ts);
    if ts[0].RBracket? {
      assert open.stack[1..] == stack;
      j, rest := Array(NoItems), ts[1..];
    } else {
      var h, tail := ReadValue(open, ts);
      var items;
      items, rest := ReadItems(tail, stack);
      j := Array(Item(h, items));
      Regroup([LBracket], Tokens(h), MoreItems(items) + [RBracket], rest);
    }
  }

  lemma {:induction false} ReadObject(ts: seq<Token>, stack: seq<Frame>) returns (j: Json, rest: seq<Token>)
    requires ValidTokens(ts) && Run(Machine(WantKeyOrClose, [InObject] + stack), ts) == ACCEPT
    ensures Proper(j) && [LBrace] + ts == Tokens(j) + rest && |rest| < |ts| && ValidTokens(rest)
    ensures Run(Machine(AfterValue, stack), rest) == ACCEPT
    decreases |ts|, 1
  {
    var open := Machine(WantKeyOrClose, [InObject] + stack);
    NextToken(open, ts);
    if ts[0].RBrace? {
      assert open.stack[1..] == stack;
      j, rest := Object(NoMembers), ts[1..];
    } else {
      var k, v, tail := ReadMember(ts, stack);
      var members;
      members, rest := ReadMembers(tail, stack);
      j := Object(Member(k, v, members));
      Regroup([LBrace], [k, Colon] + Tokens(v), MoreMembers(members) + [RBrace], rest);
    }
  }

  lemma {:induction false} ReadItems(ts: seq<Token>, stack: seq<Frame>) returns (items: Items, rest: seq<Token>)
    requires ValidTokens(ts) && Run(Machine(AfterValue, [InArray] + stack), ts) == ACCEPT
    ensures ProperItems(items) && ts == MoreItems(items) + [RBracket] + rest && |rest| < |ts| && ValidTokens(rest)
    ensures Run(Machine(AfterValue, stack), rest) == ACCEPT
    decreases |ts|, 1
  {
    var inner := [InArray] + stack;
    assert inner[1..] == stack;
    NextToken(Machine(AfterValue, inner), ts);
    if ts[0].Comma? {
      var h, tail := ReadValue(Machine(WantValue, inner), ts[1..]);
      var more;
      more, rest := ReadItems(tail, stack);
      items := Item(h, more);
      RegroupTail([Comma], Tokens(h), MoreItems(more), [RBracket], rest);
      assert ts == [Comma] + ts[1..];
    } else {
      items, rest := NoItems, ts[1..];
    }
  }

  /** Key, colon and value of an object member, after the key's mode was entered. */
  lemma {:induction false} ReadMember(ts: seq<Token>, stack: seq<Frame>) returns (k: Token, v: Json, rest: seq<Token>)
    requires ValidTokens(ts) && ts != [] && ts[0].Str?
    requires Run(Machine(WantColon, [InObject] + stack), ts[1..]) == ACCEPT
    ensures k.Str? && ValidToken(k) && Proper(v) && ts == ([k, Colon] + Tokens(v)) + rest
    ensures |rest| < |ts| && ValidTokens(rest) && Run(Machine(AfterValue, [InObject] + stack), rest) == ACCEPT
    decreases |ts|, 0
  {
    k := ts[0];
    NextToken(Machine(WantColon, [InObject] + stack), ts[1..]);
    v, rest := ReadValue(Machine(WantValue, [InObject] + stack), ts[1..][1..]);
    assert ts == [k] + ([Colon] + ts[1..][1..]);
  }

  lemma {:induction false} ReadMembers(ts: seq<Token>, stack: seq<Frame>) returns (members: Members, rest: seq<Token>)
    requires ValidTokens(ts) && Run(Machine(AfterValue, [InObject] + stack), ts) == ACCEPT
    ensures ProperMembers(members) && ts == MoreMembers(members) + [RBrace] + rest && |rest| < |ts| && ValidTokens(rest)
    ensures Run(Machine(AfterValue, stack), rest) == ACCEPT
    decreases |ts|, 1
  {
    var inner := [InObject] + stack;
    assert inner[1..] == stack;
    NextToken(Machine(AfterValue, inner), ts);
    if ts[0].Comma? {
      NextToken(Machine(WantKey, inner), ts[1..]);
      var k, v, tail := ReadMember(ts[1..], stack);
      var more;
      more, rest := ReadMembers(tail, stack);
      members := Member(k, v, more);
      RegroupTail([Comma], [k, Colon] + Tokens(v), MoreMembers(more), [RBrace], rest);
      assert ts == [Comma] + ts[1..];
    } else {
      members, rest := NoMembers, ts[1..];
    }
  }

  lemma MachineIsExact(ts: seq<Token>)
    requires ValidTokens(ts)
    ensures Accepts(ts) <==> Derivable(ts)
  {
    if Accepts(ts) {
      var j, rest := ReadValue(START, ts);
      if rest != [] { RunFailed(rest[1..]); }
      assert Tokens(j) + [] == Tokens(j);
    }
    if Derivable(ts) {
      var j :| Proper(j) && Tokens(j) == ts;
      RunValue(j, START);
    }
  }
}
