/** What rests on JSON compaction: the symmetric signatures of
    `crates/pc-snapbi/src/lib.rs` and the idempotency keys of
    `crates/pc-auth/src/lib.rs`. Hashes, the MAC and base64 are arbitrary
    functions; texts are their bytes. */
module Signing {
  import opened Wrappers
  import opened JsonGrammar
  import opened JsonLexer
  import opened JsonCompact

  type bytes = seq<byte>

  /** `bodyDigest` is lower-case hex of SHA-256 and `md5Hex` hex of MD5. */
  datatype Crypto = Crypto(
    bodyDigest: bytes -> bytes,
    md5Hex: bytes -> string,
    mac: (bytes, bytes) -> bytes,
    encode: bytes -> bytes,
    decode: bytes -> Option<bytes>)
  {
    ghost predicate DecodesOwnEncoding() { forall b :: decode(encode(b)) == Some(b) }
  }

  /** The two layouts of the string to sign: joined by `:` or by `|`. */
  datatype Layout = Colons | Pipes

  datatype Signed = Signed(verb: bytes, url: bytes, token: bytes, body: bytes, ts: bytes)

  /** What is hashed: the minified body, or nothing for a malformed one. */
  function HashInput(body: bytes): bytes {
    match Minified(body)
    case Ok(minified) => minified
    case Err(_) => []
  }

  function Separator(l: Layout): byte { if l.Colons? then 0x3A else 0x7C }

  function StringToSign(c: Crypto, l: Layout, s: Signed): bytes {
    var sep := [Separator(l)];
    s.verb + sep + s.url + sep + s.token + sep + c.bodyDigest(HashInput(s.body)) + sep + s.ts
  }

  function Sign(c: Crypto, l: Layout, secret: bytes, s: Signed): bytes {
    c.encode(c.mac(secret, StringToSign(c, l, s)))
  }

  predicate Verify(c: Crypto, l: Layout, secret: bytes, s: Signed, signature: bytes) {
    var expected := c.mac(secret, StringToSign(c, l, s));
    match c.decode(signature)
    case None => false
    case Some(provided) => provided == expected
  }

  /** Bytes up to the first `sep`, and the bytes after it. */
  function Until(text: bytes, sep: byte): bytes {
    if text == [] || text[0] == sep then [] else [text[0]] + Until(text[1..], sep)
  }

  function Past(text: bytes, sep: byte): bytes {
    if text == [] then [] else if text[0] == sep then text[1..] else Past(text[1..], sep)
  }

  lemma {:induction false} CutAtSeparator(field: bytes, sep: byte, rest: bytes)
    requires sep !in field
    ensures Until(field + [sep] + rest, sep) == field && Past(field + [sep] + rest, sep) == rest
    decreases |field|
  {
    var text := field + [sep] + rest;
    if field == [] {
      assert text == [sep] + rest;
    } else {
      assert text[1..] == field[1..] + [sep] + rest;
      CutAtSeparator(field[1..], sep, rest);
    }
  }

  lemma Reassociate(p: bytes, field: bytes, sep: bytes, rest: bytes)
    ensures p + field + sep + rest == p + (field + sep + rest)
  {
  }

  // The string to sign from one field on.
  function FromDigest(c: Crypto, l: Layout, s: Signed): bytes { c.bodyDigest(HashInput(s.body)) + [Separator(l)] + s.ts }
  function FromToken(c: Crypto, l: Layout, s: Signed): bytes { s.token + [Separator(l)] + FromDigest(c, l, s) }
  function FromUrl(c: Crypto, l: Layout, s: Signed): bytes { s.url + [Separator(l)] + FromToken(c, l, s) }

  lemma FieldByField(c: Crypto, l: Layout, s: Signed)
    ensures StringToSign(c, l, s) == s.verb + [Separator(l)] + FromUrl(c, l, s)
  {
    var sep := [Separator(l)];
    var p2 := s.verb + sep + s.url + sep;
    Reassociate(p2 + s.token + sep, c.bodyDigest(HashInput(s.body)), sep, s.ts);
    Reassociate(p2, s.token, sep, FromDigest(c, l, s));
    Reassociate(s.verb + sep, s.url, sep, FromToken(c, l, s));
  }

  /** The string to sign reads back as verb, url, token, body digest and timestamp,
      cut at `:` or `|`, when the fields before the timestamp hold no separator. */
  lemma FieldsReadBack(c: Crypto, l: Layout, s: Signed)
    requires var sep: byte := if l.Colons? then 0x3A else 0x7C;
      sep !in s.verb && sep !in s.url && sep !in s.token && sep !in c.bodyDigest(HashInput(s.body))
    ensures var sep: byte := if l.Colons? then 0x3A else 0x7C;
      var t1 := StringToSign(c, l, s); var t2 := Past(t1, sep); var t3 := Past(t2, sep); var t4 := Past(t3, sep);
      && Until(t1, sep) == s.verb && Until(t2, sep) == s.url && Until(t3, sep) == s.token
      && Until(t4, sep) == c.bodyDigest(HashInput(s.body)) && Past(t4, sep) == s.ts
  {
    var sep := Separator(l);
    FieldByField(c, l, s);
    CutAtSeparator(s.verb, sep, FromUrl(c, l, s));
    CutAtSeparator(s.url, sep, FromToken(c, l, s));
    CutAtSeparator(s.token, sep, FromDigest(c, l, s));
    CutAtSeparator(c.bodyDigest(HashInput(s.body)), sep, s.ts);
  }

  /** Two bodies are hashed alike exactly when they have the same tokens; all
      malformed bodies are hashed alike and like no well-formed one. */
  lemma HashedAlikeIffSameTokens(a: bytes, b: bytes)
    ensures HashInput(a) == HashInput(b) <==> JsonTokens(a) == JsonTokens(b)
  {
    if JsonTokens(a).Some? { CompactKeepsTokens(a); }
    if JsonTokens(b).Some? { CompactKeepsTokens(b); }
    if JsonTokens(a).Some? && JsonTokens(b).Some? { SameBytesIffSameTokens(a, b); }
    assert JsonTokens([]) == None;
  }

  /** Verification accepts exactly what decodes to the MAC that signing encodes. */
  lemma VerifyMatchesSign(c: Crypto, l: Layout, secret: bytes, s: Signed, signature: bytes)
    requires c.DecodesOwnEncoding()
    ensures Verify(c, l, secret, s, signature) <==> c.decode(signature) == c.decode(Sign(c, l, secret, s))
  {
  }

  /** A signature made on one layout of a body verifies on every other. */
  lemma SignatureSurvivesRespacing(c: Crypto, l: Layout, secret: bytes, s: Signed, body: bytes)
    requires c.DecodesOwnEncoding() && JsonTokens(s.body) == JsonTokens(body)
    ensures Verify(c, l, secret, s.(body := body), Sign(c, l, secret, s))
  {
    HashedAlikeIffSameTokens(s.body, body);
  }

  /** Without collisions: of the MAC under this secret, and of the body digest. */
  ghost predicate Collisionless(c: Crypto, secret: bytes) {
    && c.DecodesOwnEncoding()
    && (forall a, b :: c.mac(secret, a) == c.mac(secret, b) ==> a == b)
    && (forall a, b :: c.bodyDigest(a) == c.bodyDigest(b) ==> a == b)
  }

  lemma VerifyMeansSameString(c: Crypto, l: Layout, secret: bytes, s: Signed, other: Signed)
    requires Collisionless(c, secret)
    ensures Verify(c, l, secret, other, Sign(c, l, secret, s)) <==> StringToSign(c, l, other) == StringToSign(c, l, s)
  {
  }

  lemma SameFront(x: bytes, y: bytes, sep: byte, rest: bytes)
    requires x + [sep] + rest == y + [sep] + rest
    ensures x == y
  {
    assert |x| == |y|;
    assert (x + [sep] + rest)[..|x|] == x && (y + [sep] + rest)[..|x|] == y;
  }

  lemma SameBack(x: bytes, sep: byte, a: bytes, b: bytes)
    requires x + [sep] + a == x + [sep] + b
    ensures a == b
  {
    assert (x + [sep] + a)[|x| + 1..] == a && (x + [sep] + b)[|x| + 1..] == b;
  }

  /** Strings to sign agree only if they agree from each field on, as far as the
      fields before it agree. */
  lemma SameUpTo(c: Crypto, l: Layout, s: Signed, o: Signed)
    requires StringToSign(c, l, s) == StringToSign(c, l, o)
    ensures s.verb == o.verb ==> FromUrl(c, l, s) == FromUrl(c, l, o)
    ensures s.verb == o.verb && s.url == o.url ==> FromToken(c, l, s) == FromToken(c, l, o)
    ensures s.verb == o.verb && s.url == o.url && s.token == o.token ==> FromDigest(c, l, s) == FromDigest(c, l, o)
  {
    var sep := Separator(l);
    FieldByField(c, l, s);
    FieldByField(c, l, o);
    if s.verb == o.verb {
      SameBack(s.verb, sep, FromUrl(c, l, s), FromUrl(c, l, o));
      if s.url == o.url {
        SameBack(s.url, sep, FromToken(c, l, s), FromToken(c, l, o));
        if s.token == o.token { SameBack(s.token, sep, FromDigest(c, l, s), FromDigest(c, l, o)); }
      }
    }
  }

  /** A signature is refused for every body with other tokens, and accepted for
      every layout of the signed one. */
  lemma OtherBodyIsRefused(c: Crypto, l: Layout, secret: bytes, s: Signed, body: bytes)
    requires Collisionless(c, secret)
    ensures Verify(c, l, secret, s.(body := body), Sign(c, l, secret, s)) <==> JsonTokens(body) == JsonTokens(s.body)
  {
    var o := s.(body := body);
    VerifyMeansSameString(c, l, secret, s, o);
    HashedAlikeIffSameTokens(body, s.body);
    if StringToSign(c, l, o) == StringToSign(c, l, s) {
      SameUpTo(c, l, s, o);
      SameFront(c.bodyDigest(HashInput(body)), c.bodyDigest(HashInput(s.body)), Separator(l), s.ts);
    }
  }

  /** A signature is refused when any one of the other fields differs. */
  lemma OtherFieldIsRefused(c: Crypto, l: Layout, secret: bytes, s: Signed, field: bytes)
    requires Collisionless(c, secret)
    ensures Verify(c, l, secret, s.(verb := field), Sign(c, l, secret, s)) <==> field == s.verb
    ensures Verify(c, l, secret, s.(url := field), Sign(c, l, secret, s)) <==> field == s.url
    ensures Verify(c, l, secret, s.(token := field), Sign(c, l, secret, s)) <==> field == s.token
    ensures Verify(c, l, secret, s.(ts := field), Sign(c, l, secret, s)) <==> field == s.ts
  {
    OtherVerb(c, l, secret, s, field);
    OtherUrl(c, l, secret, s, field);
    OtherToken(c, l, secret, s, field);
    OtherTs(c, l, secret, s, field);
  }

  lemma OtherVerb(c: Crypto, l: Layout, secret: bytes, s: Signed, field: bytes)
    requires Collisionless(c, secret)
    ensures Verify(c, l, secret, s.(verb := field), Sign(c, l, secret, s)) <==> field == s.verb
  {
    var o := s.(verb := field);
    VerifyMeansSameString(c, l, secret, s, o);
    FieldByField(c, l, s);
    FieldByField(c, l, o);
    if StringToSign(c, l, o) == StringToSign(c, l, s) { SameFront(field, s.verb, Separator(l), FromUrl(c, l, s)); }
  }

  lemma OtherUrl(c: Crypto, l: Layout, secret: bytes, s: Signed, field: bytes)
    requires Collisionless(c, secret)
    ensures Verify(c, l, secret, s.(url := field), Sign(c, l, secret, s)) <==> field == s.url
  {
    var o := s.(url := field);
    VerifyMeansSameString(c, l, secret, s, o);
    if StringToSign(c, l, o) == StringToSign(c, l, s) {
      SameUpTo(c, l, s, o);
      SameFront(field, s.url, Separator(l), FromToken(c, l, s));
    }
  }

  lemma OtherToken(c: Crypto, l: Layout, secret: bytes, s: Signed, field: bytes)
    requires Collisionless(c, secret)
    ensures Verify(c, l, secret, s.(token := field), Sign(c, l, secret, s)) <==> field == s.token
  {
    var o := s.(token := field);
    VerifyMeansSameString(c, l, secret, s, o);
    if StringToSign(c, l, o) == StringToSign(c, l, s) {
      SameUpTo(c, l, s, o);
      SameFront(field, s.token, Separator(l), FromDigest(c, l, s));
    }
  }

  lemma OtherTs(c: Crypto, l: Layout, secret: bytes, s: Signed, field: bytes)
    requires Collisionless(c, secret)
    ensures Verify(c, l, secret, s.(ts := field), Sign(c, l, secret, s)) <==> field == s.ts
  {
    var o := s.(ts := field);
    VerifyMeansSameString(c, l, secret, s, o);
    if StringToSign(c, l, o) == StringToSign(c, l, s) {
      SameUpTo(c, l, s, o);
      SameBack(c.bodyDigest(HashInput(s.body)), Separator(l), field, s.ts);
    }
  }

  function IdempotencyKey(c: Crypto, body: bytes): Result<string, MinifyError> {
    match Minified(body)
    case Ok(minified) => Ok(c.md5Hex(minified))
    case Err(e) => Err(e)
  }

  function VerifyIdempotencyKey(c: Crypto, submitted: string, body: bytes): Result<bool, MinifyError> {
    match IdempotencyKey(c, body)
    case Ok(key) => Ok(submitted == key)
    case Err(e) => Err(e)
  }

  /** The key exists exactly for JSON texts, and re-spacing the body keeps it. */
  lemma KeySurvivesRespacing(c: Crypto, a: bytes, b: bytes)
    requires JsonTokens(a) == JsonTokens(b)
    ensures IdempotencyKey(c, a) == IdempotencyKey(c, b)
    ensures IdempotencyKey(c, a).Ok? <==> exists ts :: JsonText(a, ts)
    ensures IdempotencyKey(c, a).Ok? ==> VerifyIdempotencyKey(c, IdempotencyKey(c, a).value, b) == Ok(true)
  {
    HashedAlikeIffSameTokens(a, b);
    forall ts ensures JsonTokens(a) == Some(ts) <==> JsonText(a, ts) { RecogniserIsExact(a, ts); }
  }

  /** A submitted key is accepted exactly when it is the MD5 of the token texts of
      the body; a body that is no JSON text is an error. */
  lemma KeyIsDigestOfTokens(c: Crypto, submitted: string, body: bytes)
    ensures VerifyIdempotencyKey(c, submitted, body) == match JsonTokens(body)
      case Some(ts) => Ok(submitted == c.md5Hex(Joined(ts)))
      case None => Err(Malformed)
  {
    if JsonTokens(body).Some? { CompactIsJoined(body); }
  }

  /** Unless MD5 collides, the key of one body is accepted for exactly the bodies
      with the same tokens. */
  lemma KeyTellsTokens(c: Crypto, a: bytes, b: bytes)
    requires forall x, y :: c.md5Hex(x) == c.md5Hex(y) ==> x == y
    requires IdempotencyKey(c, a).Ok?
    ensures VerifyIdempotencyKey(c, IdempotencyKey(c, a).value, b) == Ok(true) <==> JsonTokens(a) == JsonTokens(b)
  {
    if JsonTokens(b).Some? { SameBytesIffSameTokens(a, b); }
  }
}
