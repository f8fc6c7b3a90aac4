/** Locator entries: length-prefixed URIs. */
module Locators {
  import opened Wire
  import opened Cursors
  import opened Utf8

  const MIN_URI_BYTES := 4
  const MAX_URI_BYTES := 4096
  const LENGTH_PREFIX_LEN := 4

  const COLON: CodePoint := 0x3A

  /** `str.isalpha` and `str.isalnum` of the Unicode tables in use. */
  datatype Charset = Charset(isAlpha: CodePoint -> bool, isAlnum: CodePoint -> bool)

  /** A reader, with the "remaining bytes" prechecks of the source or without them. */
  datatype Reader = Reader(chars: Charset, prechecks: bool)

  predicate IsLetter(c: CodePoint) {
    0x41 <= c <= 0x5A || 0x61 <= c <= 0x7A
  }

  predicate IsDigit(c: CodePoint) {
    0x30 <= c <= 0x39
  }

  /** '+', '-' and '.'. */
  predicate IsSchemeMark(c: CodePoint) {
    c == 0x2B || c == 0x2D || c == 0x2E
  }

  /** `_is_valid_scheme`. */
  predicate ValidScheme(chars: Charset, scheme: Text) {
    && |scheme| != 0 && chars.isAlpha(scheme[0])
    && forall i :: 0 <= i < |scheme| ==> chars.isAlnum(scheme[i]) || IsSchemeMark(scheme[i])
  }

  /** The Unicode tables classify ASCII as ASCII does. */
  ghost predicate AgreesWithAscii(chars: Charset) {
    forall c: CodePoint :: c < 0x80 ==>
      chars.isAlpha(c) == IsLetter(c) && chars.isAlnum(c) == (IsLetter(c) || IsDigit(c))
  }

  /** `scheme` in section 3.1 of RFC 3986. */
  predicate Rfc3986Scheme(scheme: Text) {
    && |scheme| != 0 && IsLetter(scheme[0])
    && forall i :: 0 <= i < |scheme| ==> IsLetter(scheme[i]) || IsDigit(scheme[i]) || IsSchemeMark(scheme[i])
  }

  /** A scheme the reader accepts is one of RFC 3986 exactly when it is ASCII. */
  lemma SchemeIsRfc3986(chars: Charset, scheme: Text)
    requires AgreesWithAscii(chars)
    ensures ValidScheme(chars, scheme) && (forall c :: c in scheme ==> c < 0x80) <==> Rfc3986Scheme(scheme)
  {
    if ValidScheme(chars, scheme) && (forall c :: c in scheme ==> c < 0x80) {
      assert forall i :: 0 <= i < |scheme| ==> scheme[i] in scheme;
    }
  }

  /** Conformance is not automatic: a table that knows U+00E9 as a letter lets it through, and
    * the reader accepts the locator made of it, a ':' and an 'a'. */
  lemma NonAsciiSchemeAccepted(chars: Charset)
    requires chars.isAlpha(0xE9) && chars.isAlnum(0xE9)
    ensures ValidScheme(chars, [0xE9]) && !Rfc3986Scheme([0xE9])
    ensures DecodeLocator(chars, [4, 0, 0, 0, 0xC3, 0xA9, 0x3A, 0x61], 0) == Ok([0xE9, COLON, 0x61], 8)
  {
    hide DecodeLocator, Le;
    assert !IsLetter([0xE9][0]);
    var uri: Text := [0xE9, COLON, 0x61];
    ShortLocatorBytes(uri);
    assert FirstColon(uri) == 1 && uri[..1] == [0xE9];
    LocatorExact(chars, EncodeLocator(uri), 0, uri, 8);
    assert At(EncodeLocator(uri), 0, EncodeLocator(uri));
  }

  lemma EncodeFirst(c: CodePoint, rest: Text)
    ensures EncodeUtf8([c] + rest) == EncodeChar(c) + EncodeUtf8(rest)
  {
    assert ([c] + rest)[1..] == rest;
  }

  lemma ShortLocatorBytes(uri: Text)
    requires uri == [0xE9, COLON, 0x61]
    ensures EncodeUtf8(uri) == [0xC3, 0xA9, 0x3A, 0x61]
    ensures EncodeLocator(uri) == [4, 0, 0, 0, 0xC3, 0xA9, 0x3A, 0x61]
  {
    assert uri == [0xE9] + ([COLON] + ([0x61] + []));
    EncodeFirst(0x61, []);
    EncodeFirst(COLON, [0x61] + []);
    EncodeFirst(0xE9, [COLON] + ([0x61] + []));
    assert Le(4, 4) == [4, 0, 0, 0];
  }

  /** Where the first ':' is, or the length. */
  function FirstColon(uri: Text): (k: nat)
    ensures k <= |uri| && COLON !in uri[..k]
    ensures k < |uri| ==> uri[k] == COLON
  {
    if |uri| == 0 || uri[0] == COLON then 0 else
      var k := 1 + FirstColon(uri[1..]);
      assert uri[..k] == [uri[0]] + uri[1..][..k - 1];
      k
  }

  /** A valid scheme, the first ':', and something after it. */
  predicate ValidUri(chars: Charset, uri: Text) {
    var k := FirstColon(uri);
    k + 1 < |uri| && ValidScheme(chars, uri[..k])
  }

  predicate LocatorOk(chars: Charset, uri: Text) {
    MIN_URI_BYTES <= |EncodeUtf8(uri)| <= MAX_URI_BYTES && ValidUri(chars, uri)
  }

  ghost predicate LocatorsOk(chars: Charset, uris: seq<Text>) {
    forall i :: 0 <= i < |uris| ==> LocatorOk(chars, uris[i])
  }

  /** A u32 length prefix and the bytes. */
  function EncodeBlob(b: Bytes): Bytes {
    Le(|b|, 4) + b
  }

  function EncodeLocator(uri: Text): Bytes {
    EncodeBlob(EncodeUtf8(uri))
  }

  function EncodeLocators(uris: seq<Text>): Bytes {
    EncodeAll(EncodeLocator, uris)
  }

  /** `read_u32_le` for a length in `[min, max]`, then that many bytes. */
  function DecodeBlob(min: nat, max: nat, buf: Bytes, pos: nat): (r: Parsed<Bytes>)
    ensures r.Ok? ==> r.end <= |buf|
  {
    var (n, p1) :- ReadInt(buf, pos, 4);
    if n < min || n > max then Err(Corrupt) else Read(buf, p1, n)
  }

  lemma BlobExact(min: nat, max: nat, buf: Bytes, pos: nat, b: Bytes, end: nat)
    requires max < 0x1_0000_0000
    ensures Accepts(DecodeBlob(min, max, buf, pos), b, end, min <= |b| <= max, buf, pos, EncodeBlob(b))
  {
    ReadIntExact(buf, pos, 4, |b|, pos + 4);
    ReadExact(buf, pos + 4, |b|, b, end);
    At2(buf, pos, Le(|b|, 4), b);
  }

  /** A length-prefixed string. */
  function DecodeText(min: nat, max: nat, buf: Bytes, pos: nat): (r: Parsed<Text>)
    ensures r.Ok? ==> r.end <= |buf|
  {
    var (b, p1) :- DecodeBlob(min, max, buf, pos);
    match DecodeUtf8(b)
    case None => Err(Corrupt)
    case Some(t) => Ok(t, p1)
  }

  lemma TextExact(min: nat, max: nat, buf: Bytes, pos: nat, t: Text, end: nat)
    requires max < 0x1_0000_0000
    ensures Accepts(DecodeText(min, max, buf, pos), t, end,
                    min <= |EncodeUtf8(t)| <= max, buf, pos, EncodeBlob(EncodeUtf8(t)))
  {
    BlobExact(min, max, buf, pos, EncodeUtf8(t), end);
    DecodeEncode(t);
    var r := DecodeBlob(min, max, buf, pos);
    if r.Ok? {
      Utf8Exact(r.value, t);
    }
  }

  function DecodeLocator(chars: Charset, buf: Bytes, pos: nat): (r: Parsed<Text>)
    ensures r.Ok? ==> r.end <= |buf|
  {
    var (uri, p1) :- DecodeText(MIN_URI_BYTES, MAX_URI_BYTES, buf, pos);
    if ValidUri(chars, uri) then Ok(uri, p1) else Err(Corrupt)
  }

  function LocatorStep(chars: Charset): Step<Text> {
    (buf: Bytes, pos: nat, before) => DecodeLocator(chars, buf, pos)
  }

  function LocatorAllowed(chars: Charset): (seq<Text>, Text) -> bool {
    (before, uri) => LocatorOk(chars, uri)
  }

  function DecodeLocators(rd: Reader, buf: Bytes, pos: nat, n: nat): (r: Parsed<seq<Text>>)
    ensures r.Ok? ==> |r.value| == n
  {
    Counted(rd.prechecks, LENGTH_PREFIX_LEN + MIN_URI_BYTES, LocatorStep(rd.chars), buf, pos, n)
  }

  lemma LocatorExact(chars: Charset, buf: Bytes, pos: nat, uri: Text, end: nat)
    ensures Accepts(DecodeLocator(chars, buf, pos), uri, end, LocatorOk(chars, uri), buf, pos, EncodeLocator(uri))
  {
    TextExact(MIN_URI_BYTES, MAX_URI_BYTES, buf, pos, uri, end);
  }

  lemma LocatorsExact(rd: Reader, buf: Bytes, pos: nat, n: nat, uris: seq<Text>, end: nat)
    requires pos <= |buf|
    ensures Accepts(DecodeLocators(rd, buf, pos, n), uris, end,
                    |uris| == n && LocatorsOk(rd.chars, uris), buf, pos, EncodeLocators(uris))
  {
    var step, ok := LocatorStep(rd.chars), LocatorAllowed(rd.chars);
    forall b, p: nat, before, u, e: nat
      ensures Accepts(step(b, p, before), u, e, ok(before, u), b, p, EncodeLocator(u))
    {
      LocatorExact(rd.chars, b, p, u, e);
    }
    CountedExact(rd.prechecks, LENGTH_PREFIX_LEN + MIN_URI_BYTES, step, ok, EncodeLocator, buf, pos, n, uris, end);
  }

  method ParseLocatorEntry(chars: Charset, c: Cursor) returns (r: Result<Text>)
    requires c.Valid()
    modifies c
    ensures c.Follows(r, DecodeLocator(chars, c.buf, old(c.pos)))
  {
    var rawLength :- c.ReadU32Le();
    if rawLength < MIN_URI_BYTES {
      return Failure(Corrupt);
    }
    if rawLength > MAX_URI_BYTES {
      return Failure(Corrupt);
    }
    var uriBytes :- c.Read(rawLength);
    var decoded := DecodeUtf8(uriBytes);
    if decoded.None? {
      return Failure(Corrupt);
    }
    var uri := decoded.value;
    if COLON !in uri {
      return Failure(Corrupt);
    }
    var k := FirstColon(uri);
    assert k < |uri|;
    var scheme, rest := uri[..k], uri[k + 1..];
    if |scheme| == 0 {
      return Failure(Corrupt);
    }
    if !ValidScheme(chars, scheme) {
      return Failure(Corrupt);
    }
    if |rest| == 0 {
      return Failure(Corrupt);
    }
    return Success(uri);
  }

  method ParseLocatorEntries(chars: Charset, c: Cursor, count: nat) returns (r: Result<seq<Text>>)
    requires c.Valid()
    modifies c
    ensures c.Follows(r, DecodeLocators(Reader(chars, true), c.buf, old(c.pos), count))
  {
    hide DecodeLocator;
    var minTotal := count * (LENGTH_PREFIX_LEN + MIN_URI_BYTES);
    if c.RemainingLen() < minTotal {
      return Failure(Truncated);
    }
    ghost var start := c.pos;
    var entries: seq<Text> := [];
    for i := 0 to count
      invariant c.Valid()
      invariant Many(LocatorStep(chars), c.buf, start, count, [])
             == Many(LocatorStep(chars), c.buf, c.pos, count - i, entries)
    {
      var entry :- ParseLocatorEntry(chars, c);
      entries := entries + [entry];
    }
    return Success(entries);
  }
}
