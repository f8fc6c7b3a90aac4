/** The optional key-escrow section: Shamir shares, k of n. */
module DmsPolicies {
  import opened Wire
  import opened Cursors
  import opened Utf8
  import opened Lookups
  import opened Locators
  import opened MetadataReferences

  const SECTION_VERSION := 1
  const SCHEME_SHAMIR := 0x00
  const SCHEME_EXTENDED := 0xFF
  const SHARE_MAX_BYTES := 1024
  const HINT_MAX_BYTES := 4096

  datatype ShareRecord = ShareRecord(custodianId: Text, shareData: Bytes)
  datatype DmsPolicy = DmsPolicy(k: int, n: int, shares: seq<ShareRecord>, hint: Option<Text>)

  function Custodian(s: ShareRecord): Text {
    s.custodianId
  }

  predicate ShareAllowed(before: seq<ShareRecord>, s: ShareRecord) {
    && 1 <= |EncodeUtf8(s.custodianId)| <= HINT_MAX_BYTES
    && 1 <= |s.shareData| <= SHARE_MAX_BYTES
    && !Seen(Custodian, before, s.custodianId)
  }

  ghost predicate DmsPolicyOk(d: DmsPolicy) {
    && 1 <= d.k <= d.n == |d.shares| && d.n < 0x100
    && Allowed(ShareAllowed, d.shares, 0)
    && (d.hint.Some? ==> 1 <= |EncodeUtf8(d.hint.value)| <= HINT_MAX_BYTES)
  }

  function EncodeShare(s: ShareRecord): Bytes {
    EncodeBlob(EncodeUtf8(s.custodianId)) + EncodeBlob(s.shareData)
  }

  function EncodeHint(hint: Option<Text>): Bytes {
    EncodeOptional(if hint.Some? then Some(EncodeUtf8(hint.value)) else None)
  }

  /** Version, scheme, k and n. */
  function EncodeDmsPrefix(d: DmsPolicy): (b: Bytes)
    ensures |b| == 4
  {
    Le(SECTION_VERSION, 1) + Le(SCHEME_SHAMIR, 1) + Le(d.k, 1) + Le(d.n, 1)
  }

  function EncodeDmsPolicy(d: DmsPolicy): (b: Bytes)
    ensures |b| != 0
  {
    EncodeDmsPrefix(d) + Le(|d.shares|, 4) + EncodeAll(EncodeShare, d.shares) + EncodeHint(d.hint)
  }

  function DecodeShare(buf: Bytes, pos: nat, before: seq<ShareRecord>): Parsed<ShareRecord> {
    var (custodianId, p1) :- DecodeText(1, HINT_MAX_BYTES, buf, pos);
    if Seen(Custodian, before, custodianId) then Err(Corrupt) else
    var (shareData, p2) :- DecodeBlob(1, SHARE_MAX_BYTES, buf, p1);
    Ok(ShareRecord(custodianId, shareData), p2)
  }

  function DecodeHint(buf: Bytes, pos: nat): Parsed<Option<Text>> {
    var (b, p1) :- DecodeOptional(HINT_MAX_BYTES, buf, pos);
    if b.None? then Ok(None, p1) else
    match DecodeUtf8(b.value)
    case None => Err(Corrupt)
    case Some(t) => Ok(Some(t), p1)
  }

  function DecodeDmsPolicy(buf: Bytes, pos: nat): Parsed<DmsPolicy> {
    var (version, p1) :- ReadInt(buf, pos, 1);
    if version != SECTION_VERSION then Err(Unsupported) else
    var (scheme, p2) :- ReadInt(buf, p1, 1);
    if scheme != SCHEME_SHAMIR then Err(Unsupported) else
    var (k, p3) :- ReadInt(buf, p2, 1);
    var (n, p4) :- ReadInt(buf, p3, 1);
    if k == 0 || n == 0 || k > n then Err(Corrupt) else
    var (count, p5) :- ReadInt(buf, p4, 4);
    if count != n then Err(Corrupt) else
    var (shares, p6) :- Many(DecodeShare, buf, p5, count, []);
    var (hint, p7) :- DecodeHint(buf, p6);
    Ok(DmsPolicy(k, n, shares, hint), p7)
  }

  lemma ShareExact(buf: Bytes, pos: nat, before: seq<ShareRecord>, s: ShareRecord, end: nat)
    ensures Accepts(DecodeShare(buf, pos, before), s, end, ShareAllowed(before, s), buf, pos, EncodeShare(s))
  {
    hide DecodeText, DecodeBlob, EncodeBlob, EncodeUtf8, Seen;
    var id := EncodeBlob(EncodeUtf8(s.custodianId));
    TextExact(1, HINT_MAX_BYTES, buf, pos, s.custodianId, pos + |id|);
    BlobExact(1, SHARE_MAX_BYTES, buf, pos + |id|, s.shareData, end);
    At2(buf, pos, id, EncodeBlob(s.shareData));
    var r := DecodeText(1, HINT_MAX_BYTES, buf, pos);
    if r.Ok? {
      TextExact(1, HINT_MAX_BYTES, buf, pos, r.value, r.end);
    }
  }

  lemma ShareStepExact()
    ensures Exact(DecodeShare, ShareAllowed, EncodeShare)
  {
    forall b, p: nat, before, v, q: nat
      ensures Accepts(DecodeShare(b, p, before), v, q, ShareAllowed(before, v), b, p, EncodeShare(v))
    {
      ShareExact(b, p, before, v, q);
    }
  }

  lemma HintExact(buf: Bytes, pos: nat, hint: Option<Text>, end: nat)
    ensures Accepts(DecodeHint(buf, pos), hint, end,
                    hint.Some? ==> 1 <= |EncodeUtf8(hint.value)| <= HINT_MAX_BYTES, buf, pos, EncodeHint(hint))
  {
    hide DecodeOptional, EncodeOptional, EncodeUtf8, DecodeUtf8;
    var b := if hint.Some? then Some(EncodeUtf8(hint.value)) else None;
    OptionalExact(HINT_MAX_BYTES, buf, pos, b, end);
    if hint.Some? {
      DecodeEncode(hint.value);
      var r := DecodeOptional(HINT_MAX_BYTES, buf, pos);
      if r.Ok? && r.value.Some? {
        Utf8Exact(r.value.value, hint.value);
      }
    }
  }

  lemma DmsPolicyExact(buf: Bytes, pos: nat, d: DmsPolicy, end: nat)
    ensures Accepts(DecodeDmsPolicy(buf, pos), d, end, DmsPolicyOk(d), buf, pos, EncodeDmsPolicy(d))
  {
    hide Le, FromLe, Many, EncodeAll, DecodeShare, DecodeHint, EncodeHint, EncodeUtf8, ShareAllowed;
    ShareStepExact();
    var p6 := pos + 8 + |EncodeAll(EncodeShare, d.shares)|;
    ReadIntExact(buf, pos, 1, SECTION_VERSION, pos + 1);
    ReadIntExact(buf, pos + 1, 1, SCHEME_SHAMIR, pos + 2);
    ReadIntExact(buf, pos + 2, 1, d.k, pos + 3);
    ReadIntExact(buf, pos + 3, 1, d.n, pos + 4);
    ReadIntExact(buf, pos + 4, 4, |d.shares|, pos + 8);
    if pos + 8 <= |buf| {
      ManyExact(DecodeShare, ShareAllowed, EncodeShare, buf, pos + 8, |d.shares|, d.shares, p6);
      var r := Many(DecodeShare, buf, pos + 8, |d.shares|, []);
      if r.Ok? {
        ManyExact(DecodeShare, ShareAllowed, EncodeShare, buf, pos + 8, |d.shares|, d.shares, r.end);
      }
    }
    HintExact(buf, p6, d.hint, end);
    At4(buf, pos, Le(SECTION_VERSION, 1), Le(SCHEME_SHAMIR, 1), Le(d.k, 1), Le(d.n, 1));
    At4(buf, pos, EncodeDmsPrefix(d), Le(|d.shares|, 4), EncodeAll(EncodeShare, d.shares), EncodeHint(d.hint));
  }

  /** One turn of the shares loop. */
  method ParseShare(c: Cursor, seen: set<Text>, ghost before: seq<ShareRecord>) returns (r: Result<ShareRecord>)
    requires c.Valid() && forall id :: id in seen <==> Seen(Custodian, before, id)
    modifies c
    ensures c.Follows(r, DecodeShare(c.buf, old(c.pos), before))
  {
    hide Le, FromLe, Seen, DecodeChar, EncodeChar;
    var idLen :- c.ReadU32Le();
    if idLen > HINT_MAX_BYTES {
      return Failure(Corrupt);
    }
    var idBytes :- c.Read(idLen);
    var id := DecodeUtf8(idBytes);
    if id.None? {
      return Failure(Corrupt);
    }
    if |id.value| == 0 {
      Utf8Exact(idBytes, id.value);
      return Failure(Corrupt);
    }
    if id.value in seen {
      return Failure(Corrupt);
    }
    var dataLen :- c.ReadU32Le();
    if dataLen == 0 {
      return Failure(Corrupt);
    }
    if dataLen > SHARE_MAX_BYTES {
      return Failure(Corrupt);
    }
    var shareData :- c.Read(dataLen);
    return Success(ShareRecord(id.value, shareData));
  }

  /** The trailing hint, absent when its length is zero. */
  method ParseHint(c: Cursor) returns (r: Result<Option<Text>>)
    requires c.Valid()
    modifies c
    ensures c.Follows(r, DecodeHint(c.buf, old(c.pos)))
  {
    hide Le, FromLe, DecodeUtf8;
    var hintLen :- c.ReadU32Le();
    if hintLen == 0 {
      return Success(None);
    }
    if hintLen > HINT_MAX_BYTES {
      return Failure(Corrupt);
    }
    var hintBytes :- c.Read(hintLen);
    var hint := DecodeUtf8(hintBytes);
    if hint.None? {
      return Failure(Corrupt);
    }
    return Success(hint);
  }

  method ParseDmsPolicySection(c: Cursor) returns (r: Result<DmsPolicy>)
    requires c.Valid()
    modifies c
    ensures c.Follows(r, DecodeDmsPolicy(c.buf, old(c.pos)))
  {
    hide Le, FromLe, Seen, DecodeShare, DecodeHint;
    var version :- c.ReadU8();
    if version != SECTION_VERSION {
      return Failure(Unsupported);
    }
    var scheme :- c.ReadU8();
    if scheme == SCHEME_EXTENDED {
      return Failure(Unsupported);
    }
    if scheme != SCHEME_SHAMIR {
      return Failure(Unsupported);
    }
    var k :- c.ReadU8();
    var n :- c.ReadU8();
    if k == 0 {
      return Failure(Corrupt);
    }
    if n == 0 {
      return Failure(Corrupt);
    }
    if k > n {
      return Failure(Corrupt);
    }
    var shareCount :- c.ReadU32Le();
    if shareCount != n {
      return Failure(Corrupt);
    }
    ghost var start := c.pos;
    var shares: seq<ShareRecord> := [];
    var seen: set<Text> := {};
    SeenNothing(Custodian);
    for i := 0 to shareCount
      invariant c.Valid()
      invariant forall id :: id in seen <==> Seen(Custodian, shares, id)
      invariant Many(DecodeShare, c.buf, start, shareCount, []) == Many(DecodeShare, c.buf, c.pos, shareCount - i, shares)
    {
      var share :- ParseShare(c, seen, shares);
      SeenAppend(Custodian, shares, share);
      seen := seen + {share.custodianId};
      shares := shares + [share];
    }
    var hint :- ParseHint(c);
    return Success(DmsPolicy(k, n, shares, hint));
  }
}
