/** The metadata reference section: a hash, and locators or the metadata itself. */
module MetadataReferences {
  import opened Wire
  import opened Cursors
  import opened Utf8
  import opened Locators

  const SECTION_VERSION := 1
  const INLINE_MAX_BYTES := 0x10_0000

  datatype MetadataReference = MetadataReference(metadataHash: Digest, locators: seq<Text>, inlineMetadata: Option<Bytes>)

  /** In range, and reachable from at least one source. */
  ghost predicate MetadataReferenceOk(chars: Charset, m: MetadataReference) {
    && Fits(|m.locators|, 4) && LocatorsOk(chars, m.locators)
    && (m.inlineMetadata.Some? ==> 1 <= |m.inlineMetadata.value| <= INLINE_MAX_BYTES)
    && (m.inlineMetadata.None? ==> |m.locators| != 0)
  }

  /** An absent value is a zero length. */
  function EncodeOptional(b: Option<Bytes>): Bytes {
    EncodeBlob(if b.Some? then b.value else [])
  }

  function DecodeOptional(max: nat, buf: Bytes, pos: nat): Parsed<Option<Bytes>> {
    var (b, p1) :- DecodeBlob(0, max, buf, pos);
    Ok(if |b| == 0 then None else Some(b), p1)
  }

  lemma OptionalExact(max: nat, buf: Bytes, pos: nat, b: Option<Bytes>, end: nat)
    requires max < 0x1_0000_0000
    ensures Accepts(DecodeOptional(max, buf, pos), b, end,
                    b.Some? ==> 1 <= |b.value| <= max, buf, pos, EncodeOptional(b))
  {
    BlobExact(0, max, buf, pos, if b.Some? then b.value else [], end);
  }

  function EncodeMetadataReference(m: MetadataReference): (b: Bytes)
    ensures |b| != 0
  {
    Le(SECTION_VERSION, 1) + m.metadataHash + Le(|m.locators|, 4)
    + EncodeLocators(m.locators) + EncodeOptional(m.inlineMetadata)
  }

  function DecodeMetadataReference(rd: Reader, buf: Bytes, pos: nat): Parsed<MetadataReference> {
    var (version, p1) :- ReadInt(buf, pos, 1);
    if version != SECTION_VERSION then Err(Unsupported) else
    var (hash, p2) :- Read(buf, p1, 32);
    var (count, p3) :- ReadInt(buf, p2, 4);
    var (locators, p4) :- DecodeLocators(rd, buf, p3, count);
    var (inlined, p5) :- DecodeOptional(INLINE_MAX_BYTES, buf, p4);
    if |locators| == 0 && inlined.None? then Err(Corrupt)
    else Ok(MetadataReference(hash, locators, inlined), p5)
  }

  lemma MetadataReferenceExact(rd: Reader, buf: Bytes, pos: nat, m: MetadataReference, end: nat)
    ensures Accepts(DecodeMetadataReference(rd, buf, pos), m, end,
                    MetadataReferenceOk(rd.chars, m), buf, pos, EncodeMetadataReference(m))
  {
    hide DecodeLocators, DecodeOptional, Le, FromLe;
    var p4 := pos + 37 + |EncodeLocators(m.locators)|;
    ReadIntExact(buf, pos, 1, SECTION_VERSION, pos + 1);
    ReadExact(buf, pos + 1, 32, m.metadataHash, pos + 33);
    ReadIntExact(buf, pos + 33, 4, |m.locators|, pos + 37);
    if pos + 37 <= |buf| {
      LocatorsExact(rd, buf, pos + 37, |m.locators|, m.locators, p4);
    }
    OptionalExact(INLINE_MAX_BYTES, buf, p4, m.inlineMetadata, end);
    At5(buf, pos, Le(SECTION_VERSION, 1), m.metadataHash, Le(|m.locators|, 4),
        EncodeLocators(m.locators), EncodeOptional(m.inlineMetadata));
    if DecodeMetadataReference(rd, buf, pos) == Ok(m, end) {
      var locators := DecodeLocators(rd, buf, pos + 37, |m.locators|);
      LocatorsExact(rd, buf, pos + 37, |m.locators|, m.locators, locators.end);
    }
  }

  method ParseMetadataReferenceSection(chars: Charset, c: Cursor) returns (r: Result<MetadataReference>)
    requires c.Valid()
    modifies c
    ensures c.Follows(r, DecodeMetadataReference(Reader(chars, true), c.buf, old(c.pos)))
  {
    hide DecodeLocators;
    var version :- c.ReadU8();
    if version != SECTION_VERSION {
      return Failure(Unsupported);
    }
    var metadataHash :- c.Read(32);
    var locatorCount :- c.ReadU32Le();
    var locators :- ParseLocatorEntries(chars, c, locatorCount);
    var inlineLen :- c.ReadU32Le();
    var inlineMetadata: Option<Bytes> := None;
    if inlineLen == 0 {
      inlineMetadata := None;
    } else if inlineLen > INLINE_MAX_BYTES {
      return Failure(Corrupt);
    } else {
      var b :- c.Read(inlineLen);
      inlineMetadata := Some(b);
    }
    if |locators| == 0 && inlineMetadata.None? {
      return Failure(Corrupt);
    }
    return Success(MetadataReference(metadataHash, locators, inlineMetadata));
  }
}
