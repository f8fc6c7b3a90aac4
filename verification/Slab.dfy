/** Slab headers and drop records. */
module SlabRecords {
  import opened Wire
  import opened Cursors
  import opened FormatTypes

  const SLAB_MAGIC: Bytes := [0x4C, 0x49, 0x4D, 0x31]
  const FORMAT_VERSION := 1
  const HEADER_LEN := 56
  const RECORD_LEN := 48
  const SLAB_MAX_BYTES := 0x400_0000
  const PLAINTEXT_MAX_BYTES := 0x400_0000
  const EXTENDED := 0xFF

  datatype SlabHeader = SlabHeader(formatVersion: int, slabId: SlabId, totalLength: int, ecDescriptor: int, cryptoHint: int)

  datatype Representation = Representation(codec: u8, aead: u8, ec: u8)

  datatype DropRecord = DropRecord(dropId: Digest, plaintextLen: int, representation: Representation,
                                   solidWindowIndex: int, offsetInWindow: nat, lenInWindow: nat)

  predicate SlabHeaderOk(h: SlabHeader) {
    && h.formatVersion == FORMAT_VERSION && HEADER_LEN <= h.totalLength <= SLAB_MAX_BYTES
    && 0 <= h.ecDescriptor < EXTENDED && 0 <= h.cryptoHint < EXTENDED
  }

  function EncodeTail(h: SlabHeader): (b: Bytes)
    ensures |b| == 10
  {
    Le(h.totalLength, 8) + Le(h.ecDescriptor, 1) + Le(h.cryptoHint, 1)
  }

  function EncodeSlabHeader(h: SlabHeader): (b: Bytes)
    ensures |b| == HEADER_LEN
  {
    SLAB_MAGIC + Le(h.formatVersion, 2) + EncodeSlabId(h.slabId) + EncodeTail(h)
  }

  function DecodeSlabHeader(buf: Bytes, pos: nat): (r: Parsed<SlabHeader>)
    ensures r.Ok? ==> r.end == pos + HEADER_LEN <= |buf|
  {
    var (magic, p1) :- Read(buf, pos, 4);
    if magic != SLAB_MAGIC then Err(BadMagic) else
    var (version, p2) :- ReadInt(buf, p1, 2);
    if version != FORMAT_VERSION then Err(Unsupported) else
    var (slabId, p3) :- DecodeSlabId(buf, p2);
    var (total, p4) :- ReadInt(buf, p3, 8);
    if total < HEADER_LEN || total > SLAB_MAX_BYTES then Err(Corrupt) else
    var (ec, p5) :- ReadInt(buf, p4, 1);
    if ec == EXTENDED then Err(Unsupported) else
    var (crypto, p6) :- ReadInt(buf, p5, 1);
    if crypto == EXTENDED then Err(Unsupported)
    else Ok(SlabHeader(version, slabId, total, ec, crypto), p6)
  }

  lemma SlabHeaderExact(buf: Bytes, pos: nat, h: SlabHeader, end: nat)
    ensures Accepts(DecodeSlabHeader(buf, pos), h, end, SlabHeaderOk(h), buf, pos, EncodeSlabHeader(h))
  {
    hide Le, FromLe, DecodeSlabId, EncodeSlabId;
    ReadExact(buf, pos, 4, SLAB_MAGIC, pos + 4);
    ReadIntExact(buf, pos + 4, 2, h.formatVersion, pos + 6);
    SlabIdExact(buf, pos + 6, h.slabId, pos + 46);
    ReadIntExact(buf, pos + 46, 8, h.totalLength, pos + 54);
    ReadIntExact(buf, pos + 54, 1, h.ecDescriptor, pos + 55);
    ReadIntExact(buf, pos + 55, 1, h.cryptoHint, end);
    At3(buf, pos + 46, Le(h.totalLength, 8), Le(h.ecDescriptor, 1), Le(h.cryptoHint, 1));
    At4(buf, pos, SLAB_MAGIC, Le(h.formatVersion, 2), EncodeSlabId(h.slabId), EncodeTail(h));
  }

  /** In range, and consistent with what the slab declares. */
  predicate RecordOk(h: SlabHeader, r: DropRecord) {
    && 0 <= r.plaintextLen <= PLAINTEXT_MAX_BYTES
    && (h.cryptoHint == 0 ==> r.representation.aead == 0)
    && (h.ecDescriptor == 0 ==> r.representation.ec == 0)
    && Fits(r.solidWindowIndex, 1) && Fits(r.offsetInWindow, 4) && Fits(r.lenInWindow, 4)
  }

  function EncodeRepresentation(r: Representation): (b: Bytes)
    ensures |b| == 3
  {
    [r.codec, r.aead, r.ec]
  }

  function EncodePlace(r: DropRecord): (b: Bytes)
    ensures |b| == 9
  {
    Le(r.solidWindowIndex, 1) + Le(r.offsetInWindow, 4) + Le(r.lenInWindow, 4)
  }

  function EncodeRecord(r: DropRecord): (b: Bytes)
    ensures |b| == RECORD_LEN
  {
    r.dropId + Le(r.plaintextLen, 4) + EncodeRepresentation(r.representation) + EncodePlace(r)
  }

  function DecodeRecord(h: SlabHeader, buf: Bytes, pos: nat): (r: Parsed<DropRecord>)
    ensures r.Ok? ==> r.end == pos + RECORD_LEN <= |buf|
    ensures pos + RECORD_LEN <= |buf| ==> r != Err(Truncated)
  {
    var (dropId, p1) :- Read(buf, pos, 32);
    var (plaintextLen, p2) :- ReadInt(buf, p1, 4);
    if plaintextLen > PLAINTEXT_MAX_BYTES then Err(Corrupt) else
    var (b, p3) :- Read(buf, p2, 3);
    var rep := Representation(b[0], b[1], b[2]);
    if h.cryptoHint == 0 && rep.aead != 0 then Err(Corrupt)
    else if h.ecDescriptor == 0 && rep.ec != 0 then Err(Corrupt) else
    var (window, p4) :- ReadInt(buf, p3, 1);
    var (offset, p5) :- ReadInt(buf, p4, 4);
    var (len, p6) :- ReadInt(buf, p5, 4);
    Ok(DropRecord(dropId, plaintextLen, rep, window, offset, len), p6)
  }

  lemma RecordExact(h: SlabHeader, buf: Bytes, pos: nat, r: DropRecord, end: nat)
    ensures Accepts(DecodeRecord(h, buf, pos), r, end, RecordOk(h, r), buf, pos, EncodeRecord(r))
  {
    hide Le, FromLe;
    var rep := EncodeRepresentation(r.representation);
    ReadExact(buf, pos, 32, r.dropId, pos + 32);
    ReadIntExact(buf, pos + 32, 4, r.plaintextLen, pos + 36);
    ReadExact(buf, pos + 36, 3, rep, pos + 39);
    ReadIntExact(buf, pos + 39, 1, r.solidWindowIndex, pos + 40);
    ReadIntExact(buf, pos + 40, 4, r.offsetInWindow, pos + 44);
    ReadIntExact(buf, pos + 44, 4, r.lenInWindow, end);
    At3(buf, pos + 39, Le(r.solidWindowIndex, 1), Le(r.offsetInWindow, 4), Le(r.lenInWindow, 4));
    At4(buf, pos, r.dropId, Le(r.plaintextLen, 4), rep, EncodePlace(r));
  }

  method ParseSlabHeader(c: Cursor) returns (r: Result<SlabHeader>)
    requires c.Valid()
    modifies c
    ensures c.Follows(r, DecodeSlabHeader(c.buf, old(c.pos)))
  {
    hide Le, FromLe, DecodeSlabId;
    var magic :- c.Read(4);
    if magic != SLAB_MAGIC {
      return Failure(BadMagic);
    }
    var version :- c.ReadU16Le();
    if version != FORMAT_VERSION {
      return Failure(Unsupported);
    }
    var slabId :- ReadSlabId(c);
    var total :- c.ReadU64Le();
    if total < HEADER_LEN {
      return Failure(Corrupt);
    }
    if total > SLAB_MAX_BYTES {
      return Failure(Corrupt);
    }
    var ec :- c.ReadU8();
    if ec == EXTENDED {
      return Failure(Unsupported);
    }
    var crypto :- c.ReadU8();
    if crypto == EXTENDED {
      return Failure(Unsupported);
    }
    return Success(SlabHeader(version, slabId, total, ec, crypto));
  }

  /** `SlabId.from_bytes` of the next 40 bytes. */
  method ReadSlabId(c: Cursor) returns (r: Result<SlabId>)
    requires c.Valid()
    modifies c
    ensures c.Follows(r, DecodeSlabId(c.buf, old(c.pos)))
  {
    ghost var pos := c.pos;
    var raw :- c.Read(40);
    assert raw[..8] == c.buf[pos..pos + 8] && raw[8..] == c.buf[pos + 8..pos + 40];
    return Success(SlabId(FromLe(raw[..8]), raw[8..]));
  }

  method ParseDropRecord(c: Cursor, slab: SlabHeader) returns (r: Result<DropRecord>)
    requires c.Valid()
    modifies c
    ensures c.Follows(r, DecodeRecord(slab, c.buf, old(c.pos)))
  {
    hide Le, FromLe;
    var dropId :- c.Read(32);
    var plaintextLen :- c.ReadU32Le();
    if plaintextLen > PLAINTEXT_MAX_BYTES {
      return Failure(Corrupt);
    }
    var repBytes :- c.Read(3);
    var representation := Representation(repBytes[0], repBytes[1], repBytes[2]);
    if slab.cryptoHint == 0 && representation.aead != 0 {
      return Failure(Corrupt);
    }
    if slab.ecDescriptor == 0 && representation.ec != 0 {
      return Failure(Corrupt);
    }
    var solidWindowIndex :- c.ReadU8();
    var offsetInWindow :- c.ReadU32Le();
    var lenInWindow :- c.ReadU32Le();
    if offsetInWindow + lenInWindow < offsetInWindow {
      assert false; // unbounded integers do not overflow
    }
    return Success(DropRecord(dropId, plaintextLen, representation, solidWindowIndex, offsetInWindow, lenInWindow));
  }
}
