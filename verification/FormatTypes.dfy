/** Identifiers with the ranges their constructors check, and the manifest header. */
module FormatTypes {
  import opened Wire

  type u64 = x: int | 0 <= x < 0x1_0000_0000_0000_0000

  datatype SlabId = SlabId(ordinal: u64, hash: Digest)

  /** `SlabId.to_bytes`. */
  function EncodeSlabId(id: SlabId): (b: Bytes)
    ensures |b| == 40
  {
    Le(id.ordinal, 8) + id.hash
  }

  function DecodeSlabId(buf: Bytes, pos: nat): (r: Parsed<SlabId>)
    ensures r.Ok? ==> r.end == pos + 40 <= |buf|
  {
    var (ordinal, p1) :- ReadInt(buf, pos, 8);
    var (hash, p2) :- Read(buf, p1, 32);
    Ok(SlabId(ordinal, hash), p2)
  }

  lemma SlabIdExact(buf: Bytes, pos: nat, id: SlabId, end: nat)
    ensures Accepts(DecodeSlabId(buf, pos), id, end, true, buf, pos, EncodeSlabId(id))
  {
    ReadIntExact(buf, pos, 8, id.ordinal, pos + 8);
    ReadExact(buf, pos + 8, 32, id.hash, end);
    At2(buf, pos, Le(id.ordinal, 8), id.hash);
  }
}

module Headers {
  import opened Wire
  import opened Cursors

  const MANIFEST_MAGIC: Bytes := [0x4C, 0x4D, 0x46, 0x53]
  const RESERVED: Bytes := [0, 0, 0, 0, 0, 0]

  datatype ManifestHeader = ManifestHeader(dropStoreVersion: int, metadataVersion: int, manifestVersion: int)

  predicate HeaderOk(h: ManifestHeader) {
    Fits(h.dropStoreVersion, 2) && Fits(h.metadataVersion, 2) && Fits(h.manifestVersion, 2)
  }

  function EncodeHeader(h: ManifestHeader): (b: Bytes)
    ensures |b| == 16
  {
    MANIFEST_MAGIC + Le(h.dropStoreVersion, 2) + Le(h.metadataVersion, 2) + Le(h.manifestVersion, 2) + RESERVED
  }

  function DecodeHeader(buf: Bytes, pos: nat): (r: Parsed<ManifestHeader>)
    ensures r.Ok? ==> r.end <= |buf|
  {
    var (magic, p1) :- Read(buf, pos, 4);
    if magic != MANIFEST_MAGIC then Err(BadMagic) else
    var (dropStore, p2) :- ReadInt(buf, p1, 2);
    var (metadata, p3) :- ReadInt(buf, p2, 2);
    var (manifest, p4) :- ReadInt(buf, p3, 2);
    var (reserved, p5) :- Read(buf, p4, 6);
    if exists b :: b in reserved && b != 0 then Err(Corrupt)
    else Ok(ManifestHeader(dropStore, metadata, manifest), p5)
  }

  lemma HeaderExact(buf: Bytes, pos: nat, h: ManifestHeader, end: nat)
    ensures Accepts(DecodeHeader(buf, pos), h, end, HeaderOk(h), buf, pos, EncodeHeader(h))
  {
    hide Le, FromLe;
    ReadExact(buf, pos, 4, MANIFEST_MAGIC, pos + 4);
    ReadIntExact(buf, pos + 4, 2, h.dropStoreVersion, pos + 6);
    ReadIntExact(buf, pos + 6, 2, h.metadataVersion, pos + 8);
    ReadIntExact(buf, pos + 8, 2, h.manifestVersion, pos + 10);
    ReadExact(buf, pos + 10, 6, RESERVED, end);
    At5(buf, pos, MANIFEST_MAGIC, Le(h.dropStoreVersion, 2), Le(h.metadataVersion, 2),
        Le(h.manifestVersion, 2), RESERVED);
    var reserved := Read(buf, pos + 10, 6);
    if reserved.Ok? && !(exists b :: b in reserved.value && b != 0) {
      assert forall i :: 0 <= i < 6 ==> reserved.value[i] in reserved.value;
      assert reserved.value == RESERVED;
    }
  }

  method ParseManifestHeader(c: Cursor) returns (r: Result<ManifestHeader>)
    requires c.Valid()
    modifies c
    ensures c.Follows(r, DecodeHeader(c.buf, old(c.pos)))
  {
    var magic :- c.Read(4);
    if magic != MANIFEST_MAGIC {
      return Failure(BadMagic);
    }
    var dropStore :- c.ReadU16Le();
    var metadata :- c.ReadU16Le();
    var manifest :- c.ReadU16Le();
    var reserved :- c.Read(6);
    if exists b :: b in reserved && b != 0 {
      return Failure(Corrupt);
    }
    return Success(ManifestHeader(dropStore, metadata, manifest));
  }
}
