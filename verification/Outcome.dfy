/** Every outcome of the readers that is not a value: when bytes are missing, when a magic is
  * wrong, and when a feature is unsupported. What is left is corrupt. */
module Outcomes {
  import opened Wire
  import opened Lookups
  import opened Utf8
  import opened FormatTypes
  import opened Headers
  import opened Locators
  import F = FeatureFlags
  import MR = MetadataReferences
  import SI = SlabIndexes
  import EC = EcParamsSections
  import DMS = DmsPolicies
  import HI = Histories
  import opened Manifests
  import D = DirectoryNodes
  import I = Inodes
  import M = Metadata
  import S = SlabRecords

  // ----- fewer bytes or more prechecks only bring truncation forward -----

  lemma BlobHastens(min: nat, max: nat, buf: Bytes, longer: Bytes, pos: nat)
    requires buf <= longer
    ensures Hastens(DecodeBlob(min, max, buf, pos), DecodeBlob(min, max, longer, pos))
    ensures Hastens(DecodeText(min, max, buf, pos), DecodeText(min, max, longer, pos))
    ensures Hastens(MR.DecodeOptional(max, buf, pos), MR.DecodeOptional(max, longer, pos))
  {
    hide Read, ReadInt, DecodeUtf8;
    BytesHasten(min, max, buf, longer, pos);
    BytesHasten(0, max, buf, longer, pos);
  }

  lemma BytesHasten(min: nat, max: nat, buf: Bytes, longer: Bytes, pos: nat)
    requires buf <= longer
    ensures Hastens(DecodeBlob(min, max, buf, pos), DecodeBlob(min, max, longer, pos))
  {
    hide Read, ReadInt;
    ReadHastens(buf, longer, pos, 4);
    var n := ReadInt(longer, pos, 4);
    if n.Ok? {
      ReadHastens(buf, longer, n.end, n.value);
    }
  }

  lemma HeaderHastens(buf: Bytes, longer: Bytes, pos: nat)
    requires buf <= longer
    ensures Hastens(DecodeHeader(buf, pos), DecodeHeader(longer, pos))
  {
    hide Read, ReadInt;
    ReadHastens(buf, longer, pos, 4);
    ReadHastens(buf, longer, pos + 4, 2);
    ReadHastens(buf, longer, pos + 6, 2);
    ReadHastens(buf, longer, pos + 8, 2);
    ReadHastens(buf, longer, pos + 10, 6);
  }

  lemma FlagsHasten(g: bool, g': bool, buf: Bytes, longer: Bytes, pos: nat)
    requires (g' ==> g) && buf <= longer
    ensures Hastens(F.DecodeFlags(g, buf, pos), F.DecodeFlags(g', longer, pos))
  {
    hide Read, ReadInt, F.DecodeFlag, Counted;
    forall p: nat, before
      ensures Hastens(F.DecodeFlag(buf, p, before), F.DecodeFlag(longer, p, before))
    {
      FlagHastens(buf, longer, p, before);
    }
    ReadHastens(buf, longer, pos, 1);
    ReadHastens(buf, longer, pos + 1, 4);
    var count := ReadInt(longer, pos + 1, 4);
    if count.Ok? {
      CountedHastens(g, g', F.ENTRY_LEN, F.DecodeFlag, F.DecodeFlag, buf, longer, count.end, count.value);
    }
  }

  lemma FlagHastens(buf: Bytes, longer: Bytes, pos: nat, before: seq<F.FeatureFlag>)
    requires buf <= longer
    ensures Hastens(F.DecodeFlag(buf, pos, before), F.DecodeFlag(longer, pos, before))
  {
    hide Read, ReadInt, F.Declares;
    ReadHastens(buf, longer, pos, 2);
    ReadHastens(buf, longer, pos + 2, 1);
  }

  lemma LocatorsHasten(chars: Charset, g: bool, g': bool, buf: Bytes, longer: Bytes, pos: nat, n: nat)
    requires (g' ==> g) && buf <= longer
    ensures Hastens(DecodeLocators(Reader(chars, g), buf, pos, n), DecodeLocators(Reader(chars, g'), longer, pos, n))
  {
    hide DecodeText, ValidUri;
    var step := LocatorStep(chars);
    forall p: nat, before
      ensures Hastens(step(buf, p, before), step(longer, p, before))
    {
      BlobHastens(MIN_URI_BYTES, MAX_URI_BYTES, buf, longer, p);
    }
    CountedHastens(g, g', LENGTH_PREFIX_LEN + MIN_URI_BYTES, step, step, buf, longer, pos, n);
  }

  lemma ReferenceHastens(chars: Charset, g: bool, g': bool, buf: Bytes, longer: Bytes, pos: nat)
    requires (g' ==> g) && buf <= longer
    ensures Hastens(MR.DecodeMetadataReference(Reader(chars, g), buf, pos),
                    MR.DecodeMetadataReference(Reader(chars, g'), longer, pos))
  {
    hide Read, ReadInt, DecodeLocators, MR.DecodeOptional;
    ReadHastens(buf, longer, pos, 1);
    ReadHastens(buf, longer, pos + 1, 32);
    ReadHastens(buf, longer, pos + 33, 4);
    var count := ReadInt(longer, pos + 33, 4);
    if count.Ok? {
      LocatorsHasten(chars, g, g', buf, longer, count.end, count.value);
      var locators := DecodeLocators(Reader(chars, g'), longer, count.end, count.value);
      if locators.Ok? {
        BlobHastens(0, MR.INLINE_MAX_BYTES, buf, longer, locators.end);
      }
    }
  }

  lemma SlabIdHastens(buf: Bytes, longer: Bytes, pos: nat)
    requires buf <= longer
    ensures Hastens(DecodeSlabId(buf, pos), DecodeSlabId(longer, pos))
  {
    hide Read, ReadInt;
    ReadHastens(buf, longer, pos, 8);
    ReadHastens(buf, longer, pos + 8, 32);
  }

  lemma SlabEntryHastens(chars: Charset, g: bool, g': bool, buf: Bytes, longer: Bytes, pos: nat, before: seq<SI.SlabIndexEntry>)
    requires (g' ==> g) && buf <= longer
    ensures Hastens(SI.DecodeEntry(Reader(chars, g), buf, pos, before), SI.DecodeEntry(Reader(chars, g'), longer, pos, before))
  {
    hide ReadInt, DecodeSlabId, DecodeLocators, Seen;
    SlabIdHastens(buf, longer, pos);
    ReadHastens(buf, longer, pos + 40, 4);
    var count := ReadInt(longer, pos + 40, 4);
    if count.Ok? {
      LocatorsHasten(chars, g, g', buf, longer, count.end, count.value);
    }
  }

  lemma SlabIndexHastens(chars: Charset, g: bool, g': bool, buf: Bytes, longer: Bytes, pos: nat)
    requires (g' ==> g) && buf <= longer
    ensures Hastens(SI.DecodeSlabIndex(Reader(chars, g), buf, pos), SI.DecodeSlabIndex(Reader(chars, g'), longer, pos))
  {
    hide ReadInt, SI.DecodeEntry, Counted;
    var early, late := SI.EntryStep(Reader(chars, g)), SI.EntryStep(Reader(chars, g'));
    forall p: nat, before
      ensures Hastens(early(buf, p, before), late(longer, p, before))
    {
      SlabEntryHastens(chars, g, g', buf, longer, p, before);
    }
    ReadHastens(buf, longer, pos, 1);
    ReadHastens(buf, longer, pos + 1, 4);
    var count := ReadInt(longer, pos + 1, 4);
    if count.Ok? {
      CountedHastens(g, g', SI.ENTRY_FIXED_LEN, early, late, buf, longer, count.end, count.value);
    }
  }

  lemma OverrideHastens(buf: Bytes, longer: Bytes, pos: nat, before: seq<EC.EcOverride>)
    requires buf <= longer
    ensures Hastens(EC.DecodeOverride(buf, pos, before), EC.DecodeOverride(longer, pos, before))
  {
    hide ReadInt, DecodeSlabId, Seen;
    SlabIdHastens(buf, longer, pos);
    ReadHastens(buf, longer, pos + 40, 1);
    ReadHastens(buf, longer, pos + 41, 1);
  }

  lemma EcHastens(g: bool, g': bool, buf: Bytes, longer: Bytes, pos: nat)
    requires (g' ==> g) && buf <= longer
    ensures Hastens(EC.DecodeEcParams(g, buf, pos), EC.DecodeEcParams(g', longer, pos))
  {
    hide ReadInt, EC.DecodeOverride, Counted;
    forall p: nat, before
      ensures Hastens(EC.DecodeOverride(buf, p, before), EC.DecodeOverride(longer, p, before))
    {
      OverrideHastens(buf, longer, p, before);
    }
    ReadHastens(buf, longer, pos, 1);
    ReadHastens(buf, longer, pos + 1, 1);
    ReadHastens(buf, longer, pos + 2, 1);
    ReadHastens(buf, longer, pos + 3, 2);
    ReadHastens(buf, longer, pos + 5, 4);
    var count := ReadInt(longer, pos + 5, 4);
    if count.Ok? {
      CountedHastens(g, g', EC.OVERRIDE_LEN, EC.DecodeOverride, EC.DecodeOverride, buf, longer, count.end, count.value);
    }
  }

  lemma ShareHastens(buf: Bytes, longer: Bytes, pos: nat, before: seq<DMS.ShareRecord>)
    requires buf <= longer
    ensures Hastens(DMS.DecodeShare(buf, pos, before), DMS.DecodeShare(longer, pos, before))
  {
    hide DecodeText, DecodeBlob, Seen;
    BlobHastens(1, DMS.HINT_MAX_BYTES, buf, longer, pos);
    var id := DecodeText(1, DMS.HINT_MAX_BYTES, longer, pos);
    if id.Ok? {
      BlobHastens(1, DMS.SHARE_MAX_BYTES, buf, longer, id.end);
    }
  }

  lemma DmsHastens(buf: Bytes, longer: Bytes, pos: nat)
    requires buf <= longer
    ensures Hastens(DMS.DecodeDmsPolicy(buf, pos), DMS.DecodeDmsPolicy(longer, pos))
  {
    hide ReadInt, DMS.DecodeShare, Many, MR.DecodeOptional, DecodeUtf8;
    forall p: nat, before
      ensures Hastens(DMS.DecodeShare(buf, p, before), DMS.DecodeShare(longer, p, before))
    {
      ShareHastens(buf, longer, p, before);
    }
    ReadHastens(buf, longer, pos, 1);
    ReadHastens(buf, longer, pos + 1, 1);
    ReadHastens(buf, longer, pos + 2, 1);
    ReadHastens(buf, longer, pos + 3, 1);
    ReadHastens(buf, longer, pos + 4, 4);
    var count := ReadInt(longer, pos + 4, 4);
    if count.Ok? {
      ManyHastens(DMS.DecodeShare, DMS.DecodeShare, buf, longer, count.end, count.value, []);
      var shares := Many(DMS.DecodeShare, longer, count.end, count.value, []);
      if shares.Ok? {
        BlobHastens(0, DMS.HINT_MAX_BYTES, buf, longer, shares.end);
      }
    }
  }

  lemma HistoryEntryHastens(buf: Bytes, longer: Bytes, pos: nat, before: seq<HI.HistoryEntry>)
    requires buf <= longer
    ensures Hastens(HI.DecodeEntry(buf, pos, before), HI.DecodeEntry(longer, pos, before))
  {
    hide Read, ReadInt, HI.Chunks, HI.FromByte, DecodeBlob;
    ReadHastens(buf, longer, pos, 1);
    ReadHastens(buf, longer, pos + 1, 8);
    ReadHastens(buf, longer, pos + 9, 4);
    var count := ReadInt(longer, pos + 9, 4);
    if count.Ok? {
      ReadHastens(buf, longer, count.end, 32 * count.value);
      BlobHastens(0, HI.PARAMS_MAX_BYTES, buf, longer, count.end + 32 * count.value);
    }
  }

  lemma HistoryHastens(g: bool, g': bool, buf: Bytes, longer: Bytes, pos: nat)
    requires (g' ==> g) && buf <= longer
    ensures Hastens(HI.DecodeHistory(g, buf, pos), HI.DecodeHistory(g', longer, pos))
  {
    hide ReadInt, HI.DecodeEntry, Counted;
    forall p: nat, before
      ensures Hastens(HI.DecodeEntry(buf, p, before), HI.DecodeEntry(longer, p, before))
    {
      HistoryEntryHastens(buf, longer, p, before);
    }
    ReadHastens(buf, longer, pos, 1);
    ReadHastens(buf, longer, pos + 1, 4);
    var count := ReadInt(longer, pos + 1, 4);
    if count.Ok? {
      CountedHastens(g, g', HI.MIN_ENTRY_LEN, HI.DecodeEntry, HI.DecodeEntry, buf, longer, count.end, count.value);
    }
  }

  lemma FrontHastens(chars: Charset, g: bool, g': bool, buf: Bytes, longer: Bytes, pos: nat)
    requires (g' ==> g) && buf <= longer
    ensures Hastens(DecodeFront(Reader(chars, g), buf, pos), DecodeFront(Reader(chars, g'), longer, pos))
  {
    hide DecodeHeader, F.DecodeFlags, MR.DecodeMetadataReference, SI.DecodeSlabIndex;
    HeaderHastens(buf, longer, pos);
    var header := DecodeHeader(longer, pos);
    if header.Ok? {
      FlagsHasten(g, g', buf, longer, header.end);
      var flags := F.DecodeFlags(g', longer, header.end);
      if flags.Ok? {
        ReferenceHastens(chars, g, g', buf, longer, flags.end);
        var reference := MR.DecodeMetadataReference(Reader(chars, g'), longer, flags.end);
        if reference.Ok? {
          SlabIndexHastens(chars, g, g', buf, longer, reference.end);
        }
      }
    }
  }

  lemma BackHastens(g: bool, g': bool, front: Manifest, buf: Bytes, longer: Bytes, pos: nat)
    requires (g' ==> g) && buf <= longer
    ensures Hastens(DecodeBack(g, front, buf, pos), DecodeBack(g', front, longer, pos))
  {
    hide EC.DecodeEcParams, DMS.DecodeDmsPolicy, HI.DecodeHistory, F.Declares;
    EcHastens(g, g', buf, longer, pos);
    var ec := DecodeEc(F.Declares(front.flags, EC_FLAG), g', longer, pos);
    if ec.Ok? {
      DmsHastens(buf, longer, ec.end);
      var dms := DecodeDms(F.Declares(front.flags, DMS_FLAG), longer, ec.end);
      if dms.Ok? {
        HistoryHastens(g, g', buf, longer, dms.end);
      }
    }
  }

  /** Over the whole chain. */
  lemma ManifestHastens(chars: Charset, g: bool, g': bool, buf: Bytes, longer: Bytes, pos: nat)
    requires (g' ==> g) && buf <= longer
    ensures Hastens(DecodeManifest(Reader(chars, g), buf, pos), DecodeManifest(Reader(chars, g'), longer, pos))
  {
    hide DecodeFront, DecodeBack;
    FrontHastens(chars, g, g', buf, longer, pos);
    var front := DecodeFront(Reader(chars, g'), longer, pos);
    if front.Ok? {
      BackHastens(g, g', front.value, buf, longer, front.end);
    }
  }

  // ----- with enough bytes nothing is missing -----

  const COUNTS := 0x1_0000_0000
  const URI_ROOM := 4 + 4096
  const LOCATORS_ROOM := COUNTS * URI_ROOM
  const REFERENCE_ROOM := 37 + LOCATORS_ROOM + 4 + 1024 * 1024
  const SLAB_INDEX_ROOM := 5 + COUNTS * (44 + LOCATORS_ROOM)
  const EC_ROOM := 9 + COUNTS * 42
  const DMS_ROOM := 8 + COUNTS * (4 + 4096 + 4 + 1024) + 4 + 4096
  const HISTORY_ROOM := 5 + COUNTS * (13 + 32 * COUNTS + 4 + 4096)
  const MANIFEST_ROOM := 16 + (5 + COUNTS * 3) + REFERENCE_ROOM + SLAB_INDEX_ROOM + EC_ROOM + DMS_ROOM + HISTORY_ROOM

  lemma CountBound(buf: Bytes, pos: nat)
    ensures var count := ReadInt(buf, pos, 4); count.Ok? ==> 0 <= count.value < COUNTS
  {
    assert Bound(4) == COUNTS;
  }

  lemma BlobRoomy(min: nat, max: nat, buf: Bytes, pos: nat)
    ensures Roomy(DecodeBlob(min, max, buf, pos), buf, pos, 4 + max)
    ensures Roomy(DecodeText(min, max, buf, pos), buf, pos, 4 + max)
    ensures Roomy(MR.DecodeOptional(max, buf, pos), buf, pos, 4 + max)
  {
    hide DecodeUtf8, FromLe;
  }

  lemma FlagsRoomy(g: bool, buf: Bytes, pos: nat)
    ensures Roomy(F.DecodeFlags(g, buf, pos), buf, pos, 5 + COUNTS * 3)
  {
    hide Counted, F.Declares, FromLe;
    forall p: nat, before
      ensures Roomy(F.DecodeFlag(buf, p, before), buf, p, 3)
    {
    }
    CountBound(buf, pos + 1);
    var count := ReadInt(buf, pos + 1, 4);
    if count.Ok? {
      CountedRoomy(g, F.ENTRY_LEN, F.DecodeFlag, buf, count.end, count.value, COUNTS, 3);
    }
  }

  lemma LocatorsRoomy(rd: Reader, buf: Bytes, pos: nat, n: nat)
    requires n < COUNTS
    ensures Roomy(DecodeLocators(rd, buf, pos, n), buf, pos, LOCATORS_ROOM)
  {
    hide DecodeText, ValidUri, Counted;
    var step := LocatorStep(rd.chars);
    forall p: nat, before
      ensures Roomy(step(buf, p, before), buf, p, URI_ROOM)
    {
      BlobRoomy(MIN_URI_BYTES, MAX_URI_BYTES, buf, p);
    }
    CountedRoomy(rd.prechecks, LENGTH_PREFIX_LEN + MIN_URI_BYTES, step, buf, pos, n, COUNTS, URI_ROOM);
  }

  lemma ReferenceRoomy(rd: Reader, buf: Bytes, pos: nat)
    ensures Roomy(MR.DecodeMetadataReference(rd, buf, pos), buf, pos, REFERENCE_ROOM)
  {
    hide DecodeLocators, MR.DecodeOptional, FromLe;
    CountBound(buf, pos + 33);
    var count := ReadInt(buf, pos + 33, 4);
    if count.Ok? {
      LocatorsRoomy(rd, buf, count.end, count.value);
      var locators := DecodeLocators(rd, buf, count.end, count.value);
      if locators.Ok? {
        BlobRoomy(0, MR.INLINE_MAX_BYTES, buf, locators.end);
      }
    }
  }

  lemma SlabEntryRoomy(rd: Reader, buf: Bytes, pos: nat, before: seq<SI.SlabIndexEntry>)
    ensures Roomy(SI.DecodeEntry(rd, buf, pos, before), buf, pos, 44 + LOCATORS_ROOM)
  {
    hide DecodeLocators, FromLe, Seen;
    CountBound(buf, pos + 40);
    var count := ReadInt(buf, pos + 40, 4);
    if count.Ok? {
      LocatorsRoomy(rd, buf, count.end, count.value);
    }
  }

  lemma SlabIndexRoomy(rd: Reader, buf: Bytes, pos: nat)
    ensures Roomy(SI.DecodeSlabIndex(rd, buf, pos), buf, pos, SLAB_INDEX_ROOM)
  {
    hide SI.DecodeEntry, Counted, FromLe;
    var step := SI.EntryStep(rd);
    forall p: nat, before
      ensures Roomy(step(buf, p, before), buf, p, 44 + LOCATORS_ROOM)
    {
      SlabEntryRoomy(rd, buf, p, before);
    }
    CountBound(buf, pos + 1);
    var count := ReadInt(buf, pos + 1, 4);
    if count.Ok? {
      CountedRoomy(rd.prechecks, SI.ENTRY_FIXED_LEN, step, buf, count.end, count.value, COUNTS, 44 + LOCATORS_ROOM);
    }
  }

  lemma EcRoomy(g: bool, buf: Bytes, pos: nat)
    ensures Roomy(EC.DecodeEcParams(g, buf, pos), buf, pos, EC_ROOM)
  {
    hide Counted, FromLe, Seen;
    forall p: nat, before
      ensures Roomy(EC.DecodeOverride(buf, p, before), buf, p, 42)
    {
    }
    CountBound(buf, pos + 5);
    var count := ReadInt(buf, pos + 5, 4);
    if count.Ok? {
      CountedRoomy(g, EC.OVERRIDE_LEN, EC.DecodeOverride, buf, count.end, count.value, COUNTS, 42);
    }
  }

  lemma ShareRoomy(buf: Bytes, pos: nat, before: seq<DMS.ShareRecord>)
    ensures Roomy(DMS.DecodeShare(buf, pos, before), buf, pos, 4 + 4096 + 4 + 1024)
  {
    hide DecodeText, DecodeBlob, Seen;
    BlobRoomy(1, DMS.HINT_MAX_BYTES, buf, pos);
    var id := DecodeText(1, DMS.HINT_MAX_BYTES, buf, pos);
    if id.Ok? {
      BlobRoomy(1, DMS.SHARE_MAX_BYTES, buf, id.end);
    }
  }

  lemma DmsRoomy(buf: Bytes, pos: nat)
    ensures Roomy(DMS.DecodeDmsPolicy(buf, pos), buf, pos, DMS_ROOM)
  {
    hide DMS.DecodeShare, Many, MR.DecodeOptional, DecodeUtf8, FromLe;
    forall p: nat, before
      ensures Roomy(DMS.DecodeShare(buf, p, before), buf, p, 4 + 4096 + 4 + 1024)
    {
      ShareRoomy(buf, p, before);
    }
    CountBound(buf, pos + 4);
    var count := ReadInt(buf, pos + 4, 4);
    if count.Ok? {
      CountedRoomy(false, 0, DMS.DecodeShare, buf, count.end, count.value, COUNTS, 4 + 4096 + 4 + 1024);
      var shares := Many(DMS.DecodeShare, buf, count.end, count.value, []);
      if shares.Ok? {
        BlobRoomy(0, DMS.HINT_MAX_BYTES, buf, shares.end);
      }
    }
  }

  lemma HistoryEntryRoomy(buf: Bytes, pos: nat, before: seq<HI.HistoryEntry>)
    ensures Roomy(HI.DecodeEntry(buf, pos, before), buf, pos, 13 + 32 * COUNTS + 4 + 4096)
  {
    hide HI.Chunks, HI.FromByte, DecodeBlob, FromLe;
    CountBound(buf, pos + 9);
    var count := ReadInt(buf, pos + 9, 4);
    if count.Ok? {
      BlobRoomy(0, HI.PARAMS_MAX_BYTES, buf, count.end + 32 * count.value);
    }
  }

  lemma HistoryRoomy(g: bool, buf: Bytes, pos: nat)
    ensures Roomy(HI.DecodeHistory(g, buf, pos), buf, pos, HISTORY_ROOM)
  {
    hide HI.DecodeEntry, Counted, FromLe;
    forall p: nat, before
      ensures Roomy(HI.DecodeEntry(buf, p, before), buf, p, 13 + 32 * COUNTS + 4 + 4096)
    {
      HistoryEntryRoomy(buf, p, before);
    }
    CountBound(buf, pos + 1);
    var count := ReadInt(buf, pos + 1, 4);
    if count.Ok? {
      CountedRoomy(g, HI.MIN_ENTRY_LEN, HI.DecodeEntry, buf, count.end, count.value, COUNTS, 13 + 32 * COUNTS + 4 + 4096);
    }
  }

  lemma HeaderRoomy(buf: Bytes, pos: nat)
    ensures Roomy(DecodeHeader(buf, pos), buf, pos, 16)
  {
    hide FromLe;
  }

  lemma ManifestRoomy(rd: Reader, buf: Bytes, pos: nat)
    ensures Roomy(DecodeManifest(rd, buf, pos), buf, pos, MANIFEST_ROOM)
  {
    hide DecodeHeader, F.DecodeFlags, MR.DecodeMetadataReference, SI.DecodeSlabIndex;
    hide EC.DecodeEcParams, DMS.DecodeDmsPolicy, HI.DecodeHistory, F.Declares;
    HeaderRoomy(buf, pos);
    var header := DecodeHeader(buf, pos);
    if header.Ok? {
      FlagsRoomy(rd.prechecks, buf, header.end);
      var flags := F.DecodeFlags(rd.prechecks, buf, header.end);
      if flags.Ok? {
        ReferenceRoomy(rd, buf, flags.end);
        var reference := MR.DecodeMetadataReference(rd, buf, flags.end);
        if reference.Ok? {
          SlabIndexRoomy(rd, buf, reference.end);
          var slabIndex := SI.DecodeSlabIndex(rd, buf, reference.end);
          if slabIndex.Ok? {
            BackRoomy(rd.prechecks, DecodeFront(rd, buf, pos).value, buf, slabIndex.end);
          }
        }
      }
    }
  }

  lemma BackRoomy(g: bool, front: Manifest, buf: Bytes, pos: nat)
    ensures Roomy(DecodeBack(g, front, buf, pos), buf, pos, EC_ROOM + DMS_ROOM + HISTORY_ROOM)
  {
    hide EC.DecodeEcParams, DMS.DecodeDmsPolicy, HI.DecodeHistory, F.Declares;
    EcRoomy(g, buf, pos);
    var ec := DecodeEc(F.Declares(front.flags, EC_FLAG), g, buf, pos);
    if ec.Ok? {
      DmsRoomy(buf, ec.end);
      var dms := DecodeDms(F.Declares(front.flags, DMS_FLAG), buf, ec.end);
      if dms.Ok? {
        HistoryRoomy(g, buf, dms.end);
      }
    }
  }

  function Zeros(n: nat): (b: Bytes)
    ensures |b| == n
  {
    seq(n, _ => 0)
  }

  /** A manifest is reported truncated exactly when more bytes would change the outcome: every
    * other outcome, value or error, is final. */
  lemma TruncatedExactly(rd: Reader, buf: Bytes, pos: nat)
    ensures DecodeManifest(rd, buf, pos) == Err(Truncated)
       <==> exists more :: DecodeManifest(rd, buf + more, pos) != DecodeManifest(rd, buf, pos)
  {
    hide DecodeManifest;
    if DecodeManifest(rd, buf, pos) == Err(Truncated) {
      var more := Zeros(pos + MANIFEST_ROOM);
      ManifestRoomy(rd, buf + more, pos);
      assert DecodeManifest(rd, buf + more, pos) != Err(Truncated);
    }
    if more :| DecodeManifest(rd, buf + more, pos) != DecodeManifest(rd, buf, pos) {
      ManifestHastens(rd.chars, rd.prechecks, rd.prechecks, buf, buf + more, pos);
    }
  }

  // ----- the metadata blob -----

  lemma PrefixHastens(buf: Bytes, longer: Bytes, pos: nat)
    requires buf <= longer
    ensures Hastens(I.DecodePrefix(buf, pos), I.DecodePrefix(longer, pos))
  {
    hide ReadInt;
    ReadHastens(buf, longer, pos, 8);
    ReadHastens(buf, longer, pos + 8, 4);
    ReadHastens(buf, longer, pos + 12, 4);
    ReadHastens(buf, longer, pos + 16, 4);
    ReadHastens(buf, longer, pos + 20, 8);
    ReadHastens(buf, longer, pos + 28, 8);
    ReadHastens(buf, longer, pos + 36, 4);
    ReadHastens(buf, longer, pos + 40, 1);
  }

  lemma XAttrsHasten(buf: Bytes, longer: Bytes, pos: nat)
    requires buf <= longer
    ensures Hastens(I.DecodeXAttrs(buf, pos), I.DecodeXAttrs(longer, pos))
  {
    hide ReadInt, I.DecodeXAttr, Many;
    forall p: nat, before
      ensures Hastens(I.DecodeXAttr(buf, p, before), I.DecodeXAttr(longer, p, before))
    {
      XAttrHastens(buf, longer, p, before);
    }
    ReadHastens(buf, longer, pos, 4);
    var count := ReadInt(longer, pos, 4);
    if count.Ok? {
      ManyHastens(I.DecodeXAttr, I.DecodeXAttr, buf, longer, count.end, count.value, []);
    }
  }

  lemma XAttrHastens(buf: Bytes, longer: Bytes, pos: nat, before: seq<I.XAttr>)
    requires buf <= longer
    ensures Hastens(I.DecodeXAttr(buf, pos, before), I.DecodeXAttr(longer, pos, before))
  {
    hide ReadInt, DecodeText, DecodeBlob;
    ReadHastens(buf, longer, pos, 1);
    BlobHastens(0, I.U32_MAX, buf, longer, pos + 1);
    var key := DecodeText(0, I.U32_MAX, longer, pos + 1);
    if key.Ok? {
      BlobHastens(0, I.U32_MAX, buf, longer, key.end);
    }
  }

  lemma SlicesHasten(buf: Bytes, longer: Bytes, pos: nat)
    requires buf <= longer
    ensures Hastens(I.DecodeSlices(buf, pos), I.DecodeSlices(longer, pos))
  {
    hide ReadInt, I.DecodeSlice, Many;
    forall p: nat, before
      ensures Hastens(I.DecodeSlice(buf, p, before), I.DecodeSlice(longer, p, before))
    {
      SliceHastens(buf, longer, p, before);
    }
    ReadHastens(buf, longer, pos, 4);
    var count := ReadInt(longer, pos, 4);
    if count.Ok? {
      ManyHastens(I.DecodeSlice, I.DecodeSlice, buf, longer, count.end, count.value, []);
    }
  }

  lemma SliceHastens(buf: Bytes, longer: Bytes, pos: nat, before: seq<I.SliceRef>)
    requires buf <= longer
    ensures Hastens(I.DecodeSlice(buf, pos, before), I.DecodeSlice(longer, pos, before))
  {
    hide Read, ReadInt;
    ReadHastens(buf, longer, pos, 8);
    ReadHastens(buf, longer, pos + 8, 8);
    ReadHastens(buf, longer, pos + 16, 32);
    ReadHastens(buf, longer, pos + 48, 4);
    ReadHastens(buf, longer, pos + 52, 4);
  }

  lemma HandleHastens(mode: int, inlined: bool, buf: Bytes, longer: Bytes, pos: nat)
    requires buf <= longer
    ensures Hastens(I.DecodeHandle(mode, inlined, buf, pos), I.DecodeHandle(mode, inlined, longer, pos))
  {
    hide Read, ReadInt, DecodeText, DecodeBlob, I.DecodeSlices, I.FileType;
    BlobHastens(0, I.INLINE_MAX_BYTES, buf, longer, pos);
    BlobHastens(0, I.U32_MAX, buf, longer, pos);
    SlicesHasten(buf, longer, pos);
    ReadHastens(buf, longer, pos, 32);
    ReadHastens(buf, longer, pos, 8);
  }

  lemma InodeHastens(buf: Bytes, longer: Bytes, pos: nat)
    requires buf <= longer
    ensures Hastens(I.DecodeInode(buf, pos), I.DecodeInode(longer, pos))
  {
    hide ReadInt, I.DecodePrefix, I.DecodeXAttrs, I.DecodeHandle, I.HasAtime, I.HasXattrs, I.HasInlineData;
    PrefixHastens(buf, longer, pos);
    var p := I.DecodePrefix(longer, pos);
    if p.Ok? {
      ReadHastens(buf, longer, p.end, 8);
      var atime := I.DecodeAtime(p.value.flags, longer, p.end);
      if atime.Ok? {
        XAttrsHasten(buf, longer, atime.end);
        var xattrs := I.DecodeXAttrBlock(p.value.flags, longer, atime.end);
        if xattrs.Ok? {
          HandleHastens(p.value.mode, I.HasInlineData(p.value.flags), buf, longer, xattrs.end);
        }
      }
    }
  }

  lemma NameHastens(buf: Bytes, longer: Bytes, pos: nat)
    requires buf <= longer
    ensures Hastens(D.DecodeName(buf, pos), D.DecodeName(longer, pos))
  {
    hide Read, ReadInt, DecodeUtf8;
    ReadHastens(buf, longer, pos, 4);
    var n := ReadInt(longer, pos, 4);
    if n.Ok? {
      ReadHastens(buf, longer, n.end, n.value);
    }
  }

  lemma EntryHastens(buf: Bytes, longer: Bytes, pos: nat, before: seq<D.DirEntry>)
    requires buf <= longer
    ensures Hastens(D.DecodeEntry(buf, pos, before), D.DecodeEntry(longer, pos, before))
  {
    hide ReadInt, D.DecodeName, Less;
    NameHastens(buf, longer, pos);
    var name := D.DecodeName(longer, pos);
    if name.Ok? {
      ReadHastens(buf, longer, name.end, 8);
      ReadHastens(buf, longer, name.end + 8, 1);
    }
  }

  lemma NodeHastens(buf: Bytes, longer: Bytes, pos: nat)
    requires buf <= longer
    ensures Hastens(D.DecodeNode(buf, pos), D.DecodeNode(longer, pos))
  {
    hide ReadInt, D.DecodeEntry, Many;
    forall p: nat, before
      ensures Hastens(D.DecodeEntry(buf, p, before), D.DecodeEntry(longer, p, before))
    {
      EntryHastens(buf, longer, p, before);
    }
    ReadHastens(buf, longer, pos, 1);
    ReadHastens(buf, longer, pos + 1, 4);
    var count := ReadInt(longer, pos + 1, 4);
    if count.Ok? {
      ManyHastens(D.DecodeEntry, D.DecodeEntry, buf, longer, count.end, count.value, []);
    }
  }

  lemma MetadataHastens(buf: Bytes, longer: Bytes, pos: nat)
    requires buf <= longer
    ensures Hastens(M.DecodeMetadata(buf, pos), M.DecodeMetadata(longer, pos))
  {
    hide ReadInt, I.DecodeInode, D.DecodeNode, Many;
    forall p: nat, before
      ensures Hastens(M.InodeStep(buf, p, before), M.InodeStep(longer, p, before))
    {
      InodeHastens(buf, longer, p);
    }
    forall p: nat, before
      ensures Hastens(M.NodeStep(buf, p, before), M.NodeStep(longer, p, before))
    {
      NodeHastens(buf, longer, p);
    }
    ReadHastens(buf, longer, pos, 4);
    var inodeCount := ReadInt(longer, pos, 4);
    if inodeCount.Ok? {
      ManyHastens(M.InodeStep, M.InodeStep, buf, longer, inodeCount.end, inodeCount.value, []);
      var inodes := Many(M.InodeStep, longer, inodeCount.end, inodeCount.value, []);
      if inodes.Ok? {
        ReadHastens(buf, longer, inodes.end, 4);
        var nodeCount := ReadInt(longer, inodes.end, 4);
        if nodeCount.Ok? {
          ManyHastens(M.NodeStep, M.NodeStep, buf, longer, nodeCount.end, nodeCount.value, []);
        }
      }
    }
  }

  const XATTRS_ROOM := 4 + COUNTS * (1 + 4 + COUNTS + 4 + COUNTS)
  const HANDLE_ROOM := 4 + COUNTS * 56 + 4096
  const INODE_ROOM := 41 + 8 + XATTRS_ROOM + HANDLE_ROOM
  const NODE_ROOM := 5 + COUNTS * (4 + COUNTS + 9)
  const METADATA_ROOM := 8 + COUNTS * INODE_ROOM + COUNTS * NODE_ROOM

  lemma XAttrsRoomy(buf: Bytes, pos: nat)
    ensures Roomy(I.DecodeXAttrs(buf, pos), buf, pos, XATTRS_ROOM)
  {
    hide I.DecodeXAttr, Many, FromLe;
    forall p: nat, before
      ensures Roomy(I.DecodeXAttr(buf, p, before), buf, p, 1 + 4 + COUNTS + 4 + COUNTS)
    {
      XAttrRoomy(buf, p, before);
    }
    CountBound(buf, pos);
    var count := ReadInt(buf, pos, 4);
    if count.Ok? {
      CountedRoomy(false, 0, I.DecodeXAttr, buf, count.end, count.value, COUNTS, 1 + 4 + COUNTS + 4 + COUNTS);
    }
  }

  lemma XAttrRoomy(buf: Bytes, pos: nat, before: seq<I.XAttr>)
    ensures Roomy(I.DecodeXAttr(buf, pos, before), buf, pos, 1 + 4 + COUNTS + 4 + COUNTS)
  {
    hide DecodeText, DecodeBlob, FromLe;
    BlobRoomy(0, I.U32_MAX, buf, pos + 1);
    var key := DecodeText(0, I.U32_MAX, buf, pos + 1);
    if key.Ok? {
      BlobRoomy(0, I.U32_MAX, buf, key.end);
    }
  }

  lemma SlicesRoomy(buf: Bytes, pos: nat)
    ensures Roomy(I.DecodeSlices(buf, pos), buf, pos, 4 + COUNTS * 56)
  {
    hide I.DecodeSlice, Many, FromLe;
    forall p: nat, before
      ensures Roomy(I.DecodeSlice(buf, p, before), buf, p, 56)
    {
      SliceRoomy(buf, p, before);
    }
    CountBound(buf, pos);
    var count := ReadInt(buf, pos, 4);
    if count.Ok? {
      CountedRoomy(false, 0, I.DecodeSlice, buf, count.end, count.value, COUNTS, 56);
    }
  }

  lemma SliceRoomy(buf: Bytes, pos: nat, before: seq<I.SliceRef>)
    ensures Roomy(I.DecodeSlice(buf, pos, before), buf, pos, 56)
  {
    hide FromLe;
  }

  lemma HandleRoomy(mode: int, inlined: bool, buf: Bytes, pos: nat)
    ensures Roomy(I.DecodeHandle(mode, inlined, buf, pos), buf, pos, HANDLE_ROOM)
  {
    hide DecodeText, DecodeBlob, I.DecodeSlices, I.FileType, FromLe;
    BlobRoomy(0, I.INLINE_MAX_BYTES, buf, pos);
    BlobRoomy(0, I.U32_MAX, buf, pos);
    SlicesRoomy(buf, pos);
  }

  lemma InodeRoomy(buf: Bytes, pos: nat)
    ensures Roomy(I.DecodeInode(buf, pos), buf, pos, INODE_ROOM)
  {
    hide I.DecodePrefix, I.DecodeXAttrs, I.DecodeHandle, I.HasAtime, I.HasXattrs, I.HasInlineData, FromLe;
    PrefixRoomy(buf, pos);
    var p := I.DecodePrefix(buf, pos);
    if p.Ok? {
      var atime := I.DecodeAtime(p.value.flags, buf, p.end);
      if atime.Ok? {
        XAttrsRoomy(buf, atime.end);
        var xattrs := I.DecodeXAttrBlock(p.value.flags, buf, atime.end);
        if xattrs.Ok? {
          HandleRoomy(p.value.mode, I.HasInlineData(p.value.flags), buf, xattrs.end);
        }
      }
    }
  }

  lemma PrefixRoomy(buf: Bytes, pos: nat)
    ensures Roomy(I.DecodePrefix(buf, pos), buf, pos, 41)
  {
    hide FromLe, Bound;
  }

  lemma NodeEntryRoomy(buf: Bytes, pos: nat, before: seq<D.DirEntry>)
    ensures Roomy(D.DecodeEntry(buf, pos, before), buf, pos, 4 + COUNTS + 9)
  {
    hide DecodeUtf8, Less, FromLe;
    CountBound(buf, pos);
  }

  lemma NodeRoomy(buf: Bytes, pos: nat)
    ensures Roomy(D.DecodeNode(buf, pos), buf, pos, NODE_ROOM)
  {
    hide D.DecodeEntry, Many, FromLe;
    forall p: nat, before
      ensures Roomy(D.DecodeEntry(buf, p, before), buf, p, 4 + COUNTS + 9)
    {
      NodeEntryRoomy(buf, p, before);
    }
    CountBound(buf, pos + 1);
    var count := ReadInt(buf, pos + 1, 4);
    if count.Ok? {
      CountedRoomy(false, 0, D.DecodeEntry, buf, count.end, count.value, COUNTS, 4 + COUNTS + 9);
    }
  }

  lemma MetadataRoomy(buf: Bytes, pos: nat)
    ensures Roomy(M.DecodeMetadata(buf, pos), buf, pos, METADATA_ROOM)
  {
    hide I.DecodeInode, D.DecodeNode, Many, FromLe;
    forall p: nat, before
      ensures Roomy(M.InodeStep(buf, p, before), buf, p, INODE_ROOM)
    {
      InodeRoomy(buf, p);
    }
    forall p: nat, before
      ensures Roomy(M.NodeStep(buf, p, before), buf, p, NODE_ROOM)
    {
      NodeRoomy(buf, p);
    }
    CountBound(buf, pos);
    var inodeCount := ReadInt(buf, pos, 4);
    if inodeCount.Ok? {
      CountedRoomy(false, 0, M.InodeStep, buf, inodeCount.end, inodeCount.value, COUNTS, INODE_ROOM);
      var inodes := Many(M.InodeStep, buf, inodeCount.end, inodeCount.value, []);
      if inodes.Ok? {
        CountBound(buf, inodes.end);
        var nodeCount := ReadInt(buf, inodes.end, 4);
        if nodeCount.Ok? {
          CountedRoomy(false, 0, M.NodeStep, buf, nodeCount.end, nodeCount.value, COUNTS, NODE_ROOM);
        }
      }
    }
  }

  /** And so is a metadata blob. */
  lemma MetadataTruncatedExactly(buf: Bytes, pos: nat)
    ensures M.DecodeMetadata(buf, pos) == Err(Truncated)
       <==> exists more :: M.DecodeMetadata(buf + more, pos) != M.DecodeMetadata(buf, pos)
  {
    hide M.DecodeMetadata;
    if M.DecodeMetadata(buf, pos) == Err(Truncated) {
      var more := Zeros(pos + METADATA_ROOM);
      MetadataRoomy(buf + more, pos);
      assert M.DecodeMetadata(buf + more, pos) != Err(Truncated);
    }
    if more :| M.DecodeMetadata(buf + more, pos) != M.DecodeMetadata(buf, pos) {
      MetadataHastens(buf, buf + more, pos);
    }
  }

  /** A slab header and a drop record are truncated exactly when the bytes to the first fault, or
    * to their end, are not all there: again when more would change the outcome. */
  lemma SlabTruncatedExactly(h: S.SlabHeader, buf: Bytes, pos: nat)
    ensures S.DecodeSlabHeader(buf, pos) == Err(Truncated)
       <==> exists more :: S.DecodeSlabHeader(buf + more, pos) != S.DecodeSlabHeader(buf, pos)
    ensures S.DecodeRecord(h, buf, pos) == Err(Truncated)
       <==> exists more :: S.DecodeRecord(h, buf + more, pos) != S.DecodeRecord(h, buf, pos)
  {
    hide S.DecodeSlabHeader, S.DecodeRecord;
    var more := Zeros(pos + 56);
    SlabHeaderRoomy(buf + more, pos);
    assert S.DecodeSlabHeader(buf + more, pos) != Err(Truncated);
    assert S.DecodeRecord(h, buf + more, pos) != Err(Truncated);
    forall more
      ensures Hastens(S.DecodeSlabHeader(buf, pos), S.DecodeSlabHeader(buf + more, pos))
      ensures Hastens(S.DecodeRecord(h, buf, pos), S.DecodeRecord(h, buf + more, pos))
    {
      SlabHeaderHastens(buf, buf + more, pos);
      RecordHastens(h, buf, buf + more, pos);
    }
  }

  lemma SlabHeaderRoomy(buf: Bytes, pos: nat)
    ensures Roomy(S.DecodeSlabHeader(buf, pos), buf, pos, 56)
  {
    hide FromLe;
  }

  lemma SlabHeaderHastens(buf: Bytes, longer: Bytes, pos: nat)
    requires buf <= longer
    ensures Hastens(S.DecodeSlabHeader(buf, pos), S.DecodeSlabHeader(longer, pos))
  {
    hide Read, ReadInt, DecodeSlabId;
    ReadHastens(buf, longer, pos, 4);
    ReadHastens(buf, longer, pos + 4, 2);
    SlabIdHastens(buf, longer, pos + 6);
    ReadHastens(buf, longer, pos + 46, 8);
    ReadHastens(buf, longer, pos + 54, 1);
    ReadHastens(buf, longer, pos + 55, 1);
  }

  lemma RecordHastens(h: S.SlabHeader, buf: Bytes, longer: Bytes, pos: nat)
    requires buf <= longer
    ensures Hastens(S.DecodeRecord(h, buf, pos), S.DecodeRecord(h, longer, pos))
  {
    hide Read, ReadInt;
    ReadHastens(buf, longer, pos, 32);
    ReadHastens(buf, longer, pos + 32, 4);
    ReadHastens(buf, longer, pos + 36, 3);
    ReadHastens(buf, longer, pos + 39, 1);
    ReadHastens(buf, longer, pos + 40, 4);
    ReadHastens(buf, longer, pos + 44, 4);
  }

  // ----- wrong magics and unsupported features -----

  /** The byte at `pos` is there and is not `b`. */
  predicate OtherByte(buf: Bytes, pos: nat, b: u8) {
    pos < |buf| && buf[pos] != b
  }

  lemma ByteAt(buf: Bytes, pos: nat)
    ensures ReadInt(buf, pos, 1) == if pos < |buf| then Ok(buf[pos] as int, pos + 1) else Err(Truncated)
  {
    if pos < |buf| {
      assert buf[pos..pos + 1] == [buf[pos]];
      assert FromLe([buf[pos]]) == buf[pos];
    }
  }

  lemma WordAt(buf: Bytes, pos: nat)
    ensures ReadInt(buf, pos, 2)
         == if pos + 2 <= |buf| then Ok(buf[pos] as int + 0x100 * (buf[pos + 1] as int), pos + 2) else Err(Truncated)
  {
    if pos + 2 <= |buf| {
      assert buf[pos..pos + 2] == [buf[pos], buf[pos + 1]];
      assert FromLe([buf[pos], buf[pos + 1]]) == buf[pos] as int + 0x100 * (buf[pos + 1] as int);
    }
  }

  lemma HeaderErrors(buf: Bytes, pos: nat)
    ensures DecodeHeader(buf, pos) == Err(BadMagic)
       <==> pos + 4 <= |buf| && buf[pos..pos + 4] != [0x4C, 0x4D, 0x46, 0x53]
    ensures DecodeHeader(buf, pos) != Err(Unsupported)
  {
    hide FromLe;
  }

  lemma BlobPlain(min: nat, max: nat, buf: Bytes, pos: nat)
    ensures Plain(DecodeBlob(min, max, buf, pos)) && Plain(DecodeText(min, max, buf, pos))
    ensures Plain(MR.DecodeOptional(max, buf, pos))
  {
    hide DecodeUtf8, FromLe;
  }

  lemma FlagsErrors(g: bool, buf: Bytes, pos: nat)
    ensures F.DecodeFlags(g, buf, pos) == Err(Unsupported) <==> OtherByte(buf, pos, 1)
    ensures F.DecodeFlags(g, buf, pos) != Err(BadMagic)
  {
    hide Many, ReadInt, F.DecodeFlag;
    ByteAt(buf, pos);
    ReadPlain(buf, pos + 1, 4);
    forall p: nat, before
      ensures Plain(F.DecodeFlag(buf, p, before))
    {
      FlagPlain(buf, p, before);
    }
    var count := ReadInt(buf, pos + 1, 4);
    if count.Ok? {
      ManyPlain(F.DecodeFlag, buf, count.end, count.value, []);
    }
  }

  lemma ReadPlain(buf: Bytes, pos: nat, n: nat)
    ensures Plain(Read(buf, pos, n)) && Plain(ReadInt(buf, pos, n))
    ensures ReadInt(buf, pos, n).Ok? ==> ReadInt(buf, pos, n).end == pos + n
  {
  }

  lemma FlagPlain(buf: Bytes, pos: nat, before: seq<F.FeatureFlag>)
    ensures Plain(F.DecodeFlag(buf, pos, before))
  {
    hide FromLe, F.Declares;
  }

  lemma LocatorsPlain(rd: Reader, buf: Bytes, pos: nat, n: nat)
    ensures Plain(DecodeLocators(rd, buf, pos, n))
  {
    hide DecodeText, ValidUri, Many;
    var step := LocatorStep(rd.chars);
    forall p: nat, before
      ensures Plain(step(buf, p, before))
    {
      BlobPlain(MIN_URI_BYTES, MAX_URI_BYTES, buf, p);
    }
    ManyPlain(step, buf, pos, n, []);
  }

  lemma ReferenceErrors(rd: Reader, buf: Bytes, pos: nat)
    ensures MR.DecodeMetadataReference(rd, buf, pos) == Err(Unsupported) <==> OtherByte(buf, pos, 1)
    ensures MR.DecodeMetadataReference(rd, buf, pos) != Err(BadMagic)
  {
    hide DecodeLocators, MR.DecodeOptional, ReadInt;
    ByteAt(buf, pos);
    ReadPlain(buf, pos + 33, 4);
    var count := ReadInt(buf, pos + 33, 4);
    if count.Ok? {
      LocatorsPlain(rd, buf, count.end, count.value);
      var locators := DecodeLocators(rd, buf, count.end, count.value);
      if locators.Ok? {
        BlobPlain(0, MR.INLINE_MAX_BYTES, buf, locators.end);
      }
    }
  }

  lemma SlabEntryPlain(rd: Reader, buf: Bytes, pos: nat, before: seq<SI.SlabIndexEntry>)
    ensures Plain(SI.DecodeEntry(rd, buf, pos, before))
  {
    hide DecodeLocators, FromLe, Seen;
    var count := ReadInt(buf, pos + 40, 4);
    if count.Ok? {
      LocatorsPlain(rd, buf, count.end, count.value);
    }
  }

  lemma SlabIndexErrors(rd: Reader, buf: Bytes, pos: nat)
    ensures SI.DecodeSlabIndex(rd, buf, pos) == Err(Unsupported) <==> OtherByte(buf, pos, 1)
    ensures SI.DecodeSlabIndex(rd, buf, pos) != Err(BadMagic)
  {
    hide SI.DecodeEntry, Many, ReadInt;
    var step := SI.EntryStep(rd);
    forall p: nat, before
      ensures Plain(step(buf, p, before))
    {
      SlabEntryPlain(rd, buf, p, before);
    }
    ByteAt(buf, pos);
    ReadPlain(buf, pos + 1, 4);
    var count := ReadInt(buf, pos + 1, 4);
    if count.Ok? {
      ManyPlain(step, buf, count.end, count.value, []);
    }
  }

  /** The version, or a polynomial that is there after shard counts within bounds. */
  lemma EcErrors(g: bool, buf: Bytes, pos: nat)
    ensures EC.DecodeEcParams(g, buf, pos) == Err(Unsupported)
       <==> || OtherByte(buf, pos, 1)
            || (pos + 5 <= |buf| && 1 <= buf[pos + 1] && 1 <= buf[pos + 2]
                && buf[pos + 1] as int + buf[pos + 2] as int <= 255
                && (buf[pos + 3] != 0x1D || buf[pos + 4] != 0x01))
    ensures EC.DecodeEcParams(g, buf, pos) != Err(BadMagic)
  {
    hide Many, ReadInt, EC.DecodeOverride;
    ByteAt(buf, pos);
    ByteAt(buf, pos + 1);
    ByteAt(buf, pos + 2);
    WordAt(buf, pos + 3);
    ReadPlain(buf, pos + 5, 4);
    forall p: nat, before
      ensures Plain(EC.DecodeOverride(buf, p, before))
    {
      OverridePlain(buf, p, before);
    }
    var count := ReadInt(buf, pos + 5, 4);
    if count.Ok? {
      ManyPlain(EC.DecodeOverride, buf, count.end, count.value, []);
    }
  }

  lemma OverridePlain(buf: Bytes, pos: nat, before: seq<EC.EcOverride>)
    ensures Plain(EC.DecodeOverride(buf, pos, before))
  {
    hide FromLe, Seen;
  }

  /** The version, or the scheme after it. */
  lemma DmsErrors(buf: Bytes, pos: nat)
    ensures DMS.DecodeDmsPolicy(buf, pos) == Err(Unsupported)
       <==> OtherByte(buf, pos, 1) || (pos < |buf| && OtherByte(buf, pos + 1, 0))
    ensures DMS.DecodeDmsPolicy(buf, pos) != Err(BadMagic)
  {
    hide Many, ReadInt, DMS.DecodeShare, MR.DecodeOptional, DecodeUtf8;
    ByteAt(buf, pos);
    ByteAt(buf, pos + 1);
    ReadPlain(buf, pos + 2, 1);
    ReadPlain(buf, pos + 3, 1);
    ReadPlain(buf, pos + 4, 4);
    forall p: nat, before
      ensures Plain(DMS.DecodeShare(buf, p, before))
    {
      SharePlain(buf, p, before);
    }
    var count := ReadInt(buf, pos + 4, 4);
    if count.Ok? {
      ManyPlain(DMS.DecodeShare, buf, count.end, count.value, []);
      var shares := Many(DMS.DecodeShare, buf, count.end, count.value, []);
      if shares.Ok? {
        BlobPlain(0, DMS.HINT_MAX_BYTES, buf, shares.end);
      }
    }
  }

  lemma SharePlain(buf: Bytes, pos: nat, before: seq<DMS.ShareRecord>)
    ensures Plain(DMS.DecodeShare(buf, pos, before))
  {
    hide DecodeText, DecodeBlob, Seen;
    BlobPlain(1, DMS.HINT_MAX_BYTES, buf, pos);
    var id := DecodeText(1, DMS.HINT_MAX_BYTES, buf, pos);
    if id.Ok? {
      BlobPlain(1, DMS.SHARE_MAX_BYTES, buf, id.end);
    }
  }

  lemma HistoryEntryErrors(buf: Bytes, pos: nat, before: seq<HI.HistoryEntry>)
    ensures HI.DecodeEntry(buf, pos, before) == Err(Unsupported) <==> pos < |buf| && buf[pos] !in {1, 2, 3, 4, 5}
    ensures HI.DecodeEntry(buf, pos, before) != Err(BadMagic)
  {
    hide ReadInt, HI.Chunks, DecodeBlob;
    ByteAt(buf, pos);
    ReadPlain(buf, pos + 1, 8);
    ReadPlain(buf, pos + 9, 4);
    var count := ReadInt(buf, pos + 9, 4);
    if count.Ok? {
      BlobPlain(0, HI.PARAMS_MAX_BYTES, buf, count.end + 32 * count.value);
    }
  }

  /** After `i` good entries of the section at `pos` the next one has an operation that is not one of the five. */
  ghost predicate UnknownOperation(buf: Bytes, pos: nat, i: nat) {
    var before := Many(HI.DecodeEntry, buf, pos + 5, i, []);
    before.Ok? && before.end < |buf| && buf[before.end] !in {1, 2, 3, 4, 5}
  }

  /** The version, or an operation reached, unless the precheck has found too few bytes. */
  lemma HistoryErrors(g: bool, buf: Bytes, pos: nat)
    ensures HI.DecodeHistory(g, buf, pos) == Err(Unsupported)
       <==> || OtherByte(buf, pos, 1)
            || var count := ReadInt(buf, pos + 1, 4);
               && count.Ok? && (g ==> |buf| - (pos + 5) >= 17 * count.value)
               && exists i: nat :: i < count.value && UnknownOperation(buf, pos, i)
    ensures HI.DecodeHistory(g, buf, pos) != Err(BadMagic)
  {
    hide ReadInt, HI.DecodeEntry, Many;
    ByteAt(buf, pos);
    ReadPlain(buf, pos + 1, 4);
    var count := ReadInt(buf, pos + 1, 4);
    if count.Ok? {
      var start := pos + 5;
      ManyFails(HI.DecodeEntry, buf, start, count.value, [], Unsupported);
      ManyFails(HI.DecodeEntry, buf, start, count.value, [], BadMagic);
      forall i: nat
        ensures FailsAt(HI.DecodeEntry, buf, start, i, [], Unsupported) <==> UnknownOperation(buf, pos, i)
        ensures !FailsAt(HI.DecodeEntry, buf, start, i, [], BadMagic)
      {
        var before := Many(HI.DecodeEntry, buf, start, i, []);
        if before.Ok? {
          HistoryEntryErrors(buf, before.end, before.value);
        }
      }
    }
  }

  /** A bad magic is the header's, over the whole chain. */
  lemma ManifestBadMagic(rd: Reader, buf: Bytes, pos: nat)
    ensures DecodeManifest(rd, buf, pos) == Err(BadMagic)
       <==> pos + 4 <= |buf| && buf[pos..pos + 4] != [0x4C, 0x4D, 0x46, 0x53]
  {
    hide DecodeHeader, F.DecodeFlags, MR.DecodeMetadataReference, SI.DecodeSlabIndex;
    hide EC.DecodeEcParams, DMS.DecodeDmsPolicy, HI.DecodeHistory, F.Declares;
    HeaderErrors(buf, pos);
    forall p: nat
      ensures F.DecodeFlags(rd.prechecks, buf, p) != Err(BadMagic)
      ensures MR.DecodeMetadataReference(rd, buf, p) != Err(BadMagic)
      ensures SI.DecodeSlabIndex(rd, buf, p) != Err(BadMagic)
      ensures EC.DecodeEcParams(rd.prechecks, buf, p) != Err(BadMagic)
      ensures DMS.DecodeDmsPolicy(buf, p) != Err(BadMagic)
      ensures HI.DecodeHistory(rd.prechecks, buf, p) != Err(BadMagic)
    {
      FlagsErrors(rd.prechecks, buf, p);
      ReferenceErrors(rd, buf, p);
      SlabIndexErrors(rd, buf, p);
      EcErrors(rd.prechecks, buf, p);
      DmsErrors(buf, p);
      HistoryErrors(rd.prechecks, buf, p);
    }
  }

  /** A slab header: the magic, then the version, then a descriptor 0xFF behind a length in bounds. */
  lemma SlabHeaderErrors(buf: Bytes, pos: nat)
    ensures S.DecodeSlabHeader(buf, pos) == Err(BadMagic)
       <==> pos + 4 <= |buf| && buf[pos..pos + 4] != [0x4C, 0x49, 0x4D, 0x31]
    ensures S.DecodeSlabHeader(buf, pos) == Err(Unsupported)
       <==> && pos + 6 <= |buf| && buf[pos..pos + 4] == [0x4C, 0x49, 0x4D, 0x31]
            && (|| buf[pos + 4] != 1 || buf[pos + 5] != 0
                || (pos + 55 <= |buf| && 56 <= FromLe(buf[pos + 46..pos + 54]) <= 0x400_0000
                    && (buf[pos + 54] == 0xFF || (pos + 56 <= |buf| && buf[pos + 55] == 0xFF))))
  {
    hide FromLe;
    WordAt(buf, pos + 4);
    ByteAt(buf, pos + 54);
    ByteAt(buf, pos + 55);
  }

  lemma RecordPlain(h: S.SlabHeader, buf: Bytes, pos: nat)
    ensures Plain(S.DecodeRecord(h, buf, pos))
  {
    hide FromLe;
  }

  /** Nothing in an inode is unsupported. */
  lemma InodePlain(buf: Bytes, pos: nat)
    ensures Plain(I.DecodeInode(buf, pos))
  {
    hide I.DecodePrefix, I.DecodeXAttrs, I.DecodeHandle, I.HasAtime, I.HasXattrs, I.HasInlineData, FromLe;
    PrefixPlain(buf, pos);
    var p := I.DecodePrefix(buf, pos);
    if p.Ok? {
      var atime := I.DecodeAtime(p.value.flags, buf, p.end);
      if atime.Ok? {
        XAttrsPlain(buf, atime.end);
        var xattrs := I.DecodeXAttrBlock(p.value.flags, buf, atime.end);
        if xattrs.Ok? {
          HandlePlain(p.value.mode, I.HasInlineData(p.value.flags), buf, xattrs.end);
        }
      }
    }
  }

  lemma PrefixPlain(buf: Bytes, pos: nat)
    ensures Plain(I.DecodePrefix(buf, pos))
  {
    hide FromLe, Bound;
  }

  lemma XAttrsPlain(buf: Bytes, pos: nat)
    ensures Plain(I.DecodeXAttrs(buf, pos))
  {
    hide Many, FromLe, DecodeText, DecodeBlob;
    forall p: nat, before
      ensures Plain(I.DecodeXAttr(buf, p, before))
    {
      BlobPlain(0, I.U32_MAX, buf, p + 1);
      var key := DecodeText(0, I.U32_MAX, buf, p + 1);
      if key.Ok? {
        BlobPlain(0, I.U32_MAX, buf, key.end);
      }
    }
    var count := ReadInt(buf, pos, 4);
    if count.Ok? {
      ManyPlain(I.DecodeXAttr, buf, count.end, count.value, []);
    }
  }

  lemma HandlePlain(mode: int, inlined: bool, buf: Bytes, pos: nat)
    ensures Plain(I.DecodeHandle(mode, inlined, buf, pos))
  {
    hide DecodeText, DecodeBlob, Many, I.FileType, FromLe, I.DecodeSlice;
    BlobPlain(0, I.INLINE_MAX_BYTES, buf, pos);
    BlobPlain(0, I.U32_MAX, buf, pos);
    forall p: nat, before
      ensures Plain(I.DecodeSlice(buf, p, before))
    {
      SlicePlain(buf, p, before);
    }
    var count := ReadInt(buf, pos, 4);
    if count.Ok? {
      ManyPlain(I.DecodeSlice, buf, count.end, count.value, []);
    }
  }

  lemma SlicePlain(buf: Bytes, pos: nat, before: seq<I.SliceRef>)
    ensures Plain(I.DecodeSlice(buf, pos, before))
  {
    hide FromLe;
  }

  /** In a directory node only its version is. */
  lemma NodeErrors(buf: Bytes, pos: nat)
    ensures D.DecodeNode(buf, pos) == Err(Unsupported) <==> OtherByte(buf, pos, 1)
    ensures D.DecodeNode(buf, pos) != Err(BadMagic)
  {
    hide Many, ReadInt, D.DecodeEntry;
    ByteAt(buf, pos);
    ReadPlain(buf, pos + 1, 4);
    forall p: nat, before
      ensures Plain(D.DecodeEntry(buf, p, before))
    {
      NodeEntryPlain(buf, p, before);
    }
    var count := ReadInt(buf, pos + 1, 4);
    if count.Ok? {
      ManyPlain(D.DecodeEntry, buf, count.end, count.value, []);
    }
  }

  lemma NodeEntryPlain(buf: Bytes, pos: nat, before: seq<D.DirEntry>)
    ensures Plain(D.DecodeEntry(buf, pos, before))
  {
    hide FromLe, DecodeUtf8, Less;
  }

  // ----- the prechecks, in numbers -----

  /** With their prechecks the sections report truncation at once when fewer bytes are left than
    * their counts of 3, 8, 42 or 17 bytes ask for, and otherwise do what they do without. */
  lemma LocatorsGuard(chars: Charset, buf: Bytes, pos: nat, n: nat)
    ensures DecodeLocators(Reader(chars, true), buf, pos, n)
         == if |buf| - pos < 8 * n then Err(Truncated) else DecodeLocators(Reader(chars, false), buf, pos, n)
  {
    hide Many;
  }

  lemma FlagsGuard(buf: Bytes, pos: nat)
    ensures var count := ReadInt(buf, pos + 1, 4);
            F.DecodeFlags(true, buf, pos)
            == if pos < |buf| && buf[pos] == 1 && count.Ok? && |buf| - (pos + 5) < 3 * count.value then Err(Truncated)
               else F.DecodeFlags(false, buf, pos)
  {
    hide Many, ReadInt, F.DecodeFlag;
    ByteAt(buf, pos);
    ReadPlain(buf, pos + 1, 4);
  }

  lemma HistoryGuard(buf: Bytes, pos: nat)
    ensures var count := ReadInt(buf, pos + 1, 4);
            HI.DecodeHistory(true, buf, pos)
            == if pos < |buf| && buf[pos] == 1 && count.Ok? && |buf| - (pos + 5) < 17 * count.value then Err(Truncated)
               else HI.DecodeHistory(false, buf, pos)
  {
    hide Many, ReadInt, HI.DecodeEntry;
    ByteAt(buf, pos);
    ReadPlain(buf, pos + 1, 4);
  }

  lemma EcGuard(buf: Bytes, pos: nat)
    ensures var count := ReadInt(buf, pos + 5, 4);
            EC.DecodeEcParams(true, buf, pos)
            == if pos + 5 <= |buf| && buf[pos] == 1 && 1 <= buf[pos + 1] && 1 <= buf[pos + 2]
                  && buf[pos + 1] as int + buf[pos + 2] as int <= 255 && buf[pos + 3] == 0x1D && buf[pos + 4] == 0x01
                  && count.Ok? && |buf| - (pos + 9) < 42 * count.value
               then Err(Truncated) else EC.DecodeEcParams(false, buf, pos)
  {
    hide Many, ReadInt, EC.DecodeOverride;
    ByteAt(buf, pos);
    ByteAt(buf, pos + 1);
    ByteAt(buf, pos + 2);
    WordAt(buf, pos + 3);
    ReadPlain(buf, pos + 5, 4);
  }

  /** The slab index asks for 44 bytes an entry, and the locators of each entry for 8 more. */
  lemma SlabIndexGuard(chars: Charset, buf: Bytes, pos: nat)
    ensures var count := ReadInt(buf, pos + 1, 4);
            pos < |buf| && buf[pos] == 1 && count.Ok? ==>
              SI.DecodeSlabIndex(Reader(chars, true), buf, pos)
              == if |buf| - (pos + 5) < 44 * count.value then Err(Truncated)
                 else Many(SI.EntryStep(Reader(chars, true)), buf, pos + 5, count.value, [])
  {
    hide Many, ReadInt, SI.DecodeEntry;
    ByteAt(buf, pos);
    ReadPlain(buf, pos + 1, 4);
  }
}
