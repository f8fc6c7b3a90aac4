/** Verification of a manifest: its sections, their spans, and the Merkle root. */
module Verify {
  import opened Wire
  import opened Cursors
  import opened Locators
  import opened Headers
  import opened Merkle
  import opened Manifests
  import F = FeatureFlags
  import MR = MetadataReferences
  import SI = SlabIndexes
  import EC = EcParamsSections
  import DMS = DmsPolicies
  import HI = Histories
  import Metadata
  import RootDiscovery
  import Outcomes
  import Layouts
  import MetadataLayouts

  // ----- consequences of exactness -----

  /** No manifest is a prefix of another, and no bytes spell two manifests. */
  lemma PrefixFree(chars: Charset, buf: Bytes, pos: nat, m: Manifest, m': Manifest)
    requires ManifestOk(chars, m) && ManifestOk(chars, m')
    requires At(buf, pos, EncodeManifest(m)) && At(buf, pos, EncodeManifest(m'))
    ensures m == m'
  {
    hide DecodeManifest, EncodeManifest, ManifestOk;
    var rd := Reader(chars, true);
    ManifestExact(rd, buf, pos, m, pos + |EncodeManifest(m)|);
    ManifestExact(rd, buf, pos, m', pos + |EncodeManifest(m')|);
  }

  /** A manifest read from `pos` to `end` reads the same from any buffer with those bytes there,
    * whatever follows and whether or not anything does. */
  lemma Locality(rd: Reader, buf: Bytes, buf': Bytes, pos: nat, end: nat)
    requires DecodeManifest(rd, buf, pos).Ok? && DecodeManifest(rd, buf, pos).end == end
    requires pos <= end <= |buf| && end <= |buf'| && buf[pos..end] == buf'[pos..end]
    ensures DecodeManifest(rd, buf', pos) == DecodeManifest(rd, buf, pos)
  {
    hide DecodeManifest, EncodeManifest, ManifestOk;
    var r := DecodeManifest(rd, buf, pos);
    ManifestExact(rd, buf, pos, r.value, end);
    ManifestExact(rd, buf', pos, r.value, end);
    ExactIsLocal(r, DecodeManifest(rd, buf', pos), r.value, end, ManifestOk(rd.chars, r.value), buf, buf', pos,
                 EncodeManifest(r.value));
  }

  /** So do the sections that consult the number of bytes left. */
  lemma SectionLocality(rd: Reader, buf: Bytes, buf': Bytes, pos: nat, end: nat)
    requires pos <= end <= |buf| && end <= |buf'| && buf[pos..end] == buf'[pos..end]
    ensures var r := MR.DecodeMetadataReference(rd, buf, pos);
            r.Ok? && r.end == end ==> MR.DecodeMetadataReference(rd, buf', pos) == r
    ensures var r := SI.DecodeSlabIndex(rd, buf, pos);
            r.Ok? && r.end == end ==> SI.DecodeSlabIndex(rd, buf', pos) == r
    ensures var r := HI.DecodeHistory(rd.prechecks, buf, pos);
            r.Ok? && r.end == end ==> HI.DecodeHistory(rd.prechecks, buf', pos) == r
    ensures var r := F.DecodeFlags(rd.prechecks, buf, pos);
            r.Ok? && r.end == end ==> F.DecodeFlags(rd.prechecks, buf', pos) == r
    ensures var r := EC.DecodeEcParams(rd.prechecks, buf, pos);
            r.Ok? && r.end == end ==> EC.DecodeEcParams(rd.prechecks, buf', pos) == r
  {
    hide F.DecodeFlags, F.EncodeFlags, F.FlagsOk, EC.DecodeEcParams, EC.EncodeEcParams, EC.EcParamsOk;
    hide MR.DecodeMetadataReference, MR.EncodeMetadataReference, MR.MetadataReferenceOk;
    hide SI.DecodeSlabIndex, SI.EncodeSlabIndex, SI.SlabIndexOk, HI.DecodeHistory, HI.EncodeHistory, HI.HistoryOk;
    var m := MR.DecodeMetadataReference(rd, buf, pos);
    if m.Ok? && m.end == end {
      MR.MetadataReferenceExact(rd, buf, pos, m.value, end);
      MR.MetadataReferenceExact(rd, buf', pos, m.value, end);
    }
    var s := SI.DecodeSlabIndex(rd, buf, pos);
    if s.Ok? && s.end == end {
      SI.SlabIndexExact(rd, buf, pos, s.value, end);
      SI.SlabIndexExact(rd, buf', pos, s.value, end);
    }
    var t := HI.DecodeHistory(rd.prechecks, buf, pos);
    if t.Ok? && t.end == end {
      HI.HistoryExact(rd.prechecks, buf, pos, t.value, end);
      HI.HistoryExact(rd.prechecks, buf', pos, t.value, end);
    }
    var f := F.DecodeFlags(rd.prechecks, buf, pos);
    if f.Ok? && f.end == end {
      F.FlagsExact(rd.prechecks, buf, pos, f.value, end);
      F.FlagsExact(rd.prechecks, buf', pos, f.value, end);
    }
    var e := EC.DecodeEcParams(rd.prechecks, buf, pos);
    if e.Ok? && e.end == end {
      EC.EcParamsExact(rd.prechecks, buf, pos, e.value, end);
      EC.EcParamsExact(rd.prechecks, buf', pos, e.value, end);
    }
  }

  /** Deleting every precheck changes neither what is accepted nor what is returned. */
  lemma PrechecksChangeNothingAccepted(chars: Charset, buf: Bytes, pos: nat)
    ensures var guarded, plain := DecodeManifest(Reader(chars, true), buf, pos), DecodeManifest(Reader(chars, false), buf, pos);
            (guarded.Ok? <==> plain.Ok?) && (guarded.Ok? ==> guarded == plain)
  {
    hide DecodeManifest, EncodeManifest, ManifestOk;
    var guarded, plain := DecodeManifest(Reader(chars, true), buf, pos), DecodeManifest(Reader(chars, false), buf, pos);
    if guarded.Ok? {
      ManifestExact(Reader(chars, true), buf, pos, guarded.value, guarded.end);
      ManifestExact(Reader(chars, false), buf, pos, guarded.value, guarded.end);
    }
    if plain.Ok? {
      ManifestExact(Reader(chars, true), buf, pos, plain.value, plain.end);
      ManifestExact(Reader(chars, false), buf, pos, plain.value, plain.end);
    }
  }

  /** All they change is which error is reported, and only by reporting truncation instead. */
  lemma PrechecksOnlyHastenTruncation(chars: Charset, buf: Bytes, pos: nat)
    ensures var guarded, plain := DecodeManifest(Reader(chars, true), buf, pos), DecodeManifest(Reader(chars, false), buf, pos);
            guarded == plain || (guarded == Err(Truncated) && plain.Err?)
  {
    hide DecodeManifest;
    PrechecksChangeNothingAccepted(chars, buf, pos);
    Outcomes.ManifestHastens(chars, true, false, buf, buf, pos);
  }

  /** They do change the error: here the precheck sees the missing bytes of the second entry
    * before the loop sees that the first entry uses the reserved id. */
  lemma PrecheckChangesErrorKind()
    ensures var buf: Bytes := [1, 2, 0, 0, 0, 0, 0, 0];
            F.DecodeFlags(true, buf, 0) == Err(Truncated) && F.DecodeFlags(false, buf, 0) == Err(Corrupt)
  {
    var buf: Bytes := [1, 2, 0, 0, 0, 0, 0, 0];
    ReadIntExact(buf, 0, 1, 1, 1);
    ReadIntExact(buf, 1, 4, 2, 5);
    ReadIntExact(buf, 5, 2, 0, 7);
    assert Le(1, 1) == [1] && Le(2, 4) == [2, 0, 0, 0] && Le(0, 2) == [0, 0];
    assert F.DecodeFlag(buf, 5, []) == Err(Corrupt);
  }

  // ----- identity -----

  /** The ten section hashes of a manifest value; absent sections hash as the empty string. */
  function SectionHashesOf(h: Hash, m: Manifest): SectionHashes {
    SectionHashes(m.metadataReference.metadataHash, h(EncodeHeader(m.header)), h(F.EncodeFlags(m.flags)),
                  h(MR.EncodeMetadataReference(m.metadataReference)), h(SI.EncodeSlabIndex(m.slabIndex)),
                  h([]), h(EncodeEc(m.ec)), h(EncodeDms(m.dms)), h([]), h(HI.EncodeHistory(m.history)))
  }

  function RootOf(h: Hash, m: Manifest): Digest {
    MerkleRoot(h, SectionHashesOf(h, m))
  }

  /** The first place where the hashed inputs of two manifests differ: the root preimages, or
    * else some section. */
  function FirstDifference(h: Hash, a: Manifest, b: Manifest): (Bytes, Bytes) {
    if Preimage(SectionHashesOf(h, a)) != Preimage(SectionHashesOf(h, b)) then
      (Preimage(SectionHashesOf(h, a)), Preimage(SectionHashesOf(h, b)))
    else if EncodeHeader(a.header) != EncodeHeader(b.header) then (EncodeHeader(a.header), EncodeHeader(b.header))
    else if F.EncodeFlags(a.flags) != F.EncodeFlags(b.flags) then (F.EncodeFlags(a.flags), F.EncodeFlags(b.flags))
    else if MR.EncodeMetadataReference(a.metadataReference) != MR.EncodeMetadataReference(b.metadataReference) then
      (MR.EncodeMetadataReference(a.metadataReference), MR.EncodeMetadataReference(b.metadataReference))
    else if SI.EncodeSlabIndex(a.slabIndex) != SI.EncodeSlabIndex(b.slabIndex) then
      (SI.EncodeSlabIndex(a.slabIndex), SI.EncodeSlabIndex(b.slabIndex))
    else if EncodeEc(a.ec) != EncodeEc(b.ec) then (EncodeEc(a.ec), EncodeEc(b.ec))
    else if EncodeDms(a.dms) != EncodeDms(b.dms) then (EncodeDms(a.dms), EncodeDms(b.dms))
    else (HI.EncodeHistory(a.history), HI.EncodeHistory(b.history))
  }

  /** The root of a manifest in full: the metadata hash it carries and the hashes of the layouts
    * of its sections, those without one, or absent, counting as empty. */
  lemma RootSpelledOut(h: Hash, m: Manifest)
    ensures RootOf(h, m)
         == h([0x6C, 0x69, 0x6D, 0x6E, 0x69, 0x66, 0x73, 0x2F, 0x76, 0x31]
              + m.metadataReference.metadataHash + h(Layouts.HeaderLayout(m.header)) + h(Layouts.FlagsLayout(m.flags))
              + h(Layouts.ReferenceLayout(m.metadataReference)) + h(Layouts.SlabIndexLayout(m.slabIndex)) + h([])
              + h(if m.ec.Some? then Layouts.EcLayout(m.ec.value) else [])
              + h(if m.dms.Some? then Layouts.DmsLayout(m.dms.value) else [])
              + h([]) + h(Layouts.HistoryLayout(m.history)))
  {
    hide MerkleRoot, EncodeHeader, F.EncodeFlags, MR.EncodeMetadataReference, SI.EncodeSlabIndex;
    hide EC.EncodeEcParams, DMS.EncodeDmsPolicy, HI.EncodeHistory, Layouts.HeaderLayout, Layouts.FlagsLayout;
    hide Layouts.ReferenceLayout, Layouts.SlabIndexLayout, Layouts.EcLayout, Layouts.DmsLayout, Layouts.HistoryLayout;
    Merkle.RootSpelledOut(h, SectionHashesOf(h, m));
    Layouts.HeaderMatch(m.header);
    Layouts.FlagsMatch(m.flags);
    Layouts.ReferenceMatch(AnyCharset(), m.metadataReference);
    Layouts.SlabIndexMatch(AnyCharset(), m.slabIndex);
    if m.ec.Some? {
      Layouts.EcMatch(m.ec.value);
    }
    if m.dms.Some? {
      Layouts.DmsMatch(m.dms.value);
    }
    Layouts.HistoryMatch(m.history);
  }

  ghost function AnyCharset(): Charset {
    Charset(c => false, c => false)
  }

  predicate Collision(h: Hash, pair: (Bytes, Bytes)) {
    pair.0 != pair.1 && h(pair.0) == h(pair.1)
  }

  /** Equal roots: equal encodings, or two inputs that collide. */
  lemma EqualRoots(h: Hash, a: Manifest, b: Manifest)
    requires RootOf(h, a) == RootOf(h, b)
    ensures EncodeManifest(a) == EncodeManifest(b) || Collision(h, FirstDifference(h, a, b))
  {
    hide EncodeHeader, F.EncodeFlags, MR.EncodeMetadataReference, SI.EncodeSlabIndex, EncodeEc, EncodeDms, HI.EncodeHistory;
    hide Preimage;
    PreimageInjective(SectionHashesOf(h, a), SectionHashesOf(h, b));
  }

  /** The Merkle root binds the image: two accepted buffers with the same root hold the same
    * manifest in the same bytes, optional sections included, or exhibit a hash collision. */
  lemma MerkleBinding(h: Hash, rd: Reader, buf: Bytes, buf': Bytes)
    requires DecodeManifest(rd, buf, 0).Ok? && DecodeManifest(rd, buf', 0).Ok?
    requires RootOf(h, DecodeManifest(rd, buf, 0).value) == RootOf(h, DecodeManifest(rd, buf', 0).value)
    ensures var a, b := DecodeManifest(rd, buf, 0), DecodeManifest(rd, buf', 0);
            || (a == b && a.end <= |buf| && a.end <= |buf'| && buf[..a.end] == buf'[..a.end])
            || Collision(h, FirstDifference(h, a.value, b.value))
  {
    hide DecodeManifest, EncodeManifest, ManifestOk, RootOf, FirstDifference, Collision;
    var a, b := DecodeManifest(rd, buf, 0), DecodeManifest(rd, buf', 0);
    EqualRoots(h, a.value, b.value);
    ManifestExact(rd, buf, 0, a.value, a.end);
    ManifestExact(rd, buf', 0, b.value, b.end);
    if EncodeManifest(a.value) == EncodeManifest(b.value) {
      PrefixFree(rd.chars, buf, 0, a.value, b.value);
    }
  }

  // ----- the verifier -----

  datatype MetadataSummary = MetadataSummary(inodeCount: nat, dirNodeCount: nat, rootInode: Option<int>)

  datatype Report = Report(
    header: ManifestHeader, flags: seq<F.FeatureFlag>, metadataInlined: bool, slabIndexEntries: nat,
    historyEntries: nat, extraBytes: int, merkleRoot: Digest, metadata: Option<MetadataSummary>)

  /** What inline metadata adds to the report: nothing when it does not parse. */
  function SummaryOf(inlineMetadata: Option<Bytes>): Option<MetadataSummary> {
    if inlineMetadata.None? then None else
    match Metadata.DecodeMetadata(inlineMetadata.value, 0)
    case Err(_) => None
    case Ok(w, _) =>
      Some(MetadataSummary(|w.inodes|, |w.dirNodes|, RootDiscovery.RootInodeNumber(Metadata.Forget(w))))
  }

  method Summarize(inlineMetadata: Option<Bytes>) returns (r: Option<MetadataSummary>)
    ensures r == SummaryOf(inlineMetadata)
  {
    hide Metadata.DecodeMetadata, RootDiscovery.RootInodeNumber;
    if inlineMetadata.None? || |inlineMetadata.value| == 0 {
      EmptyMetadata();
      return None;
    }
    var cursor := new Cursor(inlineMetadata.value);
    var blob := Metadata.ParseMetadataBlob(cursor);
    if blob.Failure? {
      return None;
    }
    var root := RootDiscovery.FindRootInodeNumber(blob.value);
    return Some(MetadataSummary(|blob.value.inodes|, |blob.value.dirNodes|, root));
  }

  lemma EmptyMetadata()
    ensures Metadata.DecodeMetadata([], 0).Err?
  {
  }

  /** What the summary says of inline metadata, in full: the two counts and the root of the blob
    * whose layout it starts with, and nothing when it starts with none. */
  lemma SummarySpelledOut(b: Bytes)
    ensures forall w :: MetadataLayouts.MetadataValid(w) && At(b, 0, MetadataLayouts.MetadataLayout(w)) ==>
              SummaryOf(Some(b)) == Some(MetadataSummary(|w.inodes|, |w.dirNodes|, RootDiscovery.RootInodeNumber(Metadata.Forget(w))))
    ensures SummaryOf(Some(b)).Some? ==>
              exists w :: MetadataLayouts.MetadataValid(w) && At(b, 0, MetadataLayouts.MetadataLayout(w))
    ensures SummaryOf(None) == None
  {
    hide Metadata.DecodeMetadata, MetadataLayouts.MetadataValid, MetadataLayouts.MetadataLayout, RootDiscovery.RootInodeNumber;
    forall w | MetadataLayouts.MetadataValid(w) && At(b, 0, MetadataLayouts.MetadataLayout(w))
      ensures SummaryOf(Some(b)) == Some(MetadataSummary(|w.inodes|, |w.dirNodes|, RootDiscovery.RootInodeNumber(Metadata.Forget(w))))
    {
      MetadataLayouts.MetadataSpelledOut(b, 0, w, |MetadataLayouts.MetadataLayout(w)|);
    }
    var r := Metadata.DecodeMetadata(b, 0);
    if r.Ok? {
      MetadataLayouts.MetadataSpelledOut(b, 0, r.value, r.end);
    }
  }

  lemma NoSummary()
    ensures SummaryOf(None) == None
  {
  }

  /** The summary of a blob written canonically is the blob's. */
  lemma SummaryOfBlob(blob: Metadata.MetadataBlob)
    requires Metadata.MetadataOk(Metadata.Normalize(blob))
    ensures SummaryOf(Some(Metadata.EncodeBlobCanonically(blob)))
         == Some(MetadataSummary(|blob.inodes|, |blob.dirNodes|, RootDiscovery.RootInodeNumber(blob)))
  {
    hide Metadata.DecodeMetadata, Metadata.EncodeMetadata, Metadata.MetadataOk, Metadata.Normalize, RootDiscovery.RootInodeNumber;
    var w := Metadata.Normalize(blob);
    var code := Metadata.EncodeMetadata(w);
    Metadata.MetadataExact(code, 0, w, |code|);
    assert At(code, 0, code);
    Metadata.ForgetNormalize(blob);
    assert |w.inodes| == |Metadata.Forget(w).inodes|;
  }

  /** Each span begins where the one before it ended, from 0 to `end`. */
  ghost predicate Tiles(spans: seq<(nat, nat)>, end: int) {
    && |spans| != 0 && spans[0].0 == 0 && spans[|spans| - 1].1 == end
    && (forall i :: 0 <= i < |spans| ==> spans[i].0 <= spans[i].1)
    && (forall i :: 0 <= i < |spans| - 1 ==> spans[i].1 == spans[i + 1].0)
  }

  method ParseOptionalEc(c: Cursor, present: bool) returns (r: Result<Option<EC.EcParams>>)
    requires c.Valid()
    modifies c
    ensures c.Follows(r, DecodeEc(present, true, c.buf, old(c.pos)))
  {
    hide EC.DecodeEcParams;
    if !present {
      return Success(None);
    }
    var ec :- EC.ParseEcParamsSection(c);
    return Success(Some(ec));
  }

  method ParseOptionalDms(c: Cursor, present: bool) returns (r: Result<Option<DMS.DmsPolicy>>)
    requires c.Valid()
    modifies c
    ensures c.Follows(r, DecodeDms(present, c.buf, old(c.pos)))
  {
    hide DMS.DecodeDmsPolicy;
    if !present {
      return Success(None);
    }
    var dms :- DMS.ParseDmsPolicySection(c);
    return Success(Some(dms));
  }

  /** `code` is what stands between two positions. */
  ghost predicate Between(buf: Bytes, from: nat, to: nat, code: Bytes) {
    from <= to <= |buf| && buf[from..to] == code
  }

  /** The four leading sections and where each ended. */
  datatype Front = Front(manifest: Manifest, headerEnd: nat, flagsEnd: nat, metaRefEnd: nat, slabIndexEnd: nat)

  ghost predicate FrontSpans(buf: Bytes, start: nat, f: Front) {
    && Between(buf, start, f.headerEnd, EncodeHeader(f.manifest.header))
    && Between(buf, f.headerEnd, f.flagsEnd, F.EncodeFlags(f.manifest.flags))
    && Between(buf, f.flagsEnd, f.metaRefEnd, MR.EncodeMetadataReference(f.manifest.metadataReference))
    && Between(buf, f.metaRefEnd, f.slabIndexEnd, SI.EncodeSlabIndex(f.manifest.slabIndex))
  }

  method ParseFront(chars: Charset, c: Cursor) returns (r: Result<Front>)
    requires c.Valid()
    modifies c
    ensures match DecodeFront(Reader(chars, true), c.buf, old(c.pos))
            case Err(e) => r == Failure(e)
            case Ok(m, end) =>
              && r.Success? && r.value.manifest == m && c.Valid() && c.pos == end == r.value.slabIndexEnd
              && FrontSpans(c.buf, old(c.pos), r.value)
  {
    hide DecodeHeader, EncodeHeader, HeaderOk, F.DecodeFlags, F.EncodeFlags, F.FlagsOk;
    hide MR.DecodeMetadataReference, MR.EncodeMetadataReference, MR.MetadataReferenceOk;
    hide SI.DecodeSlabIndex, SI.EncodeSlabIndex, SI.SlabIndexOk;
    ghost var rd := Reader(chars, true);
    ghost var start := c.pos;
    var header :- ParseManifestHeader(c);
    var headerEnd := c.pos;
    var flags :- F.ParseFeatureFlagsSection(c);
    var flagsEnd := c.pos;
    var metadataReference :- MR.ParseMetadataReferenceSection(chars, c);
    var metaRefEnd := c.pos;
    var slabIndex :- SI.ParseSlabIndexSection(chars, c);
    var slabIndexEnd := c.pos;
    HeaderExact(c.buf, start, header, headerEnd);
    F.FlagsExact(true, c.buf, headerEnd, flags, flagsEnd);
    MR.MetadataReferenceExact(rd, c.buf, flagsEnd, metadataReference, metaRefEnd);
    SI.SlabIndexExact(rd, c.buf, metaRefEnd, slabIndex, slabIndexEnd);
    return Success(Front(Manifest(header, flags, metadataReference, slabIndex, None, None, []),
                         headerEnd, flagsEnd, metaRefEnd, slabIndexEnd));
  }

  /** The optional sections and the history, and where each ended. */
  datatype Back = Back(manifest: Manifest, ecEnd: nat, dmsEnd: nat, historyEnd: nat)

  ghost predicate BackSpans(buf: Bytes, start: nat, b: Back) {
    && Between(buf, start, b.ecEnd, EncodeEc(b.manifest.ec))
    && Between(buf, b.ecEnd, b.dmsEnd, EncodeDms(b.manifest.dms))
    && Between(buf, b.dmsEnd, b.historyEnd, HI.EncodeHistory(b.manifest.history))
  }

  method ParseBack(c: Cursor, front: Manifest) returns (r: Result<Back>)
    requires c.Valid()
    modifies c
    ensures match DecodeBack(true, front, c.buf, old(c.pos))
            case Err(e) => r == Failure(e)
            case Ok(m, end) =>
              && r.Success? && r.value.manifest == m && c.Valid() && c.pos == end == r.value.historyEnd
              && BackSpans(c.buf, old(c.pos), r.value)
              && m.ec.Some? == F.Declares(m.flags, EC_FLAG) && m.dms.Some? == F.Declares(m.flags, DMS_FLAG)
  {
    hide DecodeEc, EncodeEc, DecodeDms, EncodeDms, HI.DecodeHistory, HI.EncodeHistory, HI.HistoryOk;
    hide EC.EcParamsOk, DMS.DmsPolicyOk, F.Declares;
    ghost var start := c.pos;
    var ecFlag := F.Get(front.flags, EC_FLAG);
    var ec :- ParseOptionalEc(c, ecFlag.Some?);
    var ecEnd := c.pos;
    var dmsFlag := F.Get(front.flags, DMS_FLAG);
    var dms :- ParseOptionalDms(c, dmsFlag.Some?);
    var dmsEnd := c.pos;
    var history :- HI.ParseHistorySection(c);
    var historyEnd := c.pos;
    EcExact(ecFlag.Some?, true, c.buf, start, ec, ecEnd);
    DmsExact(dmsFlag.Some?, c.buf, ecEnd, dms, dmsEnd);
    HI.HistoryExact(true, c.buf, dmsEnd, history, historyEnd);
    return Success(Back(front.(ec := ec, dms := dms, history := history), ecEnd, dmsEnd, historyEnd));
  }

  /** Hashing the spans is hashing the encodings. */
  method HashSections(h: Hash, buf: Bytes, f: Front, b: Back) returns (sectionHashes: SectionHashes)
    requires FrontSpans(buf, 0, f) && BackSpans(buf, f.slabIndexEnd, b) && FrontOf(b.manifest) == FrontOf(f.manifest)
    ensures sectionHashes == SectionHashesOf(h, b.manifest)
  {
    hide EncodeHeader, F.EncodeFlags, MR.EncodeMetadataReference, SI.EncodeSlabIndex;
    hide EC.EncodeEcParams, DMS.EncodeDmsPolicy, HI.EncodeHistory;
    var m := b.manifest;
    assert FrontOf(m).header == m.header && FrontOf(m).flags == m.flags;
    assert FrontOf(m).metadataReference == m.metadataReference && FrontOf(m).slabIndex == m.slabIndex;
    sectionHashes := SectionHashes(
      m.metadataReference.metadataHash, h(buf[0..f.headerEnd]), h(buf[f.headerEnd..f.flagsEnd]),
      h(buf[f.flagsEnd..f.metaRefEnd]), h(buf[f.metaRefEnd..f.slabIndexEnd]), h([]),
      if m.ec.Some? then h(buf[f.slabIndexEnd..b.ecEnd]) else h([]),
      if m.dms.Some? then h(buf[b.ecEnd..b.dmsEnd]) else h([]),
      h([]), h(buf[b.dmsEnd..b.historyEnd]));
  }

  /** The seven sections as spans, in order. */
  ghost function SpansOf(f: Front, b: Back): (spans: seq<(nat, nat)>)
    ensures |spans| == 7
  {
    [(0, f.headerEnd), (f.headerEnd, f.flagsEnd), (f.flagsEnd, f.metaRefEnd), (f.metaRefEnd, f.slabIndexEnd),
     (f.slabIndexEnd, b.ecEnd), (b.ecEnd, b.dmsEnd), (b.dmsEnd, b.historyEnd)]
  }

  /** They are adjacent, and only an absent optional section is empty. */
  lemma SpansTile(buf: Bytes, f: Front, b: Back)
    requires FrontSpans(buf, 0, f) && BackSpans(buf, f.slabIndexEnd, b)
    ensures var spans := SpansOf(f, b);
            && Tiles(spans, b.historyEnd)
            && (forall i :: i in {0, 1, 2, 3, 6} ==> spans[i].0 < spans[i].1)
            && (spans[4].0 < spans[4].1 <==> b.manifest.ec.Some?)
            && (spans[5].0 < spans[5].1 <==> b.manifest.dms.Some?)
  {
    hide EncodeHeader, F.EncodeFlags, MR.EncodeMetadataReference, SI.EncodeSlabIndex;
    hide EC.EncodeEcParams, DMS.EncodeDmsPolicy, HI.EncodeHistory;
  }

  /** `_verify_bytes`. The hashes are taken over slices of the buffer; the report is stated over
    * the encodings of what was parsed. The spans are those of the header, the flags, the metadata
    * reference, the slab index, the two optional sections and the history. */
  method VerifyBytes(h: Hash, chars: Charset, buf: Bytes) returns (r: Result<Report>, ghost spans: seq<(nat, nat)>)
    ensures match DecodeManifest(Reader(chars, true), buf, 0)
            case Err(e) => r == Failure(e)
            case Ok(m, end) =>
              && r.Success? && end <= |buf| && r.value.extraBytes == |buf| - end
              && r.value.header == m.header && r.value.flags == m.flags
              && r.value.metadataInlined == m.metadataReference.inlineMetadata.Some?
              && r.value.slabIndexEntries == |m.slabIndex| && r.value.historyEntries == |m.history|
              && r.value.merkleRoot == RootOf(h, m) && r.value.metadata == SummaryOf(m.metadataReference.inlineMetadata)
    ensures r.Success? ==>
              && |spans| == 7 && Tiles(spans, |buf| - r.value.extraBytes)
              && (forall i :: i in {0, 1, 2, 3, 6} ==> spans[i].0 < spans[i].1)
              && (spans[4].0 < spans[4].1 <==> F.Declares(r.value.flags, EC_FLAG))
              && (spans[5].0 < spans[5].1 <==> F.Declares(r.value.flags, DMS_FLAG))
  {
    hide DecodeFront, DecodeBack, FrontSpans, BackSpans, SpansOf, Tiles, SummaryOf, MerkleRoot, F.Declares, SectionHashesOf;
    spans := [];
    var cursor := new Cursor(buf);
    var front :- ParseFront(chars, cursor);
    var back :- ParseBack(cursor, front.manifest);
    var m := back.manifest;
    SpansTile(buf, front, back);
    spans := SpansOf(front, back);
    var sectionHashes := HashSections(h, buf, front, back);
    var merkleRoot := ComputeMerkleRoot(h, sectionHashes);
    var summary := Summarize(m.metadataReference.inlineMetadata);
    r := Success(Report(m.header, m.flags, m.metadataReference.inlineMetadata.Some?, |m.slabIndex|, |m.history|,
                        cursor.RemainingLen(), merkleRoot, summary));
  }
}
