/** The manifest builder: from a specification to bytes and a root. It shares no parsing code. */
module Builder {
  import opened Wire
  import opened Cursors
  import opened Utf8
  import opened FormatTypes
  import opened Locators
  import opened Headers
  import opened Merkle
  import opened Manifests
  import opened Verify
  import F = FeatureFlags
  import MR = MetadataReferences
  import SI = SlabIndexes
  import EC = EcParamsSections
  import DMS = DmsPolicies
  import HI = Histories
  import Metadata
  import RootDiscovery
  import Layouts

  datatype MetadataReferenceSpec = External(metadataHash: Bytes, locators: seq<Text>) | Inlined(metadata: Bytes)

  datatype ManifestSpec = ManifestSpec(
    header: ManifestHeader, featureFlags: seq<F.FeatureFlag>, metadataReference: Option<MetadataReferenceSpec>,
    slabIndex: seq<SI.SlabIndexEntry>, history: seq<HI.HistoryEntry>)

  datatype ManifestArtifact = ManifestArtifact(bytes: Bytes, merkleRoot: Digest, sectionHashes: SectionHashes)

  /** The Python exceptions of a specification that cannot be encoded. */
  datatype BuildError = ValueError | StructError

  datatype BuildResult = Built(artifact: ManifestArtifact) | Rejected(error: BuildError)

  // ----- what the packer demands -----

  predicate LocatorsPack(uris: seq<Text>) {
    Fits(|uris|, 4) && forall i :: 0 <= i < |uris| ==> Fits(|EncodeUtf8(uris[i])|, 4)
  }

  predicate FlagsPack(flags: seq<F.FeatureFlag>) {
    Fits(|flags|, 4) && forall i :: 0 <= i < |flags| ==> Fits(flags[i].flagId, 2)
  }

  predicate MetadataReferencePacks(spec: MetadataReferenceSpec) {
    match spec
    case External(_, locators) => LocatorsPack(locators)
    case Inlined(metadata) => Fits(|metadata|, 4)
  }

  predicate SlabIndexPacks(entries: seq<SI.SlabIndexEntry>) {
    Fits(|entries|, 4) && forall i :: 0 <= i < |entries| ==> LocatorsPack(entries[i].locators)
  }

  predicate EntryPacks(e: HI.HistoryEntry) {
    Fits(e.timestampNs, 8) && Fits(|e.inputs|, 4) && Fits(|e.params|, 4)
  }

  predicate HistoryPacks(entries: seq<HI.HistoryEntry>) {
    Fits(|entries|, 4) && forall i :: 0 <= i < |entries| ==> EntryPacks(entries[i])
  }

  /** Complete enough for the constructor. */
  predicate Complete(spec: ManifestSpec) {
    spec.metadataReference.Some? && |spec.history| != 0
  }

  /** Every integer and length fits its field. */
  predicate Packs(spec: ManifestSpec)
    requires Complete(spec)
  {
    && HeaderOk(spec.header) && FlagsPack(spec.featureFlags) && MetadataReferencePacks(spec.metadataReference.value)
    && SlabIndexPacks(spec.slabIndex) && HistoryPacks(spec.history)
  }

  predicate HashIsDigest(spec: MetadataReferenceSpec) {
    spec.External? ==> |spec.metadataHash| == 32
  }

  /** The manifest value a specification describes: the optional sections are absent, and inlined
    * metadata is addressed by its own hash. */
  function ReferenceOf(h: Hash, spec: MetadataReferenceSpec): MR.MetadataReference
    requires HashIsDigest(spec)
  {
    match spec
    case External(hash, locators) => MR.MetadataReference(hash, locators, None)
    case Inlined(metadata) => MR.MetadataReference(h(metadata), [], Some(metadata))
  }

  function ManifestOf(h: Hash, spec: ManifestSpec): Manifest
    requires Complete(spec) && HashIsDigest(spec.metadataReference.value)
  {
    Manifest(spec.header, spec.featureFlags, ReferenceOf(h, spec.metadataReference.value), spec.slabIndex, None, None, spec.history)
  }

  // ----- the encoders -----

  method BuildHeader(out: Buffer, hd: ManifestHeader) returns (ok: bool)
    modifies out
    ensures ok <==> HeaderOk(hd)
    ensures ok ==> out.data == old(out.data) + EncodeHeader(hd)
  {
    hide Le;
    Assoc5(out.data, MANIFEST_MAGIC, Le(hd.dropStoreVersion, 2), Le(hd.metadataVersion, 2), Le(hd.manifestVersion, 2), RESERVED);
    out.Extend(MANIFEST_MAGIC);
    ok := out.Pack(hd.dropStoreVersion, 2);
    if !ok { return; }
    ok := out.Pack(hd.metadataVersion, 2);
    if !ok { return; }
    ok := out.Pack(hd.manifestVersion, 2);
    if !ok { return; }
    out.Extend(RESERVED);
  }

  lemma EncodeNothing<T>(encode: T -> Bytes, vs: seq<T>)
    ensures EncodeAll(encode, vs[..0]) == []
  {
  }

  method BuildFeatureFlags(out: Buffer, flags: seq<F.FeatureFlag>) returns (ok: bool)
    modifies out
    ensures ok <==> FlagsPack(flags)
    ensures ok ==> out.data == old(out.data) + F.EncodeFlags(flags)
  {
    hide Le;
    out.Extend(Le(F.SECTION_VERSION, 1));
    ok := out.Pack(|flags|, 4);
    if !ok { return; }
    ghost var base := out.data;
    EncodeNothing(F.EncodeFlag, flags);
    for i := 0 to |flags|
      invariant ok && forall k :: 0 <= k < i ==> Fits(flags[k].flagId, 2)
      invariant out.data == base + EncodeAll(F.EncodeFlag, flags[..i])
    {
      ghost var before := out.data;
      ok := out.Pack(flags[i].flagId, 2);
      if !ok { return; }
      out.Extend(Le(if flags[i].required then 1 else 0, 1));
      Assoc(before, Le(flags[i].flagId, 2), Le(if flags[i].required then 1 else 0, 1));
      EncodeAllNext(base, F.EncodeFlag, flags, i);
    }
    assert flags[..|flags|] == flags;
    Assoc3(old(out.data), Le(F.SECTION_VERSION, 1), Le(|flags|, 4), EncodeAll(F.EncodeFlag, flags));
  }

  /** The loop over `_encode_locator`. */
  method BuildLocators(out: Buffer, uris: seq<Text>) returns (ok: bool)
    modifies out
    ensures ok <==> LocatorsPack(uris)
    ensures ok ==> out.data == old(out.data) + Le(|uris|, 4) + EncodeLocators(uris)
  {
    hide Le, EncodeUtf8;
    ok := out.Pack(|uris|, 4);
    if !ok { return; }
    ghost var base := out.data;
    EncodeNothing(EncodeLocator, uris);
    for i := 0 to |uris|
      invariant ok && forall k :: 0 <= k < i ==> Fits(|EncodeUtf8(uris[k])|, 4)
      invariant out.data == base + EncodeLocators(uris[..i])
    {
      ghost var before := out.data;
      var encoded := EncodeUtf8(uris[i]);
      ok := out.Pack(|encoded|, 4);
      if !ok { return; }
      out.Extend(encoded);
      Assoc(before, Le(|encoded|, 4), encoded);
      EncodeAllNext(base, EncodeLocator, uris, i);
    }
    assert uris[..|uris|] == uris;
  }

  method BuildOptional(out: Buffer, metadata: Option<Bytes>) returns (ok: bool)
    modifies out
    ensures ok <==> metadata.Some? ==> Fits(|metadata.value|, 4)
    ensures ok ==> out.data == old(out.data) + MR.EncodeOptional(metadata)
  {
    hide Le;
    if metadata.None? {
      ok := out.Pack(0, 4);
      assert EncodeBlob([]) == Le(0, 4);
    } else {
      ok := out.Pack(|metadata.value|, 4);
      if !ok { return; }
      Assoc(old(out.data), Le(|metadata.value|, 4), metadata.value);
      out.Extend(metadata.value);
    }
  }

  /** Returns the metadata hash; an external one is copied unchecked. */
  method BuildMetadataReference(h: Hash, out: Buffer, spec: MetadataReferenceSpec) returns (ok: bool, metadataHash: Bytes)
    modifies out
    ensures ok <==> MetadataReferencePacks(spec)
    ensures metadataHash == if spec.Inlined? then h(spec.metadata) else spec.metadataHash
    ensures ok && HashIsDigest(spec) ==>
              out.data == old(out.data) + MR.EncodeMetadataReference(ReferenceOf(h, spec))
  {
    hide Le, EncodeLocators, MR.EncodeOptional;
    out.Extend(Le(MR.SECTION_VERSION, 1));
    var locators: seq<Text> := [];
    var inlineMetadata: Option<Bytes> := None;
    if spec.Inlined? {
      metadataHash := h(spec.metadata);
      inlineMetadata := Some(spec.metadata);
    } else {
      metadataHash := spec.metadataHash;
      locators := spec.locators;
    }
    out.Extend(metadataHash);
    ok := BuildLocators(out, locators);
    if !ok { return; }
    ok := BuildOptional(out, inlineMetadata);
    Assoc5(old(out.data), Le(MR.SECTION_VERSION, 1), metadataHash, Le(|locators|, 4), EncodeLocators(locators),
           MR.EncodeOptional(inlineMetadata));
  }

  method BuildSlabIndexEntry(out: Buffer, e: SI.SlabIndexEntry) returns (ok: bool)
    modifies out
    ensures ok <==> LocatorsPack(e.locators)
    ensures ok ==> out.data == old(out.data) + SI.EncodeEntry(e)
  {
    hide Le, EncodeSlabId, EncodeLocators, LocatorsPack;
    Assoc3(out.data, EncodeSlabId(e.slabId), Le(|e.locators|, 4), EncodeLocators(e.locators));
    out.Extend(EncodeSlabId(e.slabId));
    ok := BuildLocators(out, e.locators);
  }

  method BuildSlabIndex(out: Buffer, entries: seq<SI.SlabIndexEntry>) returns (ok: bool)
    modifies out
    ensures ok <==> SlabIndexPacks(entries)
    ensures ok ==> out.data == old(out.data) + SI.EncodeSlabIndex(entries)
  {
    hide Le, SI.EncodeEntry, LocatorsPack;
    out.Extend(Le(SI.SECTION_VERSION, 1));
    ok := out.Pack(|entries|, 4);
    if !ok { return; }
    ghost var base := out.data;
    EncodeNothing(SI.EncodeEntry, entries);
    for i := 0 to |entries|
      invariant ok && forall k :: 0 <= k < i ==> LocatorsPack(entries[k].locators)
      invariant out.data == base + EncodeAll(SI.EncodeEntry, entries[..i])
    {
      ok := BuildSlabIndexEntry(out, entries[i]);
      if !ok { return; }
      EncodeAllNext(base, SI.EncodeEntry, entries, i);
    }
    assert entries[..|entries|] == entries;
    Assoc3(old(out.data), Le(SI.SECTION_VERSION, 1), Le(|entries|, 4), EncodeAll(SI.EncodeEntry, entries));
  }

  method BuildInputs(out: Buffer, roots: seq<Digest>)
    modifies out
    ensures out.data == old(out.data) + HI.Join(roots)
  {
    for i := 0 to |roots|
      invariant out.data == old(out.data) + HI.Join(roots[..i])
    {
      out.Extend(roots[i]);
      HI.JoinAppend(roots[..i], roots[i]);
      assert roots[..i + 1] == roots[..i] + [roots[i]];
    }
    assert roots[..|roots|] == roots;
  }

  method BuildHistoryEntry(out: Buffer, e: HI.HistoryEntry) returns (ok: bool)
    modifies out
    ensures ok <==> EntryPacks(e)
    ensures ok ==> out.data == old(out.data) + HI.EncodeEntry(e)
  {
    hide Le, HI.OpByte, HI.Join;
    Assoc5(out.data, Le(HI.OpByte(e.op), 1), Le(e.timestampNs, 8), Le(|e.inputs|, 4), HI.Join(e.inputs), EncodeBlob(e.params));
    Assoc(out.data + Le(HI.OpByte(e.op), 1) + Le(e.timestampNs, 8) + Le(|e.inputs|, 4) + HI.Join(e.inputs),
          Le(|e.params|, 4), e.params);
    out.Extend(Le(HI.OpByte(e.op), 1));
    ok := out.Pack(e.timestampNs, 8);
    if !ok { return; }
    ok := out.Pack(|e.inputs|, 4);
    if !ok { return; }
    BuildInputs(out, e.inputs);
    ok := out.Pack(|e.params|, 4);
    if !ok { return; }
    out.Extend(e.params);
  }

  method BuildHistory(out: Buffer, entries: seq<HI.HistoryEntry>) returns (ok: bool)
    modifies out
    ensures ok <==> HistoryPacks(entries)
    ensures ok ==> out.data == old(out.data) + HI.EncodeHistory(entries)
  {
    hide Le, HI.EncodeEntry, EntryPacks;
    out.Extend(Le(HI.SECTION_VERSION, 1));
    ok := out.Pack(|entries|, 4);
    if !ok { return; }
    ghost var base := out.data;
    EncodeNothing(HI.EncodeEntry, entries);
    for i := 0 to |entries|
      invariant ok && forall k :: 0 <= k < i ==> EntryPacks(entries[k])
      invariant out.data == base + EncodeAll(HI.EncodeEntry, entries[..i])
    {
      ok := BuildHistoryEntry(out, entries[i]);
      if !ok { return; }
      EncodeAllNext(base, HI.EncodeEntry, entries, i);
    }
    assert entries[..|entries|] == entries;
    Assoc3(old(out.data), Le(HI.SECTION_VERSION, 1), Le(|entries|, 4), EncodeAll(HI.EncodeEntry, entries));
  }

  /** `ManifestBuilder(spec).build()`. */
  method Build(h: Hash, spec: ManifestSpec) returns (r: BuildResult)
    ensures !Complete(spec) ==> r == Rejected(ValueError)
    ensures Complete(spec) && !Packs(spec) ==> r == Rejected(StructError)
    ensures Complete(spec) && Packs(spec) && !HashIsDigest(spec.metadataReference.value) ==> r == Rejected(ValueError)
    ensures Complete(spec) && Packs(spec) && HashIsDigest(spec.metadataReference.value) ==>
              var m := ManifestOf(h, spec);
              r == Built(ManifestArtifact(EncodeManifest(m), RootOf(h, m), SectionHashesOf(h, m)))
  {
    hide EncodeHeader, HeaderOk, F.EncodeFlags, FlagsPack, MR.EncodeMetadataReference, MetadataReferencePacks, SI.EncodeSlabIndex;
    hide SlabIndexPacks, HI.EncodeHistory, HistoryPacks, MerkleRoot;
    if spec.metadataReference.None? {
      return Rejected(ValueError);
    }
    if |spec.history| == 0 {
      return Rejected(ValueError);
    }
    var out := new Buffer();
    var ok := BuildHeader(out, spec.header);
    if !ok { return Rejected(StructError); }
    var headerEnd := |out.data|;
    ok := BuildFeatureFlags(out, spec.featureFlags);
    if !ok { return Rejected(StructError); }
    var flagsEnd := |out.data|;
    var metadataHash;
    ok, metadataHash := BuildMetadataReference(h, out, spec.metadataReference.value);
    if !ok { return Rejected(StructError); }
    var metaRefEnd := |out.data|;
    ghost var front := out.data;
    ok := BuildSlabIndex(out, spec.slabIndex);
    if !ok { return Rejected(StructError); }
    var slabIndexEnd := |out.data|;
    ok := BuildHistory(out, spec.history);
    if !ok { return Rejected(StructError); }
    if |metadataHash| != 32 {
      return Rejected(ValueError);
    }
    ghost var m := ManifestOf(h, spec);
    SlicesOf(out.data, EncodeHeader(m.header), F.EncodeFlags(m.flags), MR.EncodeMetadataReference(m.metadataReference),
             SI.EncodeSlabIndex(m.slabIndex), HI.EncodeHistory(m.history));
    var sectionHashes := SectionHashes(
      metadataHash, h(out.data[0..headerEnd]), h(out.data[headerEnd..flagsEnd]), h(out.data[flagsEnd..metaRefEnd]),
      h(out.data[metaRefEnd..slabIndexEnd]), h([]), h([]), h([]), h([]), h(out.data[slabIndexEnd..]));
    assert sectionHashes == SectionHashesOf(h, m);
    assert out.data == EncodeManifest(m);
    var merkleRoot := ComputeMerkleRoot(h, sectionHashes);
    return Built(ManifestArtifact(out.data, merkleRoot, sectionHashes));
  }

  predicate UrisPack(uris: seq<Text>) {
    |uris| < 0x1_0000_0000 && forall uri :: uri in uris ==> |EncodeUtf8(uri)| < 0x1_0000_0000
  }

  /** When the builder gives up, in full: nothing to refer to or an empty history first, then an
    * integer or length its field cannot hold, then an external hash of the wrong width. */
  lemma ConditionsSpelledOut(spec: ManifestSpec)
    ensures Complete(spec) <==> spec.metadataReference != None && spec.history != []
    ensures Complete(spec) ==>
              (Packs(spec) <==>
               && 0 <= spec.header.dropStoreVersion < 0x1_0000 && 0 <= spec.header.metadataVersion < 0x1_0000
               && 0 <= spec.header.manifestVersion < 0x1_0000
               && |spec.featureFlags| < 0x1_0000_0000 && (forall f :: f in spec.featureFlags ==> 0 <= f.flagId < 0x1_0000)
               && (match spec.metadataReference.value
                   case External(_, locators) => UrisPack(locators)
                   case Inlined(metadata) => |metadata| < 0x1_0000_0000)
               && |spec.slabIndex| < 0x1_0000_0000 && (forall e :: e in spec.slabIndex ==> UrisPack(e.locators))
               && |spec.history| < 0x1_0000_0000
               && forall e :: e in spec.history ==>
                    0 <= e.timestampNs < 0x1_0000_0000_0000_0000 && |e.inputs| < 0x1_0000_0000 && |e.params| < 0x1_0000_0000)
  {
    hide Fits, EncodeUtf8, UrisPack, LocatorsPack;
    Layouts.AllWidths();
    forall uris
      ensures LocatorsPack(uris) <==> UrisPack(uris)
    {
      UrisPackExactly(uris);
    }
    var fs, es, hs := spec.featureFlags, spec.slabIndex, spec.history;
    assert (forall f :: f in fs ==> 0 <= f.flagId < 0x1_0000) <==> (forall i :: 0 <= i < |fs| ==> 0 <= fs[i].flagId < 0x1_0000);
    assert (forall e :: e in es ==> UrisPack(e.locators)) <==> (forall i :: 0 <= i < |es| ==> UrisPack(es[i].locators));
    assert (forall e :: e in hs ==> EntryPacks(e)) <==> (forall i :: 0 <= i < |hs| ==> EntryPacks(hs[i]));
  }

  lemma UrisPackExactly(uris: seq<Text>)
    ensures LocatorsPack(uris) <==> UrisPack(uris)
  {
    hide Fits, EncodeUtf8;
    Layouts.AllWidths();
  }

  /** The bytes of the artifact in full. An external reference is copied; inlined metadata stands
    * behind its own hash and no locators; no optional section is ever written. */
  lemma ArtifactSpelledOut(h: Hash, spec: ManifestSpec)
    requires Complete(spec) && HashIsDigest(spec.metadataReference.value)
    ensures EncodeManifest(ManifestOf(h, spec))
         == (Layouts.HeaderLayout(spec.header) + Layouts.FlagsLayout(spec.featureFlags)
             + (match spec.metadataReference.value
                case External(hash, locators) =>
                  [1] + hash + Le(|locators|, 4) + EncodeAll(Layouts.UriLayout, locators) + (Le(0, 4) + [])
                case Inlined(metadata) =>
                  [1] + h(metadata) + Le(0, 4) + [] + (Le(|metadata|, 4) + metadata))
             + Layouts.SlabIndexLayout(spec.slabIndex))
            + ([] + [] + Layouts.HistoryLayout(spec.history))
  {
    hide EncodeManifest, Layouts.HeaderLayout, Layouts.FlagsLayout, Layouts.SlabIndexLayout, Layouts.HistoryLayout, Le;
    Layouts.ManifestMatch(AnyCharset(), ManifestOf(h, spec));
    assert EncodeAll(Layouts.UriLayout, []) == [];
  }

  lemma SlicesOf(data: Bytes, a: Bytes, b: Bytes, c: Bytes, d: Bytes, e: Bytes)
    requires data == a + b + c + d + e
    ensures data[0..|a|] == a && data[|a|..|a| + |b|] == b && data[|a| + |b|..|a| + |b| + |c|] == c
    ensures data[|a| + |b| + |c|..|a| + |b| + |c| + |d|] == d && data[|a| + |b| + |c| + |d|..] == e
  {
    assert At(data, 0, data);
    At5(data, 0, a, b, c, d, e);
  }

  // ----- the builder against the reader -----

  /** What the reader asks of a specification, flags of the optional sections aside. */
  ghost predicate SpecOk(h: Hash, chars: Charset, spec: ManifestSpec)
    requires Complete(spec) && HashIsDigest(spec.metadataReference.value)
  {
    MandatoryOk(chars, ManifestOf(h, spec))
  }

  /** Neither optional section is announced; the builder never emits one. */
  predicate AnnouncesNothing(spec: ManifestSpec) {
    !F.Declares(spec.featureFlags, EC_FLAG) && !F.Declares(spec.featureFlags, DMS_FLAG)
  }

  /** What is built is read back, whole and unchanged, exactly when the specification is
    * well-formed and announces no optional section. */
  lemma RoundTrip(h: Hash, rd: Reader, spec: ManifestSpec)
    requires Complete(spec) && HashIsDigest(spec.metadataReference.value)
    ensures var m := ManifestOf(h, spec);
            DecodeManifest(rd, EncodeManifest(m), 0) == Ok(m, |EncodeManifest(m)|)
            <==> SpecOk(h, rd.chars, spec) && AnnouncesNothing(spec)
  {
    hide DecodeManifest, EncodeManifest, MandatoryOk;
    var m := ManifestOf(h, spec);
    var code := EncodeManifest(m);
    ManifestExact(rd, code, 0, m, |code|);
    assert At(code, 0, code);
  }

  /** Whatever the reader accepts, the packer can write. */
  lemma SpecOkPacks(h: Hash, chars: Charset, spec: ManifestSpec)
    requires Complete(spec) && HashIsDigest(spec.metadataReference.value) && SpecOk(h, chars, spec)
    ensures Packs(spec)
  {
    hide EncodeUtf8, ValidUri;
    assert forall i :: 0 <= i < |spec.featureFlags| ==> F.FlagAllowed(spec.featureFlags[..i], spec.featureFlags[i]);
    var allowed := SI.EntryAllowed(chars);
    assert forall i :: 0 <= i < |spec.slabIndex| ==> allowed(spec.slabIndex[..i], spec.slabIndex[i]);
    assert forall i :: 0 <= i < |spec.history| ==> spec.history[i] in spec.history;
  }

  /** Building and then verifying: the report carries the specification and the same root. */
  method BuildThenVerify(h: Hash, chars: Charset, spec: ManifestSpec) returns (built: BuildResult, r: Result<Report>)
    requires Complete(spec) && HashIsDigest(spec.metadataReference.value)
    requires SpecOk(h, chars, spec) && AnnouncesNothing(spec)
    ensures built.Built? && r.Success?
    ensures r.value.merkleRoot == built.artifact.merkleRoot && r.value.extraBytes == 0
    ensures r.value.header == spec.header && r.value.flags == spec.featureFlags
    ensures r.value.metadataInlined == spec.metadataReference.value.Inlined?
    ensures r.value.slabIndexEntries == |spec.slabIndex| && r.value.historyEntries == |spec.history|
    ensures spec.metadataReference.value.External? ==> r.value.metadata == None
    ensures forall blob | Metadata.MetadataOk(Metadata.Normalize(blob))
                          && spec.metadataReference == Some(Inlined(Metadata.EncodeBlobCanonically(blob))) ::
              r.value.metadata
              == Some(MetadataSummary(|blob.inodes|, |blob.dirNodes|, RootDiscovery.RootInodeNumber(blob)))
  {
    hide SummaryOf, Metadata.MetadataOk, Metadata.Normalize, Metadata.EncodeBlobCanonically, RootDiscovery.RootInodeNumber;
    hide DecodeManifest, EncodeManifest, MandatoryOk, Packs, RootOf;
    SpecOkPacks(h, chars, spec);
    RoundTrip(h, Reader(chars, true), spec);
    built := Build(h, spec);
    ghost var spans;
    r, spans := VerifyBytes(h, chars, built.artifact.bytes);
    NoSummary();
    forall blob | Metadata.MetadataOk(Metadata.Normalize(blob))
                  && spec.metadataReference == Some(Inlined(Metadata.EncodeBlobCanonically(blob)))
      ensures r.value.metadata
           == Some(MetadataSummary(|blob.inodes|, |blob.dirNodes|, RootDiscovery.RootInodeNumber(blob)))
    {
      SummaryOfBlob(blob);
    }
  }

  /** The reader gives back the five sections of a well-formed specification, to the last byte. */
  ghost predicate Recovers(rd: Reader, code: Bytes, m: Manifest) {
    exists ec, dms :: DecodeManifest(rd, code, 0) == Ok(m.(ec := ec, dms := dms), |code|)
  }

  lemma FrontIgnoresBack(m: Manifest, m': Manifest)
    requires FrontOf(m) == FrontOf(m')
    ensures EncodeFront(m) == EncodeFront(m')
  {
    assert m.header == FrontOf(m).header && m'.header == FrontOf(m').header;
    assert m.flags == FrontOf(m).flags && m'.flags == FrontOf(m').flags;
    assert m.metadataReference == FrontOf(m).metadataReference && m'.metadataReference == FrontOf(m').metadataReference;
    assert m.slabIndex == FrontOf(m).slabIndex && m'.slabIndex == FrontOf(m').slabIndex;
  }

  /** Announcing an optional section breaks the round trip for good: no reading of the built
    * bytes recovers the specification, whatever the missing section is taken to be. */
  lemma AnnouncedSectionBreaksRoundTrip(h: Hash, rd: Reader, spec: ManifestSpec)
    requires Complete(spec) && HashIsDigest(spec.metadataReference.value) && SpecOk(h, rd.chars, spec)
    ensures Recovers(rd, EncodeManifest(ManifestOf(h, spec)), ManifestOf(h, spec)) <==> AnnouncesNothing(spec)
  {
    hide DecodeManifest, MandatoryOk, EncodeFront, HI.EncodeHistory, F.Declares, EC.EncodeEcParams, DMS.EncodeDmsPolicy;
    hide EC.EcParamsOk, DMS.DmsPolicyOk;
    var m := ManifestOf(h, spec);
    var code := EncodeManifest(m);
    if AnnouncesNothing(spec) {
      RoundTrip(h, rd, spec);
      assert m == m.(ec := None, dms := None);
    }
    if Recovers(rd, code, m) {
      var ec, dms :| DecodeManifest(rd, code, 0) == Ok(m.(ec := ec, dms := dms), |code|);
      var m' := m.(ec := ec, dms := dms);
      ManifestExact(rd, code, 0, m', |code|);
      FrontIgnoresBack(m, m');
      assert |code| == |EncodeFront(m)| + |HI.EncodeHistory(m.history)|;
    }
  }

  /** A specification that announces erasure coding, as a minimal image may. */
  function AnnouncingSpec(): ManifestSpec {
    ManifestSpec(ManifestHeader(1, 1, 1), [F.FeatureFlag(0x0001, true), F.FeatureFlag(0x0012, false)],
                 Some(Inlined([0xBB])), [], [HI.HistoryEntry(HI.Build, 0, [], [])])
  }

  lemma AnnouncingSpecOk(h: Hash, chars: Charset)
    ensures SpecOk(h, chars, AnnouncingSpec())
  {
    var spec := AnnouncingSpec();
    var flags := spec.featureFlags;
    assert flags[..0] == [] && flags[..1] == [flags[0]];
    assert !F.Declares([], 1) && !F.Declares([flags[0]], 0x0012);
    assert F.FlagsOk(flags);
  }

  /** It can be built and its five sections read back, but no reading that heeds the flags
    * recovers it. */
  lemma AnnouncingSpecNotRecovered(h: Hash, chars: Charset)
    ensures var rd, spec := Reader(chars, true), AnnouncingSpec();
            var m := ManifestOf(h, spec);
            && SpecOk(h, chars, spec) && Packs(spec)
            && DecodeFive(rd, EncodeManifest(m), 0) == Ok(m, |EncodeManifest(m)|)
            && !Recovers(rd, EncodeManifest(m), m)
  {
    hide SpecOk, Packs, DecodeFive, EncodeManifest, Recovers;
    var rd, spec := Reader(chars, true), AnnouncingSpec();
    AnnouncingSpecOk(h, chars);
    SpecOkPacks(h, chars, spec);
    FiveSectionRoundTrip(h, rd, spec);
    AnnouncedSectionBreaksRoundTrip(h, rd, spec);
    assert spec.featureFlags[0].flagId == EC_FLAG;
  }

  /** The reader of the five mandatory sections, without regard to flags. */
  function DecodeFive(rd: Reader, buf: Bytes, pos: nat): Parsed<Manifest> {
    var (front, p1) :- DecodeFront(rd, buf, pos);
    var (history, p2) :- HI.DecodeHistory(rd.prechecks, buf, p1);
    Ok(front.(history := history), p2)
  }

  lemma FiveStartsWithFront(rd: Reader, buf: Bytes, m: Manifest)
    requires DecodeFive(rd, buf, 0).Ok? && DecodeFive(rd, buf, 0).value == m
    ensures DecodeFront(rd, buf, 0).Ok? && DecodeFront(rd, buf, 0).value == FrontOf(m)
  {
    hide DecodeFront, HI.DecodeHistory;
  }

  /** That reader recovers every well-formed specification, and no other, flags or not. */
  lemma FiveSectionRoundTrip(h: Hash, rd: Reader, spec: ManifestSpec)
    requires Complete(spec) && HashIsDigest(spec.metadataReference.value)
    ensures var m := ManifestOf(h, spec);
            DecodeFive(rd, EncodeManifest(m), 0) == Ok(m, |EncodeManifest(m)|) <==> SpecOk(h, rd.chars, spec)
  {
    hide DecodeFront, EncodeFront, HI.DecodeHistory, HI.EncodeHistory, HI.HistoryOk;
    hide HeaderOk, F.FlagsOk, MR.MetadataReferenceOk, SI.SlabIndexOk;
    var m := ManifestOf(h, spec);
    var code, front, history := EncodeManifest(m), EncodeFront(m), HI.EncodeHistory(m.history);
    assert code == front + history;
    FrontExact(rd, code, 0, m, |front|);
    HI.HistoryExact(rd.prechecks, code, |front|, m.history, |code|);
    At2(code, 0, front, history);
    assert At(code, 0, code);
    if DecodeFive(rd, code, 0) == Ok(m, |code|) {
      FiveStartsWithFront(rd, code, m);
      FrontExact(rd, code, 0, m, DecodeFront(rd, code, 0).end);
    }
  }

  /** Two different well-formed specifications, flags or not, have different roots, or their
    * encodings exhibit a hash collision. */
  lemma DistinctSpecsDistinctRoots(h: Hash, chars: Charset, a: ManifestSpec, b: ManifestSpec)
    requires Complete(a) && HashIsDigest(a.metadataReference.value) && SpecOk(h, chars, a)
    requires Complete(b) && HashIsDigest(b.metadataReference.value) && SpecOk(h, chars, b)
    requires RootOf(h, ManifestOf(h, a)) == RootOf(h, ManifestOf(h, b))
    ensures a == b || Collision(h, FirstDifference(h, ManifestOf(h, a), ManifestOf(h, b)))
  {
    hide DecodeFive, EncodeManifest, MandatoryOk, RootOf, FirstDifference, Collision;
    var rd := Reader(chars, true);
    EqualRoots(h, ManifestOf(h, a), ManifestOf(h, b));
    FiveSectionRoundTrip(h, rd, a);
    FiveSectionRoundTrip(h, rd, b);
    if EncodeManifest(ManifestOf(h, a)) == EncodeManifest(ManifestOf(h, b)) {
      assert ManifestOf(h, a) == ManifestOf(h, b);
    }
  }
}
