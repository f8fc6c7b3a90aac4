/** The format in numbers: what each section may hold and the bytes it stands for, written down
  * without any constant, predicate or encoder of the reader or the builder, and the proof that
  * the reader accepts precisely that. */
module Layouts {
  import opened Wire
  import opened Lookups
  import opened Utf8
  import opened FormatTypes
  import opened Headers
  import opened Locators
  import F = FeatureFlags
  import MR = MetadataReferences
  import SI = SlabIndexes
  import EC = EcParamsSections
  import DMS = DmsPolicies
  import HI = Histories
  import opened Manifests
  import S = SlabRecords

  // ----- integers -----

  lemma LittleEndian(n: nat)
    ensures Le(n, 1) == [n % 0x100]
    ensures Le(n, 2) == [n % 0x100, n / 0x100 % 0x100]
    ensures Le(n, 4) == [n % 0x100, n / 0x100 % 0x100, n / 0x1_0000 % 0x100, n / 0x100_0000 % 0x100]
    ensures Le(n, 8) == Le(n, 4) + Le(n / 0x1_0000_0000, 4)
  {
    LeHalves(n);
    LeTwo(n);
    LeFour(n);
  }

  lemma LeTwo(n: nat)
    ensures Le(n, 1) == [n % 0x100]
    ensures Le(n, 2) == [n % 0x100, n / 0x100 % 0x100]
  {
    assert Le(n / 0x100, 1) == [n / 0x100 % 0x100];
  }

  lemma LeFour(n: nat)
    ensures Le(n, 4) == [n % 0x100, n / 0x100 % 0x100, n / 0x1_0000 % 0x100, n / 0x100_0000 % 0x100]
  {
    hide Le;
    LeStep(n, 4);
    LeStep(n / 0x100, 3);
    LeTwo(n / 0x100 / 0x100);
    assert n / 0x100 / 0x100 == n / 0x1_0000;
    assert n / 0x1_0000 / 0x100 == n / 0x100_0000;
  }

  lemma LeStep(n: int, width: nat)
    requires width > 0
    ensures Le(n, width) == [n % 0x100] + Le(n / 0x100, width - 1)
  {
  }

  lemma LeHalves(n: nat)
    ensures Le(n, 8) == Le(n, 4) + Le(n / 0x1_0000_0000, 4)
  {
    hide Le;
    LeFour(n);
    LeStep(n, 8);
    LeStep(n / 0x100, 7);
    assert n / 0x100 / 0x100 == n / 0x1_0000;
    LeStep(n / 0x1_0000, 6);
    assert n / 0x1_0000 / 0x100 == n / 0x100_0000;
    LeStep(n / 0x100_0000, 5);
    assert n / 0x100_0000 / 0x100 == n / 0x1_0000_0000;
  }

  lemma Widths(n: int)
    ensures Fits(n, 1) <==> 0 <= n < 0x100
    ensures Fits(n, 2) <==> 0 <= n < 0x1_0000
    ensures Fits(n, 4) <==> 0 <= n < 0x1_0000_0000
    ensures Fits(n, 8) <==> 0 <= n < 0x1_0000_0000_0000_0000
  {
  }

  lemma AllWidths()
    ensures forall n :: Fits(n, 1) <==> 0 <= n < 0x100
    ensures forall n :: Fits(n, 2) <==> 0 <= n < 0x1_0000
    ensures forall n :: Fits(n, 4) <==> 0 <= n < 0x1_0000_0000
    ensures forall n :: Fits(n, 8) <==> 0 <= n < 0x1_0000_0000_0000_0000
  {
    forall n
      ensures Fits(n, 1) <==> 0 <= n < 0x100
      ensures Fits(n, 2) <==> 0 <= n < 0x1_0000
      ensures Fits(n, 4) <==> 0 <= n < 0x1_0000_0000
      ensures Fits(n, 8) <==> 0 <= n < 0x1_0000_0000_0000_0000
    {
      Widths(n);
    }
  }

  lemma {:induction false} SameLayout<T>(encode: T -> Bytes, layout: T -> Bytes, vs: seq<T>)
    requires forall v :: v in vs ==> encode(v) == layout(v)
    ensures EncodeAll(encode, vs) == EncodeAll(layout, vs)
  {
    if |vs| != 0 {
      SameLayout(encode, layout, vs[1..]);
    }
  }

  /** A loop that asks each element to be valid and its key to be new accepts valid elements
    * with pairwise different keys. */
  lemma AllowedKeyed<T(!new), K>(ok: (seq<T>, T) -> bool, valid: T -> bool, key: T -> K, vs: seq<T>)
    requires forall before, v :: ok(before, v) <==> valid(v) && !Seen(key, before, key(v))
    ensures Allowed(ok, vs, 0)
       <==> (forall v :: v in vs ==> valid(v)) && forall i, j :: 0 <= i < j < |vs| ==> key(vs[i]) != key(vs[j])
  {
    hide Seen;
    FreshIsDistinct(key, vs);
    assert Allowed(ok, vs, 0) <==> Fresh(key, vs) && forall i :: 0 <= i < |vs| ==> valid(vs[i]) by {
      assert forall i :: 0 <= i < |vs| ==> (ok(vs[..i], vs[i]) <==> valid(vs[i]) && !Seen(key, vs[..i], key(vs[i])));
    }
    assert (forall v :: v in vs ==> valid(v)) <==> (forall i :: 0 <= i < |vs| ==> valid(vs[i]));
  }

  // ----- the manifest header -----

  predicate HeaderValid(h: ManifestHeader) {
    0 <= h.dropStoreVersion < 0x1_0000 && 0 <= h.metadataVersion < 0x1_0000 && 0 <= h.manifestVersion < 0x1_0000
  }

  /** "LMFS", three u16 versions, six zero bytes. */
  function HeaderLayout(h: ManifestHeader): Bytes {
    [0x4C, 0x4D, 0x46, 0x53] + Le(h.dropStoreVersion, 2) + Le(h.metadataVersion, 2) + Le(h.manifestVersion, 2)
    + [0, 0, 0, 0, 0, 0]
  }

  lemma HeaderSpelledOut(buf: Bytes, pos: nat, h: ManifestHeader, end: nat)
    ensures Accepts(DecodeHeader(buf, pos), h, end, HeaderValid(h), buf, pos, HeaderLayout(h))
  {
    hide Le, DecodeHeader, Fits;
    AllWidths();
    HeaderExact(buf, pos, h, end);
  }

  // ----- feature flags -----

  predicate FlagValid(f: F.FeatureFlag) {
    0 < f.flagId < 0x1_0000
  }

  ghost predicate FlagsValid(flags: seq<F.FeatureFlag>) {
    && |flags| < 0x1_0000_0000
    && (forall f :: f in flags ==> FlagValid(f))
    && (forall i, j :: 0 <= i < j < |flags| ==> flags[i].flagId != flags[j].flagId)
  }

  /** A u16 id and 1 for a required flag or 0 for another. */
  function FlagLayout(f: F.FeatureFlag): Bytes {
    Le(f.flagId, 2) + [if f.required then 1 else 0]
  }

  function FlagsLayout(flags: seq<F.FeatureFlag>): Bytes {
    [1] + Le(|flags|, 4) + EncodeAll(FlagLayout, flags)
  }

  lemma FlagsMatch(flags: seq<F.FeatureFlag>)
    ensures F.EncodeFlags(flags) == FlagsLayout(flags)
    ensures F.FlagsOk(flags) <==> FlagsValid(flags)
  {
    hide Le, Fits, Seen;
    AllWidths();
    LeTwo(0);
    LeTwo(1);
    SameLayout(F.EncodeFlag, FlagLayout, flags);
    AllowedKeyed(F.FlagAllowed, FlagValid, F.FlagId, flags);
  }

  lemma FlagsSpelledOut(prechecks: bool, buf: Bytes, pos: nat, flags: seq<F.FeatureFlag>, end: nat)
    ensures Accepts(F.DecodeFlags(prechecks, buf, pos), flags, end, FlagsValid(flags), buf, pos, FlagsLayout(flags))
  {
    hide F.DecodeFlags, F.FlagsOk, F.EncodeFlags, FlagsValid, FlagsLayout;
    FlagsMatch(flags);
    F.FlagsExact(prechecks, buf, pos, flags, end);
  }

  // ----- locators -----

  /** A scheme of letters, digits, '+', '-' and '.' that starts with a letter, the first ':',
    * and something after it. */
  ghost predicate UriValid(chars: Charset, uri: Text) {
    && 4 <= |EncodeUtf8(uri)| <= 4096
    && exists k :: 0 < k < |uri| - 1 && uri[k] == 0x3A && chars.isAlpha(uri[0])
                   && forall i :: 0 <= i < k ==>
                        uri[i] != 0x3A && (chars.isAlnum(uri[i]) || uri[i] in {0x2B, 0x2D, 0x2E})
  }

  function BlobLayout(b: Bytes): Bytes {
    Le(|b|, 4) + b
  }

  function UriLayout(uri: Text): Bytes {
    BlobLayout(EncodeUtf8(uri))
  }

  lemma UriMatch(chars: Charset, uri: Text)
    ensures EncodeLocator(uri) == UriLayout(uri)
    ensures LocatorOk(chars, uri) <==> UriValid(chars, uri)
  {
    hide EncodeUtf8, Le;
    var c := FirstColon(uri);
    assert forall i :: 0 <= i < c ==> uri[..c][i] == uri[i];
    assert forall i :: 0 <= i < c ==> uri[i] != COLON;
    if k :| 0 <= k < |uri| && uri[k] == 0x3A && forall i :: 0 <= i < k ==> uri[i] != 0x3A {
      assert c == k;
    }
  }

  lemma LocatorSpelledOut(chars: Charset, buf: Bytes, pos: nat, uri: Text, end: nat)
    ensures Accepts(DecodeLocator(chars, buf, pos), uri, end, UriValid(chars, uri), buf, pos, UriLayout(uri))
  {
    hide DecodeLocator, LocatorOk, EncodeLocator, UriValid, UriLayout;
    UriMatch(chars, uri);
    LocatorExact(chars, buf, pos, uri, end);
  }

  lemma UrisMatch(chars: Charset, uris: seq<Text>)
    ensures EncodeLocators(uris) == EncodeAll(UriLayout, uris)
    ensures LocatorsOk(chars, uris) <==> forall uri :: uri in uris ==> UriValid(chars, uri)
  {
    hide LocatorOk, EncodeLocator, UriValid, UriLayout;
    forall uri | uri in uris
      ensures EncodeLocator(uri) == UriLayout(uri) && (LocatorOk(chars, uri) <==> UriValid(chars, uri))
    {
      UriMatch(chars, uri);
    }
    SameLayout(EncodeLocator, UriLayout, uris);
  }

  // ----- metadata reference -----

  ghost predicate ReferenceValid(chars: Charset, m: MR.MetadataReference) {
    && |m.locators| < 0x1_0000_0000 && (forall uri :: uri in m.locators ==> UriValid(chars, uri))
    && match m.inlineMetadata
       case None => |m.locators| >= 1
       case Some(b) => 1 <= |b| <= 1024 * 1024
  }

  /** The hash, the locators, and the inlined bytes or a zero length. */
  function ReferenceLayout(m: MR.MetadataReference): Bytes {
    [1] + m.metadataHash + Le(|m.locators|, 4) + EncodeAll(UriLayout, m.locators)
    + BlobLayout(if m.inlineMetadata.Some? then m.inlineMetadata.value else [])
  }

  lemma ReferenceMatch(chars: Charset, m: MR.MetadataReference)
    ensures MR.EncodeMetadataReference(m) == ReferenceLayout(m)
    ensures MR.MetadataReferenceOk(chars, m) <==> ReferenceValid(chars, m)
  {
    hide Le, Fits, UriValid, EncodeLocators, LocatorsOk;
    AllWidths();
    LeTwo(1);
    UrisMatch(chars, m.locators);
  }

  lemma ReferenceSpelledOut(rd: Reader, buf: Bytes, pos: nat, m: MR.MetadataReference, end: nat)
    ensures Accepts(MR.DecodeMetadataReference(rd, buf, pos), m, end,
                    ReferenceValid(rd.chars, m), buf, pos, ReferenceLayout(m))
  {
    hide MR.DecodeMetadataReference, MR.MetadataReferenceOk, MR.EncodeMetadataReference, ReferenceValid, ReferenceLayout;
    ReferenceMatch(rd.chars, m);
    MR.MetadataReferenceExact(rd, buf, pos, m, end);
  }

  // ----- slab index -----

  function SlabIdLayout(id: SlabId): Bytes {
    Le(id.ordinal, 8) + id.hash
  }

  ghost predicate SlabIndexEntryValid(chars: Charset, e: SI.SlabIndexEntry) {
    1 <= |e.locators| < 0x1_0000_0000 && forall uri :: uri in e.locators ==> UriValid(chars, uri)
  }

  ghost predicate SlabIndexValid(chars: Charset, entries: seq<SI.SlabIndexEntry>) {
    && |entries| < 0x1_0000_0000
    && (forall e :: e in entries ==> SlabIndexEntryValid(chars, e))
    && (forall i, j :: 0 <= i < j < |entries| ==> entries[i].slabId != entries[j].slabId)
  }

  function SlabIndexEntryLayout(e: SI.SlabIndexEntry): Bytes {
    SlabIdLayout(e.slabId) + Le(|e.locators|, 4) + EncodeAll(UriLayout, e.locators)
  }

  function SlabIndexLayout(entries: seq<SI.SlabIndexEntry>): Bytes {
    [1] + Le(|entries|, 4) + EncodeAll(SlabIndexEntryLayout, entries)
  }

  lemma SlabIndexEntryMatch(chars: Charset, before: seq<SI.SlabIndexEntry>, e: SI.SlabIndexEntry)
    ensures SI.EncodeEntry(e) == SlabIndexEntryLayout(e)
    ensures SI.EntryOk(chars, before, e) <==> SlabIndexEntryValid(chars, e) && !Seen(SI.EntryId, before, SI.EntryId(e))
  {
    hide Le, Fits, UriValid, EncodeLocators, LocatorsOk, Seen;
    AllWidths();
    UrisMatch(chars, e.locators);
  }

  lemma SlabIndexMatch(chars: Charset, entries: seq<SI.SlabIndexEntry>)
    ensures SI.EncodeSlabIndex(entries) == SlabIndexLayout(entries)
    ensures SI.SlabIndexOk(chars, entries) <==> SlabIndexValid(chars, entries)
  {
    hide Le, Fits, SlabIndexEntryValid, SI.EncodeEntry, SlabIndexEntryLayout, SI.EntryOk, Seen;
    AllWidths();
    LeTwo(1);
    forall e
      ensures SI.EncodeEntry(e) == SlabIndexEntryLayout(e)
    {
      SlabIndexEntryMatch(chars, [], e);
    }
    forall before, e
      ensures SI.EntryAllowed(chars)(before, e)
         <==> SlabIndexEntryValid(chars, e) && !Seen(SI.EntryId, before, SI.EntryId(e))
    {
      SlabIndexEntryMatch(chars, before, e);
    }
    SameLayout(SI.EncodeEntry, SlabIndexEntryLayout, entries);
    AllowedKeyed(SI.EntryAllowed(chars), e => SlabIndexEntryValid(chars, e), SI.EntryId, entries);
  }

  lemma SlabIndexSpelledOut(rd: Reader, buf: Bytes, pos: nat, entries: seq<SI.SlabIndexEntry>, end: nat)
    ensures Accepts(SI.DecodeSlabIndex(rd, buf, pos), entries, end,
                    SlabIndexValid(rd.chars, entries), buf, pos, SlabIndexLayout(entries))
  {
    hide SI.DecodeSlabIndex, SI.SlabIndexOk, SI.EncodeSlabIndex, SlabIndexValid, SlabIndexLayout;
    SlabIndexMatch(rd.chars, entries);
    SI.SlabIndexExact(rd, buf, pos, entries, end);
  }

  // ----- erasure coding -----

  predicate OverrideValid(o: EC.EcOverride) {
    1 <= o.k && 1 <= o.m && o.k + o.m <= 255
  }

  ghost predicate EcValid(e: EC.EcParams) {
    && 1 <= e.k && 1 <= e.m && e.k + e.m <= 255 && e.polynomial == 0x011D && |e.overrides| < 0x1_0000_0000
    && (forall o :: o in e.overrides ==> OverrideValid(o))
    && (forall i, j :: 0 <= i < j < |e.overrides| ==> e.overrides[i].slabId != e.overrides[j].slabId)
  }

  function OverrideLayout(o: EC.EcOverride): Bytes {
    SlabIdLayout(o.slabId) + Le(o.k, 1) + Le(o.m, 1)
  }

  function EcLayout(e: EC.EcParams): Bytes {
    [1] + (Le(e.k, 1) + Le(e.m, 1)) + Le(e.polynomial, 2) + Le(|e.overrides|, 4) + EncodeAll(OverrideLayout, e.overrides)
  }

  lemma EcMatch(e: EC.EcParams)
    ensures EC.EncodeEcParams(e) == EcLayout(e)
    ensures EC.EcParamsOk(e) <==> EcValid(e)
  {
    hide Le, Fits, Seen, Allowed;
    AllWidths();
    LeTwo(1);
    SameLayout(EC.EncodeOverride, OverrideLayout, e.overrides);
    AllowedKeyed(EC.OverrideAllowed, OverrideValid, EC.OverrideId, e.overrides);
  }

  lemma EcSpelledOut(prechecks: bool, buf: Bytes, pos: nat, e: EC.EcParams, end: nat)
    ensures Accepts(EC.DecodeEcParams(prechecks, buf, pos), e, end, EcValid(e), buf, pos, EcLayout(e))
  {
    hide EC.DecodeEcParams, EC.EcParamsOk, EC.EncodeEcParams, EcValid, EcLayout;
    EcMatch(e);
    EC.EcParamsExact(prechecks, buf, pos, e, end);
  }

  // ----- key escrow -----

  predicate ShareValid(s: DMS.ShareRecord) {
    1 <= |EncodeUtf8(s.custodianId)| <= 4096 && 1 <= |s.shareData| <= 1024
  }

  ghost predicate DmsValid(d: DMS.DmsPolicy) {
    && 1 <= d.k <= d.n == |d.shares| && d.n <= 255
    && (forall s :: s in d.shares ==> ShareValid(s))
    && (forall i, j :: 0 <= i < j < |d.shares| ==> d.shares[i].custodianId != d.shares[j].custodianId)
    && (d.hint.Some? ==> 1 <= |EncodeUtf8(d.hint.value)| <= 4096)
  }

  function ShareLayout(s: DMS.ShareRecord): Bytes {
    BlobLayout(EncodeUtf8(s.custodianId)) + BlobLayout(s.shareData)
  }

  /** Version, scheme 0, k, n, the shares, and the hint or a zero length. */
  function DmsLayout(d: DMS.DmsPolicy): Bytes {
    [1, 0] + (Le(d.k, 1) + Le(d.n, 1)) + Le(|d.shares|, 4) + EncodeAll(ShareLayout, d.shares)
    + BlobLayout(if d.hint.Some? then EncodeUtf8(d.hint.value) else [])
  }

  lemma DmsMatch(d: DMS.DmsPolicy)
    ensures DMS.EncodeDmsPolicy(d) == DmsLayout(d)
    ensures DMS.DmsPolicyOk(d) <==> DmsValid(d)
  {
    hide Le, EncodeUtf8, EncodeAll, Allowed, Seen;
    LeTwo(1);
    LeTwo(0);
    SameLayout(DMS.EncodeShare, ShareLayout, d.shares);
    AllowedKeyed(DMS.ShareAllowed, ShareValid, DMS.Custodian, d.shares);
  }

  lemma DmsSpelledOut(buf: Bytes, pos: nat, d: DMS.DmsPolicy, end: nat)
    ensures Accepts(DMS.DecodeDmsPolicy(buf, pos), d, end, DmsValid(d), buf, pos, DmsLayout(d))
  {
    hide DMS.DecodeDmsPolicy, DMS.DmsPolicyOk, DMS.EncodeDmsPolicy, DmsValid, DmsLayout;
    DmsMatch(d);
    DMS.DmsPolicyExact(buf, pos, d, end);
  }

  // ----- history -----

  ghost predicate HistoryValid(entries: seq<HI.HistoryEntry>) {
    && 1 <= |entries| < 0x1_0000_0000
    && forall e :: e in entries ==>
         0 <= e.timestampNs < 0x1_0000_0000_0000_0000 && |e.inputs| < 0x1_0000_0000 && |e.params| <= 4096
  }

  function OperationByte(op: HI.HistoryOp): u8 {
    match op
    case Build => 1
    case Delta => 2
    case Flatten => 3
    case Turnover => 4
    case Deepen => 5
  }

  /** The operation, its time, its 32-byte input roots, its parameters. */
  function HistoryEntryLayout(e: HI.HistoryEntry): Bytes {
    [OperationByte(e.op)] + Le(e.timestampNs, 8) + Le(|e.inputs|, 4) + EncodeAll((root: Digest) => root, e.inputs)
    + BlobLayout(e.params)
  }

  function HistoryLayout(entries: seq<HI.HistoryEntry>): Bytes {
    [1] + Le(|entries|, 4) + EncodeAll(HistoryEntryLayout, entries)
  }

  lemma {:induction false} JoinLayout(roots: seq<Digest>)
    ensures HI.Join(roots) == EncodeAll((root: Digest) => root, roots)
  {
    if |roots| != 0 {
      JoinLayout(roots[1..]);
    }
  }

  lemma HistoryEntryMatch(e: HI.HistoryEntry)
    ensures HI.EncodeEntry(e) == HistoryEntryLayout(e)
  {
    hide Le, HI.Join;
    LeTwo(HI.OpByte(e.op));
    JoinLayout(e.inputs);
  }

  lemma HistoryMatch(entries: seq<HI.HistoryEntry>)
    ensures HI.EncodeHistory(entries) == HistoryLayout(entries)
    ensures HI.HistoryOk(entries) <==> HistoryValid(entries)
  {
    hide Le, Fits, HI.EncodeEntry, HistoryEntryLayout;
    AllWidths();
    LeTwo(1);
    forall e | e in entries
      ensures HI.EncodeEntry(e) == HistoryEntryLayout(e)
    {
      HistoryEntryMatch(e);
    }
    SameLayout(HI.EncodeEntry, HistoryEntryLayout, entries);
  }

  lemma HistorySpelledOut(prechecks: bool, buf: Bytes, pos: nat, entries: seq<HI.HistoryEntry>, end: nat)
    ensures Accepts(HI.DecodeHistory(prechecks, buf, pos), entries, end, HistoryValid(entries), buf, pos, HistoryLayout(entries))
  {
    hide HI.DecodeHistory, HI.HistoryOk, HI.EncodeHistory, HistoryValid, HistoryLayout;
    HistoryMatch(entries);
    HI.HistoryExact(prechecks, buf, pos, entries, end);
  }

  // ----- the manifest -----

  /** Every section valid; flag 1 announces erasure coding and flag 2 key escrow. */
  ghost predicate ManifestValid(chars: Charset, m: Manifest) {
    && HeaderValid(m.header) && FlagsValid(m.flags) && ReferenceValid(chars, m.metadataReference)
    && SlabIndexValid(chars, m.slabIndex) && HistoryValid(m.history)
    && (m.ec.Some? <==> exists f :: f in m.flags && f.flagId == 1) && (m.ec.Some? ==> EcValid(m.ec.value))
    && (m.dms.Some? <==> exists f :: f in m.flags && f.flagId == 2) && (m.dms.Some? ==> DmsValid(m.dms.value))
  }

  function ManifestLayout(m: Manifest): Bytes {
    (HeaderLayout(m.header) + FlagsLayout(m.flags) + ReferenceLayout(m.metadataReference) + SlabIndexLayout(m.slabIndex))
    + ((if m.ec.Some? then EcLayout(m.ec.value) else []) + (if m.dms.Some? then DmsLayout(m.dms.value) else [])
       + HistoryLayout(m.history))
  }

  lemma HeaderMatch(h: ManifestHeader)
    ensures EncodeHeader(h) == HeaderLayout(h) && (HeaderOk(h) <==> HeaderValid(h))
  {
    hide Le, Fits;
    AllWidths();
  }

  lemma DeclaresFlag(flags: seq<F.FeatureFlag>, id: int)
    ensures F.Declares(flags, id) <==> exists f :: f in flags && f.flagId == id
  {
    if f :| f in flags && f.flagId == id {
      var i :| 0 <= i < |flags| && flags[i] == f;
      assert F.FlagId(flags[i]) == id;
    }
  }

  lemma ManifestMatch(chars: Charset, m: Manifest)
    ensures EncodeManifest(m) == ManifestLayout(m)
    ensures ManifestOk(chars, m) <==> ManifestValid(chars, m)
  {
    hide EncodeHeader, HeaderLayout, HeaderOk, HeaderValid, F.EncodeFlags, F.FlagsOk, FlagsLayout, FlagsValid;
    hide MR.EncodeMetadataReference, MR.MetadataReferenceOk, ReferenceLayout, ReferenceValid, SI.EncodeSlabIndex;
    hide SI.SlabIndexOk, SlabIndexLayout, SlabIndexValid, EC.EncodeEcParams, EC.EcParamsOk, EcLayout, EcValid;
    hide DMS.EncodeDmsPolicy, DMS.DmsPolicyOk, DmsLayout, DmsValid, HI.EncodeHistory, HI.HistoryOk, HistoryLayout, HistoryValid;
    hide F.Declares;
    HeaderMatch(m.header);
    FlagsMatch(m.flags);
    ReferenceMatch(chars, m.metadataReference);
    SlabIndexMatch(chars, m.slabIndex);
    HistoryMatch(m.history);
    DeclaresFlag(m.flags, 1);
    DeclaresFlag(m.flags, 2);
    if m.ec.Some? {
      EcMatch(m.ec.value);
    }
    if m.dms.Some? {
      DmsMatch(m.dms.value);
    }
  }

  /** The whole chain, in numbers. */
  lemma ManifestSpelledOut(rd: Reader, buf: Bytes, pos: nat, m: Manifest, end: nat)
    ensures Accepts(DecodeManifest(rd, buf, pos), m, end, ManifestValid(rd.chars, m), buf, pos, ManifestLayout(m))
  {
    hide DecodeManifest, ManifestOk, EncodeManifest, ManifestValid, ManifestLayout;
    ManifestMatch(rd.chars, m);
    ManifestExact(rd, buf, pos, m, end);
  }

  // ----- slabs -----

  predicate SlabHeaderValid(h: S.SlabHeader) {
    && h.formatVersion == 1 && 56 <= h.totalLength <= 64 * 1024 * 1024
    && 0 <= h.ecDescriptor <= 254 && 0 <= h.cryptoHint <= 254
  }

  /** "LIM1", the version, the slab id, the length of the whole slab, two descriptors. */
  function SlabHeaderLayout(h: S.SlabHeader): Bytes {
    [0x4C, 0x49, 0x4D, 0x31] + Le(h.formatVersion, 2) + SlabIdLayout(h.slabId)
    + (Le(h.totalLength, 8) + Le(h.ecDescriptor, 1) + Le(h.cryptoHint, 1))
  }

  lemma SlabHeaderMatch(h: S.SlabHeader)
    ensures S.EncodeSlabHeader(h) == SlabHeaderLayout(h) && (S.SlabHeaderOk(h) <==> SlabHeaderValid(h))
  {
    hide Le;
  }

  lemma SlabHeaderSpelledOut(buf: Bytes, pos: nat, h: S.SlabHeader, end: nat)
    ensures Accepts(S.DecodeSlabHeader(buf, pos), h, end, SlabHeaderValid(h), buf, pos, SlabHeaderLayout(h))
  {
    hide S.DecodeSlabHeader, S.EncodeSlabHeader, SlabHeaderLayout;
    SlabHeaderMatch(h);
    S.SlabHeaderExact(buf, pos, h, end);
  }

  predicate RecordValid(h: S.SlabHeader, r: S.DropRecord) {
    && 0 <= r.plaintextLen <= 64 * 1024 * 1024
    && (h.cryptoHint == 0 ==> r.representation.aead == 0) && (h.ecDescriptor == 0 ==> r.representation.ec == 0)
    && 0 <= r.solidWindowIndex <= 255 && r.offsetInWindow < 0x1_0000_0000 && r.lenInWindow < 0x1_0000_0000
  }

  function RecordLayout(r: S.DropRecord): Bytes {
    r.dropId + Le(r.plaintextLen, 4) + [r.representation.codec, r.representation.aead, r.representation.ec]
    + (Le(r.solidWindowIndex, 1) + Le(r.offsetInWindow, 4) + Le(r.lenInWindow, 4))
  }

  lemma RecordMatch(h: S.SlabHeader, r: S.DropRecord)
    ensures S.EncodeRecord(r) == RecordLayout(r) && (S.RecordOk(h, r) <==> RecordValid(h, r))
  {
    hide Le, Fits;
    AllWidths();
  }

  lemma RecordSpelledOut(h: S.SlabHeader, buf: Bytes, pos: nat, r: S.DropRecord, end: nat)
    ensures Accepts(S.DecodeRecord(h, buf, pos), r, end, RecordValid(h, r), buf, pos, RecordLayout(r))
  {
    hide S.DecodeRecord, S.EncodeRecord, S.RecordOk, RecordLayout, RecordValid;
    RecordMatch(h, r);
    S.RecordExact(h, buf, pos, r, end);
  }
}
