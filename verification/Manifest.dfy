/** A whole manifest: the chain of sections, and the identity computed from it. */
module Manifests {
  import opened Wire
  import opened Locators
  import opened Headers
  import F = FeatureFlags
  import MR = MetadataReferences
  import SI = SlabIndexes
  import EC = EcParamsSections
  import DMS = DmsPolicies
  import HI = Histories

  const EC_FLAG := 0x0001
  const DMS_FLAG := 0x0002

  datatype Manifest = Manifest(
    header: ManifestHeader, flags: seq<F.FeatureFlag>, metadataReference: MR.MetadataReference,
    slabIndex: seq<SI.SlabIndexEntry>, ec: Option<EC.EcParams>, dms: Option<DMS.DmsPolicy>,
    history: seq<HI.HistoryEntry>)

  /** The five mandatory sections are well-formed. */
  ghost predicate MandatoryOk(chars: Charset, m: Manifest) {
    && HeaderOk(m.header) && F.FlagsOk(m.flags) && MR.MetadataReferenceOk(chars, m.metadataReference)
    && SI.SlabIndexOk(chars, m.slabIndex) && HI.HistoryOk(m.history)
  }

  /** An optional section is there exactly when its flag is declared, and is well-formed. */
  ghost predicate OptionalOk(m: Manifest) {
    && (m.ec.Some? <==> F.Declares(m.flags, EC_FLAG)) && (m.ec.Some? ==> EC.EcParamsOk(m.ec.value))
    && (m.dms.Some? <==> F.Declares(m.flags, DMS_FLAG)) && (m.dms.Some? ==> DMS.DmsPolicyOk(m.dms.value))
  }

  ghost predicate ManifestOk(chars: Charset, m: Manifest) {
    MandatoryOk(chars, m) && OptionalOk(m)
  }

  function EncodeEc(ec: Option<EC.EcParams>): Bytes {
    if ec.Some? then EC.EncodeEcParams(ec.value) else []
  }

  function EncodeDms(dms: Option<DMS.DmsPolicy>): Bytes {
    if dms.Some? then DMS.EncodeDmsPolicy(dms.value) else []
  }

  /** The sections no flag can remove, before the optional ones. */
  function EncodeFront(m: Manifest): Bytes {
    EncodeHeader(m.header) + F.EncodeFlags(m.flags) + MR.EncodeMetadataReference(m.metadataReference)
    + SI.EncodeSlabIndex(m.slabIndex)
  }

  function EncodeBack(m: Manifest): Bytes {
    EncodeEc(m.ec) + EncodeDms(m.dms) + HI.EncodeHistory(m.history)
  }

  function EncodeManifest(m: Manifest): Bytes {
    EncodeFront(m) + EncodeBack(m)
  }

  function DecodeEc(present: bool, prechecks: bool, buf: Bytes, pos: nat): Parsed<Option<EC.EcParams>> {
    if !present then Ok(None, pos) else
    var (ec, p1) :- EC.DecodeEcParams(prechecks, buf, pos);
    Ok(Some(ec), p1)
  }

  function DecodeDms(present: bool, buf: Bytes, pos: nat): Parsed<Option<DMS.DmsPolicy>> {
    if !present then Ok(None, pos) else
    var (dms, p1) :- DMS.DecodeDmsPolicy(buf, pos);
    Ok(Some(dms), p1)
  }

  /** The front of `m`, as `DecodeFront` returns it. */
  function FrontOf(m: Manifest): Manifest {
    m.(ec := None, dms := None, history := [])
  }

  /** The four leading sections; the rest of the value is not filled in yet. */
  function DecodeFront(rd: Reader, buf: Bytes, pos: nat): (r: Parsed<Manifest>)
    ensures r.Ok? ==> r.value == FrontOf(r.value)
  {
    var (header, p1) :- DecodeHeader(buf, pos);
    var (flags, p2) :- F.DecodeFlags(rd.prechecks, buf, p1);
    var (metadataReference, p3) :- MR.DecodeMetadataReference(rd, buf, p2);
    var (slabIndex, p4) :- SI.DecodeSlabIndex(rd, buf, p3);
    Ok(Manifest(header, flags, metadataReference, slabIndex, None, None, []), p4)
  }

  /** The optional sections the flags call for, and the history. */
  function DecodeBack(prechecks: bool, front: Manifest, buf: Bytes, pos: nat): (r: Parsed<Manifest>)
    ensures r.Ok? ==> FrontOf(r.value) == FrontOf(front)
  {
    var (ec, p5) :- DecodeEc(F.Declares(front.flags, EC_FLAG), prechecks, buf, pos);
    var (dms, p6) :- DecodeDms(F.Declares(front.flags, DMS_FLAG), buf, p5);
    var (history, p7) :- HI.DecodeHistory(prechecks, buf, p6);
    Ok(front.(ec := ec, dms := dms, history := history), p7)
  }

  function DecodeManifest(rd: Reader, buf: Bytes, pos: nat): Parsed<Manifest> {
    var (front, p4) :- DecodeFront(rd, buf, pos);
    DecodeBack(rd.prechecks, front, buf, p4)
  }

  lemma EcExact(present: bool, prechecks: bool, buf: Bytes, pos: nat, ec: Option<EC.EcParams>, end: nat)
    requires pos <= |buf|
    ensures Accepts(DecodeEc(present, prechecks, buf, pos), ec, end,
                    ec.Some? == present && (ec.Some? ==> EC.EcParamsOk(ec.value)), buf, pos, EncodeEc(ec))
  {
    hide EC.DecodeEcParams, EC.EncodeEcParams, EC.EcParamsOk;
    if ec.Some? {
      EC.EcParamsExact(prechecks, buf, pos, ec.value, end);
    }
  }

  lemma DmsExact(present: bool, buf: Bytes, pos: nat, dms: Option<DMS.DmsPolicy>, end: nat)
    requires pos <= |buf|
    ensures Accepts(DecodeDms(present, buf, pos), dms, end,
                    dms.Some? == present && (dms.Some? ==> DMS.DmsPolicyOk(dms.value)), buf, pos, EncodeDms(dms))
  {
    hide DMS.DecodeDmsPolicy, DMS.EncodeDmsPolicy, DMS.DmsPolicyOk;
    if dms.Some? {
      DMS.DmsPolicyExact(buf, pos, dms.value, end);
    }
  }

  lemma FrontExact(rd: Reader, buf: Bytes, pos: nat, m: Manifest, end: nat)
    ensures Accepts(DecodeFront(rd, buf, pos), FrontOf(m), end,
                    HeaderOk(m.header) && F.FlagsOk(m.flags) && MR.MetadataReferenceOk(rd.chars, m.metadataReference)
                    && SI.SlabIndexOk(rd.chars, m.slabIndex), buf, pos, EncodeFront(m))
  {
    hide DecodeHeader, EncodeHeader, HeaderOk, F.DecodeFlags, F.EncodeFlags, F.FlagsOk, MR.DecodeMetadataReference;
    hide MR.EncodeMetadataReference, MR.MetadataReferenceOk, SI.DecodeSlabIndex, SI.EncodeSlabIndex, SI.SlabIndexOk;
    var h, f := EncodeHeader(m.header), F.EncodeFlags(m.flags);
    var mr, si := MR.EncodeMetadataReference(m.metadataReference), SI.EncodeSlabIndex(m.slabIndex);
    var p2, p3 := pos + |h| + |f|, pos + |h| + |f| + |mr|;
    HeaderExact(buf, pos, m.header, pos + |h|);
    F.FlagsExact(rd.prechecks, buf, pos + |h|, m.flags, p2);
    MR.MetadataReferenceExact(rd, buf, p2, m.metadataReference, p3);
    SI.SlabIndexExact(rd, buf, p3, m.slabIndex, end);
    At4(buf, pos, h, f, mr, si);
    var r := DecodeFront(rd, buf, pos);
    if r == Ok(FrontOf(m), end) {
      var r1 := DecodeHeader(buf, pos);
      HeaderExact(buf, pos, m.header, r1.end);
      var r2 := F.DecodeFlags(rd.prechecks, buf, r1.end);
      F.FlagsExact(rd.prechecks, buf, r1.end, m.flags, r2.end);
      var r3 := MR.DecodeMetadataReference(rd, buf, r2.end);
      MR.MetadataReferenceExact(rd, buf, r2.end, m.metadataReference, r3.end);
    }
  }

  /** The chain of sections is accepted exactly on the encodings of well-formed manifests. */
  lemma ManifestExact(rd: Reader, buf: Bytes, pos: nat, m: Manifest, end: nat)
    ensures Accepts(DecodeManifest(rd, buf, pos), m, end, ManifestOk(rd.chars, m), buf, pos, EncodeManifest(m))
  {
    hide DecodeFront, EncodeFront, DecodeEc, EncodeEc, DecodeDms, EncodeDms, HI.DecodeHistory, HI.EncodeHistory;
    hide HeaderOk, F.FlagsOk, MR.MetadataReferenceOk, SI.SlabIndexOk, EC.EcParamsOk, DMS.DmsPolicyOk, HI.HistoryOk, F.Declares;
    var front, ec, dms := EncodeFront(m), EncodeEc(m.ec), EncodeDms(m.dms);
    var p4 := pos + |front|;
    var p5 := p4 + |ec|;
    var p6 := p5 + |dms|;
    var hasEc, hasDms := F.Declares(m.flags, EC_FLAG), F.Declares(m.flags, DMS_FLAG);
    FrontExact(rd, buf, pos, m, p4);
    if p4 <= |buf| {
      EcExact(hasEc, rd.prechecks, buf, p4, m.ec, p5);
    }
    if p5 <= |buf| {
      DmsExact(hasDms, buf, p5, m.dms, p6);
    }
    HI.HistoryExact(rd.prechecks, buf, p6, m.history, end);
    At2(buf, pos, front, EncodeBack(m));
    At3(buf, p4, ec, dms, HI.EncodeHistory(m.history));
    if DecodeManifest(rd, buf, pos) == Ok(m, end) {
      var r4 := DecodeFront(rd, buf, pos);
      assert r4.value == FrontOf(m);
      FrontExact(rd, buf, pos, m, r4.end);
      var r5 := DecodeEc(hasEc, rd.prechecks, buf, p4);
      EcExact(hasEc, rd.prechecks, buf, p4, m.ec, r5.end);
      var r6 := DecodeDms(hasDms, buf, p5);
      DmsExact(hasDms, buf, p5, m.dms, r6.end);
    }
  }
}
