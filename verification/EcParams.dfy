/** The optional erasure-coding section. */
module EcParamsSections {
  import opened Wire
  import opened Cursors
  import opened FormatTypes
  import opened Lookups

  const SECTION_VERSION := 1
  const POLYNOMIAL := 0x011D
  const MAX_SHARDS := 255
  const OVERRIDE_LEN := 42

  datatype EcOverride = EcOverride(slabId: SlabId, k: int, m: int)
  datatype EcParams = EcParams(k: int, m: int, polynomial: int, overrides: seq<EcOverride>)

  /** `_validate`. */
  predicate ShardsOk(k: int, m: int) {
    1 <= k && 1 <= m && k + m <= MAX_SHARDS
  }

  function OverrideId(o: EcOverride): SlabId {
    o.slabId
  }

  predicate OverrideAllowed(before: seq<EcOverride>, o: EcOverride) {
    ShardsOk(o.k, o.m) && !Seen(OverrideId, before, o.slabId)
  }

  ghost predicate EcParamsOk(e: EcParams) {
    && ShardsOk(e.k, e.m) && e.polynomial == POLYNOMIAL
    && Fits(|e.overrides|, 4) && Allowed(OverrideAllowed, e.overrides, 0)
  }

  function EncodeOverride(o: EcOverride): (b: Bytes)
    ensures |b| == OVERRIDE_LEN
  {
    EncodeSlabId(o.slabId) + Le(o.k, 1) + Le(o.m, 1)
  }

  function EncodeEcParams(e: EcParams): (b: Bytes)
    ensures |b| != 0
  {
    Le(SECTION_VERSION, 1) + (Le(e.k, 1) + Le(e.m, 1)) + Le(e.polynomial, 2) + Le(|e.overrides|, 4)
    + EncodeAll(EncodeOverride, e.overrides)
  }

  function DecodeOverride(buf: Bytes, pos: nat, before: seq<EcOverride>): Parsed<EcOverride> {
    var (slabId, p1) :- DecodeSlabId(buf, pos);
    var (k, p2) :- ReadInt(buf, p1, 1);
    var (m, p3) :- ReadInt(buf, p2, 1);
    if !ShardsOk(k, m) then Err(Corrupt)
    else if Seen(OverrideId, before, slabId) then Err(Corrupt)
    else Ok(EcOverride(slabId, k, m), p3)
  }

  function DecodeEcParams(prechecks: bool, buf: Bytes, pos: nat): Parsed<EcParams> {
    var (version, p1) :- ReadInt(buf, pos, 1);
    if version != SECTION_VERSION then Err(Unsupported) else
    var (k, p2) :- ReadInt(buf, p1, 1);
    var (m, p3) :- ReadInt(buf, p2, 1);
    if !ShardsOk(k, m) then Err(Corrupt) else
    var (polynomial, p4) :- ReadInt(buf, p3, 2);
    if polynomial != POLYNOMIAL then Err(Unsupported) else
    var (count, p5) :- ReadInt(buf, p4, 4);
    var (overrides, p6) :- Counted(prechecks, OVERRIDE_LEN, DecodeOverride, buf, p5, count);
    Ok(EcParams(k, m, polynomial, overrides), p6)
  }

  lemma OverrideExact(buf: Bytes, pos: nat, before: seq<EcOverride>, o: EcOverride, end: nat)
    ensures Accepts(DecodeOverride(buf, pos, before), o, end, OverrideAllowed(before, o), buf, pos, EncodeOverride(o))
  {
    hide Le, FromLe, DecodeSlabId, EncodeSlabId, Seen;
    SlabIdExact(buf, pos, o.slabId, pos + 40);
    ReadIntExact(buf, pos + 40, 1, o.k, pos + 41);
    ReadIntExact(buf, pos + 41, 1, o.m, end);
    At3(buf, pos, EncodeSlabId(o.slabId), Le(o.k, 1), Le(o.m, 1));
  }

  lemma EcParamsExact(prechecks: bool, buf: Bytes, pos: nat, e: EcParams, end: nat)
    ensures Accepts(DecodeEcParams(prechecks, buf, pos), e, end, EcParamsOk(e), buf, pos, EncodeEcParams(e))
  {
    hide Le, FromLe, Counted, EncodeAll, DecodeOverride;
    forall b, p: nat, before, v, q: nat
      ensures Accepts(DecodeOverride(b, p, before), v, q, OverrideAllowed(before, v), b, p, EncodeOverride(v))
    {
      OverrideExact(b, p, before, v, q);
    }
    ReadIntExact(buf, pos, 1, SECTION_VERSION, pos + 1);
    ReadIntExact(buf, pos + 1, 1, e.k, pos + 2);
    ReadIntExact(buf, pos + 2, 1, e.m, pos + 3);
    ReadIntExact(buf, pos + 3, 2, e.polynomial, pos + 5);
    ReadIntExact(buf, pos + 5, 4, |e.overrides|, pos + 9);
    if pos + 9 <= |buf| {
      CountedExact(prechecks, OVERRIDE_LEN, DecodeOverride, OverrideAllowed, EncodeOverride,
                   buf, pos + 9, |e.overrides|, e.overrides, end);
    }
    At2(buf, pos + 1, Le(e.k, 1), Le(e.m, 1));
    At5(buf, pos, Le(SECTION_VERSION, 1), Le(e.k, 1) + Le(e.m, 1), Le(e.polynomial, 2), Le(|e.overrides|, 4),
        EncodeAll(EncodeOverride, e.overrides));
  }

  /** One turn of the overrides loop. */
  method ParseOverride(c: Cursor, seen: set<SlabId>, ghost before: seq<EcOverride>) returns (r: Result<EcOverride>)
    requires c.Valid() && forall id :: id in seen <==> Seen(OverrideId, before, id)
    modifies c
    ensures c.Follows(r, DecodeOverride(c.buf, old(c.pos), before))
  {
    hide Le, FromLe, Seen;
    var ordinal :- c.ReadU64Le();
    var hash :- c.Read(32);
    var slabId := SlabId(ordinal, hash);
    var ok :- c.ReadU8();
    var om :- c.ReadU8();
    if !ShardsOk(ok, om) {
      return Failure(Corrupt);
    }
    if slabId in seen {
      return Failure(Corrupt);
    }
    return Success(EcOverride(slabId, ok, om));
  }

  method ParseEcParamsSection(c: Cursor) returns (r: Result<EcParams>)
    requires c.Valid()
    modifies c
    ensures c.Follows(r, DecodeEcParams(true, c.buf, old(c.pos)))
  {
    hide Le, FromLe, Seen, ShardsOk, DecodeOverride;
    var version :- c.ReadU8();
    if version != SECTION_VERSION {
      return Failure(Unsupported);
    }
    var k :- c.ReadU8();
    var m :- c.ReadU8();
    if !ShardsOk(k, m) {
      return Failure(Corrupt);
    }
    var polynomial :- c.ReadU16Le();
    if polynomial != POLYNOMIAL {
      return Failure(Unsupported);
    }
    var count :- c.ReadU32Le();
    if c.RemainingLen() < count * OVERRIDE_LEN {
      return Failure(Truncated);
    }
    ghost var start := c.pos;
    var overrides: seq<EcOverride> := [];
    var seen: set<SlabId> := {};
    SeenNothing(OverrideId);
    for i := 0 to count
      invariant c.Valid()
      invariant forall id :: id in seen <==> Seen(OverrideId, overrides, id)
      invariant Many(DecodeOverride, c.buf, start, count, []) == Many(DecodeOverride, c.buf, c.pos, count - i, overrides)
    {
      var o :- ParseOverride(c, seen, overrides);
      SeenAppend(OverrideId, overrides, o);
      seen := seen + {o.slabId};
      overrides := overrides + [o];
    }
    return Success(EcParams(k, m, polynomial, overrides));
  }
}
