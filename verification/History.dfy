/** The history section: the operations that derived the image. */
module Histories {
  import opened Wire
  import opened Cursors
  import opened Locators

  const SECTION_VERSION := 1
  const PARAMS_MAX_BYTES := 4096
  const OP_EXTENDED := 0xFF
  const MIN_ENTRY_LEN := 17

  datatype HistoryOp = Build | Delta | Flatten | Turnover | Deepen

  datatype HistoryEntry = HistoryEntry(op: HistoryOp, timestampNs: int, inputs: seq<Digest>, params: Bytes)

  function OpByte(op: HistoryOp): (n: int)
    ensures 1 <= n <= 5
  {
    match op
    case Build => 0x01
    case Delta => 0x02
    case Flatten => 0x03
    case Turnover => 0x04
    case Deepen => 0x05
  }

  /** `HistoryOp.from_byte`. */
  function FromByte(n: int): (r: Option<HistoryOp>)
    ensures forall op :: r == Some(op) <==> OpByte(op) == n
  {
    match n
    case 0x01 => Some(Build)
    case 0x02 => Some(Delta)
    case 0x03 => Some(Flatten)
    case 0x04 => Some(Turnover)
    case 0x05 => Some(Deepen)
    case _ => None
  }

  predicate EntryOk(e: HistoryEntry) {
    Fits(e.timestampNs, 8) && Fits(|e.inputs|, 4) && |e.params| <= PARAMS_MAX_BYTES
  }

  predicate EntryAllowed(before: seq<HistoryEntry>, e: HistoryEntry) {
    EntryOk(e)
  }

  ghost predicate HistoryOk(entries: seq<HistoryEntry>) {
    Fits(|entries|, 4) && |entries| != 0 && forall e :: e in entries ==> EntryOk(e)
  }

  /** The input roots, 32 bytes each. */
  function Join(roots: seq<Digest>): (b: Bytes)
    ensures |b| == 32 * |roots|
  {
    if |roots| == 0 then [] else roots[0] + Join(roots[1..])
  }

  function Chunks(b: Bytes): (roots: seq<Digest>)
    requires |b| % 32 == 0
    ensures Join(roots) == b
  {
    if |b| == 0 then [] else [b[..32]] + Chunks(b[32..])
  }

  lemma {:induction false} JoinInjective(xs: seq<Digest>, ys: seq<Digest>)
    requires Join(xs) == Join(ys)
    ensures xs == ys
  {
    if |xs| != 0 {
      assert xs[0] == Join(xs)[..32] == Join(ys)[..32] == ys[0];
      assert Join(xs[1..]) == Join(xs)[32..] == Join(ys)[32..] == Join(ys[1..]);
      JoinInjective(xs[1..], ys[1..]);
    }
  }

  lemma {:induction false} JoinAppend(xs: seq<Digest>, y: Digest)
    ensures Join(xs + [y]) == Join(xs) + y
  {
    if |xs| == 0 {
      assert xs + [y] == [y];
    } else {
      JoinAppend(xs[1..], y);
      assert (xs + [y])[1..] == xs[1..] + [y];
    }
  }

  function EncodeEntry(e: HistoryEntry): (b: Bytes)
    ensures |b| >= MIN_ENTRY_LEN
  {
    Le(OpByte(e.op), 1) + Le(e.timestampNs, 8) + Le(|e.inputs|, 4) + Join(e.inputs) + EncodeBlob(e.params)
  }

  function EncodeHistory(entries: seq<HistoryEntry>): (b: Bytes)
    ensures |b| != 0
  {
    Le(SECTION_VERSION, 1) + Le(|entries|, 4) + EncodeAll(EncodeEntry, entries)
  }

  function DecodeRoots(buf: Bytes, pos: nat, n: nat): (r: Parsed<seq<Digest>>)
    ensures r.Ok? ==> |r.value| == n && r.end == pos + 32 * n <= |buf|
  {
    var (b, p1) :- Read(buf, pos, 32 * n);
    Ok(Chunks(b), p1)
  }

  function DecodeEntry(buf: Bytes, pos: nat, before: seq<HistoryEntry>): Parsed<HistoryEntry> {
    var (opByte, p1) :- ReadInt(buf, pos, 1);
    var op := FromByte(opByte);
    if op.None? then Err(Unsupported) else
    var (timestampNs, p2) :- ReadInt(buf, p1, 8);
    var (count, p3) :- ReadInt(buf, p2, 4);
    var (inputs, p4) :- DecodeRoots(buf, p3, count);
    var (params, p5) :- DecodeBlob(0, PARAMS_MAX_BYTES, buf, p4);
    Ok(HistoryEntry(op.value, timestampNs, inputs, params), p5)
  }

  function DecodeHistory(prechecks: bool, buf: Bytes, pos: nat): Parsed<seq<HistoryEntry>> {
    var (version, p1) :- ReadInt(buf, pos, 1);
    if version != SECTION_VERSION then Err(Unsupported) else
    var (count, p2) :- ReadInt(buf, p1, 4);
    if count == 0 then Err(Corrupt) else
    Counted(prechecks, MIN_ENTRY_LEN, DecodeEntry, buf, p2, count)
  }

  lemma RootsExact(buf: Bytes, pos: nat, n: nat, roots: seq<Digest>, end: nat)
    ensures Accepts(DecodeRoots(buf, pos, n), roots, end, |roots| == n, buf, pos, Join(roots))
  {
    hide Join, Chunks;
    ReadExact(buf, pos, 32 * n, Join(roots), pos + 32 * n);
    var r := Read(buf, pos, 32 * n);
    if r.Ok? && r.value == Join(roots) {
      JoinInjective(Chunks(r.value), roots);
    }
  }

  lemma EntryExact(buf: Bytes, pos: nat, before: seq<HistoryEntry>, e: HistoryEntry, end: nat)
    ensures Accepts(DecodeEntry(buf, pos, before), e, end, EntryOk(e), buf, pos, EncodeEntry(e))
  {
    hide Le, FromLe, Join, DecodeRoots, DecodeBlob, EncodeBlob, FromByte;
    var p4 := pos + 13 + 32 * |e.inputs|;
    ReadIntExact(buf, pos, 1, OpByte(e.op), pos + 1);
    ReadIntExact(buf, pos + 1, 8, e.timestampNs, pos + 9);
    ReadIntExact(buf, pos + 9, 4, |e.inputs|, pos + 13);
    RootsExact(buf, pos + 13, |e.inputs|, e.inputs, p4);
    BlobExact(0, PARAMS_MAX_BYTES, buf, p4, e.params, end);
    At5(buf, pos, Le(OpByte(e.op), 1), Le(e.timestampNs, 8), Le(|e.inputs|, 4), Join(e.inputs), EncodeBlob(e.params));
  }

  lemma HistoryExact(prechecks: bool, buf: Bytes, pos: nat, entries: seq<HistoryEntry>, end: nat)
    ensures Accepts(DecodeHistory(prechecks, buf, pos), entries, end, HistoryOk(entries), buf, pos, EncodeHistory(entries))
  {
    hide Le, FromLe, Counted, EncodeAll, DecodeEntry;
    forall b, p: nat, before, v, q: nat
      ensures Accepts(DecodeEntry(b, p, before), v, q, EntryAllowed(before, v), b, p, EncodeEntry(v))
    {
      EntryExact(b, p, before, v, q);
    }
    ReadIntExact(buf, pos, 1, SECTION_VERSION, pos + 1);
    ReadIntExact(buf, pos + 1, 4, |entries|, pos + 5);
    if pos + 5 <= |buf| {
      CountedExact(prechecks, MIN_ENTRY_LEN, DecodeEntry, EntryAllowed, EncodeEntry, buf, pos + 5, |entries|, entries, end);
    }
    At3(buf, pos, Le(SECTION_VERSION, 1), Le(|entries|, 4), EncodeAll(EncodeEntry, entries));
  }

  /** The chunking loop over the input roots. */
  method SplitRoots(b: Bytes) returns (roots: seq<Digest>)
    requires |b| % 32 == 0
    ensures roots == Chunks(b)
  {
    roots := [];
    assert Join(roots) == [];
    hide Join, Chunks;
    var chunkOffset := 0;
    while chunkOffset < |b|
      invariant chunkOffset == 32 * |roots| <= |b|
      invariant Join(roots) == b[..chunkOffset]
    {
      var chunk: Digest := b[chunkOffset..chunkOffset + 32];
      JoinAppend(roots, chunk);
      assert b[..chunkOffset + 32] == b[..chunkOffset] + chunk;
      roots := roots + [chunk];
      chunkOffset := chunkOffset + 32;
    }
    assert b[..chunkOffset] == b;
    JoinInjective(roots, Chunks(b));
  }

  method ParseHistoryEntry(c: Cursor, ghost before: seq<HistoryEntry>) returns (r: Result<HistoryEntry>)
    requires c.Valid()
    modifies c
    ensures c.Follows(r, DecodeEntry(c.buf, old(c.pos), before))
  {
    hide Le, FromLe, FromByte, Chunks;
    var opByte :- c.ReadU8();
    if opByte == OP_EXTENDED {
      return Failure(Unsupported);
    }
    var op := FromByte(opByte);
    if op.None? {
      return Failure(Unsupported);
    }
    var timestampNs :- c.ReadU64Le();
    var inputCount :- c.ReadU32Le();
    var inputsSize := inputCount * 32;
    if c.RemainingLen() < inputsSize {
      return Failure(Truncated);
    }
    var inputsBytes :- c.Read(inputsSize);
    var inputs := SplitRoots(inputsBytes);
    var paramsLen :- c.ReadU32Le();
    if paramsLen > PARAMS_MAX_BYTES {
      return Failure(Corrupt);
    }
    var params :- c.Read(paramsLen);
    return Success(HistoryEntry(op.value, timestampNs, inputs, params));
  }

  method ParseHistorySection(c: Cursor) returns (r: Result<seq<HistoryEntry>>)
    requires c.Valid()
    modifies c
    ensures c.Follows(r, DecodeHistory(true, c.buf, old(c.pos)))
  {
    hide Le, FromLe, DecodeEntry;
    var version :- c.ReadU8();
    if version != SECTION_VERSION {
      return Failure(Unsupported);
    }
    var count :- c.ReadU32Le();
    if count == 0 {
      return Failure(Corrupt);
    }
    if c.RemainingLen() < count * MIN_ENTRY_LEN {
      return Failure(Truncated);
    }
    ghost var start := c.pos;
    var entries: seq<HistoryEntry> := [];
    for i := 0 to count
      invariant c.Valid()
      invariant Many(DecodeEntry, c.buf, start, count, []) == Many(DecodeEntry, c.buf, c.pos, count - i, entries)
    {
      var entry :- ParseHistoryEntry(c, entries);
      entries := entries + [entry];
    }
    return Success(entries);
  }
}
