/** Reading a slab whose number of drops is nowhere stored, and the drops in it. */
module SlabReader {
  import opened Wire
  import opened Cursors
  import opened FormatTypes
  import opened Lookups
  import opened Codecs
  import opened SlabRecords
  import Outcomes
  import Layouts

  datatype SlabView = SlabView(bytes: Bytes, header: SlabHeader, dropRecords: seq<DropRecord>, solidWindowStart: nat)

  /** The bytes of window the records claim. */
  function WindowLen(rs: seq<DropRecord>): nat {
    if |rs| == 0 then 0 else rs[0].lenInWindow + WindowLen(rs[1..])
  }

  /** The record loop: it stops when what is left is exactly what the records so far claim. */
  function Walk(h: SlabHeader, buf: Bytes, pos: nat, claimed: nat, acc: seq<DropRecord>)
    : (r: Parsed<seq<DropRecord>>)
    ensures r.Ok? ==> acc <= r.value
    decreases h.totalLength - pos
  {
    var left := h.totalLength - pos;
    if left == claimed then Ok(acc, pos)
    else if left < claimed then Err(Corrupt)
    else if left - claimed < RECORD_LEN then Err(Corrupt)
    else
      var (r, next) :- DecodeRecord(h, buf, pos);
      Walk(h, buf, next, claimed + r.lenInWindow, acc + [r])
  }

  function DecodeSlab(buf: Bytes): Result<SlabView> {
    match DecodeSlabHeader(buf, 0)
    case Err(e) => Failure(e)
    case Ok(h, p1) =>
      if h.totalLength != |buf| then Failure(Corrupt) else
      match Walk(h, buf, p1, 0, [])
      case Err(e) => Failure(e)
      case Ok(records, start) => Success(SlabView(buf, h, records, start))
  }

  // ----- the boundary -----

  /** A header, `n` consistent records, and a window of exactly the claimed size. */
  ghost predicate SlabOk(buf: Bytes, h: SlabHeader, records: seq<DropRecord>) {
    && SlabHeaderOk(h) && h.totalLength == |buf|
    && At(buf, 0, EncodeSlabHeader(h))
    && (forall r :: r in records ==> RecordOk(h, r))
    && At(buf, HEADER_LEN, EncodeAll(EncodeRecord, records))
    && HEADER_LEN + RECORD_LEN * |records| + WindowLen(records) == |buf|
  }

  lemma {:induction false} RecordsWidth(rs: seq<DropRecord>)
    ensures |EncodeAll(EncodeRecord, rs)| == RECORD_LEN * |rs|
  {
    if |rs| != 0 {
      RecordsWidth(rs[1..]);
    }
  }

  lemma {:induction false} WalkSound(h: SlabHeader, buf: Bytes, pos: nat, claimed: nat, acc: seq<DropRecord>)
    requires pos <= |buf| && Walk(h, buf, pos, claimed, acc).Ok?
    ensures var w := Walk(h, buf, pos, claimed, acc);
            var rs := w.value[|acc|..];
            && (forall r :: r in rs ==> RecordOk(h, r))
            && At(buf, pos, EncodeAll(EncodeRecord, rs))
            && w.end == pos + RECORD_LEN * |rs|
            && h.totalLength - w.end == claimed + WindowLen(rs)
    decreases h.totalLength - pos
  {
    hide DecodeRecord, RecordOk, EncodeRecord;
    var w := Walk(h, buf, pos, claimed, acc);
    var rs := w.value[|acc|..];
    if h.totalLength - pos == claimed {
      assert rs == [];
    } else {
      var one := DecodeRecord(h, buf, pos);
      RecordExact(h, buf, pos, one.value, one.end);
      WalkSound(h, buf, one.end, claimed + one.value.lenInWindow, acc + [one.value]);
      var rest := w.value[|acc| + 1..];
      assert acc + [one.value] <= w.value && w.value[|acc|] == (acc + [one.value])[|acc|];
      assert rs[0] == one.value && rs[1..] == rest && rs == [one.value] + rest;
      At2(buf, pos, EncodeRecord(rs[0]), EncodeAll(EncodeRecord, rest));
    }
  }

  lemma {:induction false} WalkComplete(h: SlabHeader, buf: Bytes, pos: nat, claimed: nat, acc: seq<DropRecord>, rs: seq<DropRecord>)
    requires pos <= |buf| && forall r :: r in rs ==> RecordOk(h, r)
    requires At(buf, pos, EncodeAll(EncodeRecord, rs))
    requires h.totalLength == pos + RECORD_LEN * |rs| + claimed + WindowLen(rs)
    ensures Walk(h, buf, pos, claimed, acc) == Ok(acc + rs, pos + RECORD_LEN * |rs|)
    decreases |rs|
  {
    hide DecodeRecord, RecordOk, EncodeRecord;
    if |rs| == 0 {
      assert acc + rs == acc;
    } else {
      At2(buf, pos, EncodeRecord(rs[0]), EncodeAll(EncodeRecord, rs[1..]));
      RecordExact(h, buf, pos, rs[0], pos + RECORD_LEN);
      assert acc + rs == (acc + [rs[0]]) + rs[1..];
      WalkComplete(h, buf, pos + RECORD_LEN, claimed + rs[0].lenInWindow, acc + [rs[0]], rs[1..]);
    }
  }

  /** The inferred boundary is sound and complete: a slab is accepted with these records exactly
    * when header, records and claimed window fill it. */
  lemma SlabExact(buf: Bytes, h: SlabHeader, records: seq<DropRecord>)
    ensures DecodeSlab(buf) == Success(SlabView(buf, h, records, HEADER_LEN + RECORD_LEN * |records|))
       <==> SlabOk(buf, h, records)
  {
    hide DecodeSlabHeader, EncodeSlabHeader, SlabHeaderOk, RecordOk, EncodeRecord, Walk, WindowLen, EncodeAll;
    SlabHeaderExact(buf, 0, h, HEADER_LEN);
    if DecodeSlab(buf) == Success(SlabView(buf, h, records, HEADER_LEN + RECORD_LEN * |records|)) {
      var r := DecodeSlabHeader(buf, 0);
      SlabHeaderExact(buf, 0, h, r.end);
      WalkSound(h, buf, HEADER_LEN, 0, []);
      assert records[0..] == records;
    }
    if SlabOk(buf, h, records) {
      WalkComplete(h, buf, HEADER_LEN, 0, [], records);
      assert [] + records == records;
    }
  }

  /** An accepted slab is well-formed, and its window starts right after its records. */
  lemma AcceptedSlab(buf: Bytes)
    requires DecodeSlab(buf).Success?
    ensures var v := DecodeSlab(buf).value;
            && v.bytes == buf && v.solidWindowStart == HEADER_LEN + RECORD_LEN * |v.dropRecords|
            && SlabOk(buf, v.header, v.dropRecords)
            && |buf| - v.solidWindowStart == WindowLen(v.dropRecords)
  {
    hide DecodeSlabHeader, EncodeSlabHeader, SlabHeaderOk, RecordOk, EncodeRecord, Walk, WindowLen, EncodeAll;
    var v := DecodeSlab(buf).value;
    WalkSound(v.header, buf, HEADER_LEN, 0, []);
    assert v.dropRecords[0..] == v.dropRecords;
    SlabExact(buf, v.header, v.dropRecords);
  }

  /** No slab has two readings: not even with zero-length drops. */
  lemma BoundaryUnique(buf: Bytes, h: SlabHeader, records: seq<DropRecord>, h': SlabHeader, records': seq<DropRecord>)
    requires SlabOk(buf, h, records) && SlabOk(buf, h', records')
    ensures h == h' && records == records'
  {
    hide SlabOk, DecodeSlab;
    SlabExact(buf, h, records);
    SlabExact(buf, h', records');
  }

  lemma {:induction false} WalkErrors(h: SlabHeader, buf: Bytes, pos: nat, claimed: nat, acc: seq<DropRecord>)
    requires h.totalLength == |buf|
    ensures var w := Walk(h, buf, pos, claimed, acc); w.Ok? || w == Err(Corrupt)
    decreases h.totalLength - pos
  {
    hide RecordOk;
    if h.totalLength - pos - claimed >= RECORD_LEN {
      Outcomes.RecordPlain(h, buf, pos);
      var one := DecodeRecord(h, buf, pos);
      if one.Ok? {
        WalkErrors(h, buf, one.end, claimed + one.value.lenInWindow, acc + [one.value]);
      }
    }
  }

  /** A slab fails as its header does, and once the header is read only as corrupt: in
    * particular it is then never truncated, whatever the records claim. */
  lemma SlabErrors(buf: Bytes)
    ensures match DecodeSlabHeader(buf, 0)
            case Err(e) => DecodeSlab(buf) == Failure(e)
            case Ok(_, _) => DecodeSlab(buf).Success? || DecodeSlab(buf) == Failure(Corrupt)
  {
    hide DecodeSlabHeader;
    var h := DecodeSlabHeader(buf, 0);
    if h.Ok? && h.value.totalLength == |buf| {
      WalkErrors(h.value, buf, h.end, 0, []);
    }
  }

  /** Acceptance in numbers: a 56-byte header that states the length of the slab, 48-byte
    * records consistent with it, and a window of just the bytes they claim. */
  lemma SlabSpelledOut(buf: Bytes, h: SlabHeader, records: seq<DropRecord>)
    ensures DecodeSlab(buf) == Success(SlabView(buf, h, records, 56 + 48 * |records|))
       <==> && Layouts.SlabHeaderValid(h) && h.totalLength == |buf|
            && (forall r :: r in records ==> Layouts.RecordValid(h, r))
            && At(buf, 0, Layouts.SlabHeaderLayout(h) + EncodeAll(Layouts.RecordLayout, records))
            && 56 + 48 * |records| + WindowLen(records) == |buf|
  {
    hide DecodeSlab, EncodeSlabHeader, SlabHeaderOk, RecordOk, EncodeRecord, WindowLen, EncodeAll;
    hide Layouts.SlabHeaderValid, Layouts.SlabHeaderLayout, Layouts.RecordValid, Layouts.RecordLayout;
    SlabExact(buf, h, records);
    Layouts.SlabHeaderMatch(h);
    forall r | r in records
      ensures EncodeRecord(r) == Layouts.RecordLayout(r) && (RecordOk(h, r) <==> Layouts.RecordValid(h, r))
    {
      Layouts.RecordMatch(h, r);
    }
    Layouts.SameLayout(EncodeRecord, Layouts.RecordLayout, records);
    At2(buf, 0, EncodeSlabHeader(h), EncodeAll(EncodeRecord, records));
  }

  method ParseSlab(data: Bytes) returns (r: Result<SlabView>)
    ensures r == DecodeSlab(data)
  {
    hide DecodeSlabHeader, DecodeRecord;
    var cursor := new Cursor(data);
    var header :- ParseSlabHeader(cursor);
    if header.totalLength != |data| {
      return Failure(Corrupt);
    }
    ghost var start := cursor.pos;
    var dropRecords: seq<DropRecord> := [];
    var windowLenSum: nat := 0;
    while true
      invariant cursor.Valid()
      invariant Walk(header, data, start, 0, []) == Walk(header, data, cursor.pos, windowLenSum, dropRecords)
      decreases header.totalLength - cursor.pos
    {
      var cursorPos := cursor.pos;
      var remaining := header.totalLength - cursorPos;
      if remaining == windowLenSum {
        break;
      }
      if remaining < windowLenSum {
        return Failure(Corrupt);
      }
      var trailing := remaining - windowLenSum;
      if trailing < RECORD_LEN {
        return Failure(Corrupt);
      }
      var record :- ParseDropRecord(cursor, header);
      windowLenSum := windowLenSum + record.lenInWindow;
      dropRecords := dropRecords + [record];
    }
    return Success(SlabView(data, header, dropRecords, cursor.pos));
  }

  // ----- reading drops -----

  /** What `plaintext_for` returns: the plaintext, no such drop, or why it cannot be read. */
  datatype Plaintext = Found(plaintext: Bytes) | Absent | Refused(error: Error)

  function DropKey(r: DropRecord): Digest {
    r.dropId
  }

  function PlaintextOf(lz4: Lz4, v: SlabView, dropId: Digest): Plaintext {
    match Lookup(DropKey, v.dropRecords, dropId)
    case None => Absent
    case Some(r) =>
      if r.representation.aead != 0 then Refused(Unsupported)
      else if r.solidWindowIndex != 0 then Refused(Unsupported)
      else
        var start := v.solidWindowStart + r.offsetInWindow;
        var end := start + r.lenInWindow;
        if end > |v.bytes| then Refused(Corrupt) else
          match Decompress(lz4, r.representation.codec, v.bytes[start..end], r.plaintextLen)
          case Success(b) => Found(b)
          case Failure(e) => Refused(e)
  }

  /** Every outcome, from the fields of the first record with the id alone. A sealed drop or
    * another window is unsupported, before anything else; then a range past the slab is corrupt;
    * then the codec decides: 0 hands out the range if it has the promised length, 1 skips the
    * range's first four bytes and asks the LZ4 library, any other is unsupported. */
  lemma PlaintextOutcomes(lz4: Lz4, v: SlabView, dropId: Digest, i: nat)
    requires i < |v.dropRecords| && v.dropRecords[i].dropId == dropId
    requires forall j :: 0 <= j < i ==> v.dropRecords[j].dropId != dropId
    ensures var r := v.dropRecords[i];
            var start := v.solidWindowStart + r.offsetInWindow;
            var p := PlaintextOf(lz4, v, dropId);
            if r.representation.aead != 0 || r.solidWindowIndex != 0 then p == Refused(Unsupported)
            else if start + r.lenInWindow > |v.bytes| then p == Refused(Corrupt)
            else if r.representation.codec == 0 then
              p == if r.lenInWindow == r.plaintextLen then Found(v.bytes[start..start + r.lenInWindow]) else Refused(Corrupt)
            else if r.representation.codec == 1 then
              if r.lenInWindow < 4 then p == Refused(Corrupt)
              else var block := lz4.decompress(v.bytes[start + 4..start + r.lenInWindow], r.plaintextLen);
                p == if block.Some? && |block.value| == r.plaintextLen then Found(block.value) else Refused(Corrupt)
            else p == Refused(Unsupported)
  {
    hide Lookup, Seen;
    FirstRecord(v, dropId, i);
    var r := v.dropRecords[i];
    var start := v.solidWindowStart + r.offsetInWindow;
    if 4 <= r.lenInWindow && start + r.lenInWindow <= |v.bytes| {
      assert v.bytes[start..start + r.lenInWindow][4..] == v.bytes[start + 4..start + r.lenInWindow];
    }
  }

  lemma FirstRecord(v: SlabView, dropId: Digest, i: nat)
    requires i < |v.dropRecords| && v.dropRecords[i].dropId == dropId
    requires forall j :: 0 <= j < i ==> v.dropRecords[j].dropId != dropId
    ensures Lookup(DropKey, v.dropRecords, dropId) == Some(v.dropRecords[i])
  {
    hide Lookup, Seen;
    LookupFirst(DropKey, v.dropRecords, dropId);
    assert FirstAt(DropKey, v.dropRecords, dropId, i);
  }

  /** Without such a record there is nothing. */
  lemma PlaintextAbsent(lz4: Lz4, v: SlabView, dropId: Digest)
    ensures PlaintextOf(lz4, v, dropId) == Absent <==> forall r :: r in v.dropRecords ==> r.dropId != dropId
  {
    hide Lookup, Seen, Decompress;
    LookupFirst(DropKey, v.dropRecords, dropId);
    assert forall r :: r in v.dropRecords ==> DropKey(r) == r.dropId;
  }

  method FindRecord(v: SlabView, dropId: Digest) returns (r: Option<DropRecord>)
    ensures r == Lookup(DropKey, v.dropRecords, dropId)
    ensures r.Some? ==> r.value in v.dropRecords && r.value.dropId == dropId
    ensures r.None? ==> forall d :: d in v.dropRecords ==> d.dropId != dropId
    ensures forall i: nat :: FirstAt(DropKey, v.dropRecords, dropId, i) ==> r == Some(v.dropRecords[i])
  {
    hide FirstAt, Seen;
    LookupFirst(DropKey, v.dropRecords, dropId);
    assert forall d :: d in v.dropRecords ==> DropKey(d) == d.dropId;
    for i := 0 to |v.dropRecords|
      invariant Lookup(DropKey, v.dropRecords, dropId) == Lookup(DropKey, v.dropRecords[i..], dropId)
    {
      if v.dropRecords[i].dropId == dropId {
        return Some(v.dropRecords[i]);
      }
    }
    return None;
  }

  method PlaintextFor(lz4: Lz4, v: SlabView, dropId: Digest) returns (p: Plaintext)
    ensures p == PlaintextOf(lz4, v, dropId)
  {
    var found := FindRecord(v, dropId);
    if found.None? {
      return Absent;
    }
    var record := found.value;
    if record.representation.aead != 0x00 {
      return Refused(Unsupported);
    }
    if record.solidWindowIndex != 0 {
      return Refused(Unsupported);
    }
    var start := v.solidWindowStart + record.offsetInWindow;
    var end := start + record.lenInWindow;
    if end > |v.bytes| {
      return Refused(Corrupt);
    }
    var plaintext := Decompress(lz4, record.representation.codec, v.bytes[start..end], record.plaintextLen);
    if plaintext.Failure? {
      return Refused(plaintext.error);
    }
    return Found(plaintext.value);
  }

  // ----- writing and reading back -----

  /** A drop to be written: its id, its codec and its contents. */
  datatype Drop = Drop(id: Digest, codec: u8, plaintext: Bytes)

  function DropId(d: Drop): Digest {
    d.id
  }

  /** What is stored for a drop: its contents as the codec leaves them, or nothing if it fails. */
  function Stored(lz4: Lz4, d: Drop): Bytes {
    var c := Compress(lz4, d.codec, d.plaintext);
    if c.Block? then c.bytes else []
  }

  function Window(lz4: Lz4, drops: seq<Drop>): Bytes {
    if |drops| == 0 then [] else Stored(lz4, drops[0]) + Window(lz4, drops[1..])
  }

  /** The record of a drop stored at `offset`: plaintext, no erasure coding, first window. */
  function RecordOf(lz4: Lz4, d: Drop, offset: nat): DropRecord {
    DropRecord(d.id, |d.plaintext|, Representation(d.codec, 0, 0), 0, offset, |Stored(lz4, d)|)
  }

  /** Records with cumulative offsets. */
  function RecordsOf(lz4: Lz4, drops: seq<Drop>, offset: nat): (rs: seq<DropRecord>)
    ensures |rs| == |drops|
  {
    if |drops| == 0 then [] else
      [RecordOf(lz4, drops[0], offset)] + RecordsOf(lz4, drops[1..], offset + |Stored(lz4, drops[0])|)
  }

  function SlabSize(lz4: Lz4, drops: seq<Drop>): nat {
    HEADER_LEN + RECORD_LEN * |drops| + |Window(lz4, drops)|
  }

  function HeaderFor(lz4: Lz4, slabId: SlabId, drops: seq<Drop>): SlabHeader {
    SlabHeader(FORMAT_VERSION, slabId, SlabSize(lz4, drops), 0, 0)
  }

  /** Header, records, then the stored drops end to end. */
  function WriteSlab(lz4: Lz4, slabId: SlabId, drops: seq<Drop>): Bytes {
    EncodeSlabHeader(HeaderFor(lz4, slabId, drops)) + EncodeAll(EncodeRecord, RecordsOf(lz4, drops, 0))
    + Window(lz4, drops)
  }

  lemma {:induction false} RecordsClaimWindow(lz4: Lz4, drops: seq<Drop>, offset: nat)
    ensures WindowLen(RecordsOf(lz4, drops, offset)) == |Window(lz4, drops)|
  {
    hide Stored;
    if |drops| != 0 {
      var tail := offset + |Stored(lz4, drops[0])|;
      RecordsClaimWindow(lz4, drops[1..], tail);
      assert RecordsOf(lz4, drops, offset)[1..] == RecordsOf(lz4, drops[1..], tail);
    }
  }

  /** Record `i` describes drop `i`, at an offset that leaves its bytes inside the window. */
  lemma {:induction false} RecordAt(lz4: Lz4, drops: seq<Drop>, offset: nat, i: nat) returns (place: nat)
    requires i < |drops|
    ensures RecordsOf(lz4, drops, offset)[i] == RecordOf(lz4, drops[i], place)
    ensures place + |Stored(lz4, drops[i])| <= offset + |Window(lz4, drops)|
  {
    hide Stored;
    if i == 0 {
      place := offset;
    } else {
      var tail := offset + |Stored(lz4, drops[0])|;
      place := RecordAt(lz4, drops[1..], tail, i - 1);
      assert RecordsOf(lz4, drops, offset)[i] == RecordsOf(lz4, drops[1..], tail)[i - 1];
    }
  }

  lemma RecordsConsistent(lz4: Lz4, h: SlabHeader, drops: seq<Drop>)
    requires h.cryptoHint == 0 && h.ecDescriptor == 0 && |Window(lz4, drops)| <= SLAB_MAX_BYTES
    ensures (forall i :: 0 <= i < |drops| ==> RecordOk(h, RecordsOf(lz4, drops, 0)[i]))
       <==> (forall i :: 0 <= i < |drops| ==> |drops[i].plaintext| <= PLAINTEXT_MAX_BYTES)
  {
    hide Stored, Window, RecordsOf;
    forall i | 0 <= i < |drops|
      ensures RecordOk(h, RecordsOf(lz4, drops, 0)[i]) <==> |drops[i].plaintext| <= PLAINTEXT_MAX_BYTES
    {
      var place := RecordAt(lz4, drops, 0, i);
    }
  }

  /** The slab that was written is read back, record for record, exactly when it and each of its
    * drops keep the ceilings. */
  lemma WrittenSlabParses(lz4: Lz4, slabId: SlabId, drops: seq<Drop>)
    ensures var slab := WriteSlab(lz4, slabId, drops);
            DecodeSlab(slab) == Success(SlabView(slab, HeaderFor(lz4, slabId, drops), RecordsOf(lz4, drops, 0),
                                                 HEADER_LEN + RECORD_LEN * |drops|))
            <==> SlabSize(lz4, drops) <= SLAB_MAX_BYTES
                 && forall d :: d in drops ==> |d.plaintext| <= PLAINTEXT_MAX_BYTES
  {
    hide Stored, DecodeSlab, EncodeSlabHeader, RecordOk, EncodeRecord, Window, RecordsOf;
    var slab, h, rs := WriteSlab(lz4, slabId, drops), HeaderFor(lz4, slabId, drops), RecordsOf(lz4, drops, 0);
    SlabExact(slab, h, rs);
    RecordsWidth(rs);
    At3(slab, 0, EncodeSlabHeader(h), EncodeAll(EncodeRecord, rs), Window(lz4, drops));
    assert At(slab, 0, slab);
    if SlabSize(lz4, drops) <= SLAB_MAX_BYTES {
      RecordsClaimWindow(lz4, drops, 0);
      RecordsConsistent(lz4, h, drops);
    }
  }

  /** Looking a drop up finds the record of the drop a search of the list would find, and the
    * bytes it points at are what was stored for it. */
  lemma {:induction false} FindWritten(lz4: Lz4, drops: seq<Drop>, id: Digest, before: Bytes, buf: Bytes, base: nat)
    requires At(buf, base, before + Window(lz4, drops))
    ensures FoundAs(lz4, Lookup(DropId, drops, id), Lookup(DropKey, RecordsOf(lz4, drops, |before|), id), buf, base)
    decreases |drops|
  {
    hide Stored, Lookup, At, FoundAs;
    var rs := RecordsOf(lz4, drops, |before|);
    LookupHead(DropId, drops, id);
    LookupHead(DropKey, rs, id);
    if |drops| == 0 {
      NothingFound(lz4, buf, base);
    } else {
      var one := Stored(lz4, drops[0]);
      Assoc(before, one, Window(lz4, drops[1..]));
      At3(buf, base, before, one, Window(lz4, drops[1..]));
      if drops[0].id == id {
        HeadFound(lz4, drops[0], |before|, buf, base);
      } else {
        assert rs[1..] == RecordsOf(lz4, drops[1..], |before + one|);
        FindWritten(lz4, drops[1..], id, before + one, buf, base);
      }
    }
  }

  /** A record was found for exactly the drop that was found, and points at what it stored. */
  ghost predicate FoundAs(lz4: Lz4, d: Option<Drop>, r: Option<DropRecord>, buf: Bytes, base: nat) {
    match d
    case None => r == None
    case Some(d) =>
      && r.Some? && r.value == RecordOf(lz4, d, r.value.offsetInWindow)
      && At(buf, base + r.value.offsetInWindow, Stored(lz4, d))
  }

  lemma NothingFound(lz4: Lz4, buf: Bytes, base: nat)
    ensures FoundAs(lz4, None, None, buf, base)
  {
  }

  lemma HeadFound(lz4: Lz4, d: Drop, offset: nat, buf: Bytes, base: nat)
    requires At(buf, base + offset, Stored(lz4, d))
    ensures FoundAs(lz4, Some(d), Some(RecordOf(lz4, d, offset)), buf, base)
  {
  }

  lemma LookupHead<T, K>(key: T -> K, vs: seq<T>, k: K)
    ensures Lookup(key, vs, k) ==
            if |vs| == 0 then None else if key(vs[0]) == k then Some(vs[0]) else Lookup(key, vs[1..], k)
  {
  }

  lemma WindowPlace(lz4: Lz4, slabId: SlabId, drops: seq<Drop>)
    ensures At(WriteSlab(lz4, slabId, drops), HEADER_LEN + RECORD_LEN * |drops|, Window(lz4, drops))
  {
    hide EncodeSlabHeader, EncodeRecord, Window, RecordsOf;
    var slab, rs := WriteSlab(lz4, slabId, drops), EncodeAll(EncodeRecord, RecordsOf(lz4, drops, 0));
    RecordsWidth(RecordsOf(lz4, drops, 0));
    At3(slab, 0, EncodeSlabHeader(HeaderFor(lz4, slabId, drops)), rs, Window(lz4, drops));
    assert At(slab, 0, slab);
  }

  lemma StoredReadsBack(lz4: Lz4, v: SlabView, d: Drop, offset: nat)
    requires |d.plaintext| <= PLAINTEXT_MAX_BYTES
    requires d.codec == STORE || (d.codec == LZ4 && BlockInverts(lz4, d.plaintext))
    requires Lookup(DropKey, v.dropRecords, d.id) == Some(RecordOf(lz4, d, offset))
    requires At(v.bytes, v.solidWindowStart + offset, Stored(lz4, d))
    ensures PlaintextOf(lz4, v, d.id) == Found(d.plaintext)
  {
    hide Lookup, Compress, Decompress;
    CodecRoundTrip(lz4, d.codec, d.plaintext);
  }

  /** Every drop reads back as it was written: `plaintext_for` on a written slab is a search of
    * the list of drops, for store drops always and for LZ4 drops whose block the library inverts. */
  lemma WriteThenRead(lz4: Lz4, slabId: SlabId, drops: seq<Drop>, id: Digest)
    requires SlabSize(lz4, drops) <= SLAB_MAX_BYTES
    requires forall d :: d in drops ==>
               |d.plaintext| <= PLAINTEXT_MAX_BYTES
               && (d.codec == STORE || (d.codec == LZ4 && BlockInverts(lz4, d.plaintext)))
    ensures var v := DecodeSlab(WriteSlab(lz4, slabId, drops));
            && v.Success?
            && PlaintextOf(lz4, v.value, id) ==
               match Lookup(DropId, drops, id)
               case None => Absent
               case Some(d) => Found(d.plaintext)
  {
    hide DecodeSlab, WriteSlab, Window, RecordsOf, Stored, BlockInverts;
    var base := HEADER_LEN + RECORD_LEN * |drops|;
    WrittenSlabParses(lz4, slabId, drops);
    var v := DecodeSlab(WriteSlab(lz4, slabId, drops)).value;
    WindowPlace(lz4, slabId, drops);
    assert [] + Window(lz4, drops) == Window(lz4, drops);
    FindWritten(lz4, drops, id, [], v.bytes, base);
    var found := Lookup(DropId, drops, id);
    if found.Some? {
      StoredReadsBack(lz4, v, found.value, Lookup(DropKey, v.dropRecords, id).value.offsetInWindow);
    }
  }

  /** With distinct ids, each drop is returned under its own id. */
  lemma EachDropReadsBack(lz4: Lz4, slabId: SlabId, drops: seq<Drop>, d: Drop)
    requires SlabSize(lz4, drops) <= SLAB_MAX_BYTES && Distinct(DropId, drops) && d in drops
    requires forall x :: x in drops ==>
               |x.plaintext| <= PLAINTEXT_MAX_BYTES
               && (x.codec == STORE || (x.codec == LZ4 && BlockInverts(lz4, x.plaintext)))
    ensures var v := DecodeSlab(WriteSlab(lz4, slabId, drops));
            v.Success? && PlaintextOf(lz4, v.value, d.id) == Found(d.plaintext)
  {
    hide DecodeSlab, WriteSlab, PlaintextOf, Lookup, SlabSize;
    WriteThenRead(lz4, slabId, drops, d.id);
    LookupDistinct(DropId, drops, d);
  }
}
