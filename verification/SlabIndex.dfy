/** The slab index section: where each slab can be fetched. */
module SlabIndexes {
  import opened Wire
  import opened Cursors
  import opened Utf8
  import opened FormatTypes
  import opened Lookups
  import opened Locators

  const SECTION_VERSION := 1
  const ENTRY_FIXED_LEN := 44

  datatype SlabIndexEntry = SlabIndexEntry(slabId: SlabId, locators: seq<Text>)

  function EntryId(e: SlabIndexEntry): SlabId {
    e.slabId
  }

  /** Reachable, and the first entry of its slab. */
  ghost predicate EntryOk(chars: Charset, before: seq<SlabIndexEntry>, e: SlabIndexEntry) {
    && !Seen(EntryId, before, e.slabId)
    && 1 <= |e.locators| && Fits(|e.locators|, 4) && LocatorsOk(chars, e.locators)
  }

  ghost function EntryAllowed(chars: Charset): (seq<SlabIndexEntry>, SlabIndexEntry) -> bool {
    (before, e) => EntryOk(chars, before, e)
  }

  ghost predicate SlabIndexOk(chars: Charset, entries: seq<SlabIndexEntry>) {
    Fits(|entries|, 4) && Allowed(EntryAllowed(chars), entries, 0)
  }

  function EncodeEntry(e: SlabIndexEntry): (b: Bytes)
    ensures |b| >= ENTRY_FIXED_LEN
  {
    EncodeSlabId(e.slabId) + Le(|e.locators|, 4) + EncodeLocators(e.locators)
  }

  function EncodeSlabIndex(entries: seq<SlabIndexEntry>): (b: Bytes)
    ensures |b| != 0
  {
    Le(SECTION_VERSION, 1) + Le(|entries|, 4) + EncodeAll(EncodeEntry, entries)
  }

  function DecodeEntry(rd: Reader, buf: Bytes, pos: nat, before: seq<SlabIndexEntry>): Parsed<SlabIndexEntry> {
    var (slabId, p1) :- DecodeSlabId(buf, pos);
    if Seen(EntryId, before, slabId) then Err(Corrupt) else
    var (count, p2) :- ReadInt(buf, p1, 4);
    if count == 0 then Err(Corrupt) else
    var (locators, p3) :- DecodeLocators(rd, buf, p2, count);
    Ok(SlabIndexEntry(slabId, locators), p3)
  }

  function EntryStep(rd: Reader): Step<SlabIndexEntry> {
    (buf: Bytes, pos: nat, before) => DecodeEntry(rd, buf, pos, before)
  }

  function DecodeSlabIndex(rd: Reader, buf: Bytes, pos: nat): Parsed<seq<SlabIndexEntry>> {
    var (version, p1) :- ReadInt(buf, pos, 1);
    if version != SECTION_VERSION then Err(Unsupported) else
    var (count, p2) :- ReadInt(buf, p1, 4);
    Counted(rd.prechecks, ENTRY_FIXED_LEN, EntryStep(rd), buf, p2, count)
  }

  lemma EntryExact(rd: Reader, buf: Bytes, pos: nat, before: seq<SlabIndexEntry>, e: SlabIndexEntry, end: nat)
    ensures Accepts(DecodeEntry(rd, buf, pos, before), e, end,
                    EntryOk(rd.chars, before, e), buf, pos, EncodeEntry(e))
  {
    hide DecodeLocators, EncodeLocators, LocatorsOk, DecodeSlabId, EncodeSlabId, Seen, Le, FromLe;
    SlabIdExact(buf, pos, e.slabId, pos + 40);
    ReadIntExact(buf, pos + 40, 4, |e.locators|, pos + 44);
    if pos + 44 <= |buf| {
      LocatorsExact(rd, buf, pos + 44, |e.locators|, e.locators, end);
    }
    At3(buf, pos, EncodeSlabId(e.slabId), Le(|e.locators|, 4), EncodeLocators(e.locators));
  }

  lemma SlabIndexExact(rd: Reader, buf: Bytes, pos: nat, entries: seq<SlabIndexEntry>, end: nat)
    ensures Accepts(DecodeSlabIndex(rd, buf, pos), entries, end,
                    SlabIndexOk(rd.chars, entries), buf, pos, EncodeSlabIndex(entries))
  {
    hide Counted, DecodeEntry, EncodeAll, Le, FromLe;
    var step, ok := EntryStep(rd), EntryAllowed(rd.chars);
    forall b, p: nat, before, v, e: nat
      ensures Accepts(step(b, p, before), v, e, ok(before, v), b, p, EncodeEntry(v))
    {
      EntryExact(rd, b, p, before, v, e);
    }
    ReadIntExact(buf, pos, 1, SECTION_VERSION, pos + 1);
    ReadIntExact(buf, pos + 1, 4, |entries|, pos + 5);
    if pos + 5 <= |buf| {
      CountedExact(rd.prechecks, ENTRY_FIXED_LEN, step, ok, EncodeEntry, buf, pos + 5, |entries|, entries, end);
    }
    At3(buf, pos, Le(SECTION_VERSION, 1), Le(|entries|, 4), EncodeAll(EncodeEntry, entries));
  }

  method ParseSlabIndexSection(chars: Charset, c: Cursor) returns (r: Result<seq<SlabIndexEntry>>)
    requires c.Valid()
    modifies c
    ensures c.Follows(r, DecodeSlabIndex(Reader(chars, true), c.buf, old(c.pos)))
  {
    hide DecodeLocators, Le, FromLe, Seen;
    var version :- c.ReadU8();
    if version != SECTION_VERSION {
      return Failure(Unsupported);
    }
    var count :- c.ReadU32Le();
    if c.RemainingLen() < count * ENTRY_FIXED_LEN {
      return Failure(Truncated);
    }
    ghost var step, start := EntryStep(Reader(chars, true)), c.pos;
    var entries: seq<SlabIndexEntry> := [];
    var seen: set<SlabId> := {};
    SeenNothing(EntryId);
    for i := 0 to count
      invariant c.Valid()
      invariant forall id :: id in seen <==> Seen(EntryId, entries, id)
      invariant Many(step, c.buf, start, count, []) == Many(step, c.buf, c.pos, count - i, entries)
    {
      var ordinal :- c.ReadU64Le();
      var hash :- c.Read(32);
      var slabId := SlabId(ordinal, hash);
      if slabId in seen {
        return Failure(Corrupt);
      }
      seen := seen + {slabId};
      var locatorCount :- c.ReadU32Le();
      if locatorCount == 0 {
        return Failure(Corrupt);
      }
      var locators :- ParseLocatorEntries(chars, c, locatorCount);
      SeenAppend(EntryId, entries, SlabIndexEntry(slabId, locators));
      entries := entries + [SlabIndexEntry(slabId, locators)];
    }
    return Success(entries);
  }

  /** `SlabIndex.find`. */
  method Find(entries: seq<SlabIndexEntry>, slabId: SlabId) returns (r: Option<SlabIndexEntry>)
    ensures r == Lookup(EntryId, entries, slabId)
    ensures r.Some? ==> r.value in entries && r.value.slabId == slabId
    ensures r.None? ==> forall e :: e in entries ==> e.slabId != slabId
    ensures forall i: nat :: FirstAt(EntryId, entries, slabId, i) ==> r == Some(entries[i])
  {
    hide FirstAt, Seen;
    LookupFirst(EntryId, entries, slabId);
    assert forall e :: e in entries ==> EntryId(e) == e.slabId;
    for i := 0 to |entries|
      invariant Lookup(EntryId, entries, slabId) == Lookup(EntryId, entries[i..], slabId)
    {
      if entries[i].slabId == slabId {
        return Some(entries[i]);
      }
    }
    return None;
  }

  /** In an accepted section the slab ids are pairwise distinct, so `find` finds each entry. */
  lemma EntryLookup(chars: Charset, entries: seq<SlabIndexEntry>, e: SlabIndexEntry)
    requires SlabIndexOk(chars, entries) && e in entries
    ensures Distinct(EntryId, entries) && Lookup(EntryId, entries, e.slabId) == Some(e)
  {
    var ok := EntryAllowed(chars);
    assert forall i :: 0 <= i < |entries| ==> ok(entries[..i], entries[i]);
    FreshIsDistinct(EntryId, entries);
    LookupDistinct(EntryId, entries, e);
  }
}
