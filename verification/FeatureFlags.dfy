/** The feature flags section: which optional sections exist. */
module FeatureFlags {
  import opened Wire
  import opened Cursors
  import opened Lookups

  const SECTION_VERSION := 1
  const ENTRY_LEN := 3

  datatype FeatureFlag = FeatureFlag(flagId: int, required: bool)

  function FlagId(f: FeatureFlag): int {
    f.flagId
  }

  predicate Declares(flags: seq<FeatureFlag>, flagId: int) {
    Seen(FlagId, flags, flagId)
  }

  predicate FlagAllowed(before: seq<FeatureFlag>, f: FeatureFlag) {
    f.flagId != 0 && Fits(f.flagId, 2) && !Declares(before, f.flagId)
  }

  ghost predicate FlagsOk(flags: seq<FeatureFlag>) {
    Fits(|flags|, 4) && Allowed(FlagAllowed, flags, 0)
  }

  function EncodeFlag(f: FeatureFlag): (b: Bytes)
    ensures |b| == ENTRY_LEN
  {
    Le(f.flagId, 2) + Le(if f.required then 1 else 0, 1)
  }

  function EncodeFlags(flags: seq<FeatureFlag>): (b: Bytes)
    ensures |b| != 0
  {
    Le(SECTION_VERSION, 1) + Le(|flags|, 4) + EncodeAll(EncodeFlag, flags)
  }

  function DecodeFlag(buf: Bytes, pos: nat, before: seq<FeatureFlag>): Parsed<FeatureFlag> {
    var (flagId, p1) :- ReadInt(buf, pos, 2);
    if flagId == 0 then Err(Corrupt) else
    var (required, p2) :- ReadInt(buf, p1, 1);
    if required != 0 && required != 1 then Err(Corrupt)
    else if Declares(before, flagId) then Err(Corrupt)
    else Ok(FeatureFlag(flagId, required == 1), p2)
  }

  function DecodeFlags(prechecks: bool, buf: Bytes, pos: nat): Parsed<seq<FeatureFlag>> {
    var (version, p1) :- ReadInt(buf, pos, 1);
    if version != SECTION_VERSION then Err(Unsupported) else
    var (count, p2) :- ReadInt(buf, p1, 4);
    Counted(prechecks, ENTRY_LEN, DecodeFlag, buf, p2, count)
  }

  lemma FlagExact(buf: Bytes, pos: nat, before: seq<FeatureFlag>, f: FeatureFlag, end: nat)
    ensures Accepts(DecodeFlag(buf, pos, before), f, end, FlagAllowed(before, f), buf, pos, EncodeFlag(f))
  {
    hide Le, FromLe, Seen;
    var required := if f.required then 1 else 0;
    ReadIntExact(buf, pos, 2, f.flagId, pos + 2);
    ReadIntExact(buf, pos + 2, 1, required, end);
    At2(buf, pos, Le(f.flagId, 2), Le(required, 1));
  }

  lemma FlagsExact(prechecks: bool, buf: Bytes, pos: nat, flags: seq<FeatureFlag>, end: nat)
    ensures Accepts(DecodeFlags(prechecks, buf, pos), flags, end, FlagsOk(flags), buf, pos, EncodeFlags(flags))
  {
    hide Le, FromLe, Counted, EncodeAll, DecodeFlag, FlagAllowed;
    forall b, p: nat, before, f, e: nat
      ensures Accepts(DecodeFlag(b, p, before), f, e, FlagAllowed(before, f), b, p, EncodeFlag(f))
    {
      FlagExact(b, p, before, f, e);
    }
    ReadIntExact(buf, pos, 1, SECTION_VERSION, pos + 1);
    ReadIntExact(buf, pos + 1, 4, |flags|, pos + 5);
    if pos + 5 <= |buf| {
      CountedExact(prechecks, ENTRY_LEN, DecodeFlag, FlagAllowed, EncodeFlag, buf, pos + 5, |flags|, flags, end);
    }
    At3(buf, pos, Le(SECTION_VERSION, 1), Le(|flags|, 4), EncodeAll(EncodeFlag, flags));
  }

  method ParseFeatureFlagsSection(c: Cursor) returns (r: Result<seq<FeatureFlag>>)
    requires c.Valid()
    modifies c
    ensures c.Follows(r, DecodeFlags(true, c.buf, old(c.pos)))
  {
    hide Le, FromLe, Seen;
    var version :- c.ReadU8();
    if version != SECTION_VERSION {
      return Failure(Unsupported);
    }
    var count :- c.ReadU32Le();
    if c.RemainingLen() < count * ENTRY_LEN {
      return Failure(Truncated);
    }
    ghost var start := c.pos;
    var entries: seq<FeatureFlag> := [];
    var seen: set<int> := {};
    SeenNothing(FlagId);
    for i := 0 to count
      invariant c.Valid()
      invariant forall id :: id in seen <==> Declares(entries, id)
      invariant Many(DecodeFlag, c.buf, start, count, []) == Many(DecodeFlag, c.buf, c.pos, count - i, entries)
    {
      var flagId :- c.ReadU16Le();
      if flagId == 0 {
        return Failure(Corrupt);
      }
      var requiredByte :- c.ReadU8();
      var required;
      if requiredByte == 0x00 {
        required := false;
      } else if requiredByte == 0x01 {
        required := true;
      } else {
        return Failure(Corrupt);
      }
      if flagId in seen {
        return Failure(Corrupt);
      }
      SeenAppend(FlagId, entries, FeatureFlag(flagId, required));
      seen := seen + {flagId};
      entries := entries + [FeatureFlag(flagId, required)];
    }
    return Success(entries);
  }

  /** `FeatureFlags.get`. */
  method Get(flags: seq<FeatureFlag>, flagId: int) returns (r: Option<FeatureFlag>)
    ensures r == Lookup(FlagId, flags, flagId)
    ensures r.Some? <==> Declares(flags, flagId)
    ensures r.Some? ==> r.value in flags && r.value.flagId == flagId
    ensures r.None? ==> forall f :: f in flags ==> f.flagId != flagId
    ensures forall i: nat :: FirstAt(FlagId, flags, flagId, i) ==> r == Some(flags[i])
  {
    hide FirstAt;
    LookupFirst(FlagId, flags, flagId);
    assert forall f :: f in flags ==> FlagId(f) == f.flagId;
    for i := 0 to |flags|
      invariant Lookup(FlagId, flags, flagId) == Lookup(FlagId, flags[i..], flagId)
    {
      if flags[i].flagId == flagId {
        return Some(flags[i]);
      }
    }
    return None;
  }

  /** In an accepted section the flag ids are pairwise distinct, so `get` finds each entry. */
  lemma FlagLookup(flags: seq<FeatureFlag>, f: FeatureFlag)
    requires FlagsOk(flags) && f in flags
    ensures Distinct(FlagId, flags) && Lookup(FlagId, flags, f.flagId) == Some(f)
  {
    FreshIsDistinct(FlagId, flags);
    LookupDistinct(FlagId, flags, f);
  }

  lemma {:induction false} EntriesNeverUnsupported(buf: Bytes, pos: nat, n: nat, acc: seq<FeatureFlag>)
    ensures Many(DecodeFlag, buf, pos, n, acc) != Err(Unsupported)
    decreases n
  {
    if n != 0 && DecodeFlag(buf, pos, acc).Ok? {
      var one := DecodeFlag(buf, pos, acc);
      EntriesNeverUnsupported(buf, one.end, n - 1, acc + [one.value]);
    }
  }

  /** The section is refused as unsupported exactly for its layout version: no declared flag,
    * required and unknown to the reader or not, has that effect. */
  lemma UnsupportedOnlyByVersion(prechecks: bool, buf: Bytes, pos: nat)
    ensures DecodeFlags(prechecks, buf, pos) == Err(Unsupported)
       <==> pos < |buf| && buf[pos] != SECTION_VERSION
  {
    hide DecodeFlag;
    if pos < |buf| {
      assert buf[pos..pos + 1] == [buf[pos]];
      assert FromLe([buf[pos]]) == buf[pos];
      var count := ReadInt(buf, pos + 1, 4);
      if count.Ok? {
        EntriesNeverUnsupported(buf, count.end, count.value, []);
      }
    }
  }

  /** A required flag that means nothing to the reader is accepted: no value of id and required
    * byte is refused for being unknown, and here is one spelled out. */
  lemma RequiredUnknownAccepted()
    ensures forall id :: 0 < id < 0x1_0000 ==>
              var flags := [FeatureFlag(id, true)];
              DecodeFlags(true, EncodeFlags(flags), 0) == Ok(flags, 8)
    ensures DecodeFlags(true, [1, 1, 0, 0, 0, 0x34, 0x12, 1], 0) == Ok([FeatureFlag(0x1234, true)], 8)
  {
    hide DecodeFlags, Le;
    forall id | 0 < id < 0x1_0000
      ensures DecodeFlags(true, EncodeFlags([FeatureFlag(id, true)]), 0) == Ok([FeatureFlag(id, true)], 8)
    {
      OneFlagAccepted(FeatureFlag(id, true));
    }
    OneFlagAccepted(FeatureFlag(0x1234, true));
    UnknownFlagBytes();
  }

  lemma OneFlagAccepted(f: FeatureFlag)
    requires 0 < f.flagId < 0x1_0000
    ensures DecodeFlags(true, EncodeFlags([f]), 0) == Ok([f], 8)
  {
    hide DecodeFlags, Le;
    assert EncodeAll(EncodeFlag, [f]) == EncodeFlag(f);
    FlagsExact(true, EncodeFlags([f]), 0, [f], 8);
  }

  lemma UnknownFlagBytes()
    ensures EncodeFlags([FeatureFlag(0x1234, true)]) == [1, 1, 0, 0, 0, 0x34, 0x12, 1]
  {
    assert Le(1, 1) == [1] && Le(1, 4) == [1, 0, 0, 0] && Le(0x1234, 2) == [0x34, 0x12];
  }
}
