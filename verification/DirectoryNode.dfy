/** Directory nodes: sorted names, and the hash that addresses a node. */
module DirectoryNodes {
  import opened Wire
  import opened Cursors
  import opened Utf8
  import opened Locators

  const NODE_VERSION := 1
  const SLASH: u8 := 0x2F
  const NUL: u8 := 0x00

  datatype DirEntry = DirEntry(name: Text, inodeNumber: int, entryType: int)
  datatype DirectoryNode = DirectoryNode(version: int, entries: seq<DirEntry>)

  /** `EntryType.is_valid`: file, directory, symlink or special. */
  predicate ValidType(entryType: int) {
    1 <= entryType <= 4
  }

  /** An entry that is right on its own, whatever stands before it. */
  predicate EntryOk(e: DirEntry) {
    && |e.name| != 0 && SLASH !in e.name && NUL !in e.name && Fits(|EncodeUtf8(e.name)|, 4)
    && Fits(e.inodeNumber, 8) && ValidType(e.entryType)
  }

  predicate EntryAllowed(before: seq<DirEntry>, e: DirEntry) {
    EntryOk(e) && (|before| != 0 ==> Less(before[|before| - 1].name, e.name))
  }

  ghost predicate NodeOk(node: DirectoryNode) {
    node.version == NODE_VERSION && Fits(|node.entries|, 4) && Allowed(EntryAllowed, node.entries, 0)
  }

  function EncodeEntry(e: DirEntry): (b: Bytes)
    ensures |b| == 13 + |EncodeUtf8(e.name)|
  {
    EncodeBlob(EncodeUtf8(e.name)) + Le(e.inodeNumber, 8) + Le(e.entryType, 1)
  }

  function EncodeEntries(entries: seq<DirEntry>): Bytes {
    Le(NODE_VERSION, 1) + Le(|entries|, 4) + EncodeAll(EncodeEntry, entries)
  }

  function EncodeNode(node: DirectoryNode): Bytes {
    EncodeEntries(node.entries)
  }

  /** The name of an entry: its bytes are looked at before they are decoded. */
  function DecodeName(buf: Bytes, pos: nat): Parsed<Text> {
    var (n, p1) :- ReadInt(buf, pos, 4);
    var (b, p2) :- Read(buf, p1, n);
    if |b| == 0 || SLASH in b || NUL in b then Err(Corrupt) else
    match DecodeUtf8(b)
    case None => Err(Corrupt)
    case Some(name) => Ok(name, p2)
  }

  function DecodeEntry(buf: Bytes, pos: nat, before: seq<DirEntry>): Parsed<DirEntry> {
    var (name, p1) :- DecodeName(buf, pos);
    if |before| != 0 && !Less(before[|before| - 1].name, name) then Err(Corrupt) else
    var (inodeNumber, p2) :- ReadInt(buf, p1, 8);
    var (entryType, p3) :- ReadInt(buf, p2, 1);
    if !ValidType(entryType) then Err(Corrupt)
    else Ok(DirEntry(name, inodeNumber, entryType), p3)
  }

  function DecodeNode(buf: Bytes, pos: nat): Parsed<DirectoryNode> {
    var (version, p1) :- ReadInt(buf, pos, 1);
    if version != NODE_VERSION then Err(Unsupported) else
    var (count, p2) :- ReadInt(buf, p1, 4);
    var (entries, p3) :- Many(DecodeEntry, buf, p2, count, []);
    Ok(DirectoryNode(version, entries), p3)
  }

  lemma NameExact(buf: Bytes, pos: nat, name: Text, end: nat)
    ensures Accepts(DecodeName(buf, pos), name, end,
                    |name| != 0 && SLASH !in name && NUL !in name && Fits(|EncodeUtf8(name)|, 4),
                    buf, pos, EncodeBlob(EncodeUtf8(name)))
  {
    hide Le, FromLe, DecodeChar, EncodeChar;
    var b := EncodeUtf8(name);
    ReadIntExact(buf, pos, 4, |b|, pos + 4);
    ReadExact(buf, pos + 4, |b|, b, end);
    At2(buf, pos, Le(|b|, 4), b);
    DecodeEncode(name);
    AsciiByte(name, SLASH);
    AsciiByte(name, NUL);
    var n := ReadInt(buf, pos, 4);
    if n.Ok? && Read(buf, pos + 4, n.value).Ok? {
      Utf8Exact(Read(buf, pos + 4, n.value).value, name);
    }
    Utf8Exact([], name);
  }

  lemma EntryExact(buf: Bytes, pos: nat, before: seq<DirEntry>, e: DirEntry, end: nat)
    ensures Accepts(DecodeEntry(buf, pos, before), e, end, EntryAllowed(before, e), buf, pos, EncodeEntry(e))
  {
    hide Le, FromLe, DecodeName, EncodeBlob, EncodeUtf8, Less;
    var name := EncodeBlob(EncodeUtf8(e.name));
    NameExact(buf, pos, e.name, pos + |name|);
    ReadIntExact(buf, pos + |name|, 8, e.inodeNumber, pos + |name| + 8);
    ReadIntExact(buf, pos + |name| + 8, 1, e.entryType, end);
    At3(buf, pos, name, Le(e.inodeNumber, 8), Le(e.entryType, 1));
    var r := DecodeName(buf, pos);
    if r.Ok? {
      NameExact(buf, pos, r.value, r.end);
    }
  }

  /** A node is accepted exactly when it is the encoding of a well-formed node. */
  lemma NodeExact(buf: Bytes, pos: nat, node: DirectoryNode, end: nat)
    ensures Accepts(DecodeNode(buf, pos), node, end, NodeOk(node), buf, pos, EncodeNode(node))
  {
    hide Le, FromLe, Many, EncodeAll, DecodeEntry, EntryAllowed;
    forall b, p: nat, before, v, q: nat
      ensures Accepts(DecodeEntry(b, p, before), v, q, EntryAllowed(before, v), b, p, EncodeEntry(v))
    {
      EntryExact(b, p, before, v, q);
    }
    ReadIntExact(buf, pos, 1, NODE_VERSION, pos + 1);
    ReadIntExact(buf, pos + 1, 4, |node.entries|, pos + 5);
    if pos + 5 <= |buf| {
      ManyExact(DecodeEntry, EntryAllowed, EncodeEntry, buf, pos + 5, |node.entries|, node.entries, end);
    }
    At3(buf, pos, Le(NODE_VERSION, 1), Le(|node.entries|, 4), EncodeAll(EncodeEntry, node.entries));
  }

  // ----- order -----

  ghost predicate ByteSorted(entries: seq<DirEntry>) {
    forall i, j :: 0 <= i < j < |entries| ==> Precedes(EncodeUtf8(entries[i].name), EncodeUtf8(entries[j].name))
  }

  lemma {:induction false} AdjacentIsSorted(entries: seq<DirEntry>, i: nat, j: nat)
    requires Allowed(EntryAllowed, entries, 0) && i < j < |entries|
    ensures Less(entries[i].name, entries[j].name)
  {
    assert EntryAllowed(entries[..j], entries[j]);
    if i < j - 1 {
      AdjacentIsSorted(entries, i, j - 1);
      LessTransitive(entries[i].name, entries[j - 1].name, entries[j].name);
    }
  }

  /** The check on decoded strings, one entry against the last, is the byte order of the
    * whole list: it accepts precisely the valid entries strictly sorted by raw name bytes. */
  lemma NodeOrder(entries: seq<DirEntry>)
    ensures Allowed(EntryAllowed, entries, 0)
       <==> ByteSorted(entries) && forall e :: e in entries ==> EntryOk(e)
  {
    hide EntryOk, EncodeUtf8, Less, Precedes;
    if Allowed(EntryAllowed, entries, 0) {
      forall i, j | 0 <= i < j < |entries|
        ensures Precedes(EncodeUtf8(entries[i].name), EncodeUtf8(entries[j].name))
      {
        AdjacentIsSorted(entries, i, j);
        Utf8Order(entries[i].name, entries[j].name);
        LessMeans(EncodeUtf8(entries[i].name), EncodeUtf8(entries[j].name));
      }
      forall e | e in entries
        ensures EntryOk(e)
      {
        var i :| 0 <= i < |entries| && entries[i] == e;
        assert EntryAllowed(entries[..i], entries[i]);
      }
    }
    if ByteSorted(entries) && forall e :: e in entries ==> EntryOk(e) {
      forall i | 0 <= i < |entries|
        ensures EntryAllowed(entries[..i], entries[i])
      {
        assert entries[i] in entries;
        if i != 0 {
          assert entries[..i][i - 1] == entries[i - 1];
          Utf8Order(entries[i - 1].name, entries[i].name);
          LessMeans(EncodeUtf8(entries[i - 1].name), EncodeUtf8(entries[i].name));
        }
      }
    }
  }

  /** The names of an accepted node are pairwise distinct. */
  lemma NamesDistinct(node: DirectoryNode, i: nat, j: nat)
    requires NodeOk(node) && i < j < |node.entries|
    ensures node.entries[i].name != node.entries[j].name
  {
    AdjacentIsSorted(node.entries, i, j);
    LessIrreflexive(node.entries[i].name);
  }

  // ----- content address -----

  function NodeHash(h: Hash, node: DirectoryNode): Digest {
    h(EncodeNode(node))
  }

  /** What re-encoding the decoded entries hashes is exactly the bytes that were consumed. */
  lemma NodeHashIsWireHash(h: Hash, buf: Bytes, pos: nat)
    requires DecodeNode(buf, pos).Ok?
    ensures var r := DecodeNode(buf, pos);
            pos <= r.end <= |buf| && NodeHash(h, r.value) == h(buf[pos..r.end])
  {
    hide DecodeNode, EncodeNode, NodeOk;
    var r := DecodeNode(buf, pos);
    NodeExact(buf, pos, r.value, r.end);
  }

  /** What `to_bytes` demands of the entries it is given. */
  predicate EntriesFit(entries: seq<DirEntry>) {
    && Fits(|entries|, 4)
    && forall e :: e in entries ==>
         Fits(|EncodeUtf8(e.name)|, 4) && Fits(e.inodeNumber, 8) && Fits(e.entryType, 1)
  }

  lemma NodeFits(node: DirectoryNode)
    requires NodeOk(node)
    ensures EntriesFit(node.entries)
  {
    NodeOrder(node.entries);
  }

  method DirNodeHash(h: Hash, entries: seq<DirEntry>) returns (digest: Digest)
    requires EntriesFit(entries)
    ensures digest == h(EncodeEntries(entries))
  {
    hide Le, EncodeUtf8;
    var out := new Buffer();
    out.Extend(Le(NODE_VERSION, 1));
    out.Extend(Le(|entries|, 4));
    ghost var start := Le(NODE_VERSION, 1) + Le(|entries|, 4);
    for i := 0 to |entries|
      invariant out.data == start + EncodeAll(EncodeEntry, entries[..i])
    {
      ghost var before := out.data;
      var e := entries[i];
      var nameBytes := EncodeUtf8(e.name);
      out.Extend(Le(|nameBytes|, 4));
      out.Extend(nameBytes);
      out.Extend(Le(e.inodeNumber, 8));
      out.Extend(Le(e.entryType, 1));
      Assoc(before, Le(|nameBytes|, 4), nameBytes);
      Assoc3(before, EncodeBlob(nameBytes), Le(e.inodeNumber, 8), Le(e.entryType, 1));
      EncodeAllNext(start, EncodeEntry, entries, i);
    }
    assert entries[..|entries|] == entries;
    digest := h(out.data);
  }

  /** The name at the head of an entry. */
  method ParseName(c: Cursor) returns (r: Result<Text>)
    requires c.Valid()
    modifies c
    ensures c.Follows(r, DecodeName(c.buf, old(c.pos)))
  {
    hide Le, FromLe, DecodeUtf8;
    var nameLen :- c.ReadU32Le();
    var nameBytes :- c.Read(nameLen);
    if |nameBytes| == 0 {
      return Failure(Corrupt);
    }
    if SLASH in nameBytes {
      return Failure(Corrupt);
    }
    if NUL in nameBytes {
      return Failure(Corrupt);
    }
    var name := DecodeUtf8(nameBytes);
    if name.None? {
      return Failure(Corrupt);
    }
    return Success(name.value);
  }

  method ParseDirectoryNode(c: Cursor) returns (r: Result<DirectoryNode>)
    requires c.Valid()
    modifies c
    ensures c.Follows(r, DecodeNode(c.buf, old(c.pos)))
  {
    hide Le, FromLe, Less, DecodeName;
    var version :- c.ReadU8();
    if version != NODE_VERSION {
      return Failure(Unsupported);
    }
    var count :- c.ReadU32Le();
    ghost var start := c.pos;
    var entries: seq<DirEntry> := [];
    var prevName: Option<Text> := None;
    for i := 0 to count
      invariant c.Valid()
      invariant prevName == if |entries| == 0 then None else Some(entries[|entries| - 1].name)
      invariant Many(DecodeEntry, c.buf, start, count, []) == Many(DecodeEntry, c.buf, c.pos, count - i, entries)
    {
      var name :- ParseName(c);
      if prevName.Some? && !Less(prevName.value, name) {
        return Failure(Corrupt);
      }
      var inodeNumber :- c.ReadU64Le();
      var entryType :- c.ReadU8();
      if !ValidType(entryType) {
        return Failure(Corrupt);
      }
      prevName := Some(name);
      entries := entries + [DirEntry(name, inodeNumber, entryType)];
    }
    return Success(DirectoryNode(version, entries));
  }
}
