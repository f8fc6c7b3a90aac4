/** The metadata blob: inodes, directory nodes, and lookups over them. */
module Metadata {
  import opened Wire
  import opened Cursors
  import opened Lookups
  import opened DirectoryNodes
  import opened Inodes

  datatype MetadataBlob = MetadataBlob(inodes: seq<Inode>, dirNodes: seq<DirectoryNode>)

  /** A blob with the flags each inode was written with. */
  datatype WireBlob = WireBlob(inodes: seq<WireInode>, dirNodes: seq<DirectoryNode>)

  function ForgetInodes(ws: seq<WireInode>): (inodes: seq<Inode>)
    ensures |inodes| == |ws| && forall i :: 0 <= i < |ws| ==> inodes[i] == ws[i].inode
  {
    if |ws| == 0 then [] else ForgetInodes(ws[..|ws| - 1]) + [ws[|ws| - 1].inode]
  }

  function Forget(w: WireBlob): MetadataBlob {
    MetadataBlob(ForgetInodes(w.inodes), w.dirNodes)
  }

  predicate InodeAllowed(before: seq<WireInode>, w: WireInode) {
    InodeOk(w)
  }

  ghost predicate NodeAllowed(before: seq<DirectoryNode>, node: DirectoryNode) {
    NodeOk(node)
  }

  ghost predicate MetadataOk(w: WireBlob) {
    && Fits(|w.inodes|, 4) && (forall i :: i in w.inodes ==> InodeOk(i))
    && Fits(|w.dirNodes|, 4) && (forall n :: n in w.dirNodes ==> NodeOk(n))
  }

  function EncodeMetadata(w: WireBlob): Bytes {
    Le(|w.inodes|, 4) + EncodeAll(EncodeInode, w.inodes) + Le(|w.dirNodes|, 4) + EncodeAll(EncodeNode, w.dirNodes)
  }

  function InodeStep(buf: Bytes, pos: nat, before: seq<WireInode>): Parsed<WireInode> {
    DecodeInode(buf, pos)
  }

  function NodeStep(buf: Bytes, pos: nat, before: seq<DirectoryNode>): Parsed<DirectoryNode> {
    DecodeNode(buf, pos)
  }

  function DecodeMetadata(buf: Bytes, pos: nat): Parsed<WireBlob> {
    var (inodeCount, p1) :- ReadInt(buf, pos, 4);
    var (inodes, p2) :- Many(InodeStep, buf, p1, inodeCount, []);
    var (nodeCount, p3) :- ReadInt(buf, p2, 4);
    var (dirNodes, p4) :- Many(NodeStep, buf, p3, nodeCount, []);
    Ok(WireBlob(inodes, dirNodes), p4)
  }

  lemma InodesExact(buf: Bytes, pos: nat, n: nat, ws: seq<WireInode>, end: nat)
    requires pos <= |buf|
    ensures Accepts(Many(InodeStep, buf, pos, n, []), ws, end,
                    |ws| == n && forall w :: w in ws ==> InodeOk(w), buf, pos, EncodeAll(EncodeInode, ws))
  {
    hide DecodeInode, EncodeInode, InodeOk, Many, EncodeAll;
    forall b, p: nat, before, v, q: nat
      ensures Accepts(InodeStep(b, p, before), v, q, InodeAllowed(before, v), b, p, EncodeInode(v))
    {
      InodeExact(b, p, v, q);
    }
    ManyExact(InodeStep, InodeAllowed, EncodeInode, buf, pos, n, ws, end);
    assert Allowed(InodeAllowed, ws, 0) <==> forall w :: w in ws ==> InodeOk(w);
  }

  lemma NodesExact(buf: Bytes, pos: nat, n: nat, nodes: seq<DirectoryNode>, end: nat)
    requires pos <= |buf|
    ensures Accepts(Many(NodeStep, buf, pos, n, []), nodes, end,
                    |nodes| == n && forall v :: v in nodes ==> NodeOk(v), buf, pos, EncodeAll(EncodeNode, nodes))
  {
    hide DecodeNode, EncodeNode, NodeOk, Many, EncodeAll;
    forall b, p: nat, before, v, q: nat
      ensures Accepts(NodeStep(b, p, before), v, q, NodeAllowed(before, v), b, p, EncodeNode(v))
    {
      NodeExact(b, p, v, q);
    }
    ManyExact(NodeStep, NodeAllowed, EncodeNode, buf, pos, n, nodes, end);
    assert Allowed(NodeAllowed, nodes, 0) <==> forall v :: v in nodes ==> NodeOk(v);
  }

  /** A blob is accepted exactly when it is the encoding of well-formed records. */
  lemma MetadataExact(buf: Bytes, pos: nat, w: WireBlob, end: nat)
    ensures Accepts(DecodeMetadata(buf, pos), w, end, MetadataOk(w), buf, pos, EncodeMetadata(w))
  {
    hide Le, FromLe, Many, EncodeAll, InodeOk, NodeOk;
    var p2 := pos + 4 + |EncodeAll(EncodeInode, w.inodes)|;
    ReadIntExact(buf, pos, 4, |w.inodes|, pos + 4);
    if pos + 4 <= |buf| {
      InodesExact(buf, pos + 4, |w.inodes|, w.inodes, p2);
      var r := Many(InodeStep, buf, pos + 4, |w.inodes|, []);
      if r.Ok? {
        InodesExact(buf, pos + 4, |w.inodes|, w.inodes, r.end);
      }
    }
    ReadIntExact(buf, p2, 4, |w.dirNodes|, p2 + 4);
    if p2 + 4 <= |buf| {
      NodesExact(buf, p2 + 4, |w.dirNodes|, w.dirNodes, end);
    }
    At4(buf, pos, Le(|w.inodes|, 4), EncodeAll(EncodeInode, w.inodes), Le(|w.dirNodes|, 4),
        EncodeAll(EncodeNode, w.dirNodes));
  }

  // ----- the parser and the lookups -----

  function DropAllFlags(r: Parsed<WireBlob>): Parsed<MetadataBlob> {
    match r
    case Ok(w, end) => Ok(Forget(w), end)
    case Err(e) => Err(e)
  }

  lemma ForgetAppend(ws: seq<WireInode>, w: WireInode)
    ensures ForgetInodes(ws + [w]) == ForgetInodes(ws) + [w.inode]
  {
    assert (ws + [w])[..|ws|] == ws;
  }

  method ParseMetadataBlob(c: Cursor) returns (r: Result<MetadataBlob>)
    requires c.Valid()
    modifies c
    ensures c.Follows(r, DropAllFlags(DecodeMetadata(c.buf, old(c.pos))))
  {
    hide Le, FromLe, Read, DecodeInode, DecodeNode, ForgetInodes;
    var inodeCount :- c.ReadU32Le();
    ghost var start := c.pos;
    var inodes: seq<Inode> := [];
    ghost var wire: seq<WireInode> := [];
    for i := 0 to inodeCount
      invariant c.Valid()
      invariant inodes == ForgetInodes(wire)
      invariant Many(InodeStep, c.buf, start, inodeCount, []) == Many(InodeStep, c.buf, c.pos, inodeCount - i, wire)
    {
      ghost var w := DecodeInode(c.buf, c.pos);
      var inode :- ParseInode(c);
      ForgetAppend(wire, w.value);
      wire := wire + [w.value];
      inodes := inodes + [inode];
    }
    var nodeCount :- c.ReadU32Le();
    start := c.pos;
    var dirNodes: seq<DirectoryNode> := [];
    for i := 0 to nodeCount
      invariant c.Valid()
      invariant Many(NodeStep, c.buf, start, nodeCount, []) == Many(NodeStep, c.buf, c.pos, nodeCount - i, dirNodes)
    {
      var node :- ParseDirectoryNode(c);
      dirNodes := dirNodes + [node];
    }
    return Success(MetadataBlob(inodes, dirNodes));
  }

  function Number(inode: Inode): int {
    inode.number
  }

  function HashKey(h: Hash): DirectoryNode -> Digest {
    node => NodeHash(h, node)
  }

  /** `inode_by_number`. */
  method InodeByNumber(blob: MetadataBlob, number: int) returns (r: Option<Inode>)
    ensures r == Lookup(Number, blob.inodes, number)
    ensures r.Some? ==> r.value in blob.inodes && r.value.number == number
    ensures r.None? ==> forall inode :: inode in blob.inodes ==> inode.number != number
    ensures forall i: nat :: FirstAt(Number, blob.inodes, number, i) ==> r == Some(blob.inodes[i])
  {
    hide FirstAt, Seen;
    LookupFirst(Number, blob.inodes, number);
    assert forall inode :: inode in blob.inodes ==> Number(inode) == inode.number;
    for i := 0 to |blob.inodes|
      invariant Lookup(Number, blob.inodes, number) == Lookup(Number, blob.inodes[i..], number)
    {
      if blob.inodes[i].number == number {
        return Some(blob.inodes[i]);
      }
    }
    return None;
  }

  /** The order of the inodes on the wire does not matter to lookups exactly when only equal
    * inodes share a number; distinct numbers are more than enough. */
  lemma InodeLookupOrderIndependent(inodes: seq<Inode>)
    ensures OrderFree(Number, inodes) <==> Unambiguous(Number, inodes)
    ensures Distinct(Number, inodes) ==> Unambiguous(Number, inodes)
  {
    OrderFreeExactly(Number, inodes);
  }

  lemma EncodeNodeInjective(a: DirectoryNode, b: DirectoryNode)
    requires NodeOk(a) && NodeOk(b) && EncodeNode(a) == EncodeNode(b)
    ensures a == b
  {
    hide DecodeNode, EncodeNode, NodeOk;
    var code := EncodeNode(a);
    NodeExact(code, 0, a, |code|);
    NodeExact(code, 0, b, |code|);
    assert At(code, 0, code);
  }

  /** Nor does the order of the nodes matter to lookups by hash, unless two nodes collide: any
    * order finds a node or none does, and if two orders find different nodes, their encodings
    * are two inputs with one hash. */
  lemma NodeLookupOrderIndependent(h: Hash, a: MetadataBlob, b: MetadataBlob, hash: Digest)
    requires multiset(a.dirNodes) == multiset(b.dirNodes) && forall n :: n in a.dirNodes ==> NodeOk(n)
    ensures var x, y := Lookup(HashKey(h), a.dirNodes, hash), Lookup(HashKey(h), b.dirNodes, hash);
            || x == y
            || (x.Some? && y.Some? && EncodeNode(x.value) != EncodeNode(y.value)
                && h(EncodeNode(x.value)) == h(EncodeNode(y.value)) == hash)
  {
    hide NodeOk, EncodeNode, Lookup;
    LookupPermuted(HashKey(h), a.dirNodes, b.dirNodes, hash);
    var x, y := Lookup(HashKey(h), a.dirNodes, hash), Lookup(HashKey(h), b.dirNodes, hash);
    if x.Some? && y.Some? && EncodeNode(x.value) == EncodeNode(y.value) {
      EncodeNodeInjective(x.value, y.value);
    }
  }

  /** `dir_node_by_hash`. */
  method DirNodeByHash(h: Hash, blob: MetadataBlob, hash: Digest) returns (r: Option<DirectoryNode>)
    requires forall n :: n in blob.dirNodes ==> EntriesFit(n.entries)
    ensures r == Lookup(HashKey(h), blob.dirNodes, hash)
  {
    hide EntriesFit, EncodeEntries;
    for i := 0 to |blob.dirNodes|
      invariant Lookup(HashKey(h), blob.dirNodes, hash) == Lookup(HashKey(h), blob.dirNodes[i..], hash)
    {
      var digest := DirNodeHash(h, blob.dirNodes[i].entries);
      if digest == hash {
        return Some(blob.dirNodes[i]);
      }
    }
    return None;
  }

  /** Where the wire bytes of node `k` of an accepted blob begin. */
  function NodeOffset(w: WireBlob, pos: nat, k: nat): nat
    requires k <= |w.dirNodes|
  {
    pos + 8 + |EncodeAll(EncodeInode, w.inodes)| + |EncodeAll(EncodeNode, w.dirNodes[..k])|
  }

  lemma {:induction false} EncodeAllSplit<T>(encode: T -> Bytes, vs: seq<T>, k: nat)
    requires k < |vs|
    ensures EncodeAll(encode, vs)
         == EncodeAll(encode, vs[..k]) + encode(vs[k]) + EncodeAll(encode, vs[k + 1..])
  {
    if k == 0 {
      assert EncodeAll(encode, vs[..0]) + encode(vs[0]) == encode(vs[0]);
    } else {
      EncodeAllSplit(encode, vs[1..], k - 1);
      assert vs[..k][1..] == vs[1..][..k - 1] && vs[1..][k..] == vs[k + 1..];
    }
  }

  /** Node `k` is what the node parser reads at its offset, and it stops where node `k + 1` begins. */
  lemma NodeSpan(buf: Bytes, pos: nat, k: nat)
    requires DecodeMetadata(buf, pos).Ok? && k < |DecodeMetadata(buf, pos).value.dirNodes|
    ensures var r := DecodeMetadata(buf, pos);
            var start, end := NodeOffset(r.value, pos, k), NodeOffset(r.value, pos, k + 1);
            start <= end <= r.end <= |buf| && DecodeNode(buf, start) == Ok(r.value.dirNodes[k], end)
  {
    hide DecodeMetadata, NodeOk, InodeOk, EncodeNode, DecodeNode, Le, EncodeAll;
    var r := DecodeMetadata(buf, pos);
    var w, node := r.value, r.value.dirNodes[k];
    var start := NodeOffset(w, pos, k);
    MetadataExact(buf, pos, w, r.end);
    At4(buf, pos, Le(|w.inodes|, 4), EncodeAll(EncodeInode, w.inodes), Le(|w.dirNodes|, 4),
        EncodeAll(EncodeNode, w.dirNodes));
    EncodeAllSplit(EncodeNode, w.dirNodes, k);
    At3(buf, pos + 8 + |EncodeAll(EncodeInode, w.inodes)|, EncodeAll(EncodeNode, w.dirNodes[..k]),
        EncodeNode(node), EncodeAll(EncodeNode, w.dirNodes[k + 1..]));
    NodeExact(buf, start, node, start + |EncodeNode(node)|);
    EncodeAllNext([], EncodeNode, w.dirNodes, k);
  }

  function Slice(buf: Bytes, from: nat, to: nat): Bytes {
    if from <= to <= |buf| then buf[from..to] else []
  }

  /** In an accepted blob, a hash finds a node exactly when the bytes some node was read from
    * hash to it; and every node can be re-encoded, as the lookup does. */
  lemma FoundByWireHash(h: Hash, buf: Bytes, pos: nat, hash: Digest)
    requires DecodeMetadata(buf, pos).Ok?
    ensures var w := DecodeMetadata(buf, pos).value;
            Lookup(HashKey(h), w.dirNodes, hash).Some? <==>
              exists k: nat :: k < |w.dirNodes|
                && h(Slice(buf, NodeOffset(w, pos, k), NodeOffset(w, pos, k + 1))) == hash
    ensures forall n :: n in Forget(DecodeMetadata(buf, pos).value).dirNodes ==> EntriesFit(n.entries)
  {
    hide DecodeMetadata, DecodeNode, NodeHash, NodeOffset, Lookup, EntriesFit, NodeOk, InodeOk;
    var w := DecodeMetadata(buf, pos).value;
    MetadataExact(buf, pos, w, DecodeMetadata(buf, pos).end);
    forall n | n in w.dirNodes
      ensures EntriesFit(n.entries)
    {
      NodeFits(n);
    }
    forall k: nat | k < |w.dirNodes|
      ensures NodeHash(h, w.dirNodes[k]) == h(Slice(buf, NodeOffset(w, pos, k), NodeOffset(w, pos, k + 1)))
    {
      NodeSpan(buf, pos, k);
      NodeHashIsWireHash(h, buf, NodeOffset(w, pos, k));
    }
    if Lookup(HashKey(h), w.dirNodes, hash).Some? {
      var k: nat :| k < |w.dirNodes| && HashKey(h)(w.dirNodes[k]) == hash;
      assert h(Slice(buf, NodeOffset(w, pos, k), NodeOffset(w, pos, k + 1))) == hash;
    }
    if k: nat :| k < |w.dirNodes| && h(Slice(buf, NodeOffset(w, pos, k), NodeOffset(w, pos, k + 1))) == hash {
      assert HashKey(h)(w.dirNodes[k]) == hash;
    }
  }

  // ----- normal form -----

  function CanonicalFlags(inode: Inode): int {
    (if inode.atimeNs.Some? then 1 else 0) + (if |inode.xattrs| != 0 then 2 else 0)
    + (if inode.handle.InlineData? then 4 else 0)
  }

  function Canonical(inode: Inode): WireInode {
    WireInode(inode, CanonicalFlags(inode))
  }

  function CanonicalInodes(inodes: seq<Inode>): (ws: seq<WireInode>)
    ensures |ws| == |inodes| && forall i :: 0 <= i < |ws| ==> ws[i] == Canonical(inodes[i])
  {
    seq(|inodes|, i requires 0 <= i < |inodes| => Canonical(inodes[i]))
  }

  function Normalize(blob: MetadataBlob): WireBlob {
    WireBlob(CanonicalInodes(blob.inodes), blob.dirNodes)
  }

  /** The canonical encoder. */
  function EncodeBlobCanonically(blob: MetadataBlob): Bytes {
    EncodeMetadata(Normalize(blob))
  }

  /** Which flags spell an inode: bit 0 says whether there is an access time, bit 1 must be set
    * when there are attributes, and bit 2 is fixed for regular files and free otherwise. */
  lemma Spellings(inode: Inode, flags: int)
    ensures InodeOk(WireInode(inode, flags))
       <==> InodeOk(Canonical(inode)) && 0 <= flags < 8
            && HasAtime(flags) == inode.atimeNs.Some?
            && (|inode.xattrs| != 0 ==> HasXattrs(flags))
            && (FileType(inode.mode) == S_IFREG ==> HasInlineData(flags) == inode.handle.InlineData?)
  {
    hide FileType, SlicesOk, XAttrOk;
    var f := CanonicalFlags(inode);
    assert HasAtime(f) == inode.atimeNs.Some? && HasXattrs(f) == (|inode.xattrs| != 0)
        && HasInlineData(f) == inode.handle.InlineData?;
  }

  /** Dropping the flags loses at most the four bytes of an empty attribute block. */
  lemma CanonicalWidth(w: WireInode)
    requires InodeOk(w)
    ensures |EncodeInode(w)| == |EncodeInode(Canonical(w.inode))|
                                + (if HasXattrs(w.flags) && |w.inode.xattrs| == 0 then 4 else 0)
  {
    hide HandleOk, EncodeHandle, XAttrOk, Le;
    Spellings(w.inode, w.flags);
  }

  /** Different flags are different bytes. */
  lemma FlagsShow(inode: Inode, f: int, g: int)
    requires 0 <= f < 8 && 0 <= g < 8
    requires EncodeInode(WireInode(inode, f)) == EncodeInode(WireInode(inode, g))
    ensures f == g
  {
    hide EncodeHandle, EncodeXAttrBlock, EncodeAtime, EncodePrefix;
    var a, b := WireInode(inode, f), WireInode(inode, g);
    assert EncodeInode(a)[..41] == EncodePrefix(PrefixOf(a));
    assert EncodeInode(b)[..41] == EncodePrefix(PrefixOf(b));
    FlagsByte(PrefixOf(a));
    FlagsByte(PrefixOf(b));
  }

  lemma FlagsByte(p: Prefix)
    requires 0 <= p.flags < 8
    ensures EncodePrefix(p)[40] == p.flags
  {
    hide EncodeIdentity;
    assert Le(p.flags, 1) == [p.flags];
  }

  /** Parsing is not injective: a regular inline file without attributes has two encodings,
    * and any other kind of object has an ignored inline bit. */
  lemma TwoSpellings(inode: Inode)
    requires InodeOk(Canonical(inode)) && |inode.xattrs| == 0
    ensures var a, b := EncodeInode(Canonical(inode)), EncodeInode(WireInode(inode, CanonicalFlags(inode) + 2));
            && a != b
            && DropFlags(DecodeInode(a, 0)) == Ok(inode, |a|)
            && DropFlags(DecodeInode(b, 0)) == Ok(inode, |b|)
  {
    hide DecodeInode, EncodeInode;
    var v, w := Canonical(inode), WireInode(inode, CanonicalFlags(inode) + 2);
    Spellings(inode, v.flags);
    Spellings(inode, w.flags);
    InodeExact(EncodeInode(v), 0, v, |EncodeInode(v)|);
    InodeExact(EncodeInode(w), 0, w, |EncodeInode(w)|);
    if EncodeInode(v) == EncodeInode(w) {
      FlagsShow(inode, v.flags, w.flags);
    }
  }

  lemma ForgetNormalize(blob: MetadataBlob)
    ensures Forget(Normalize(blob)) == blob
  {
  }

  /** Encoding canonically and parsing gives the blob back exactly when it is well-formed. */
  lemma CanonicalRoundTrip(blob: MetadataBlob)
    ensures var code := EncodeBlobCanonically(blob);
            DropAllFlags(DecodeMetadata(code, 0)) == Ok(blob, |code|) <==> MetadataOk(Normalize(blob))
  {
    hide DecodeMetadata, EncodeMetadata, InodeOk, NodeOk, Canonical;
    var w := Normalize(blob);
    var code := EncodeMetadata(w);
    MetadataExact(code, 0, w, |code|);
    ForgetNormalize(blob);
    var r := DecodeMetadata(code, 0);
    if DropAllFlags(r) == Ok(blob, |code|) {
      MetadataExact(code, 0, r.value, r.end);
      WellFormedIsNormalizable(r.value);
    }
  }

  lemma WellFormedIsNormalizable(w: WireBlob)
    requires MetadataOk(w)
    ensures MetadataOk(Normalize(Forget(w)))
  {
    hide InodeOk, NodeOk, Canonical;
    var n := Normalize(Forget(w));
    forall i | 0 <= i < |n.inodes|
      ensures InodeOk(n.inodes[i])
    {
      assert w.inodes[i] in w.inodes;
      Spellings(w.inodes[i].inode, w.inodes[i].flags);
    }
  }

  lemma {:induction false} CanonicalWidths(ws: seq<WireInode>)
    requires forall w :: w in ws ==> InodeOk(w)
    ensures |EncodeAll(EncodeInode, CanonicalInodes(ForgetInodes(ws)))| <= |EncodeAll(EncodeInode, ws)|
  {
    hide InodeOk, EncodeInode, Canonical;
    if |ws| != 0 {
      CanonicalWidth(ws[0]);
      CanonicalWidths(ws[1..]);
      var cs := CanonicalInodes(ForgetInodes(ws));
      assert cs[0] == Canonical(ws[0].inode);
      assert cs[1..] == CanonicalInodes(ForgetInodes(ws[1..]));
    }
  }

  /** Every accepted blob re-encodes to a blob that parses to the same value, is no longer, and
    * is the original bytes if every inode was already spelled canonically. */
  lemma NormalForm(buf: Bytes, pos: nat)
    requires DecodeMetadata(buf, pos).Ok?
    ensures var r := DecodeMetadata(buf, pos);
            var code := EncodeBlobCanonically(Forget(r.value));
            && pos <= r.end <= |buf|
            && DropAllFlags(DecodeMetadata(code, 0)) == Ok(Forget(r.value), |code|)
            && |code| <= r.end - pos
            && (code == buf[pos..r.end] <==> r.value == Normalize(Forget(r.value)))
  {
    hide DecodeMetadata, InodeOk, NodeOk, Canonical, EncodeAll, Le;
    var r := DecodeMetadata(buf, pos);
    var n := Normalize(Forget(r.value));
    var code := EncodeMetadata(n);
    MetadataExact(buf, pos, r.value, r.end);
    WellFormedIsNormalizable(r.value);
    CanonicalRoundTrip(Forget(r.value));
    CanonicalWidths(r.value.inodes);
    if code == buf[pos..r.end] {
      assert At(buf, pos, code);
      MetadataExact(buf, pos, n, r.end);
    }
  }

  // ----- byte accounting -----

  function InodePrice(w: WireInode): nat {
    45 + 9 * |w.inode.xattrs| + (if w.inode.handle.SliceMap? then 56 * |w.inode.handle.slices| else 0)
  }

  function NodePrice(node: DirectoryNode): nat {
    5 + 14 * |node.entries|
  }

  lemma InodePaid(w: WireInode)
    requires InodeOk(w)
    ensures |EncodeInode(w)| >= InodePrice(w)
  {
    hide HandleOk, XAttrOk, Le;
    EncodeAllWidth(EncodeXAttr, w.inode.xattrs, 9);
    if w.inode.handle.SliceMap? {
      EncodeAllWidth(EncodeSlice, w.inode.handle.slices, 56);
    }
  }

  lemma NodePaid(node: DirectoryNode)
    requires NodeOk(node)
    ensures |EncodeNode(node)| >= NodePrice(node)
  {
    hide Le, EncodeAll, EncodeEntry;
    NodeOrder(node.entries);
    forall e | e in node.entries
      ensures |EncodeEntry(e)| >= 14
    {
      Utf8NotEmpty(e);
    }
    EncodeAllWidth(EncodeEntry, node.entries, 14);
  }

  lemma Utf8NotEmpty(e: DirEntry)
    requires DirectoryNodes.EntryOk(e)
    ensures |EncodeEntry(e)| >= 14
  {
  }

  /** Every parsed object is paid for in bytes: a count cannot conjure objects. */
  lemma BytesPaid(buf: Bytes, pos: nat)
    requires DecodeMetadata(buf, pos).Ok?
    ensures var r := DecodeMetadata(buf, pos);
            r.end - pos >= 8 + Total(InodePrice, r.value.inodes) + Total(NodePrice, r.value.dirNodes)
  {
    hide DecodeMetadata, InodeOk, NodeOk, EncodeInode, EncodeNode, InodePrice, NodePrice, EncodeAll, Total, Le;
    var r := DecodeMetadata(buf, pos);
    MetadataExact(buf, pos, r.value, r.end);
    forall w | w in r.value.inodes
      ensures |EncodeInode(w)| >= InodePrice(w)
    {
      InodePaid(w);
    }
    forall n | n in r.value.dirNodes
      ensures |EncodeNode(n)| >= NodePrice(n)
    {
      NodePaid(n);
    }
    EncodeAllTotal(EncodeInode, InodePrice, r.value.inodes);
    EncodeAllTotal(EncodeNode, NodePrice, r.value.dirNodes);
  }
}
