/** The metadata blob in numbers: directory nodes, inodes, and the blob of them. */
module MetadataLayouts {
  import opened Wire
  import opened Utf8
  import opened Layouts
  import D = DirectoryNodes
  import I = Inodes
  import M = Metadata

  // ----- directory nodes -----

  predicate EntryValid(e: D.DirEntry) {
    && 1 <= |EncodeUtf8(e.name)| < 0x1_0000_0000
    && 0x2F !in EncodeUtf8(e.name) && 0x00 !in EncodeUtf8(e.name)
    && 0 <= e.inodeNumber < 0x1_0000_0000_0000_0000 && e.entryType in {1, 2, 3, 4}
  }

  /** Valid entries, their raw names in strictly increasing byte order. */
  ghost predicate NodeValid(node: D.DirectoryNode) {
    && node.version == 1 && |node.entries| < 0x1_0000_0000
    && (forall e :: e in node.entries ==> EntryValid(e))
    && (forall i, j :: 0 <= i < j < |node.entries| ==>
          Precedes(EncodeUtf8(node.entries[i].name), EncodeUtf8(node.entries[j].name)))
  }

  function EntryLayout(e: D.DirEntry): Bytes {
    BlobLayout(EncodeUtf8(e.name)) + Le(e.inodeNumber, 8) + Le(e.entryType, 1)
  }

  function NodeLayout(entries: seq<D.DirEntry>): Bytes {
    [1] + Le(|entries|, 4) + EncodeAll(EntryLayout, entries)
  }

  lemma EntryMatch(e: D.DirEntry)
    ensures D.EncodeEntry(e) == EntryLayout(e)
    ensures D.EntryOk(e) <==> EntryValid(e)
  {
    hide Le, Fits, EncodeUtf8;
    AllWidths();
    AsciiByte(e.name, 0x2F);
    AsciiByte(e.name, 0x00);
    EmptyName(e.name);
  }

  lemma EmptyName(t: Text)
    ensures |EncodeUtf8(t)| == 0 <==> |t| == 0
  {
  }

  lemma NodeMatch(node: D.DirectoryNode)
    ensures D.EncodeNode(node) == NodeLayout(node.entries)
    ensures D.NodeOk(node) <==> NodeValid(node)
  {
    hide Le, Fits, EncodeUtf8, Less, D.EncodeEntry, D.EntryOk, EntryLayout, EntryValid, Precedes;
    AllWidths();
    LeTwo(1);
    forall e | e in node.entries
      ensures D.EncodeEntry(e) == EntryLayout(e) && (D.EntryOk(e) <==> EntryValid(e))
    {
      EntryMatch(e);
    }
    SameLayout(D.EncodeEntry, EntryLayout, node.entries);
    D.NodeOrder(node.entries);
  }

  lemma NodeSpelledOut(buf: Bytes, pos: nat, node: D.DirectoryNode, end: nat)
    ensures Accepts(D.DecodeNode(buf, pos), node, end, NodeValid(node), buf, pos, NodeLayout(node.entries))
  {
    hide D.DecodeNode, D.NodeOk, D.EncodeNode, NodeValid, NodeLayout;
    NodeMatch(node);
    D.NodeExact(buf, pos, node, end);
  }

  // ----- inodes -----

  predicate XAttrValid(x: I.XAttr) {
    && 0 <= x.namespace <= 3 && 0 !in x.key
    && |EncodeUtf8(x.key)| < 0x1_0000_0000 && |x.value| < 0x1_0000_0000
  }

  predicate SliceValid(s: I.SliceRef) {
    && 0 <= s.fileByteStart < s.fileByteEnd < 0x1_0000_0000_0000_0000
    && 0 <= s.dropByteStart < 0x1_0000_0000 && 0 <= s.dropByteLen < 0x1_0000_0000
  }

  /** The kind of handle goes with the file type, the fourth hexadecimal digit of the mode, and
    * for regular files with the inline flag. */
  predicate HandleValid(mode: int, inlined: bool, handle: I.ContentHandle) {
    var fileType := mode % 0x1_0000 / 0x1000;
    match handle
    case InlineData(data) => fileType == 8 && inlined && |data| <= 4096
    case SliceMap(slices) => fileType == 8 && !inlined && |slices| < 0x1_0000_0000 && forall s :: s in slices ==> SliceValid(s)
    case Directory(hash) => fileType == 4
    case Symlink(target) => fileType == 10 && |EncodeUtf8(target)| < 0x1_0000_0000
    case Device(device) => fileType in {6, 2} && 0 <= device < 0x1_0000_0000_0000_0000
    case Pipe(pipe) => fileType in {1, 12} && 0 <= pipe < 0x1_0000_0000_0000_0000
  }

  /** Bit 0 of the flags announces an access time, bit 1 attributes, bit 2 inline data. */
  predicate InodeValid(w: I.WireInode) {
    var i := w.inode;
    && 0 <= i.number < 0x1_0000_0000_0000_0000 && 0 <= i.mode < 0x1_0000_0000
    && 0 <= i.uid < 0x1_0000_0000 && 0 <= i.gid < 0x1_0000_0000
    && 0 <= i.mtimeNs < 0x1_0000_0000_0000_0000 && 0 <= i.ctimeNs < 0x1_0000_0000_0000_0000
    && 0 <= i.nlink < 0x1_0000_0000 && 0 <= w.flags <= 7
    && (i.atimeNs.Some? <==> w.flags in {1, 3, 5, 7})
    && (i.atimeNs.Some? ==> 0 <= i.atimeNs.value < 0x1_0000_0000_0000_0000)
    && (i.xattrs != [] ==> w.flags in {2, 3, 6, 7})
    && |i.xattrs| < 0x1_0000_0000 && (forall x :: x in i.xattrs ==> XAttrValid(x))
    && HandleValid(i.mode, w.flags in {4, 5, 6, 7}, i.handle)
  }

  function XAttrLayout(x: I.XAttr): Bytes {
    Le(x.namespace, 1) + BlobLayout(EncodeUtf8(x.key)) + BlobLayout(x.value)
  }

  function SliceLayout(s: I.SliceRef): Bytes {
    Le(s.fileByteStart, 8) + Le(s.fileByteEnd, 8) + s.dropId + Le(s.dropByteStart, 4) + Le(s.dropByteLen, 4)
  }

  function HandleLayout(handle: I.ContentHandle): Bytes {
    match handle
    case InlineData(data) => BlobLayout(data)
    case SliceMap(slices) => Le(|slices|, 4) + EncodeAll(SliceLayout, slices)
    case Directory(hash) => hash
    case Symlink(target) => BlobLayout(EncodeUtf8(target))
    case Device(device) => Le(device, 8)
    case Pipe(pipe) => Le(pipe, 8)
  }

  function InodeLayout(w: I.WireInode): Bytes {
    var i := w.inode;
    ((Le(i.number, 8) + Le(i.mode, 4) + Le(i.uid, 4) + Le(i.gid, 4))
     + (Le(i.mtimeNs, 8) + Le(i.ctimeNs, 8) + Le(i.nlink, 4) + Le(w.flags, 1)))
    + (if i.atimeNs.Some? then Le(i.atimeNs.value, 8) else [])
    + (if w.flags in {2, 3, 6, 7} then Le(|i.xattrs|, 4) + EncodeAll(XAttrLayout, i.xattrs) else [])
    + HandleLayout(i.handle)
  }

  lemma FlagBits(flags: int)
    requires 0 <= flags <= 7
    ensures I.HasAtime(flags) <==> flags in {1, 3, 5, 7}
    ensures I.HasXattrs(flags) <==> flags in {2, 3, 6, 7}
    ensures I.HasInlineData(flags) <==> flags in {4, 5, 6, 7}
  {
  }

  lemma FileTypeDigit(mode: int)
    ensures I.FileType(mode) == mode % 0x1_0000 / 0x1000 * 0x1000
  {
  }

  lemma XAttrMatch(x: I.XAttr)
    ensures I.EncodeXAttr(x) == XAttrLayout(x) && (I.XAttrOk(x) <==> XAttrValid(x))
  {
    hide Le, Fits, EncodeUtf8;
    AllWidths();
  }

  lemma SliceMatch(s: I.SliceRef)
    ensures I.EncodeSlice(s) == SliceLayout(s) && (I.SliceOk(s) <==> SliceValid(s))
  {
    hide Le, Fits;
    AllWidths();
  }

  lemma SlicesMatch(slices: seq<I.SliceRef>)
    ensures I.EncodeSlices(slices) == Le(|slices|, 4) + EncodeAll(SliceLayout, slices)
    ensures I.SlicesOk(slices) <==> |slices| < 0x1_0000_0000 && forall s :: s in slices ==> SliceValid(s)
  {
    hide Le, Fits, I.EncodeSlice, SliceLayout, I.SliceOk, SliceValid;
    AllWidths();
    forall s | s in slices
      ensures I.EncodeSlice(s) == SliceLayout(s) && (I.SliceOk(s) <==> SliceValid(s))
    {
      SliceMatch(s);
    }
    SameLayout(I.EncodeSlice, SliceLayout, slices);
  }

  lemma XAttrsMatch(xs: seq<I.XAttr>)
    ensures I.EncodeXAttrs(xs) == Le(|xs|, 4) + EncodeAll(XAttrLayout, xs)
    ensures I.XAttrsOk(xs) <==> |xs| < 0x1_0000_0000 && forall x :: x in xs ==> XAttrValid(x)
  {
    hide Le, Fits, I.EncodeXAttr, XAttrLayout, I.XAttrOk, XAttrValid;
    AllWidths();
    forall x | x in xs
      ensures I.EncodeXAttr(x) == XAttrLayout(x) && (I.XAttrOk(x) <==> XAttrValid(x))
    {
      XAttrMatch(x);
    }
    SameLayout(I.EncodeXAttr, XAttrLayout, xs);
  }

  lemma HandleMatch(mode: int, inlined: bool, handle: I.ContentHandle)
    ensures I.EncodeHandle(handle) == HandleLayout(handle)
    ensures I.HandleOk(mode, inlined, handle) <==> HandleValid(mode, inlined, handle)
  {
    hide Le, Fits, EncodeUtf8, I.EncodeSlices, I.SlicesOk, I.FileType;
    AllWidths();
    FileTypeDigit(mode);
    if handle.SliceMap? {
      SlicesMatch(handle.slices);
    }
  }

  /** A handle is read exactly as its file type, a digit of the mode, and its layout say. */
  lemma HandleSpelledOut(mode: int, inlined: bool, buf: Bytes, pos: nat, handle: I.ContentHandle, end: nat)
    ensures Accepts(I.DecodeHandle(mode, inlined, buf, pos), handle, end,
                    HandleValid(mode, inlined, handle), buf, pos, HandleLayout(handle))
  {
    hide I.DecodeHandle, I.HandleOk, I.EncodeHandle, HandleValid, HandleLayout;
    HandleMatch(mode, inlined, handle);
    I.HandleExact(mode, inlined, buf, pos, handle, end);
  }

  lemma InodeMatch(w: I.WireInode)
    ensures I.InodeOk(w) <==> InodeValid(w)
    ensures InodeValid(w) ==> I.EncodeInode(w) == InodeLayout(w)
  {
    hide Le, Fits, I.EncodeHandle, I.HandleOk, HandleLayout, HandleValid, I.XAttrsOk, I.EncodeXAttrs, XAttrValid;
    hide I.HasAtime, I.HasXattrs, I.HasInlineData;
    AllWidths();
    XAttrsMatch(w.inode.xattrs);
    if 0 <= w.flags <= 7 {
      FlagBits(w.flags);
      HandleMatch(w.inode.mode, I.HasInlineData(w.flags), w.inode.handle);
    }
  }

  lemma InodeSpelledOut(buf: Bytes, pos: nat, w: I.WireInode, end: nat)
    ensures Accepts(I.DecodeInode(buf, pos), w, end, InodeValid(w), buf, pos, InodeLayout(w))
  {
    hide I.DecodeInode, I.InodeOk, I.EncodeInode, InodeValid, InodeLayout;
    InodeMatch(w);
    I.InodeExact(buf, pos, w, end);
  }

  // ----- the blob -----

  ghost predicate MetadataValid(w: M.WireBlob) {
    && |w.inodes| < 0x1_0000_0000 && (forall i :: i in w.inodes ==> InodeValid(i))
    && |w.dirNodes| < 0x1_0000_0000 && (forall n :: n in w.dirNodes ==> NodeValid(n))
  }

  function MetadataLayout(w: M.WireBlob): Bytes {
    Le(|w.inodes|, 4) + EncodeAll(InodeLayout, w.inodes)
    + Le(|w.dirNodes|, 4) + EncodeAll((n: D.DirectoryNode) => NodeLayout(n.entries), w.dirNodes)
  }

  lemma MetadataMatch(w: M.WireBlob)
    ensures M.MetadataOk(w) <==> MetadataValid(w)
    ensures MetadataValid(w) ==> M.EncodeMetadata(w) == MetadataLayout(w)
  {
    hide Le, Fits, I.InodeOk, InodeValid, I.EncodeInode, InodeLayout, D.NodeOk, NodeValid, D.EncodeNode, NodeLayout;
    AllWidths();
    forall i | i in w.inodes
      ensures (I.InodeOk(i) <==> InodeValid(i)) && (InodeValid(i) ==> I.EncodeInode(i) == InodeLayout(i))
    {
      InodeMatch(i);
    }
    forall n | n in w.dirNodes
      ensures (D.NodeOk(n) <==> NodeValid(n)) && D.EncodeNode(n) == NodeLayout(n.entries)
    {
      NodeMatch(n);
    }
    if MetadataValid(w) {
      SameLayout(I.EncodeInode, InodeLayout, w.inodes);
      SameLayout(D.EncodeNode, (n: D.DirectoryNode) => NodeLayout(n.entries), w.dirNodes);
    }
  }

  lemma MetadataSpelledOut(buf: Bytes, pos: nat, w: M.WireBlob, end: nat)
    ensures Accepts(M.DecodeMetadata(buf, pos), w, end, MetadataValid(w), buf, pos, MetadataLayout(w))
  {
    hide M.DecodeMetadata, M.MetadataOk, M.EncodeMetadata, MetadataValid, MetadataLayout;
    MetadataMatch(w);
    M.MetadataExact(buf, pos, w, end);
  }
}
