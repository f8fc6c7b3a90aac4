/** Inode records: a fixed prefix whose flags and mode decide the shape of the rest. */
module Inodes {
  import opened Wire
  import opened Cursors
  import opened Utf8
  import opened Locators

  const S_IFREG := 0x8000
  const S_IFDIR := 0x4000
  const S_IFLNK := 0xA000
  const S_IFBLK := 0x6000
  const S_IFCHR := 0x2000
  const S_IFIFO := 0x1000
  const S_IFSOCK := 0xC000
  const INLINE_MAX_BYTES := 4096
  const U32_MAX := 0xFFFF_FFFF
  const NUL: CodePoint := 0

  datatype XAttr = XAttr(namespace: int, key: Text, value: Bytes)

  datatype SliceRef = SliceRef(fileByteStart: int, fileByteEnd: int, dropId: Digest,
                               dropByteStart: int, dropByteLen: int)

  datatype ContentHandle =
    | InlineData(data: Bytes)
    | SliceMap(slices: seq<SliceRef>)
    | Directory(hash: Digest)
    | Symlink(target: Text)
    | Device(device: int)
    | Pipe(pipe: int)

  /** The fixed 41-byte prefix as it stands on the wire. */
  datatype Prefix = Prefix(number: int, mode: int, uid: int, gid: int, mtimeNs: int, ctimeNs: int, nlink: int, flags: int)

  datatype Inode = Inode(number: int, mode: int, uid: int, gid: int, mtimeNs: int, ctimeNs: int, nlink: int,
                         atimeNs: Option<int>, xattrs: seq<XAttr>, handle: ContentHandle)

  /** `mode & S_IFMT`. */
  function FileType(mode: int): int {
    mode / 0x1000 % 0x10 * 0x1000
  }

  /** The fourth hexadecimal digit: permission bits below it and bits above it do not count. */
  lemma FileTypeNibble(mode: int, high: int, digit: int, perm: int)
    requires mode == high * 0x1_0000 + digit * 0x1000 + perm
    requires 0 <= high && 0 <= digit < 0x10 && 0 <= perm < 0x1000
    ensures FileType(mode) == digit * 0x1000
  {
    assert mode / 0x1000 == high * 0x10 + digit;
  }

  predicate IsDirectory(inode: Inode) {
    FileType(inode.mode) == S_IFDIR
  }

  predicate HasAtime(flags: int) {
    flags % 2 == 1
  }

  predicate HasXattrs(flags: int) {
    flags / 2 % 2 == 1
  }

  predicate HasInlineData(flags: int) {
    flags / 4 % 2 == 1
  }

  // ----- the prefix -----

  predicate PrefixOk(p: Prefix) {
    && Fits(p.number, 8) && Fits(p.mode, 4) && Fits(p.uid, 4) && Fits(p.gid, 4)
    && Fits(p.mtimeNs, 8) && Fits(p.ctimeNs, 8) && Fits(p.nlink, 4) && 0 <= p.flags < 8
  }

  function EncodeIdentity(p: Prefix): (b: Bytes)
    ensures |b| == 20
  {
    Le(p.number, 8) + Le(p.mode, 4) + Le(p.uid, 4) + Le(p.gid, 4)
  }

  function EncodeTimes(p: Prefix): (b: Bytes)
    ensures |b| == 21
  {
    Le(p.mtimeNs, 8) + Le(p.ctimeNs, 8) + Le(p.nlink, 4) + Le(p.flags, 1)
  }

  function EncodePrefix(p: Prefix): (b: Bytes)
    ensures |b| == 41
  {
    EncodeIdentity(p) + EncodeTimes(p)
  }

  function DecodePrefix(buf: Bytes, pos: nat): (r: Parsed<Prefix>)
    ensures r.Ok? ==> r.end == pos + 41 <= |buf| && 0 <= r.value.flags < 8
  {
    var (number, p1) :- ReadInt(buf, pos, 8);
    var (mode, p2) :- ReadInt(buf, p1, 4);
    var (uid, p3) :- ReadInt(buf, p2, 4);
    var (gid, p4) :- ReadInt(buf, p3, 4);
    var (mtimeNs, p5) :- ReadInt(buf, p4, 8);
    var (ctimeNs, p6) :- ReadInt(buf, p5, 8);
    var (nlink, p7) :- ReadInt(buf, p6, 4);
    var (flags, p8) :- ReadInt(buf, p7, 1);
    if flags >= 8 then Err(Corrupt)
    else Ok(Prefix(number, mode, uid, gid, mtimeNs, ctimeNs, nlink, flags), p8)
  }

  lemma PrefixExact(buf: Bytes, pos: nat, p: Prefix, end: nat)
    ensures Accepts(DecodePrefix(buf, pos), p, end, PrefixOk(p), buf, pos, EncodePrefix(p))
  {
    hide Le, FromLe;
    ReadIntExact(buf, pos, 8, p.number, pos + 8);
    ReadIntExact(buf, pos + 8, 4, p.mode, pos + 12);
    ReadIntExact(buf, pos + 12, 4, p.uid, pos + 16);
    ReadIntExact(buf, pos + 16, 4, p.gid, pos + 20);
    ReadIntExact(buf, pos + 20, 8, p.mtimeNs, pos + 28);
    ReadIntExact(buf, pos + 28, 8, p.ctimeNs, pos + 36);
    ReadIntExact(buf, pos + 36, 4, p.nlink, pos + 40);
    ReadIntExact(buf, pos + 40, 1, p.flags, end);
    At4(buf, pos, Le(p.number, 8), Le(p.mode, 4), Le(p.uid, 4), Le(p.gid, 4));
    At4(buf, pos + 20, Le(p.mtimeNs, 8), Le(p.ctimeNs, 8), Le(p.nlink, 4), Le(p.flags, 1));
    At2(buf, pos, EncodeIdentity(p), EncodeTimes(p));
  }

  // ----- extended attributes -----

  predicate XAttrOk(x: XAttr) {
    && 0 <= x.namespace <= 3 && NUL !in x.key
    && Fits(|EncodeUtf8(x.key)|, 4) && Fits(|x.value|, 4)
  }

  predicate XAttrAllowed(before: seq<XAttr>, x: XAttr) {
    XAttrOk(x)
  }

  function EncodeXAttr(x: XAttr): (b: Bytes)
    ensures |b| >= 9
  {
    Le(x.namespace, 1) + EncodeBlob(EncodeUtf8(x.key)) + EncodeBlob(x.value)
  }

  function DecodeXAttr(buf: Bytes, pos: nat, before: seq<XAttr>): Parsed<XAttr> {
    var (namespace, p1) :- ReadInt(buf, pos, 1);
    if namespace > 3 then Err(Corrupt) else
    var (key, p2) :- DecodeText(0, U32_MAX, buf, p1);
    if NUL in key then Err(Corrupt) else
    var (value, p3) :- DecodeBlob(0, U32_MAX, buf, p2);
    Ok(XAttr(namespace, key, value), p3)
  }

  lemma XAttrExact(buf: Bytes, pos: nat, before: seq<XAttr>, x: XAttr, end: nat)
    ensures Accepts(DecodeXAttr(buf, pos, before), x, end, XAttrOk(x), buf, pos, EncodeXAttr(x))
  {
    hide Le, FromLe, DecodeText, DecodeBlob, EncodeBlob, EncodeUtf8;
    var key := EncodeBlob(EncodeUtf8(x.key));
    ReadIntExact(buf, pos, 1, x.namespace, pos + 1);
    TextExact(0, U32_MAX, buf, pos + 1, x.key, pos + 1 + |key|);
    BlobExact(0, U32_MAX, buf, pos + 1 + |key|, x.value, end);
    At3(buf, pos, Le(x.namespace, 1), key, EncodeBlob(x.value));
    var r := DecodeText(0, U32_MAX, buf, pos + 1);
    if r.Ok? {
      TextExact(0, U32_MAX, buf, pos + 1, r.value, r.end);
    }
  }

  function EncodeXAttrs(xs: seq<XAttr>): Bytes {
    Le(|xs|, 4) + EncodeAll(EncodeXAttr, xs)
  }

  /** `_parse_xattr_block`. */
  function DecodeXAttrs(buf: Bytes, pos: nat): Parsed<seq<XAttr>> {
    var (count, p1) :- ReadInt(buf, pos, 4);
    Many(DecodeXAttr, buf, p1, count, [])
  }

  predicate XAttrsOk(xs: seq<XAttr>) {
    Fits(|xs|, 4) && forall x :: x in xs ==> XAttrOk(x)
  }

  lemma XAttrStepExact()
    ensures Exact(DecodeXAttr, XAttrAllowed, EncodeXAttr)
  {
    forall b, p: nat, before, v, q: nat
      ensures Accepts(DecodeXAttr(b, p, before), v, q, XAttrAllowed(before, v), b, p, EncodeXAttr(v))
    {
      XAttrExact(b, p, before, v, q);
    }
  }

  lemma XAttrsExact(buf: Bytes, pos: nat, xs: seq<XAttr>, end: nat)
    ensures Accepts(DecodeXAttrs(buf, pos), xs, end, XAttrsOk(xs), buf, pos, EncodeXAttrs(xs))
  {
    hide Le, FromLe, Many, EncodeAll, XAttrOk, DecodeXAttr;
    XAttrStepExact();
    ReadIntExact(buf, pos, 4, |xs|, pos + 4);
    if pos + 4 <= |buf| {
      ManyExact(DecodeXAttr, XAttrAllowed, EncodeXAttr, buf, pos + 4, |xs|, xs, end);
    }
    At2(buf, pos, Le(|xs|, 4), EncodeAll(EncodeXAttr, xs));
  }

  // ----- slices -----

  predicate SliceOk(s: SliceRef) {
    && 0 <= s.fileByteStart < s.fileByteEnd && Fits(s.fileByteEnd, 8)
    && Fits(s.dropByteStart, 4) && Fits(s.dropByteLen, 4)
  }

  predicate SliceAllowed(before: seq<SliceRef>, s: SliceRef) {
    SliceOk(s)
  }

  function EncodeSlice(s: SliceRef): (b: Bytes)
    ensures |b| == 56
  {
    Le(s.fileByteStart, 8) + Le(s.fileByteEnd, 8) + s.dropId + Le(s.dropByteStart, 4) + Le(s.dropByteLen, 4)
  }

  function DecodeSlice(buf: Bytes, pos: nat, before: seq<SliceRef>): Parsed<SliceRef> {
    var (start, p1) :- ReadInt(buf, pos, 8);
    var (end, p2) :- ReadInt(buf, p1, 8);
    if start >= end then Err(Corrupt) else
    var (dropId, p3) :- Read(buf, p2, 32);
    var (dropStart, p4) :- ReadInt(buf, p3, 4);
    var (dropLen, p5) :- ReadInt(buf, p4, 4);
    Ok(SliceRef(start, end, dropId, dropStart, dropLen), p5)
  }

  lemma SliceExact(buf: Bytes, pos: nat, before: seq<SliceRef>, s: SliceRef, end: nat)
    ensures Accepts(DecodeSlice(buf, pos, before), s, end, SliceOk(s), buf, pos, EncodeSlice(s))
  {
    hide Le, FromLe;
    ReadIntExact(buf, pos, 8, s.fileByteStart, pos + 8);
    ReadIntExact(buf, pos + 8, 8, s.fileByteEnd, pos + 16);
    ReadExact(buf, pos + 16, 32, s.dropId, pos + 48);
    ReadIntExact(buf, pos + 48, 4, s.dropByteStart, pos + 52);
    ReadIntExact(buf, pos + 52, 4, s.dropByteLen, end);
    At5(buf, pos, Le(s.fileByteStart, 8), Le(s.fileByteEnd, 8), s.dropId, Le(s.dropByteStart, 4), Le(s.dropByteLen, 4));
  }

  function EncodeSlices(ss: seq<SliceRef>): Bytes {
    Le(|ss|, 4) + EncodeAll(EncodeSlice, ss)
  }

  function DecodeSlices(buf: Bytes, pos: nat): Parsed<seq<SliceRef>> {
    var (count, p1) :- ReadInt(buf, pos, 4);
    Many(DecodeSlice, buf, p1, count, [])
  }

  predicate SlicesOk(ss: seq<SliceRef>) {
    Fits(|ss|, 4) && forall s :: s in ss ==> SliceOk(s)
  }

  lemma SlicesExact(buf: Bytes, pos: nat, ss: seq<SliceRef>, end: nat)
    ensures Accepts(DecodeSlices(buf, pos), ss, end, SlicesOk(ss), buf, pos, EncodeSlices(ss))
  {
    hide Le, FromLe, Many, EncodeAll, SliceOk, DecodeSlice;
    forall b, p: nat, before, v, q: nat
      ensures Accepts(DecodeSlice(b, p, before), v, q, SliceAllowed(before, v), b, p, EncodeSlice(v))
    {
      SliceExact(b, p, before, v, q);
    }
    ReadIntExact(buf, pos, 4, |ss|, pos + 4);
    if pos + 4 <= |buf| {
      ManyExact(DecodeSlice, SliceAllowed, EncodeSlice, buf, pos + 4, |ss|, ss, end);
    }
    At2(buf, pos, Le(|ss|, 4), EncodeAll(EncodeSlice, ss));
  }

  // ----- content handles -----

  /** The handle has the kind that the file type, and for regular files the inline flag, call for. */
  predicate HandleOk(mode: int, inlined: bool, handle: ContentHandle) {
    match handle
    case InlineData(data) => FileType(mode) == S_IFREG && inlined && |data| <= INLINE_MAX_BYTES
    case SliceMap(slices) => FileType(mode) == S_IFREG && !inlined && SlicesOk(slices)
    case Directory(hash) => FileType(mode) == S_IFDIR
    case Symlink(target) => FileType(mode) == S_IFLNK && Fits(|EncodeUtf8(target)|, 4)
    case Device(device) => (FileType(mode) == S_IFBLK || FileType(mode) == S_IFCHR) && Fits(device, 8)
    case Pipe(pipe) => (FileType(mode) == S_IFIFO || FileType(mode) == S_IFSOCK) && Fits(pipe, 8)
  }

  function EncodeHandle(handle: ContentHandle): (b: Bytes)
    ensures |b| >= 4
  {
    match handle
    case InlineData(data) => EncodeBlob(data)
    case SliceMap(slices) => EncodeSlices(slices)
    case Directory(hash) => hash
    case Symlink(target) => EncodeBlob(EncodeUtf8(target))
    case Device(device) => Le(device, 8)
    case Pipe(pipe) => Le(pipe, 8)
  }

  function DecodeHandle(mode: int, inlined: bool, buf: Bytes, pos: nat): Parsed<ContentHandle> {
    var fileType := FileType(mode);
    if fileType == S_IFREG then
      if inlined then
        var (data, p1) :- DecodeBlob(0, INLINE_MAX_BYTES, buf, pos);
        Ok(InlineData(data), p1)
      else
        var (slices, p1) :- DecodeSlices(buf, pos);
        Ok(SliceMap(slices), p1)
    else if fileType == S_IFDIR then
      var (hash, p1) :- Read(buf, pos, 32);
      Ok(Directory(hash), p1)
    else if fileType == S_IFLNK then
      var (target, p1) :- DecodeText(0, U32_MAX, buf, pos);
      Ok(Symlink(target), p1)
    else if fileType == S_IFBLK || fileType == S_IFCHR then
      var (device, p1) :- ReadInt(buf, pos, 8);
      Ok(Device(device), p1)
    else if fileType == S_IFIFO || fileType == S_IFSOCK then
      var (pipe, p1) :- ReadInt(buf, pos, 8);
      Ok(Pipe(pipe), p1)
    else Err(Corrupt)
  }

  lemma HandleExact(mode: int, inlined: bool, buf: Bytes, pos: nat, handle: ContentHandle, end: nat)
    ensures Accepts(DecodeHandle(mode, inlined, buf, pos), handle, end,
                    HandleOk(mode, inlined, handle), buf, pos, EncodeHandle(handle))
  {
    hide Le, FromLe, DecodeBlob, EncodeBlob, DecodeText, EncodeUtf8, DecodeSlices, EncodeSlices, SlicesOk, FileType;
    match handle
    case InlineData(data) => BlobExact(0, INLINE_MAX_BYTES, buf, pos, data, end);
    case SliceMap(slices) => SlicesExact(buf, pos, slices, end);
    case Directory(hash) => ReadExact(buf, pos, 32, hash, end);
    case Symlink(target) => TextExact(0, U32_MAX, buf, pos, target, end);
    case Device(device) => ReadIntExact(buf, pos, 8, device, end);
    case Pipe(pipe) => ReadIntExact(buf, pos, 8, pipe, end);
  }

  // ----- whole records -----

  /** An inode and the flags byte it was written with. The flags are not a function of the
    * inode: a set xattr bit may introduce an empty block, and the inline bit means nothing
    * outside regular files. */
  datatype WireInode = WireInode(inode: Inode, flags: int)

  function PrefixOf(w: WireInode): Prefix {
    Prefix(w.inode.number, w.inode.mode, w.inode.uid, w.inode.gid, w.inode.mtimeNs, w.inode.ctimeNs, w.inode.nlink, w.flags)
  }

  predicate InodeOk(w: WireInode) {
    && PrefixOk(PrefixOf(w))
    && (HasAtime(w.flags) <==> w.inode.atimeNs.Some?)
    && (w.inode.atimeNs.Some? ==> Fits(w.inode.atimeNs.value, 8))
    && (if HasXattrs(w.flags) then XAttrsOk(w.inode.xattrs) else w.inode.xattrs == [])
    && HandleOk(w.inode.mode, HasInlineData(w.flags), w.inode.handle)
  }

  /** A record is a directory's exactly when it holds the hash of a directory node. */
  lemma DirectoryHoldsHash(w: WireInode)
    requires InodeOk(w)
    ensures IsDirectory(w.inode) <==> w.inode.handle.Directory?
  {
    hide FileType;
  }

  function EncodeAtime(atimeNs: Option<int>): Bytes {
    if atimeNs.Some? then Le(atimeNs.value, 8) else []
  }

  function EncodeXAttrBlock(present: bool, xattrs: seq<XAttr>): Bytes {
    if present then EncodeXAttrs(xattrs) else []
  }

  function EncodeInode(w: WireInode): (b: Bytes)
    ensures |b| >= 45
  {
    EncodePrefix(PrefixOf(w)) + EncodeAtime(w.inode.atimeNs)
    + EncodeXAttrBlock(HasXattrs(w.flags), w.inode.xattrs) + EncodeHandle(w.inode.handle)
  }

  function DecodeAtime(flags: int, buf: Bytes, pos: nat): Parsed<Option<int>> {
    if !HasAtime(flags) then Ok(None, pos) else
    var (atimeNs, p1) :- ReadInt(buf, pos, 8);
    Ok(Some(atimeNs), p1)
  }

  function DecodeXAttrBlock(flags: int, buf: Bytes, pos: nat): Parsed<seq<XAttr>> {
    if HasXattrs(flags) then DecodeXAttrs(buf, pos) else Ok([], pos)
  }

  function DecodeInode(buf: Bytes, pos: nat): Parsed<WireInode> {
    var (p, p1) :- DecodePrefix(buf, pos);
    var (atimeNs, p2) :- DecodeAtime(p.flags, buf, p1);
    var (xattrs, p3) :- DecodeXAttrBlock(p.flags, buf, p2);
    var (handle, p4) :- DecodeHandle(p.mode, HasInlineData(p.flags), buf, p3);
    Ok(WireInode(Inode(p.number, p.mode, p.uid, p.gid, p.mtimeNs, p.ctimeNs, p.nlink, atimeNs, xattrs, handle),
                 p.flags), p4)
  }

  lemma AtimeExact(flags: int, buf: Bytes, pos: nat, atimeNs: Option<int>, end: nat)
    requires pos <= |buf|
    ensures Accepts(DecodeAtime(flags, buf, pos), atimeNs, end,
                    (HasAtime(flags) <==> atimeNs.Some?) && (atimeNs.Some? ==> Fits(atimeNs.value, 8)),
                    buf, pos, EncodeAtime(atimeNs))
  {
    hide Le, FromLe;
    if atimeNs.Some? {
      ReadIntExact(buf, pos, 8, atimeNs.value, end);
    }
  }

  lemma XAttrBlockExact(flags: int, buf: Bytes, pos: nat, xs: seq<XAttr>, end: nat)
    requires pos <= |buf|
    ensures Accepts(DecodeXAttrBlock(flags, buf, pos), xs, end,
                    if HasXattrs(flags) then XAttrsOk(xs) else xs == [],
                    buf, pos, EncodeXAttrBlock(HasXattrs(flags), xs))
  {
    hide DecodeXAttrs, EncodeXAttrs, XAttrsOk;
    if HasXattrs(flags) {
      XAttrsExact(buf, pos, xs, end);
    }
  }

  /** A record is accepted exactly when it is the encoding of a well-formed inode under some
    * flags that fit it, and the flags are the ones on the wire. */
  lemma InodeExact(buf: Bytes, pos: nat, w: WireInode, end: nat)
    ensures Accepts(DecodeInode(buf, pos), w, end, InodeOk(w), buf, pos, EncodeInode(w))
  {
    hide DecodePrefix, EncodePrefix, PrefixOk, DecodeAtime, EncodeAtime, DecodeXAttrBlock, EncodeXAttrBlock, XAttrsOk;
    hide DecodeHandle, EncodeHandle, HandleOk, HasAtime, HasXattrs, HasInlineData;
    var p := PrefixOf(w);
    var a, x := EncodeAtime(w.inode.atimeNs), EncodeXAttrBlock(HasXattrs(w.flags), w.inode.xattrs);
    var p2 := pos + 41 + |a|;
    var p3 := p2 + |x|;
    PrefixExact(buf, pos, p, pos + 41);
    if pos + 41 <= |buf| {
      AtimeExact(w.flags, buf, pos + 41, w.inode.atimeNs, p2);
      var r := DecodeAtime(w.flags, buf, pos + 41);
      if r.Ok? {
        AtimeExact(w.flags, buf, pos + 41, w.inode.atimeNs, r.end);
      }
    }
    if p2 <= |buf| {
      XAttrBlockExact(w.flags, buf, p2, w.inode.xattrs, p3);
      var r := DecodeXAttrBlock(w.flags, buf, p2);
      if r.Ok? {
        XAttrBlockExact(w.flags, buf, p2, w.inode.xattrs, r.end);
      }
    }
    HandleExact(w.inode.mode, HasInlineData(w.flags), buf, p3, w.inode.handle, end);
    At4(buf, pos, EncodePrefix(p), a, x, EncodeHandle(w.inode.handle));
  }

  // ----- the parser itself -----

  /** What `parse_inode` keeps of a record: the flags byte is dropped. */
  function DropFlags(r: Parsed<WireInode>): Parsed<Inode> {
    match r
    case Ok(w, end) => Ok(w.inode, end)
    case Err(e) => Err(e)
  }

  method ParseXAttr(c: Cursor, ghost before: seq<XAttr>) returns (r: Result<XAttr>)
    requires c.Valid()
    modifies c
    ensures c.Follows(r, DecodeXAttr(c.buf, old(c.pos), before))
  {
    hide Le, FromLe, DecodeUtf8;
    var namespace :- c.ReadU8();
    if namespace > 0x03 {
      return Failure(Corrupt);
    }
    var keyLen :- c.ReadU32Le();
    var keyBytes :- c.Read(keyLen);
    var key := DecodeUtf8(keyBytes);
    if key.None? {
      return Failure(Corrupt);
    }
    if NUL in key.value {
      return Failure(Corrupt);
    }
    var valueLen :- c.ReadU32Le();
    var value :- c.Read(valueLen);
    return Success(XAttr(namespace, key.value, value));
  }

  method ParseXAttrBlock(c: Cursor) returns (r: Result<seq<XAttr>>)
    requires c.Valid()
    modifies c
    ensures c.Follows(r, DecodeXAttrs(c.buf, old(c.pos)))
  {
    hide Le, FromLe, DecodeXAttr;
    var count :- c.ReadU32Le();
    ghost var start := c.pos;
    var out: seq<XAttr> := [];
    for i := 0 to count
      invariant c.Valid()
      invariant Many(DecodeXAttr, c.buf, start, count, []) == Many(DecodeXAttr, c.buf, c.pos, count - i, out)
    {
      var x :- ParseXAttr(c, out);
      out := out + [x];
    }
    return Success(out);
  }

  /** One turn of the slice loop. */
  method ParseSlice(c: Cursor, ghost before: seq<SliceRef>) returns (r: Result<SliceRef>)
    requires c.Valid()
    modifies c
    ensures c.Follows(r, DecodeSlice(c.buf, old(c.pos), before))
  {
    hide Le, FromLe;
    var fileByteStart :- c.ReadU64Le();
    var fileByteEnd :- c.ReadU64Le();
    if fileByteStart >= fileByteEnd {
      return Failure(Corrupt);
    }
    var dropId :- c.Read(32);
    var dropByteStart :- c.ReadU32Le();
    var dropByteLen :- c.ReadU32Le();
    return Success(SliceRef(fileByteStart, fileByteEnd, dropId, dropByteStart, dropByteLen));
  }

  method ParseSliceMap(c: Cursor) returns (r: Result<seq<SliceRef>>)
    requires c.Valid()
    modifies c
    ensures c.Follows(r, DecodeSlices(c.buf, old(c.pos)))
  {
    hide Le, FromLe, DecodeSlice;
    var count :- c.ReadU32Le();
    ghost var start := c.pos;
    var slices: seq<SliceRef> := [];
    for i := 0 to count
      invariant c.Valid()
      invariant Many(DecodeSlice, c.buf, start, count, []) == Many(DecodeSlice, c.buf, c.pos, count - i, slices)
    {
      var slice :- ParseSlice(c, slices);
      slices := slices + [slice];
    }
    return Success(slices);
  }

  method ParseContentHandle(c: Cursor, mode: int, flags: int) returns (r: Result<ContentHandle>)
    requires c.Valid()
    modifies c
    ensures c.Follows(r, DecodeHandle(mode, HasInlineData(flags), c.buf, old(c.pos)))
  {
    hide Le, FromLe, DecodeUtf8, DecodeSlices, HasInlineData;
    var fileType := FileType(mode);
    if fileType == S_IFREG {
      if HasInlineData(flags) {
        var inlineLen :- c.ReadU32Le();
        if inlineLen > INLINE_MAX_BYTES {
          return Failure(Corrupt);
        }
        var data :- c.Read(inlineLen);
        return Success(InlineData(data));
      }
      var slices :- ParseSliceMap(c);
      return Success(SliceMap(slices));
    }
    if fileType == S_IFDIR {
      var hash :- c.Read(32);
      return Success(Directory(hash));
    }
    if fileType == S_IFLNK {
      var targetLen :- c.ReadU32Le();
      var targetBytes :- c.Read(targetLen);
      var target := DecodeUtf8(targetBytes);
      if target.None? {
        return Failure(Corrupt);
      }
      return Success(Symlink(target.value));
    }
    if fileType == S_IFBLK || fileType == S_IFCHR {
      var device :- c.ReadU64Le();
      return Success(Device(device));
    }
    if fileType == S_IFIFO || fileType == S_IFSOCK {
      var pipe :- c.ReadU64Le();
      return Success(Pipe(pipe));
    }
    return Failure(Corrupt);
  }

  /** The 41 fixed bytes and the check on the reserved flag bits. */
  method ParsePrefix(c: Cursor) returns (r: Result<Prefix>)
    requires c.Valid()
    modifies c
    ensures c.Follows(r, DecodePrefix(c.buf, old(c.pos)))
  {
    hide Le, FromLe, Read, Bound;
    var number :- c.ReadU64Le();
    var mode :- c.ReadU32Le();
    var uid :- c.ReadU32Le();
    var gid :- c.ReadU32Le();
    var mtimeNs :- c.ReadU64Le();
    var ctimeNs :- c.ReadU64Le();
    var nlink :- c.ReadU32Le();
    var flags :- c.ReadU8();
    if flags >= 0x08 {
      return Failure(Corrupt);
    }
    return Success(Prefix(number, mode, uid, gid, mtimeNs, ctimeNs, nlink, flags));
  }

  method ParseInode(c: Cursor) returns (r: Result<Inode>)
    requires c.Valid()
    modifies c
    ensures c.Follows(r, DropFlags(DecodeInode(c.buf, old(c.pos))))
  {
    hide DecodePrefix, Le, FromLe, DecodeXAttrs, DecodeHandle, HasInlineData;
    var p :- ParsePrefix(c);
    var atimeNs: Option<int> := None;
    if HasAtime(p.flags) {
      var t :- c.ReadU64Le();
      atimeNs := Some(t);
    }
    var xattrs: seq<XAttr> := [];
    if HasXattrs(p.flags) {
      xattrs :- ParseXAttrBlock(c);
    }
    var handle :- ParseContentHandle(c, p.mode, p.flags);
    return Success(Inode(p.number, p.mode, p.uid, p.gid, p.mtimeNs, p.ctimeNs, p.nlink, atimeNs, xattrs, handle));
  }
}
