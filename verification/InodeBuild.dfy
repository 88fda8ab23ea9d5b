/** In-memory inodes of the builder and their serialized form (src/build/inode.rs). */
module InodeBuild {
  import opened Bytes
  import opened Metadata
  import opened Chunks
  import opened Inodes
  import opened Xattrs

  /** A name in a directory and the index of its inode. */
  datatype DirEntry = DirEntry(name: seq<byte>, fileType: byte, inodeIdx: nat)

  datatype InodeData =
    | RegularFile(chunkIndexes: seq<ChunkIndex>)
    | Directory(children: seq<DirEntry>, startblk: nat, dirDataSize: nat, parentNid: nat)
    | Symlink(target: seq<byte>)
    | SpecialDev(rdev: nat)
    | SpecialNoData

  datatype InodeInfo = InodeInfo(
    mode: nat, uid: nat, gid: nat, size: nat, mtime: nat, mtimeNsec: nat, nlink: nat, ino: nat,
    nid: nat, metaOffset: nat, isExtended: bool, data: InodeData, xattrs: seq<Xattr>)

  /** The integer types of the fields. */
  predicate Typed(x: InodeInfo) {
    && x.mode < TWO_16 && x.uid < TWO_32 && x.gid < TWO_32 && x.size < TWO_64 && x.mtime < TWO_64
    && x.mtimeNsec < TWO_32 && x.nlink < TWO_32 && x.ino < TWO_32
    && (x.data.SpecialDev? ==> x.data.rdev < TWO_32)
  }

  /** `inode_meta_size`. */
  function MetaSize(x: InodeInfo): (n: nat)
    ensures n >= EROFS_INODE_COMPACT_SIZE
  {
    var base := HeaderSizeOf(x.isExtended);
    var xattrSize := IbodySize(x.xattrs);
    match x.data
    case RegularFile(cis) => base + xattrSize + |cis| * EROFS_CHUNK_INDEX_SIZE
    case Directory(_, _, _, _) => base + xattrSize
    case Symlink(target) => base + xattrSize + |target|
    case SpecialDev(_) => base + xattrSize
    case SpecialNoData => base + xattrSize
  }

  /** `chunk_format`; the chunk size is a validated power of two between 2^12 and 2^31. */
  function ChunkFormatOf(chunkbits: nat): nat
    requires EROFS_BLKSZBITS <= chunkbits < 32
  {
    EROFS_CHUNK_FORMAT_INDEXES + (chunkbits - EROFS_BLKSZBITS)
  }

  function LayoutOf(data: InodeData): (l: nat)
    ensures l < 8
  {
    match data
    case RegularFile(_) => EROFS_INODE_CHUNK_BASED
    case Symlink(_) => EROFS_INODE_FLAT_INLINE
    case _ => EROFS_INODE_FLAT_PLAIN
  }

  function FormatOf(data: InodeData, extended: bool): nat {
    if extended then ExtendedIFormat(LayoutOf(data)) else CompactIFormat(LayoutOf(data), !data.Directory?)
  }

  /** The header that `serialize_inode` writes for each kind of inode. */
  function HeaderOf(x: InodeInfo, epoch: nat, chunkbits: nat): Header
    requires Typed(x) && epoch < TWO_64 && EROFS_BLKSZBITS <= chunkbits < 32
  {
    Header(
      FormatOf(x.data, x.isExtended),
      XattrIcount(IbodySize(x.xattrs)),
      x.mode,
      if x.data.Directory? then x.data.startblk / TWO_32 else 0,
      if x.data.SpecialDev? || x.data.SpecialNoData? then 0 else x.size,
      StoredMtime(x.mtime, epoch, x.isExtended),
      if x.isExtended then x.mtimeNsec else 0,
      IUOf(x.data, chunkbits),
      x.ino,
      x.uid,
      x.gid,
      if x.isExtended then x.nlink else 1)
  }

  function IUOf(data: InodeData, chunkbits: nat): nat
    requires EROFS_BLKSZBITS <= chunkbits < 32
  {
    match data
    case RegularFile(_) => ChunkFormatOf(chunkbits)
    case Directory(_, startblk, _, _) => startblk % TWO_32
    case SpecialDev(rdev) => rdev
    case _ => 0
  }

  /** What follows the header and the xattrs. */
  function TailOf(data: InodeData): seq<byte> {
    match data
    case RegularFile(cis) => EncodeTable(cis)
    case Symlink(target) => target
    case _ => []
  }

  /** The bytes of an inode: header, xattr body, chunk table or symlink target. */
  function InodeBytes(x: InodeInfo, epoch: nat, chunkbits: nat): (d: seq<byte>)
    requires Typed(x) && epoch < TWO_64 && EROFS_BLKSZBITS <= chunkbits < 32
    ensures |d| == MetaSize(x)
  {
    HeaderBytes(HeaderOf(x, epoch, chunkbits), x.isExtended) + Ibody(x.xattrs) + TailOf(x.data)
  }

  /** `serialize_inode`: fills a zeroed buffer part by part and sets the xattr count at the end. */
  method SerializeInode(x: InodeInfo, epoch: nat, chunkbits: nat) returns (buf: array<byte>)
    requires Typed(x) && epoch < TWO_64 && EROFS_BLKSZBITS <= chunkbits < 32
    ensures fresh(buf) && buf[..] == InodeBytes(x, epoch, chunkbits)
  {
    hide HeaderBytes, EncodeTable, Ibody, PutU16;
    var metaSize := MetaSize(x);
    var xattrSize := IbodySize(x.xattrs);
    var icount := XattrIcount(xattrSize);
    var base := HeaderSizeOf(x.isExtended);
    var header := HeaderOf(x, epoch, chunkbits);
    var zeroCount := header.(icount := 0);
    var hdr := HeaderBytes(zeroCount, x.isExtended);

    buf := CopyHeader(hdr, metaSize);
    CopyXattrs(buf, hdr, metaSize - base, x.xattrs);
    ghost var front := hdr + Ibody(x.xattrs);
    match x.data {
      case RegularFile(cis) =>
        CopyTable(buf, front, cis);
      case Symlink(target) =>
        FillZeros(front, target, |target|);
        CopyFromSlice(buf, base + xattrSize, target);
        assert Zeros(0) == [];
      case _ =>
        assert Zeros(0) == [];
    }
    assert buf[..] == front + TailOf(x.data);
    SetCount(zeroCount, x.isExtended, icount, Ibody(x.xattrs), TailOf(x.data));
    if icount > 0 {
      CopyFromSlice(buf, 2, PutU16(icount));
    } else {
      assert zeroCount == header;
    }
  }

  method CopyHeader(hdr: seq<byte>, metaSize: nat) returns (buf: array<byte>)
    requires |hdr| <= metaSize
    ensures fresh(buf) && buf[..] == hdr + Zeros(metaSize - |hdr|)
  {
    buf := ZeroBuffer(metaSize);
    FillZeros([], hdr, metaSize);
    assert [] + Zeros(metaSize) == Zeros(metaSize) && [] + hdr == hdr;
    CopyFromSlice(buf, 0, hdr);
  }

  method CopyXattrs(buf: array<byte>, hdr: seq<byte>, rest: nat, xs: seq<Xattr>)
    requires buf[..] == hdr + Zeros(rest) && IbodySize(xs) <= rest
    modifies buf
    ensures buf[..] == hdr + Ibody(xs) + Zeros(rest - IbodySize(xs))
  {
    TailIsZero(hdr, rest, IbodySize(xs));
    FillZeros(hdr, Ibody(xs), rest);
    var written := SerializeXattrs(buf, |hdr|, xs);
  }

  /** The loop that writes the chunk indexes behind the front part. */
  method CopyTable(buf: array<byte>, ghost front: seq<byte>, cis: seq<ChunkIndex>)
    requires buf[..] == front + Zeros(|cis| * EROFS_CHUNK_INDEX_SIZE)
    modifies buf
    ensures buf[..] == front + EncodeTable(cis)
  {
    var extentOffset := buf.Length - |cis| * EROFS_CHUNK_INDEX_SIZE;
    for i := 0 to |cis|
      invariant buf[..] == front + EncodeTable(cis[..i]) + Zeros((|cis| - i) * EROFS_CHUNK_INDEX_SIZE)
    {
      TableGrows(cis, i);
      FillZeros(front + EncodeTable(cis[..i]), EncodeIndex(cis[i]), (|cis| - i) * EROFS_CHUNK_INDEX_SIZE);
      AppendAssoc(front, EncodeTable(cis[..i]), EncodeIndex(cis[i]));
      var off := extentOffset + i * EROFS_CHUNK_INDEX_SIZE;
      CopyFromSlice(buf, off, EncodeIndex(cis[i]));
      assert (|cis| - i) * EROFS_CHUNK_INDEX_SIZE - EROFS_CHUNK_INDEX_SIZE
           == (|cis| - (i + 1)) * EROFS_CHUNK_INDEX_SIZE;
    }
    assert cis[..|cis|] == cis && Zeros(0) == [];
  }

  lemma {:induction false} TableGrows(cis: seq<ChunkIndex>, i: nat)
    requires i < |cis|
    ensures EncodeTable(cis[..i + 1]) == EncodeTable(cis[..i]) + EncodeIndex(cis[i])
    decreases i
  {
    var long, short := cis[..i + 1], cis[..i];
    if i == 0 {
      assert long[1..] == [];
    } else {
      TableGrows(cis[1..], i - 1);
      assert long[1..] == cis[1..][..i] && short[1..] == cis[1..][..i - 1];
      AppendAssoc(EncodeIndex(cis[0]), EncodeTable(short[1..]), EncodeIndex(cis[i]));
    }
  }

  lemma SetCount(h: Header, extended: bool, icount: nat, body: seq<byte>, tail: seq<byte>)
    ensures Splice(HeaderBytes(h, extended) + body + tail, 2, PutU16(icount))
            == HeaderBytes(h.(icount := icount), extended) + body + tail
  {
    var hdr := HeaderBytes(h, extended);
    SetIcount(h, extended, icount);
    SpliceFirst(hdr, body, 2, PutU16(icount));
    SpliceFirst(hdr + body, tail, 2, PutU16(icount));
  }
}
