/** The image reader: slices, inodes and flat data (src/fs/mod.rs, src/fs/meta.rs). */
module Reader {
  import opened Bytes
  import opened Metadata
  import opened Inodes
  import opened Layout

  /** Both devices are mapped for reading and never change. */
  datatype ReaderData = ReaderData(mmap: seq<byte>, blobMmap: Option<seq<byte>>)

  predicate HasSuperblock(mmap: seq<byte>) {
    EROFS_SUPER_OFFSET + EROFS_SB_BASE_SIZE <= |mmap| < TWO_64
  }

  /** A reader that `open` accepted: the mapping covers the superblock. */
  type ErofsReader = r: ReaderData | HasSuperblock(r.mmap)
    witness ReaderData(Zeros(EROFS_SUPER_OFFSET + EROFS_SB_BASE_SIZE), None)

  /** `ErofsReader::open` on mapped files. */
  function Open(mmap: seq<byte>, blob: Option<seq<byte>>): Result<ErofsReader>
    requires |mmap| < TWO_64
  {
    if |mmap| < EROFS_SUPER_OFFSET + EROFS_SB_BASE_SIZE then Err(UnexpectedEof)
    else if GetU32(mmap, EROFS_SUPER_OFFSET) != EROFS_SUPER_MAGIC_V1 then Err(InvalidData)
    else Ok(ReaderData(mmap, blob))
  }

  function Blkszbits(r: ErofsReader): nat {
    r.mmap[EROFS_SUPER_OFFSET + 12]
  }

  function RootNid(r: ErofsReader): (n: nat)
    ensures n < TWO_16
  {
    GetU16(r.mmap, EROFS_SUPER_OFFSET + 14)
  }

  function Epoch(r: ErofsReader): nat {
    GetU64(r.mmap, EROFS_SUPER_OFFSET + 24)
  }

  function MetaBlkaddr(r: ErofsReader): nat {
    GetU32(r.mmap, EROFS_SUPER_OFFSET + 40)
  }

  function SliceOf(dev: seq<byte>, offset: nat, len: nat): Result<seq<byte>> {
    if offset + len >= TWO_64 then Err(InvalidInput)
    else if offset + len > |dev| then Err(UnexpectedEof)
    else Ok(dev[offset..offset + len])
  }

  function MmapSlice(r: ErofsReader, offset: nat, len: nat): Result<seq<byte>> {
    SliceOf(r.mmap, offset, len)
  }

  function BlobMmapSlice(r: ErofsReader, offset: nat, len: nat): Result<seq<byte>> {
    match r.blobMmap
    case None => Err(NotFound)
    case Some(blob) => SliceOf(blob, offset, len)
  }

  function InodeOffset(r: ErofsReader, nid: nat): (o: nat)
    ensures o < TWO_64
  {
    NidToOffset(MetaBlkaddr(r), nid)
  }

  /** `ErofsReader::inode`: always maps the 64 bytes of an extended header. */
  function ReadInode(r: ErofsReader, nid: nat): Result<ErofsInode> {
    var data :- MmapSlice(r, InodeOffset(r, nid), EROFS_INODE_EXTENDED_SIZE);
    Cast(data)
  }

  // ------------------------------------------------------------------
  // Flat data
  // ------------------------------------------------------------------

  function TailSize(fileSize: nat): (t: nat)
    ensures t <= fileSize
  {
    if fileSize % EROFS_BLOCK_SIZE == 0 && fileSize > 0 then 0 else fileSize % EROFS_BLOCK_SIZE
  }

  /** How much of a FLAT_INLINE file lies in whole blocks; the rest follows the inode. */
  function BlocksSize(v: ErofsInode): (b: nat)
    ensures b <= Size(v)
  {
    Size(v) - TailSize(Size(v))
  }

  function BlockAddr(v: ErofsInode, offset: nat): nat {
    Wrap64(Startblk(v) * EROFS_BLOCK_SIZE + offset)
  }

  function InlineAddr(r: ErofsReader, nid: nat, v: ErofsInode, offset: nat): nat {
    Wrap64(InodeOffset(r, nid) + HeaderSize(v) + XattrSize(v) + offset)
  }

  /** `read_flat_data`: one slice of the mapping, or an error when the range spans blocks and tail. */
  function ReadFlatData(r: ErofsReader, nid: nat, v: ErofsInode, offset: nat, size: nat): Result<seq<byte>>
    requires offset + size <= Size(v)
  {
    if DataLayout(v) == EROFS_INODE_FLAT_PLAIN then
      MmapSlice(r, BlockAddr(v, offset), size)
    else if DataLayout(v) == EROFS_INODE_FLAT_INLINE then
      if BlocksSize(v) == 0 then
        MmapSlice(r, InlineAddr(r, nid, v, offset), size)
      else if offset < BlocksSize(v) && offset + size <= BlocksSize(v) then
        MmapSlice(r, BlockAddr(v, offset), size)
      else if offset >= BlocksSize(v) then
        MmapSlice(r, InlineAddr(r, nid, v, offset - BlocksSize(v)), size)
      else
        Err(InvalidData)
    else Err(InvalidData)
  }

  /** The guard shared by `read_flat_data_vec` and `write_flat_data_to`. */
  predicate Spans(v: ErofsInode, offset: nat, size: nat) {
    DataLayout(v) == EROFS_INODE_FLAT_INLINE && 0 < BlocksSize(v) && offset < BlocksSize(v) < offset + size
  }

  /** `read_flat_data_vec`: as above, and two slices put together when the range spans both parts. */
  function ReadFlatDataVec(r: ErofsReader, nid: nat, v: ErofsInode, offset: nat, size: nat): Result<seq<byte>>
    requires offset + size <= Size(v)
  {
    if Spans(v, offset, size) then
      var blockReadSize := BlocksSize(v) - offset;
      var blockData :- MmapSlice(r, BlockAddr(v, offset), blockReadSize);
      var inlineData :- MmapSlice(r, InlineAddr(r, nid, v, 0), size - blockReadSize);
      Ok(blockData + inlineData)
    else
      ReadFlatData(r, nid, v, offset, size)
  }

  function ReadSymlink(r: ErofsReader, nid: nat, v: ErofsInode): Result<seq<byte>> {
    ReadFlatDataVec(r, nid, v, 0, Size(v))
  }

  // ------------------------------------------------------------------
  // Flat reads are slices of one content
  // ------------------------------------------------------------------

  /** The bytes `d` lie in `dev` at `at`. */
  predicate StoredAt(dev: seq<byte>, at: nat, d: seq<byte>) {
    at + |d| <= |dev| && dev[at..at + |d|] == d
  }

  lemma StoredSlice(dev: seq<byte>, at: nat, d: seq<byte>, a: nat, n: nat)
    requires StoredAt(dev, at, d) && a + n <= |d| && |dev| < TWO_64
    ensures Wrap64(at + a) == at + a && SliceOf(dev, Wrap64(at + a), n) == Ok(d[a..a + n])
  {
    SubSlice(dev, at, at + |d|, a, a + n);
  }

  lemma StoredStays(dev: seq<byte>, more: seq<byte>, at: nat, d: seq<byte>)
    requires StoredAt(dev, at, d) && dev <= more
    ensures StoredAt(more, at, d)
  {
    assert more[at..at + |d|] == more[..|dev|][at..at + |d|];
  }

  lemma StoredByte(dev: seq<byte>, at: nat, d: seq<byte>, i: nat)
    requires StoredAt(dev, at, d) && i < |d|
    ensures at + i < |dev| && dev[at + i] == d[i]
  {
    assert dev[at..at + |d|][i] == dev[at + i];
  }

  /** The content of a flat file: its blocks at the start block, and for FLAT_INLINE the tail after the inode. */
  predicate FlatStored(r: ErofsReader, nid: nat, v: ErofsInode, content: seq<byte>) {
    && |content| == Size(v)
    && (DataLayout(v) == EROFS_INODE_FLAT_PLAIN || DataLayout(v) == EROFS_INODE_FLAT_INLINE)
    && (DataLayout(v) == EROFS_INODE_FLAT_PLAIN ==> StoredAt(r.mmap, Startblk(v) * EROFS_BLOCK_SIZE, content))
    && (DataLayout(v) == EROFS_INODE_FLAT_INLINE ==>
        && (BlocksSize(v) > 0 ==> StoredAt(r.mmap, Startblk(v) * EROFS_BLOCK_SIZE, content[..BlocksSize(v)]))
        && StoredAt(r.mmap, InodeOffset(r, nid) + HeaderSize(v) + XattrSize(v), content[BlocksSize(v)..]))
  }

  /**
   * Every read inside the file gives the slice of the content; the one-slice variant succeeds exactly
   * when the range does not span blocks and tail, and then with the same bytes.
   */
  lemma FlatReadsRefineContent(r: ErofsReader, nid: nat, v: ErofsInode, content: seq<byte>, offset: nat, size: nat)
    requires FlatStored(r, nid, v, content) && offset + size <= |content|
    ensures ReadFlatDataVec(r, nid, v, offset, size) == Ok(content[offset..offset + size])
    ensures ReadFlatData(r, nid, v, offset, size).Ok? <==> !Spans(v, offset, size)
    ensures ReadFlatData(r, nid, v, offset, size).Ok? ==>
              ReadFlatData(r, nid, v, offset, size) == Ok(content[offset..offset + size])
  {
    if DataLayout(v) == EROFS_INODE_FLAT_PLAIN {
      StoredSlice(r.mmap, Startblk(v) * EROFS_BLOCK_SIZE, content, offset, size);
    } else {
      InlineReadsRefineContent(r, nid, v, content, offset, size);
    }
  }

  /** The four ways a FLAT_INLINE read can fall: in the blocks, in the tail, across both. */
  lemma InlineReadsRefineContent(r: ErofsReader, nid: nat, v: ErofsInode, content: seq<byte>, offset: nat, size: nat)
    requires FlatStored(r, nid, v, content) && offset + size <= |content|
    requires DataLayout(v) == EROFS_INODE_FLAT_INLINE
    ensures ReadFlatDataVec(r, nid, v, offset, size) == Ok(content[offset..offset + size])
    ensures ReadFlatData(r, nid, v, offset, size).Ok? <==> !Spans(v, offset, size)
    ensures ReadFlatData(r, nid, v, offset, size).Ok? ==>
              ReadFlatData(r, nid, v, offset, size) == Ok(content[offset..offset + size])
  {
    hide MmapSlice, InlineAddr, BlockAddr, TailSize;
    var bs := BlocksSize(v);
    if offset >= bs {
      TailPart(r, nid, v, content, offset, size);
    } else if offset + size <= bs {
      BlockPart(r, nid, v, content, offset, size);
    } else {
      BlockPart(r, nid, v, content, offset, bs - offset);
      TailPart(r, nid, v, content, bs, offset + size - bs);
      assert content[offset..bs] + content[bs..offset + size] == content[offset..offset + size];
    }
  }

  lemma BlockPart(r: ErofsReader, nid: nat, v: ErofsInode, content: seq<byte>, offset: nat, size: nat)
    requires FlatStored(r, nid, v, content) && DataLayout(v) == EROFS_INODE_FLAT_INLINE
    requires offset + size <= BlocksSize(v) && BlocksSize(v) > 0
    ensures MmapSlice(r, BlockAddr(v, offset), size) == Ok(content[offset..offset + size])
  {
    StoredSlice(r.mmap, Startblk(v) * EROFS_BLOCK_SIZE, content[..BlocksSize(v)], offset, size);
    SubSlice(content, 0, BlocksSize(v), offset, offset + size);
  }

  lemma TailPart(r: ErofsReader, nid: nat, v: ErofsInode, content: seq<byte>, offset: nat, size: nat)
    requires FlatStored(r, nid, v, content) && DataLayout(v) == EROFS_INODE_FLAT_INLINE
    requires BlocksSize(v) <= offset && offset + size <= |content|
    ensures MmapSlice(r, InlineAddr(r, nid, v, offset - BlocksSize(v)), size) == Ok(content[offset..offset + size])
  {
    hide SliceOf, TailSize;
    var bs := BlocksSize(v);
    StoredSlice(r.mmap, InodeOffset(r, nid) + HeaderSize(v) + XattrSize(v), content[bs..], offset - bs, size);
    DropSlice(content, bs, offset, offset + size);
  }

  lemma WrapShift(base: nat, a: nat)
    requires Wrap64(base) + a < TWO_64
    ensures Wrap64(base + a) == Wrap64(base) + a
  {
    ModUnique(base + a, TWO_64, base / TWO_64, base % TWO_64 + a);
  }
}
