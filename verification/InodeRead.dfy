/** What the reader sees of a single inode of an image that the builder wrote. */
module InodeRead {
  import opened Bytes
  import opened Metadata
  import opened Chunks
  import opened Inodes
  import opened Xattrs
  import opened InodeBuild
  import opened Reader
  import opened FileData
  import opened DirReader

  /** The size that the header records. */
  function StoredSize(x: InodeInfo): nat {
    if x.data.SpecialDev? || x.data.SpecialNoData? then 0 else x.size
  }

  /** What a header can hold: 16-bit ids and a 32-bit size in a compact one, a 48-bit start block in any. */
  predicate Fits(x: InodeInfo) {
    && (!x.isExtended ==> StoredSize(x) < TWO_32 && x.uid < TWO_16 && x.gid < TWO_16)
    && (x.data.Directory? ==> x.data.startblk < TWO_48)
  }

  predicate Args(x: InodeInfo, epoch: nat, chunkbits: nat) {
    InodeBuild.Typed(x) && epoch < TWO_64 && EROFS_BLKSZBITS <= chunkbits < 32
  }

  lemma HeaderFitsExact(x: InodeInfo, epoch: nat, chunkbits: nat)
    requires Args(x, epoch, chunkbits)
    ensures HeaderFits(HeaderOf(x, epoch, chunkbits), x.isExtended) <==> Fits(x)
  {
    FormatRoundTrip(LayoutOf(x.data), !x.data.Directory?);
    if x.data.Directory? {
      HighPart(x.data.startblk);
    }
  }

  lemma HighPart(a: nat)
    ensures a / TWO_32 < TWO_16 <==> a < TWO_48
    ensures a % TWO_32 + a / TWO_32 * TWO_32 == a
  {
  }

  function ViewOf(x: InodeInfo, epoch: nat, chunkbits: nat): ErofsInode
    requires Args(x, epoch, chunkbits) && Fits(x)
  {
    HeaderFitsExact(x, epoch, chunkbits);
    InodeView(x.isExtended, HeaderOf(x, epoch, chunkbits))
  }

  /** Inode `x` is where the reader looks for `nid`, with 64 bytes to spare. */
  ghost predicate Present(r: ErofsReader, nid: nat, x: InodeInfo, epoch: nat, chunkbits: nat)
    requires Args(x, epoch, chunkbits)
  {
    && InodeOffset(r, nid) + 64 <= |r.mmap|
    && StoredAt(r.mmap, InodeOffset(r, nid), InodeBytes(x, epoch, chunkbits))
  }

  lemma WindowStarts(dev: seq<byte>, at: nat, hdr: seq<byte>, rest: seq<byte>, n: nat)
    requires StoredAt(dev, at, hdr + rest) && |hdr| <= n && at + n <= |dev|
    ensures hdr <= dev[at..at + n]
  {
    SubSlice(dev, at, at + |hdr + rest|, 0, |hdr|);
    SubSlice(dev, at, at + n, 0, |hdr|);
    assert (hdr + rest)[0..|hdr|] == hdr;
  }

  /** The reader gets back the header that was written exactly when its values fit the fields. */
  lemma ReadInodeExact(r: ErofsReader, nid: nat, x: InodeInfo, epoch: nat, chunkbits: nat)
    requires Args(x, epoch, chunkbits) && Present(r, nid, x, epoch, chunkbits)
    ensures Fits(x) ==> ReadInode(r, nid) == Ok(ViewOf(x, epoch, chunkbits))
    ensures Fits(x) <==> && ReadInode(r, nid).Ok? && ReadInode(r, nid).value.extended == x.isExtended
                         && ReadInode(r, nid).value.h == HeaderOf(x, epoch, chunkbits)
  {
    hide HeaderOf, HeaderBytes, InodeBytes, InodeOffset, Cast;
    HeaderFitsExact(x, epoch, chunkbits);
    if Fits(x) {
      HeaderStored(r, nid, x, epoch, chunkbits);
      HeaderRead(r, nid, HeaderOf(x, epoch, chunkbits), x.isExtended, Ibody(x.xattrs), TailOf(x.data));
    }
  }

  lemma HeaderStored(r: ErofsReader, nid: nat, x: InodeInfo, epoch: nat, chunkbits: nat)
    requires Args(x, epoch, chunkbits) && Present(r, nid, x, epoch, chunkbits)
    ensures StoredAt(r.mmap, InodeOffset(r, nid),
                     HeaderBytes(HeaderOf(x, epoch, chunkbits), x.isExtended) + Ibody(x.xattrs) + TailOf(x.data))
  {
    hide HeaderOf, HeaderBytes, InodeOffset, Ibody, TailOf;
  }

  lemma HeaderRead(r: ErofsReader, nid: nat, h: Header, extended: bool, body: seq<byte>, tail: seq<byte>)
    requires HeaderFits(h, extended) && InodeOffset(r, nid) + 64 <= |r.mmap|
    requires StoredAt(r.mmap, InodeOffset(r, nid), HeaderBytes(h, extended) + body + tail)
    ensures ReadInode(r, nid) == Ok(InodeView(extended, h))
  {
    hide HeaderBytes, InodeOffset, Cast, StoredAt;
    var at := InodeOffset(r, nid);
    HeaderInWindow(r.mmap, at, HeaderBytes(h, extended), body, tail);
    HeaderRoundTrip(h, extended, r.mmap[at..at + 64]);
  }

  lemma HeaderInWindow(dev: seq<byte>, at: nat, hdr: seq<byte>, body: seq<byte>, tail: seq<byte>)
    requires StoredAt(dev, at, hdr + body + tail) && |hdr| <= 64 && at + 64 <= |dev|
    ensures hdr <= dev[at..at + 64]
  {
    AppendAssoc(hdr, body, tail);
    WindowStarts(dev, at, hdr, body + tail, 64);
  }

  /** The attributes of the file, as the reader reports them; mtime by its own rule. */
  lemma AttributesPreserved(x: InodeInfo, epoch: nat, chunkbits: nat)
    requires Args(x, epoch, chunkbits) && Fits(x)
    ensures var v := ViewOf(x, epoch, chunkbits);
            && v.h.mode == x.mode && v.h.uid == x.uid && v.h.gid == x.gid
            && v.h.ino == x.ino && Size(v) == StoredSize(x)
            && (v.h.nlink == x.nlink <==> x.isExtended || x.nlink == 1)
            && (v.h.mtimeNsec == x.mtimeNsec <==> x.isExtended || x.mtimeNsec == 0)
            && (x.data.SpecialDev? ==> v.h.iU == x.data.rdev)
            && (Mtime(v, epoch) == x.mtime <==> x.isExtended || (x.mtime + TWO_64 - epoch) % TWO_64 < TWO_32)
  {
    MtimeExact(ViewOf(x, epoch, chunkbits), x.mtime, epoch);
  }

  /** A compact inode of a file that was changed one nanosecond after the epoch. */
  const NANO_FILE := InodeInfo(0x81A4, 0, 0, 0, 0, 1, 1, 1, 0, 0, false, RegularFile([]), [])

  lemma NanosecondIsLost()
    ensures Args(NANO_FILE, 0, 12) && Fits(NANO_FILE) && ViewOf(NANO_FILE, 0, 12).h.mtimeNsec != NANO_FILE.mtimeNsec
  {
    AttributesPreserved(NANO_FILE, 0, 12);
  }

  lemma LayoutRead(x: InodeInfo, epoch: nat, chunkbits: nat)
    requires Args(x, epoch, chunkbits) && Fits(x)
    ensures DataLayout(ViewOf(x, epoch, chunkbits)) == LayoutOf(x.data)
  {
    FormatRoundTrip(LayoutOf(x.data), !x.data.Directory?);
  }

  // ------------------------------------------------------------------
  // The three parts of an inode
  // ------------------------------------------------------------------

  lemma PartStored(dev: seq<byte>, at: nat, a: seq<byte>, b: seq<byte>, c: seq<byte>, n: nat, m: nat)
    requires StoredAt(dev, at, a + b + c) && n == |a| && m == |b|
    ensures StoredAt(dev, at + n, b) && StoredAt(dev, at + n + m, c)
  {
    var whole := a + b + c;
    SubSlice(dev, at, at + |whole|, |a|, |a| + |b|);
    SubSlice(dev, at, at + |whole|, |a| + |b|, |whole|);
    assert whole[|a|..|a| + |b|] == b && whole[|a| + |b|..|whole|] == c;
  }

  lemma Parts(r: ErofsReader, nid: nat, x: InodeInfo, epoch: nat, chunkbits: nat)
    requires Args(x, epoch, chunkbits) && Present(r, nid, x, epoch, chunkbits)
    ensures StoredAt(r.mmap, InodeOffset(r, nid) + HeaderSizeOf(x.isExtended), Ibody(x.xattrs))
    ensures StoredAt(r.mmap, InodeOffset(r, nid) + HeaderSizeOf(x.isExtended) + IbodySize(x.xattrs), TailOf(x.data))
  {
    hide HeaderOf, HeaderBytes, Ibody, TailOf, InodeOffset, StoredAt;
    PartStored(r.mmap, InodeOffset(r, nid), HeaderBytes(HeaderOf(x, epoch, chunkbits), x.isExtended),
               Ibody(x.xattrs), TailOf(x.data), HeaderSizeOf(x.isExtended), IbodySize(x.xattrs));
  }

  /**
   * The reader looks for the chunk table or the symlink target where the builder put it exactly when the
   * xattr body is within the limit of its count; otherwise it looks at least 256 KiB too early.
   */
  lemma TailAddressExact(x: InodeInfo, epoch: nat, chunkbits: nat)
    requires Args(x, epoch, chunkbits) && Fits(x)
    ensures var v, tail := ViewOf(x, epoch, chunkbits), |InodeBytes(x, epoch, chunkbits)| - |TailOf(x.data)|;
            && (HeaderSize(v) + XattrSize(v) == tail <==> BodyFits(x))
            && (!BodyFits(x) ==> HeaderSize(v) + XattrSize(v) + 262144 <= tail)
  {
    IcountRecoversSize(x.xattrs);
  }

  /** The stored xattr count leads to the tail exactly when the body is within the limit of its field. */
  predicate BodyFits(x: InodeInfo) {
    IbodySize(x.xattrs) <= MAX_IBODY_SIZE
  }

  lemma FrontSlice(dev: seq<byte>, at: nat, d: seq<byte>, n: nat)
    requires StoredAt(dev, at, d) && n <= |d| && |dev| < TWO_64
    ensures SliceOf(dev, Wrap64(at), n) == Ok(d[..n])
  {
    StoredSlice(dev, at, d, 0, n);
    assert at + 0 == at && d[0..n] == d[..n];
  }

  /** What the reader takes for the chunk table or the symlink target: as many bytes, behind the visible xattr body. */
  function FoundTail(x: InodeInfo, epoch: nat, chunkbits: nat): (d: seq<byte>)
    requires Args(x, epoch, chunkbits)
    ensures |d| == |TailOf(x.data)|
  {
    IcountRecoversSize(x.xattrs);
    var at := HeaderSizeOf(x.isExtended) + XattrSizeOf(XattrIcount(IbodySize(x.xattrs)));
    InodeBytes(x, epoch, chunkbits)[at..at + |TailOf(x.data)|]
  }

  lemma LastPart(a: seq<byte>, b: seq<byte>, c: seq<byte>)
    ensures (a + b + c)[|a| + |b|..|a| + |b| + |c|] == c
  {
  }

  /** Within the limit of the count that is what the builder put there. */
  lemma TailKept(x: InodeInfo, epoch: nat, chunkbits: nat)
    requires Args(x, epoch, chunkbits) && BodyFits(x)
    ensures FoundTail(x, epoch, chunkbits) == TailOf(x.data)
  {
    IcountRecoversSize(x.xattrs);
    LastPart(HeaderBytes(HeaderOf(x, epoch, chunkbits), x.isExtended), Ibody(x.xattrs), TailOf(x.data));
  }

  lemma SliceFound(r: ErofsReader, nid: nat, v: ErofsInode, d: seq<byte>, at: nat, n: nat)
    requires StoredAt(r.mmap, InodeOffset(r, nid), d) && at == HeaderSize(v) + XattrSize(v) && at + n <= |d|
    ensures MmapSlice(r, InlineAddr(r, nid, v, 0), n) == Ok(d[at..at + n])
  {
    StoredSlice(r.mmap, InodeOffset(r, nid), d, at, n);
    assert InodeOffset(r, nid) + HeaderSize(v) + XattrSize(v) + 0 == InodeOffset(r, nid) + at;
  }

  lemma TailFound(r: ErofsReader, nid: nat, x: InodeInfo, epoch: nat, chunkbits: nat)
    requires Args(x, epoch, chunkbits) && Present(r, nid, x, epoch, chunkbits) && Fits(x)
    ensures MmapSlice(r, InlineAddr(r, nid, ViewOf(x, epoch, chunkbits), 0), |TailOf(x.data)|)
            == Ok(FoundTail(x, epoch, chunkbits))
  {
    hide HeaderBytes, Ibody, IbodySize, TailOf;
    IcountRecoversSize(x.xattrs);
    SliceFound(r, nid, ViewOf(x, epoch, chunkbits), InodeBytes(x, epoch, chunkbits),
               HeaderSizeOf(x.isExtended) + XattrSizeOf(XattrIcount(IbodySize(x.xattrs))), |TailOf(x.data)|);
  }

  /** A regular file without chunks whose five xattrs take 327712 bytes. */
  const LARGE_BODY := InodeInfo(0x81A4, 0, 0, 0, 0, 0, 1, 1, 0, 0, false, RegularFile([]),
                                seq(5, _ => Xattr(1, [97], Zeros(65535))))

  lemma LargeBodyMovesTail()
    ensures Args(LARGE_BODY, 0, 12) && Fits(LARGE_BODY) && AllFit(LARGE_BODY.xattrs)
    ensures var v, tail := ViewOf(LARGE_BODY, 0, 12), |InodeBytes(LARGE_BODY, 0, 12)| - |TailOf(LARGE_BODY.data)|;
            HeaderSize(v) + XattrSize(v) + 262144 <= tail
  {
    var x := Xattr(1, [97], Zeros(65535));
    assert LARGE_BODY.xattrs == seq(5, _ => x);
    assert XattrEntrySize(x) == 65540;
    SameEntries(x, 5);
    TailAddressExact(LARGE_BODY, 0, 12);
  }

  lemma {:induction false} SameEntries(x: Xattr, n: nat)
    ensures XattrEntriesSize(seq(n, _ => x)) == n * XattrEntrySize(x)
  {
    if n > 0 {
      SameEntries(x, n - 1);
      assert seq(n, _ => x)[1..] == seq(n - 1, _ => x);
    }
  }

  // ------------------------------------------------------------------
  // Xattrs
  // ------------------------------------------------------------------

  /** `read_xattrs` parses the bytes of the body that the stored count covers. */
  lemma VisibleBody(r: ErofsReader, nid: nat, x: InodeInfo, epoch: nat, chunkbits: nat)
    requires Args(x, epoch, chunkbits) && Present(r, nid, x, epoch, chunkbits) && Fits(x)
    ensures IbodyOf(r, nid, ViewOf(x, epoch, chunkbits)) == Ok(VisibleIbody(x.xattrs))
  {
    Parts(r, nid, x, epoch, chunkbits);
    IcountRecoversSize(x.xattrs);
    FrontOfBody(r, nid, ViewOf(x, epoch, chunkbits), Ibody(x.xattrs));
  }

  lemma FrontOfBody(r: ErofsReader, nid: nat, v: ErofsInode, body: seq<byte>)
    requires StoredAt(r.mmap, InodeOffset(r, nid) + HeaderSize(v), body) && XattrSize(v) <= |body|
    ensures IbodyOf(r, nid, v) == Ok(body[..XattrSize(v)])
  {
    FrontSlice(r.mmap, InodeOffset(r, nid) + HeaderSize(v), body, XattrSize(v));
  }

  /** The xattrs of a file come back, names and values, exactly when each entry and the body fit their fields. */
  lemma XattrsExact(r: ErofsReader, nid: nat, x: InodeInfo, epoch: nat, chunkbits: nat)
    requires Args(x, epoch, chunkbits) && Present(r, nid, x, epoch, chunkbits) && Fits(x)
    ensures XattrsOf(r, nid, ViewOf(x, epoch, chunkbits)) == Ok(Named(XattrPrefix, x.xattrs))
            <==> AllFit(x.xattrs) && BodyFits(x)
  {
    VisibleBody(r, nid, x, epoch, chunkbits);
    IbodyRoundTripExact(XattrPrefix, x.xattrs);
  }

  // ------------------------------------------------------------------
  // Symlinks
  // ------------------------------------------------------------------

  /**
   * A symlink reads back exactly when its target is shorter than a block and stands behind the visible xattr
   * body, where it is when the body is within its limit. From 4096 bytes on the reader looks for the target in
   * block 0 of the image, whose first byte is 0.
   */
  lemma SymlinkExact(r: ErofsReader, nid: nat, x: InodeInfo, epoch: nat, chunkbits: nat)
    requires Args(x, epoch, chunkbits) && Present(r, nid, x, epoch, chunkbits) && Fits(x)
    requires x.data.Symlink? && x.size == |x.data.target| && (x.size > 0 ==> x.data.target[0] != 0)
    requires |r.mmap| > 0 && r.mmap[0] == 0
    ensures ReadSymlink(r, nid, ViewOf(x, epoch, chunkbits)) == Ok(x.data.target)
            <==> |x.data.target| < 4096 && FoundTail(x, epoch, chunkbits) == x.data.target
    ensures BodyFits(x) ==> FoundTail(x, epoch, chunkbits) == x.data.target
  {
    if BodyFits(x) {
      TailKept(x, epoch, chunkbits);
    }
    var v := ViewOf(x, epoch, chunkbits);
    LayoutRead(x, epoch, chunkbits);
    TailFound(r, nid, x, epoch, chunkbits);
    assert Size(v) == x.size && Startblk(v) == 0;
    if x.size >= 4096 {
      WholeBlocksPart(x.size);
      FirstByteOfBlocks(r, nid, v);
    } else {
      SmallTail(x.size);
    }
  }

  /** A symlink whose target is 4096 times the letter "a". */
  const LONG_LINK := InodeInfo(0xA1FF, 0, 0, 4096, 0, 0, 1, 1, 0, 0, false, Symlink(seq(4096, _ => 97)), [])

  lemma LongTargetIsLost(r: ErofsReader, nid: nat)
    requires Args(LONG_LINK, 0, 12) && Present(r, nid, LONG_LINK, 0, 12) && |r.mmap| > 0 && r.mmap[0] == 0
    ensures Fits(LONG_LINK) && ReadSymlink(r, nid, ViewOf(LONG_LINK, 0, 12)) != Ok(LONG_LINK.data.target)
  {
    SymlinkExact(r, nid, LONG_LINK, 0, 12);
  }

  lemma WholeBlocksPart(n: nat)
    requires n >= 4096
    ensures n - TailSize(n) >= 4096
  {
  }

  lemma SmallTail(n: nat)
    requires n < 4096
    ensures TailSize(n) == n
  {
  }

  /** A FLAT_INLINE file of whole blocks that claims to start at block 0 begins with the first byte of the image. */
  lemma FirstByteOfBlocks(r: ErofsReader, nid: nat, v: ErofsInode)
    requires DataLayout(v) == EROFS_INODE_FLAT_INLINE && BlocksSize(v) > 0 && Startblk(v) == 0
    ensures ReadSymlink(r, nid, v).Ok? ==>
              |ReadSymlink(r, nid, v).value| > 0 && ReadSymlink(r, nid, v).value[0] == r.mmap[0]
  {
    assert BlockAddr(v, 0) == 0;
  }

  // ------------------------------------------------------------------
  // Regular files
  // ------------------------------------------------------------------

  lemma ChunkFormatBits(chunkbits: nat)
    requires EROFS_BLKSZBITS <= chunkbits < 32
    ensures EROFS_BLKSZBITS + (ChunkFormatOf(chunkbits) % TWO_16) % 32 == chunkbits
  {
  }

  /** Where the format document puts the chunk table: behind the header and the xattrs, rounded up to 8 bytes. */
  function DocumentedTableOffset(extended: bool, ibodySize: nat): nat {
    (HeaderSizeOf(extended) + ibodySize + 7) / 8 * 8
  }

  /**
   * The reader looks for the table in the documented place exactly when the xattrs fill whole 8 bytes and are
   * within the limit of their count; the builder puts it there exactly when they fill whole 8 bytes.
   */
  lemma TableOffsetExact(x: InodeInfo, epoch: nat, chunkbits: nat)
    requires Args(x, epoch, chunkbits) && Fits(x)
    ensures var v, documented := ViewOf(x, epoch, chunkbits), DocumentedTableOffset(x.isExtended, IbodySize(x.xattrs));
            && (HeaderSize(v) + XattrSize(v) == documented <==> BodyFits(x) && IbodySize(x.xattrs) % 8 == 0)
            && (|InodeBytes(x, epoch, chunkbits)| - |TailOf(x.data)| == documented <==> IbodySize(x.xattrs) % 8 == 0)
  {
    hide HeaderBytes, Ibody;
    IcountRecoversSize(x.xattrs);
    RoundUp8Exact(HeaderSizeOf(x.isExtended), IbodySize(x.xattrs));
  }

  /** A regular file of one chunk with the xattr "user.a", whose body of 20 bytes leaves the table at byte 52. */
  const ODD_BODY := InodeInfo(0x81A4, 0, 0, 1, 0, 0, 1, 1, 0, 0, false, RegularFile([ChunkIndex(0, 1)]),
                              [Xattr(1, [97], [])])

  lemma OddBodyMovesTable()
    ensures Args(ODD_BODY, 0, 12) && Fits(ODD_BODY)
    ensures HeaderSize(ViewOf(ODD_BODY, 0, 12)) + XattrSize(ViewOf(ODD_BODY, 0, 12)) == 52
    ensures DocumentedTableOffset(ODD_BODY.isExtended, IbodySize(ODD_BODY.xattrs)) == 56
  {
    assert ODD_BODY.xattrs[1..] == [];
    assert IbodySize(ODD_BODY.xattrs) == 20;
    IcountRecoversSize(ODD_BODY.xattrs);
  }

  lemma RoundUp8Exact(h: nat, n: nat)
    requires h % 8 == 0
    ensures (h + n + 7) / 8 * 8 == h + n <==> n % 8 == 0
  {
  }

  /** A chunk table that stands where the reader looks for it reads back index for index. */
  lemma TableFound(r: ErofsReader, nid: nat, x: InodeInfo, epoch: nat, chunkbits: nat)
    requires Args(x, epoch, chunkbits) && Present(r, nid, x, epoch, chunkbits) && Fits(x)
    requires FoundTail(x, epoch, chunkbits) == TailOf(x.data)
    requires Blkszbits(r) == EROFS_BLKSZBITS && x.data.RegularFile? && Addressable(x.data.chunkIndexes)
    requires |x.data.chunkIndexes| == DivCeil(x.size, Pow2(chunkbits))
    ensures var v := ViewOf(x, epoch, chunkbits);
            && ChunkSize(r, v) == Pow2(chunkbits) && NChunks(r, v) == |x.data.chunkIndexes|
            && ChunkIndexes(r, nid, v) == Ok(EncodeTable(x.data.chunkIndexes))
            && DecodeTable(EncodeTable(x.data.chunkIndexes), NChunks(r, v)) == x.data.chunkIndexes
  {
    LayoutRead(x, epoch, chunkbits);
    ChunkFormatBits(chunkbits);
    TailFound(r, nid, x, epoch, chunkbits);
    TableRoundTrip(x.data.chunkIndexes);
  }

  /**
   * A regular file whose table stands where the reader looks for it (as it does behind every xattr body within
   * the limit) and whose chunks are where its indexes say: every read, at any offset and of any size, gives the
   * slice of its content.
   */
  lemma FileReads(r: ErofsReader, nid: nat, x: InodeInfo, epoch: nat, chunkbits: nat, content: seq<byte>, offset: nat,
                  size: nat)
    requires Args(x, epoch, chunkbits) && Present(r, nid, x, epoch, chunkbits) && Fits(x)
    requires FoundTail(x, epoch, chunkbits) == TailOf(x.data)
    requires Blkszbits(r) == EROFS_BLKSZBITS && x.data.RegularFile? && Addressable(x.data.chunkIndexes)
    requires |content| == x.size && |x.data.chunkIndexes| == DivCeil(x.size, Pow2(chunkbits))
    requires ChunksStored(r, x.data.chunkIndexes, Pow2(chunkbits), content)
    ensures var lo, hi := Min(offset, |content|), Min(offset + size, |content|);
            FileRead(r, nid, ViewOf(x, epoch, chunkbits), offset, size) == Some(content[lo..hi])
  {
    var v := ViewOf(x, epoch, chunkbits);
    LayoutRead(x, epoch, chunkbits);
    TableFound(r, nid, x, epoch, chunkbits);
    FileReadIsSlice(r, nid, v, content, offset, size);
  }
}
