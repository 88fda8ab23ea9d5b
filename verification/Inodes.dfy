/** On-disk inodes: the compact and extended headers and the view over both (src/metadata/inode.rs). */
module Inodes {
  import opened Bytes
  import opened Metadata

  /** The values of a header: the arguments of the two `new` constructors and the xattr count. */
  datatype Header = Header(
    format: nat, icount: nat, mode: nat, nb: nat, size: nat, mtime: nat, mtimeNsec: nat,
    iU: nat, ino: nat, uid: nat, gid: nat, nlink: nat)

  /** The first 8 bytes of either header. */
  function CommonBytes(h: Header): (r: seq<byte>)
    ensures |r| == 8
  {
    PutU16(h.format) + PutU16(h.icount) + PutU16(h.mode) + PutU16(h.nb)
  }

  /** A 32-byte `ErofsInodeCompact`. */
  function CompactBytes(h: Header): (r: seq<byte>)
    ensures |r| == EROFS_INODE_COMPACT_SIZE
  {
    CommonBytes(h) + PutU32(h.size) + PutU32(h.mtime)
    + PutU32(h.iU) + PutU32(h.ino) + PutU16(h.uid) + PutU16(h.gid) + Zeros(4)
  }

  /** A 64-byte `ErofsInodeExtended`. */
  function ExtendedBytes(h: Header): (r: seq<byte>)
    ensures |r| == EROFS_INODE_EXTENDED_SIZE
  {
    CommonBytes(h) + PutU64(h.size) + PutU32(h.iU) + PutU32(h.ino) + PutU32(h.uid) + PutU32(h.gid)
    + PutU64(h.mtime) + PutU32(h.mtimeNsec) + PutU32(h.nlink) + Zeros(16)
  }

  function HeaderBytes(h: Header, extended: bool): (r: seq<byte>)
    ensures |r| == HeaderSizeOf(extended)
  {
    if extended then ExtendedBytes(h) else CompactBytes(h)
  }

  function HeaderSizeOf(extended: bool): nat {
    if extended then EROFS_INODE_EXTENDED_SIZE else EROFS_INODE_COMPACT_SIZE
  }

  /** The widths of the fields, which differ between the variants; bit 0 of the format is the variant. */
  predicate HeaderFits(h: Header, extended: bool) {
    && h.format < TWO_16 && h.format % 2 == (if extended then 1 else 0)
    && h.icount < TWO_16 && h.mode < TWO_16 && h.nb < TWO_16 && h.iU < TWO_32 && h.ino < TWO_32
    && h.size < (if extended then TWO_64 else TWO_32)
    && h.uid < (if extended then TWO_32 else TWO_16)
    && h.gid < (if extended then TWO_32 else TWO_16)
    && h.mtime < (if extended then TWO_64 else TWO_32)
    && h.mtimeNsec < (if extended then TWO_32 else 1)
    && if extended then h.nlink < TWO_32 else h.nlink == 1
  }

  function DecodeCompact(d: seq<byte>): Header
    requires |d| >= EROFS_INODE_COMPACT_SIZE
  {
    Header(GetU16(d, 0), GetU16(d, 2), GetU16(d, 4), GetU16(d, 6), GetU32(d, 8), GetU32(d, 12), 0,
           GetU32(d, 16), GetU32(d, 20), GetU16(d, 24), GetU16(d, 26), 1)
  }

  function DecodeExtended(d: seq<byte>): Header
    requires |d| >= EROFS_INODE_EXTENDED_SIZE
  {
    Header(GetU16(d, 0), GetU16(d, 2), GetU16(d, 4), GetU16(d, 6), GetU64(d, 8), GetU64(d, 32), GetU32(d, 40),
           GetU32(d, 16), GetU32(d, 20), GetU32(d, 24), GetU32(d, 28), GetU32(d, 44))
  }

  datatype InodeView = InodeView(extended: bool, h: Header)

  /** The reader's view of an inode: the decoded header. Only `Cast` makes one, so its fields fit. */
  type ErofsInode = v: InodeView | HeaderFits(v.h, v.extended)
    witness InodeView(false, Header(0, 0, 0, 0, 0, 0, 0, 0, 0, 0, 0, 1))

  /** `ErofsInode::cast`: the version bit of the first field decides the variant. */
  function Cast(d: seq<byte>): (r: Result<ErofsInode>) {
    if |d| < 2 then Err(UnexpectedEof)
    else if GetU16(d, 0) % 2 == 0 then
      if |d| < EROFS_INODE_COMPACT_SIZE then Err(UnexpectedEof) else Ok(InodeView(false, DecodeCompact(d)))
    else
      if |d| < EROFS_INODE_EXTENDED_SIZE then Err(UnexpectedEof) else Ok(InodeView(true, DecodeExtended(d)))
  }

  function DataLayout(v: ErofsInode): nat {
    v.h.format / 2 % 8
  }

  function HeaderSize(v: ErofsInode): nat {
    HeaderSizeOf(v.extended)
  }

  function XattrSize(v: ErofsInode): nat {
    XattrSizeOf(v.h.icount)
  }

  function Size(v: ErofsInode): nat {
    v.h.size
  }

  /** Absolute mtime: compact inodes store an unsigned 32-bit distance from the image epoch. */
  function Mtime(v: ErofsInode, epoch: nat): nat {
    if v.extended then v.h.mtime else Wrap64(epoch + v.h.mtime)
  }

  function ChunkFormat(v: ErofsInode): nat {
    v.h.iU % TWO_16
  }

  function Startblk(v: ErofsInode): (r: nat)
    ensures r < TWO_48
  {
    v.h.nb * TWO_32 + v.h.iU
  }

  /** `compact_i_format`. */
  function CompactIFormat(datalayout: nat, nlink1: bool): nat
    requires datalayout < 8
  {
    datalayout * 2 + if nlink1 then 16 else 0
  }

  /** `extended_i_format`. */
  function ExtendedIFormat(datalayout: nat): nat
    requires datalayout < 8
  {
    1 + datalayout * 2
  }

  /** The format helpers and the accessors agree, and the variant bit is right. */
  lemma FormatRoundTrip(datalayout: nat, nlink1: bool)
    requires datalayout < 8
    ensures var f := CompactIFormat(datalayout, nlink1); f < TWO_16 && f % 2 == 0 && f / 2 % 8 == datalayout
    ensures var f := ExtendedIFormat(datalayout); f < TWO_16 && f % 2 == 1 && f / 2 % 8 == datalayout
  {
  }

  // ------------------------------------------------------------------
  // Reading back what was stored
  // ------------------------------------------------------------------

  lemma CommonStored(h: Header, d: seq<byte>)
    requires CommonBytes(h) <= d
    ensures HasU16(d, 0, h.format) && HasU16(d, 2, h.icount) && HasU16(d, 4, h.mode) && HasU16(d, 6, h.nb)
  {
  }

  lemma CommonDecodes(h: Header, d: seq<byte>)
    requires CommonBytes(h) <= d && h.format < TWO_16 && h.icount < TWO_16 && h.mode < TWO_16 && h.nb < TWO_16
    ensures GetU16(d, 0) == h.format && GetU16(d, 2) == h.icount && GetU16(d, 4) == h.mode && GetU16(d, 6) == h.nb
  {
    CommonStored(h, d);
    FieldU16(d, 0, h.format);
    FieldU16(d, 2, h.icount);
    FieldU16(d, 4, h.mode);
    FieldU16(d, 6, h.nb);
  }

  lemma CompactRoundTrip(h: Header, d: seq<byte>)
    requires HeaderFits(h, false) && CompactBytes(h) <= d
    ensures DecodeCompact(d) == h
  {
    var p0 := CommonBytes(h);
    var p1 := p0 + PutU32(h.size);
    var p2 := p1 + PutU32(h.mtime);
    var p3 := p2 + PutU32(h.iU);
    var p4 := p3 + PutU32(h.ino);
    var p5 := p4 + PutU16(h.uid);
    var p6 := p5 + PutU16(h.gid);
    assert p6 <= d;
    CommonDecodes(h, d);
    U32At(p0, h.size, d);
    U32At(p1, h.mtime, d);
    U32At(p2, h.iU, d);
    U32At(p3, h.ino, d);
    U16At(p4, h.uid, d);
    U16At(p5, h.gid, d);
  }

  lemma ExtendedRoundTrip(h: Header, d: seq<byte>)
    requires HeaderFits(h, true) && ExtendedBytes(h) <= d
    ensures DecodeExtended(d) == h
  {
    var p0 := CommonBytes(h);
    var p1 := p0 + PutU64(h.size);
    var p2 := p1 + PutU32(h.iU);
    var p3 := p2 + PutU32(h.ino);
    var p4 := p3 + PutU32(h.uid);
    var p5 := p4 + PutU32(h.gid);
    var p6 := p5 + PutU64(h.mtime);
    var p7 := p6 + PutU32(h.mtimeNsec);
    var p8 := p7 + PutU32(h.nlink);
    assert p8 <= d;
    CommonDecodes(h, d);
    U64At(p0, h.size, d);
    U32At(p1, h.iU, d);
    U32At(p2, h.ino, d);
    U32At(p3, h.uid, d);
    U32At(p4, h.gid, d);
    U64At(p5, h.mtime, d);
    U32At(p6, h.mtimeNsec, d);
    U32At(p7, h.nlink, d);
  }

  /** Casting any bytes that start with a stored header gives exactly that header. */
  lemma HeaderRoundTrip(h: Header, extended: bool, d: seq<byte>)
    requires HeaderFits(h, extended) && HeaderBytes(h, extended) <= d
    ensures Cast(d) == Ok(InodeView(extended, h))
  {
    if extended {
      ExtendedRoundTrip(h, d);
      assert GetU16(d, 0) == DecodeExtended(d).format;
    } else {
      CompactRoundTrip(h, d);
      assert GetU16(d, 0) == DecodeCompact(d).format;
    }
  }

  /** Overwriting bytes 2 and 3 sets the xattr count and nothing else. */
  lemma SetIcount(h: Header, extended: bool, icount: nat)
    ensures Splice(HeaderBytes(h, extended), 2, PutU16(icount)) == HeaderBytes(h.(icount := icount), extended)
  {
  }

  /** What `serialize_inode` stores in the mtime field of each variant. */
  function StoredMtime(mtime: nat, epoch: nat, extended: bool): (r: nat)
    requires mtime < TWO_64 && epoch < TWO_64
    ensures r < (if extended then TWO_64 else TWO_32)
  {
    if extended then mtime else Wrap64(mtime + TWO_64 - epoch) % TWO_32
  }

  /**
   * The mtime of an extended inode survives; that of a compact inode does so exactly when it lies
   * in the 32-bit window that starts at the epoch. A file older than the image is not in it.
   */
  lemma MtimeExact(v: ErofsInode, mtime: nat, epoch: nat)
    requires mtime < TWO_64 && epoch < TWO_64 && v.h.mtime == StoredMtime(mtime, epoch, v.extended)
    ensures Mtime(v, epoch) == mtime <==> v.extended || (mtime + TWO_64 - epoch) % TWO_64 < TWO_32
  {
    if !v.extended {
      var d := (mtime + TWO_64 - epoch) % TWO_64;
      assert d == if mtime >= epoch then mtime - epoch else mtime + TWO_64 - epoch;
      var e := epoch + d % TWO_32;
      assert Wrap64(e) == if e < TWO_64 then e else e - TWO_64;
    }
  }

  /** A compact inode whose file was modified `age` seconds before the epoch reads 2^32 seconds too late. */
  lemma OldMtimeIsLost(v: ErofsInode, age: nat, epoch: nat)
    requires 0 < age <= epoch && age < TWO_32 && epoch + TWO_32 <= TWO_64
    requires !v.extended && v.h.mtime == StoredMtime(epoch - age, epoch, false)
    ensures Mtime(v, epoch) == epoch - age + TWO_32
  {
    assert Wrap64(epoch - age + TWO_64 - epoch) == TWO_64 - age;
    ModUnique(TWO_64 - age, TWO_32, TWO_32 - 1, TWO_32 - age);
    assert v.h.mtime == TWO_32 - age;
  }
}
