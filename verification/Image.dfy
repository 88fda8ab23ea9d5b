/** The image file: block 0 and the metadata blocks (src/build/image.rs, src/metadata/superblock.rs). */
module Image {
  import opened Bytes
  import opened Metadata
  import opened Layout
  import opened Reader

  const EROFS_FEATURE_COMPAT_MTIME := 2
  const EROFS_FEATURE_INCOMPAT_CHUNKED_DEVICES := 12
  const EROFS_DEVICESLOT_SIZE := 128

  /** `ErofsSuperblock::new` with the values that `write_image` passes. */
  function SuperblockBytes(rootNid: nat, inos: nat, epoch: nat, blocks: nat, uuid: seq<byte>): (r: seq<byte>)
    requires |uuid| == 16
    ensures |r| == EROFS_SB_BASE_SIZE
  {
    PutU32(EROFS_SUPER_MAGIC_V1) + Zeros(4) + PutU32(EROFS_FEATURE_COMPAT_MTIME) + [EROFS_BLKSZBITS, 0]
    + PutU16(rootNid) + PutU64(inos) + PutU64(epoch) + Zeros(4) + PutU32(blocks) + PutU32(1) + Zeros(4)
    + uuid + Zeros(16) + PutU32(EROFS_FEATURE_INCOMPAT_CHUNKED_DEVICES) + Zeros(2) + PutU16(1)
    + PutU16((EROFS_SUPER_OFFSET + EROFS_SB_BASE_SIZE) / EROFS_DEVICESLOT_SIZE) + Zeros(38)
  }

  function DeviceSlotBytes(blocks: nat): (r: seq<byte>)
    ensures |r| == EROFS_DEVICESLOT_SIZE
  {
    Zeros(64) + PutU32(blocks) + Zeros(4) + PutU32(blocks / TWO_32) + Zeros(52)
  }

  /** What the superblock of an image records about it. */
  datatype Facts = Facts(rootNid: nat, inos: nat, epoch: nat, blobBlocks: nat, uuid: seq<byte>)

  predicate FactsTyped(f: Facts) {
    f.rootNid < TWO_16 && f.inos < TWO_64 && f.epoch < TWO_64 && f.blobBlocks < TWO_64 && |f.uuid| == 16
  }

  /** Block 0: 1024 zeros, the superblock, the device slot, zeros. */
  function Block0(f: Facts, blocks: nat): (r: seq<byte>)
    requires |f.uuid| == 16
    ensures |r| == EROFS_BLOCK_SIZE
  {
    Zeros(EROFS_SUPER_OFFSET) + SuperblockBytes(f.rootNid, f.inos, f.epoch, blocks, f.uuid)
    + DeviceSlotBytes(f.blobBlocks) + Zeros(2816)
  }

  /** The bytes of an image: block 0, then the metadata in whole blocks. */
  function ImageBytes(f: Facts, buf: seq<byte>): seq<byte>
    requires |f.uuid| == 16
  {
    Block0(f, 1 + RoundUpBlock(|buf|) / EROFS_BLOCK_SIZE) + Padded(buf)
  }

  /** `write_image`: block 0, the metadata buffer, padding to whole blocks. */
  method WriteImage(buf: seq<byte>, f: Facts) returns (image: seq<byte>)
    requires FactsTyped(f)
    ensures image == ImageBytes(f, buf)
  {
    var metaBlocks := DivCeil(|buf|, EROFS_BLOCK_SIZE);
    var totalBlocks := 1 + metaBlocks;
    var block0 := FillBlock0(f, totalBlocks);
    image := AppendPadded(block0[..], buf);
  }

  method FillBlock0(f: Facts, totalBlocks: nat) returns (block0: array<byte>)
    requires FactsTyped(f)
    ensures fresh(block0) && block0[..] == Block0(f, totalBlocks)
  {
    var sb := SuperblockBytes(f.rootNid, f.inos, f.epoch, totalBlocks, f.uuid);
    var slot := DeviceSlotBytes(f.blobBlocks);
    block0 := ZeroBuffer(EROFS_BLOCK_SIZE);
    FillFront(sb, slot);
    CopyFromSlice(block0, EROFS_SUPER_OFFSET, sb);
    CopyFromSlice(block0, EROFS_SUPER_OFFSET + EROFS_SB_BASE_SIZE, slot);
  }

  /** The metadata blocks behind block 0. */
  method AppendPadded(block0: seq<byte>, buf: seq<byte>) returns (image: seq<byte>)
    ensures image == block0 + Padded(buf)
  {
    image := block0 + buf;
    var remainder := |buf| % EROFS_BLOCK_SIZE;
    if remainder != 0 {
      image := image + Zeros(EROFS_BLOCK_SIZE - remainder);
    }
    PaddingIs(block0, buf);
  }

  lemma FillFront(sb: seq<byte>, slot: seq<byte>)
    requires |sb| == 128 && |slot| == 128
    ensures Splice(Splice(Zeros(4096), 1024, sb), 1152, slot) == Zeros(1024) + sb + slot + Zeros(2816)
  {
    assert Zeros(4096) == Zeros(1024) + Zeros(3072);
    FillZeros(Zeros(1024), sb, 3072);
    FillZeros(Zeros(1024) + sb, slot, 2944);
  }

  lemma PaddingIs(block0: seq<byte>, buf: seq<byte>)
    ensures var m := |buf| % 4096;
            block0 + Padded(buf) == if m == 0 then block0 + buf else block0 + buf + Zeros(4096 - m)
  {
    var q, m := |buf| / 4096, |buf| % 4096;
    assert RoundUpBlock(|buf|) == |buf| + if m == 0 then 0 else 4096 - m;
  }

  /** The fields of the superblock, by their offset in it. */
  lemma SuperblockFields(rootNid: nat, inos: nat, epoch: nat, blocks: nat, uuid: seq<byte>)
    requires |uuid| == 16 && rootNid < TWO_16 && epoch < TWO_64
    ensures var d := SuperblockBytes(rootNid, inos, epoch, blocks, uuid);
            && GetU32(d, 0) == EROFS_SUPER_MAGIC_V1 && d[12] == 12
            && GetU16(d, 14) == rootNid && GetU64(d, 24) == epoch && GetU32(d, 40) == 1
  {
    var d := SuperblockBytes(rootNid, inos, epoch, blocks, uuid);
    var p1 := PutU32(EROFS_SUPER_MAGIC_V1);
    var p2 := p1 + Zeros(4) + PutU32(EROFS_FEATURE_COMPAT_MTIME) + [EROFS_BLKSZBITS, 0];
    var p3 := p2 + PutU16(rootNid);
    var p4 := p3 + PutU64(inos);
    var p5 := p4 + PutU64(epoch);
    var p6 := p5 + Zeros(4) + PutU32(blocks);
    var p7 := p6 + PutU32(1);
    assert p7 <= d;
    assert [] + p1 == p1;
    U32At([], EROFS_SUPER_MAGIC_V1, d);
    assert d[12] == p2[12];
    U16At(p2, rootNid, d);
    U64At(p4, epoch, d);
    U32At(p6, 1, d);
  }

  /** Fields of a part are fields of the whole. */
  lemma FieldsInside(d: seq<byte>, c: nat, part: seq<byte>, o: nat)
    requires StoredAt(d, c, part)
    ensures o + 2 <= |part| ==> GetU16(d, c + o) == GetU16(part, o)
    ensures o + 4 <= |part| ==> GetU32(d, c + o) == GetU32(part, o)
    ensures o + 8 <= |part| ==> GetU64(d, c + o) == GetU64(part, o)
  {
    assert forall k :: 0 <= k < |part| ==> part[k] == d[c..c + |part|][k] == d[c + k];
  }

  lemma SuperblockStored(f: Facts, blocks: nat, d: seq<byte>)
    requires FactsTyped(f) && Block0(f, blocks) <= d
    ensures StoredAt(d, 1024, SuperblockBytes(f.rootNid, f.inos, f.epoch, blocks, f.uuid))
  {
    var b := Block0(f, blocks);
    assert d[1024..1152] == b[1024..1152];
  }

  lemma FieldsOf(f: Facts, blocks: nat, d: seq<byte>)
    requires FactsTyped(f) && Block0(f, blocks) <= d
    ensures GetU32(d, 1024) == EROFS_SUPER_MAGIC_V1 && d[1036] == 12
    ensures GetU16(d, 1038) == f.rootNid && GetU64(d, 1048) == f.epoch && GetU32(d, 1064) == 1
  {
    var sb := SuperblockBytes(f.rootNid, f.inos, f.epoch, blocks, f.uuid);
    SuperblockStored(f, blocks, d);
    SuperblockFields(f.rootNid, f.inos, f.epoch, blocks, f.uuid);
    FieldsInside(d, 1024, sb, 0);
    StoredByte(d, 1024, sb, 12);
    FieldsInside(d, 1024, sb, 14);
    FieldsInside(d, 1024, sb, 24);
    FieldsInside(d, 1024, sb, 40);
  }

  /** The reader opens what was written, and finds the superblock as it was given. */
  lemma ImageOpens(f: Facts, blocks: nat, image: seq<byte>, blob: Option<seq<byte>>)
    requires FactsTyped(f) && Block0(f, blocks) <= image && |image| < TWO_64
    ensures Open(image, blob) == Ok(ReaderData(image, blob))
    ensures HasSuperblock(image)
    ensures var r: ErofsReader := ReaderData(image, blob);
            Blkszbits(r) == EROFS_BLKSZBITS && RootNid(r) == f.rootNid && Epoch(r) == f.epoch && MetaBlkaddr(r) == 1
  {
    FieldsOf(f, blocks, image);
  }
}
