/** The 8-byte chunk index and tables of them (src/metadata/chunk.rs). */
module Chunks {
  import opened Bytes
  import opened Metadata

  /** A decoded index: where a chunk lies, or a hole when the address is `EROFS_NULL_ADDR`. */
  datatype ChunkIndex = ChunkIndex(blkaddr: nat, deviceId: nat)

  /** The integer types of the fields: `u64` and `u16`. */
  predicate Typed(ci: ChunkIndex) {
    ci.blkaddr < TWO_64 && ci.deviceId < TWO_16
  }

  /** `ErofsChunkIndex::new`. */
  function EncodeIndex(ci: ChunkIndex): (r: seq<byte>)
    ensures |r| == EROFS_CHUNK_INDEX_SIZE
  {
    if ci.blkaddr == EROFS_NULL_ADDR then seq(8, _ => 0xFF)
    else PutU16(ci.blkaddr / TWO_32) + PutU16(ci.deviceId) + PutU32(ci.blkaddr)
  }

  /** `chunk_index_at` and the accessors `blkaddr` and `device_id`. */
  function DecodeIndex(d: seq<byte>, off: nat): (r: ChunkIndex)
    requires off + EROFS_CHUNK_INDEX_SIZE <= |d|
    ensures r.blkaddr < TWO_48 && r.deviceId < TWO_16
  {
    ChunkIndex(GetU16(d, off) * TWO_32 + GetU32(d, off + 4), GetU16(d, off + 2))
  }

  lemma DecodeStored(pre: seq<byte>, ci: ChunkIndex, d: seq<byte>)
    requires Typed(ci) && ci.blkaddr != EROFS_NULL_ADDR && pre + EncodeIndex(ci) <= d
    ensures DecodeIndex(d, |pre|) == ChunkIndex(ci.blkaddr % TWO_48, ci.deviceId)
  {
    var p1 := pre + PutU16(ci.blkaddr / TWO_32);
    var p2 := p1 + PutU16(ci.deviceId);
    assert pre + EncodeIndex(ci) == p2 + PutU32(ci.blkaddr);
    LowU16At(pre, ci.blkaddr / TWO_32, d);
    LowU16At(p1, ci.deviceId, d);
    LowU32At(p2, ci.blkaddr, d);
    AddressParts(ci.blkaddr);
  }

  lemma AddressParts(a: nat)
    ensures (a / TWO_32) % TWO_16 * TWO_32 + a % TWO_32 == a % TWO_48
  {
    ModUnique(a, TWO_48, a / TWO_32 / TWO_16, (a / TWO_32) % TWO_16 * TWO_32 + a % TWO_32);
  }

  /** The codec is exact for the addresses below 2^48, whatever the device, and for no others. */
  lemma CodecExact(ci: ChunkIndex, d: seq<byte>)
    requires Typed(ci) && EncodeIndex(ci) <= d
    ensures DecodeIndex(d, 0) == ci <==> ci.blkaddr < TWO_48
  {
    hide EncodeIndex, DecodeIndex;
    if ci.blkaddr == EROFS_NULL_ADDR {
      NullReadsAsAddress(ci, d);
    } else {
      assert [] + EncodeIndex(ci) == EncodeIndex(ci);
      DecodeStored([], ci, d);
    }
  }

  /** The encoding of a hole decodes to the last 48-bit block of device 65535: no reader can see it is a hole. */
  lemma NullReadsAsAddress(ci: ChunkIndex, d: seq<byte>)
    requires ci.blkaddr == EROFS_NULL_ADDR && EncodeIndex(ci) <= d
    ensures DecodeIndex(d, 0) == ChunkIndex(TWO_48 - 1, TWO_16 - 1)
  {
    assert forall i :: 0 <= i < 8 ==> d[i] == EncodeIndex(ci)[i] == 0xFF;
  }

  // ------------------------------------------------------------------
  // Tables
  // ------------------------------------------------------------------

  function EncodeTable(cis: seq<ChunkIndex>): (r: seq<byte>)
    ensures |r| == |cis| * EROFS_CHUNK_INDEX_SIZE
  {
    if cis == [] then [] else EncodeIndex(cis[0]) + EncodeTable(cis[1..])
  }

  /** The first `n` indexes of the bytes that `chunk_indexes` returns. */
  function DecodeTable(d: seq<byte>, n: nat): (r: seq<ChunkIndex>)
    requires n * EROFS_CHUNK_INDEX_SIZE <= |d|
    ensures |r| == n && forall i :: 0 <= i < n ==> r[i] == DecodeIndex(d, i * EROFS_CHUNK_INDEX_SIZE)
  {
    seq(n, i requires 0 <= i < n => DecodeIndex(d, i * EROFS_CHUNK_INDEX_SIZE))
  }

  /** No index read from an image is a hole, so the zero-fill branch of the readers is never taken. */
  lemma DecodedTableHasNoHole(d: seq<byte>, n: nat, i: nat)
    requires n * EROFS_CHUNK_INDEX_SIZE <= |d| && i < n
    ensures DecodeTable(d, n)[i].blkaddr < TWO_48 && DecodeTable(d, n)[i].blkaddr != EROFS_NULL_ADDR
  {
    assert DecodeTable(d, n)[i] == DecodeIndex(d, i * EROFS_CHUNK_INDEX_SIZE);
  }

  lemma {:induction false} IndexInTable(pre: seq<byte>, cis: seq<ChunkIndex>, i: nat, d: seq<byte>, at: nat)
    requires i < |cis| && Typed(cis[i]) && cis[i].blkaddr < TWO_48 && pre + EncodeTable(cis) <= d
    requires at == |pre| + i * EROFS_CHUNK_INDEX_SIZE
    ensures at + EROFS_CHUNK_INDEX_SIZE <= |d| && DecodeIndex(d, at) == cis[i]
    decreases |cis|
  {
    hide EncodeIndex, DecodeIndex;
    var first, rest := pre + EncodeIndex(cis[0]), EncodeTable(cis[1..]);
    assert pre + EncodeTable(cis) == first + rest;
    assert first <= d;
    if i == 0 {
      DecodeStored(pre, cis[0], d);
    } else {
      assert first + EncodeTable(cis[1..]) <= d;
      IndexInTable(first, cis[1..], i - 1, d, at);
    }
  }

  predicate Addressable(cis: seq<ChunkIndex>) {
    forall i :: 0 <= i < |cis| ==> Typed(cis[i]) && cis[i].blkaddr < TWO_48
  }

  lemma IndexAt(cis: seq<ChunkIndex>, i: nat, d: seq<byte>)
    requires i < |cis| && Addressable(cis) && d == EncodeTable(cis)
    ensures DecodeIndex(d, i * EROFS_CHUNK_INDEX_SIZE) == cis[i]
  {
    assert [] + d == d;
    IndexInTable([], cis, i, d, i * EROFS_CHUNK_INDEX_SIZE);
  }

  /** A stored table of addresses below 2^48 reads back index for index. */
  lemma TableRoundTrip(cis: seq<ChunkIndex>)
    requires Addressable(cis)
    ensures DecodeTable(EncodeTable(cis), |cis|) == cis
  {
    var t := DecodeTable(EncodeTable(cis), |cis|);
    forall i | 0 <= i < |cis| ensures t[i] == cis[i] {
      IndexAt(cis, i, EncodeTable(cis));
    }
  }
}
