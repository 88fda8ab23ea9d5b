/** The blob device: chunks written once and shared by digest (src/build/blobchunk.rs). */
module BlobChunk {
  import opened Bytes
  import opened Metadata
  import opened Chunks
  import opened Layout
  import opened Reader
  import opened FileData

  type Digest = seq<byte>
  /** The digest of a chunk, which is not modelled: any function of the bytes. */
  type Hash = seq<byte> -> Digest

  /** The bytes on the device, and for each digest the block and the bytes of the chunk that introduced it. */
  datatype Blob = Blob(file: seq<byte>, dedup: map<Digest, nat>, origin: map<Digest, seq<byte>>)

  const EMPTY := Blob([], map[], map[])

  /** One chunk: appended when its digest is new, otherwise not written at all. */
  function Put(b: Blob, hash: Hash, chunk: seq<byte>): Blob {
    if hash(chunk) in b.dedup then b
    else Blob(b.file + Padded(chunk), b.dedup[hash(chunk) := |b.file| / 4096], b.origin[hash(chunk) := chunk])
  }

  /** The piece of a file that starts at `at`: `cs` bytes, fewer at its end. */
  function PieceAt(content: seq<byte>, cs: nat, at: nat): (c: seq<byte>)
    requires at <= |content|
    ensures |c| == Min(cs, |content| - at)
  {
    content[at..at + Min(cs, |content| - at)]
  }

  /** The pieces a file is read in. */
  function ChunksOf(content: seq<byte>, cs: nat): (r: seq<seq<byte>>)
    requires cs > 0
    ensures |r| == DivCeil(|content|, cs)
    ensures forall k :: 0 <= k < |r| ==> k * cs < |content| && r[k] == PieceAt(content, cs, k * cs)
  {
    ChunkStarts(|content|, cs);
    seq(DivCeil(|content|, cs), k requires 0 <= k < DivCeil(|content|, cs) => PieceAt(content, cs, k * cs))
  }

  lemma ChunkStarts(n: nat, cs: nat)
    requires cs > 0
    ensures forall k :: 0 <= k < DivCeil(n, cs) ==> k * cs < n
  {
    DivCeilBound(n, cs);
    forall k | 0 <= k < DivCeil(n, cs) ensures k * cs < n {
      MulStep(k, DivCeil(n, cs), cs);
    }
  }

  lemma {:induction false} MulStep(k: nat, q: nat, cs: nat)
    requires k < q
    ensures k * cs + cs <= q * cs
    decreases q
  {
    assert q * cs == (q - 1) * cs + cs;
    if k + 1 < q {
      MulStep(k, q - 1, cs);
    }
  }

  /** The blob after the first `k` of some chunks. */
  function PutAll(b: Blob, hash: Hash, chunks: seq<seq<byte>>, k: nat): Blob
    requires k <= |chunks|
  {
    if k == 0 then b else Put(PutAll(b, hash, chunks, k - 1), hash, chunks[k - 1])
  }

  /** Every digest leads to the block-aligned copy of its chunk. */
  ghost predicate Good(b: Blob, hash: Hash) {
    && |b.file| % 4096 == 0 && b.dedup.Keys == b.origin.Keys
    && forall d :: d in b.dedup ==> hash(b.origin[d]) == d && StoredAt(b.file, b.dedup[d] * 4096, b.origin[d])
  }

  /** What an earlier blob holds, a later one still holds at the same place. */
  ghost predicate Grows(a: Blob, b: Blob) {
    a.file <= b.file && forall d :: d in a.dedup && d in a.origin ==>
      d in b.dedup && b.dedup[d] == a.dedup[d] && d in b.origin && b.origin[d] == a.origin[d]
  }

  lemma PutKeeps(b: Blob, hash: Hash, chunk: seq<byte>)
    requires Good(b, hash)
    ensures Good(Put(b, hash, chunk), hash) && Grows(b, Put(b, hash, chunk))
    ensures hash(chunk) in Put(b, hash, chunk).dedup
  {
    var c, h := Put(b, hash, chunk), hash(chunk);
    if h !in b.dedup {
      Aligned4096(|b.file|, |chunk|);
      forall d | d in c.dedup ensures hash(c.origin[d]) == d && StoredAt(c.file, c.dedup[d] * 4096, c.origin[d]) {
        if d != h {
          StoredStays(b.file, c.file, b.dedup[d] * 4096, b.origin[d]);
        } else {
          AppendedChunk(b.file, chunk);
        }
      }
    }
  }

  lemma AppendedChunk(file: seq<byte>, chunk: seq<byte>)
    requires |file| % 4096 == 0
    ensures StoredAt(file + Padded(chunk), |file| / 4096 * 4096, chunk)
  {
    Aligned4096(|file|, |chunk|);
    var all := file + Padded(chunk);
    assert all[|file|..|file| + |chunk|] == chunk;
  }

  lemma Aligned4096(a: nat, n: nat)
    requires a % 4096 == 0
    ensures (a + RoundUpBlock(n)) % 4096 == 0 && a / 4096 * 4096 == a
  {
    var q, m := a / 4096, (n + 4095) / 4096;
    ModUnique(a + RoundUpBlock(n), 4096, q + m, 0);
  }

  lemma GrowsTrans(a: Blob, b: Blob, c: Blob)
    requires Grows(a, b) && Grows(b, c)
    ensures Grows(a, c)
  {
  }

  lemma {:induction false} PutAllKeeps(b: Blob, hash: Hash, chunks: seq<seq<byte>>, k: nat)
    requires Good(b, hash) && k <= |chunks|
    ensures Good(PutAll(b, hash, chunks, k), hash) && Grows(b, PutAll(b, hash, chunks, k))
  {
    if k > 0 {
      var mid := PutAll(b, hash, chunks, k - 1);
      PutAllKeeps(b, hash, chunks, k - 1);
      PutKeeps(mid, hash, chunks[k - 1]);
      GrowsTrans(b, mid, Put(mid, hash, chunks[k - 1]));
    }
  }

  /** Where a later reader finds the chunks: all on device 1, at the address of their digest. */
  predicate Indexed(b: Blob, hash: Hash, chunks: seq<seq<byte>>, indexes: seq<ChunkIndex>) {
    |indexes| == |chunks| && IndexedUpTo(b, hash, chunks, indexes, |chunks|)
  }

  predicate IndexedUpTo(b: Blob, hash: Hash, chunks: seq<seq<byte>>, indexes: seq<ChunkIndex>, n: nat)
    requires n <= |chunks| && n <= |indexes|
  {
    forall k :: 0 <= k < n ==> hash(chunks[k]) in b.dedup && indexes[k] == ChunkIndex(b.dedup[hash(chunks[k])], 1)
  }

  /** The indexes of chunks that are all on the device. */
  function IndexesOf(b: Blob, hash: Hash, chunks: seq<seq<byte>>): (r: seq<ChunkIndex>)
    ensures |r| == |chunks|
  {
    seq(|chunks|, k requires 0 <= k < |chunks| =>
      ChunkIndex(if hash(chunks[k]) in b.dedup then b.dedup[hash(chunks[k])] else 0, 1))
  }

  lemma IndexesUnique(b: Blob, hash: Hash, chunks: seq<seq<byte>>, indexes: seq<ChunkIndex>)
    requires Indexed(b, hash, chunks, indexes)
    ensures indexes == IndexesOf(b, hash, chunks)
  {
  }

  lemma PutAdds(b: Blob, hash: Hash, chunk: seq<byte>)
    ensures Put(b, hash, chunk).dedup.Keys == b.dedup.Keys + {hash(chunk)}
  {
  }

  /** Chunks that have all been put are indexed. */
  lemma {:induction false} PutAllIndexed(b: Blob, hash: Hash, chunks: seq<seq<byte>>, k: nat, i: nat)
    requires i < k <= |chunks|
    ensures hash(chunks[i]) in PutAll(b, hash, chunks, k).dedup.Keys
  {
    PutAdds(PutAll(b, hash, chunks, k - 1), hash, chunks[k - 1]);
    if i < k - 1 {
      PutAllIndexed(b, hash, chunks, k - 1, i);
    }
  }

  /** The indexes of a file whose chunks have all been put. */
  lemma PutIndexed(b: Blob, hash: Hash, chunks: seq<seq<byte>>)
    ensures var c := PutAll(b, hash, chunks, |chunks|); Indexed(c, hash, chunks, IndexesOf(c, hash, chunks))
  {
    var c := PutAll(b, hash, chunks, |chunks|);
    forall k | 0 <= k < |chunks|
      ensures hash(chunks[k]) in c.dedup && IndexesOf(c, hash, chunks)[k] == ChunkIndex(c.dedup[hash(chunks[k])], 1)
    {
      PutAllIndexed(b, hash, chunks, |chunks|, k);
    }
  }

  /** How many bytes the first `k` chunks fill on the device when none is shared. */
  function PaddedSize(chunks: seq<seq<byte>>, k: nat): nat
    requires k <= |chunks|
  {
    if k == 0 then 0 else PaddedSize(chunks, k - 1) + RoundUpBlock(|chunks[k - 1]|)
  }

  /** The chunk size is a multiple of the block size, so only the last chunk of a file is padded. */
  lemma {:induction false} PaddedChunks(content: seq<byte>, cs: nat, k: nat)
    requires cs > 0 && cs % 4096 == 0 && k <= |ChunksOf(content, cs)|
    ensures PaddedSize(ChunksOf(content, cs), k) == if k * cs <= |content| then k * cs else RoundUpBlock(|content|)
  {
    hide ChunksOf;
    if k > 0 {
      PaddedChunks(content, cs, k - 1);
      PaddedChunk(content, cs, k - 1);
    }
  }

  /** One more chunk of a file, padded, ends at the next multiple of the chunk size or at the padded end of the file. */
  lemma PaddedChunk(content: seq<byte>, cs: nat, i: nat)
    requires cs > 0 && cs % 4096 == 0 && i < |ChunksOf(content, cs)|
    ensures var at, chunk := i * cs, ChunksOf(content, cs)[i];
            && at < |content| && (i + 1) * cs == at + cs
            && at + RoundUpBlock(|chunk|) == if at + cs <= |content| then at + cs else RoundUpBlock(|content|)
  {
    var at := i * cs;
    assert |ChunksOf(content, cs)[i]| == |PieceAt(content, cs, at)|;
    assert (i + 1) * cs == at + cs;
    MulAligned(i, cs);
    RoundUpFrom(at, Min(cs, |content| - at), cs);
  }

  lemma MulAligned(k: nat, cs: nat)
    requires cs % 4096 == 0
    ensures k * cs % 4096 == 0
  {
    ModUnique(k * cs, 4096, k * (cs / 4096), 0);
  }

  lemma RoundUpFrom(at: nat, n: nat, cs: nat)
    requires at % 4096 == 0 && cs % 4096 == 0
    ensures at + RoundUpBlock(n) == RoundUpBlock(at + n) && RoundUpBlock(cs) == cs
  {
  }

  lemma PaddedFile(content: seq<byte>, cs: nat)
    requires cs > 0 && cs % 4096 == 0
    ensures PaddedSize(ChunksOf(content, cs), |ChunksOf(content, cs)|) == RoundUpBlock(|content|)
  {
    var q := DivCeil(|content|, cs);
    PaddedChunks(content, cs, q);
    DivCeilBound(|content|, cs);
    if q * cs <= |content| {
      MulAligned(q, cs);
      RoundUpFrom(0, 0, q * cs);
    }
  }

  /** The first `n` bytes of a source; beyond its end nothing depends on them. */
  ghost function FirstBytes(source: seq<byte>, n: nat): (r: seq<byte>)
    ensures |r| == n && (n <= |source| ==> r == source[..n])
  {
    if n <= |source| then source[..n] else source + Zeros(n - |source|)
  }

  /** Chunk `i` starts inside the file, and the last one ends with it. */
  lemma ChunkEnds(fileSize: nat, cs: nat, i: nat)
    requires cs > 0 && i < DivCeil(fileSize, cs)
    ensures i * cs < fileSize
    ensures i + 1 == DivCeil(fileSize, cs) ==> i * cs + Min(cs, fileSize - i * cs) == fileSize
  {
    ChunkStarts(fileSize, cs);
    DivCeilBound(fileSize, cs);
    assert (i + 1) * cs == i * cs + cs;
  }

  lemma NextChunk(source: seq<byte>, fileSize: nat, cs: nat, i: nat, at: nat, n: nat)
    requires cs > 0 && i < DivCeil(fileSize, cs) && at == i * cs < fileSize && n == Min(cs, fileSize - at)
    requires at + n <= |source|
    ensures source[at..at + n] == ChunksOf(FirstBytes(source, fileSize), cs)[i]
  {
    var all := FirstBytes(source, fileSize);
    assert forall k :: at <= k < at + n ==> all[k] == source[k];
    assert PieceAt(all, cs, at) == all[at..at + n];
    assert ChunksOf(all, cs)[i] == PieceAt(all, cs, i * cs);
  }

  lemma IndexAppended(b: Blob, hash: Hash, chunks: seq<seq<byte>>, indexes: seq<ChunkIndex>, i: nat, addr: nat)
    requires i < |chunks| && |indexes| == i && IndexedUpTo(b, hash, chunks, indexes, i)
    requires var c := Put(b, hash, chunks[i]); hash(chunks[i]) in c.dedup && addr == c.dedup[hash(chunks[i])]
    ensures IndexedUpTo(Put(b, hash, chunks[i]), hash, chunks, indexes + [ChunkIndex(addr, 1)], i + 1)
  {
  }

  lemma NoChunks(source: seq<byte>, cs: nat)
    requires cs > 0
    ensures ChunksOf(source[..0], cs) == [] && RoundUpBlock(0) == 0
  {
    ModUnique(cs - 1, cs, 0, cs - 1);
  }

  lemma ChunkCount(content: seq<byte>, cs: nat)
    requires cs > 0 && content != []
    ensures |ChunksOf(content, cs)| == DivCeil(|content|, cs) > 0
  {
    DivCeilBound(|content|, cs);
  }

  class BlobWriter {
    var file: seq<byte>
    const chunksize: nat
    const hash: Hash
    var nextBlkaddr: nat
    var dedup: map<Digest, nat>
    var savedByDedup: nat
    ghost var origin: map<Digest, seq<byte>>

    ghost predicate Valid()
      reads this
    {
      && nextBlkaddr * 4096 == |file| && chunksize > 0 && chunksize % 4096 == 0
      && Good(Abs(), hash)
    }

    ghost function Abs(): Blob
      reads this
    {
      Blob(file, dedup, origin)
    }

    constructor (chunksize: nat, hash: Hash)
      requires chunksize > 0 && chunksize % 4096 == 0
      ensures Valid() && Abs() == EMPTY && this.chunksize == chunksize && this.hash == hash && savedByDedup == 0
    {
      this.chunksize, this.hash := chunksize, hash;
      file, nextBlkaddr, dedup, savedByDedup := [], 0, map[], 0;
      origin := map[];
    }

    /** The body of the loop: look the digest up, or append the chunk and its padding. */
    method WriteChunk(chunk: seq<byte>) returns (blkaddr: nat)
      requires Valid()
      modifies this
      ensures Valid() && Abs() == Put(old(Abs()), hash, chunk)
      ensures hash(chunk) in dedup && blkaddr == dedup[hash(chunk)]
      ensures |file| + savedByDedup == old(|file| + savedByDedup) + RoundUpBlock(|chunk|)
    {
      PutKeeps(Abs(), hash, chunk);
      var h := hash(chunk);
      var writeLen := RoundUpBlock(|chunk|);
      if h in dedup {
        savedByDedup := savedByDedup + writeLen;
        return dedup[h];
      }
      blkaddr := nextBlkaddr;
      Append(chunk);
      dedup := dedup[h := blkaddr];
      origin := origin[h := chunk];
    }

    /** Writes a chunk and its padding behind the last block. */
    method Append(chunk: seq<byte>)
      requires nextBlkaddr * 4096 == |file|
      modifies this`file, this`nextBlkaddr
      ensures file == old(file) + Padded(chunk) && nextBlkaddr * 4096 == |file|
      ensures old(|file|) / 4096 == old(nextBlkaddr)
    {
      var writeLen := RoundUpBlock(|chunk|);
      var nblocks := writeLen / 4096;
      RoundUpsAligned(|chunk|);
      ghost var was := file;
      file := file + chunk;
      if writeLen > |chunk| {
        file := file + Zeros(writeLen - |chunk|);
      }
      assert file == was + Padded(chunk);
      nextBlkaddr := nextBlkaddr + nblocks;
    }

    /** The body of the loop: read the next piece of the file, write it, note its index. */
    method WriteNext(source: seq<byte>, fileSize: nat, i: nat, indexes: seq<ChunkIndex>, ghost chunks: seq<seq<byte>>)
      returns (res: Result<seq<ChunkIndex>>)
      requires Valid() && chunks == ChunksOf(FirstBytes(source, fileSize), chunksize) && i < |chunks|
      requires |indexes| == i && IndexedUpTo(Abs(), hash, chunks, indexes, i)
      modifies this
      ensures Valid()
      ensures res.Err? ==> res == Err(UnexpectedEof) && Abs() == old(Abs()) && |source| < fileSize
      ensures res.Ok? ==> && Abs() == Put(old(Abs()), hash, chunks[i])
                          && |res.value| == i + 1 && IndexedUpTo(Abs(), hash, chunks, res.value, i + 1)
                          && |file| + savedByDedup == old(|file| + savedByDedup) + RoundUpBlock(|chunks[i]|)
                          && (i + 1 == |chunks| ==> fileSize <= |source|)
    {
      ChunkEnds(fileSize, chunksize, i);
      var start := i * chunksize;
      var toRead := Min(chunksize, fileSize - start);
      if start + toRead > |source| {
        return Err(UnexpectedEof);
      }
      var chunk := source[start..start + toRead];
      NextChunk(source, fileSize, chunksize, i, start, toRead);
      ghost var was := Abs();
      var blkaddr := WriteChunk(chunk);
      IndexAppended(was, hash, chunks, indexes, i, blkaddr);
      return Ok(indexes + [ChunkIndex(blkaddr, 1)]);
    }

    /**
     * `write_file_chunks` on a file with the bytes `source`. It fails exactly when the file is shorter
     * than its recorded size; it never moves or changes what the blob already held; and what is newly
     * written and what is saved by sharing add up to the padded size of the file.
     */
    method WriteFileChunks(source: seq<byte>, fileSize: nat) returns (res: Result<seq<ChunkIndex>>)
      requires Valid()
      modifies this
      ensures Valid() && Grows(old(Abs()), Abs())
      ensures res.Ok? <==> fileSize <= |source|
      ensures res.Err? ==> res == Err(UnexpectedEof)
      ensures res.Ok? ==> var chunks := ChunksOf(source[..fileSize], chunksize);
                          && Abs() == PutAll(old(Abs()), hash, chunks, |chunks|)
                          && Indexed(Abs(), hash, chunks, res.value) && res.value == IndexesOf(Abs(), hash, chunks)
                          && |file| + savedByDedup == old(|file| + savedByDedup) + RoundUpBlock(fileSize)
    {
      if fileSize == 0 {
        NoChunks(source, chunksize);
        IndexesUnique(Abs(), hash, [], []);
        return Ok([]);
      }
      ghost var content := FirstBytes(source, fileSize);
      ghost var chunks := ChunksOf(content, chunksize);
      var nchunks := DivCeil(fileSize, chunksize);
      ChunkCount(content, chunksize);
      ghost var n;
      res, n := WriteAll(source, fileSize, nchunks, chunks);
      PutAllKeeps(old(Abs()), hash, chunks, n);
      if res.Ok? {
        PaddedFile(content, chunksize);
        assert content == source[..fileSize];
        IndexesUnique(Abs(), hash, chunks, res.value);
      }
    }

    /** The loop of `write_file_chunks`; `n` chunks were written. */
    method WriteAll(source: seq<byte>, fileSize: nat, nchunks: nat, ghost chunks: seq<seq<byte>>)
      returns (res: Result<seq<ChunkIndex>>, ghost n: nat)
      requires Valid() && chunks == ChunksOf(FirstBytes(source, fileSize), chunksize) && nchunks == |chunks| > 0
      modifies this
      ensures Valid() && n <= |chunks| && Abs() == PutAll(old(Abs()), hash, chunks, n)
      ensures res.Ok? <==> fileSize <= |source|
      ensures res.Err? ==> res == Err(UnexpectedEof)
      ensures res.Ok? ==> && n == |chunks| && Indexed(Abs(), hash, chunks, res.value)
                          && |file| + savedByDedup == old(|file| + savedByDedup) + PaddedSize(chunks, n)
    {
      var indexes := [];
      for i := 0 to nchunks
        invariant Valid() && Abs() == PutAll(old(Abs()), hash, chunks, i)
        invariant |indexes| == i && IndexedUpTo(Abs(), hash, chunks, indexes, i)
        invariant |file| + savedByDedup == old(|file| + savedByDedup) + PaddedSize(chunks, i)
        invariant i == nchunks ==> fileSize <= |source|
      {
        var step := WriteNext(source, fileSize, i, indexes, chunks);
        if step.Err? {
          return step, i;
        }
        indexes := step.value;
      }
      return Ok(indexes), nchunks;
    }
  }

  // ------------------------------------------------------------------
  // The reader finds every file again
  // ------------------------------------------------------------------

  /** No chunk of the file was taken for a different chunk with the same digest. */
  ghost predicate CollisionFree(b: Blob, hash: Hash, chunks: seq<seq<byte>>) {
    forall k :: 0 <= k < |chunks| && hash(chunks[k]) in b.origin ==> b.origin[hash(chunks[k])] == chunks[k]
  }

  /** Writing more files leaves the indexes of the earlier ones right. */
  lemma IndexedStays(a: Blob, b: Blob, hash: Hash, chunks: seq<seq<byte>>, indexes: seq<ChunkIndex>)
    requires Good(a, hash) && Grows(a, b) && Indexed(a, hash, chunks, indexes)
    ensures Indexed(b, hash, chunks, indexes)
    ensures CollisionFree(b, hash, chunks) ==> CollisionFree(a, hash, chunks)
  {
  }

  lemma ChunkStored(b: Blob, hash: Hash, dev: seq<byte>, chunks: seq<seq<byte>>, indexes: seq<ChunkIndex>, k: nat)
    requires Good(b, hash) && b.file <= dev && Indexed(b, hash, chunks, indexes) && CollisionFree(b, hash, chunks)
    requires k < |chunks|
    ensures indexes[k].deviceId == 1 && StoredAt(dev, indexes[k].blkaddr * 4096, chunks[k])
  {
    var d := hash(chunks[k]);
    StoredStays(b.file, dev, b.dedup[d] * 4096, b.origin[d]);
  }

  lemma ByteOfChunk(content: seq<byte>, cs: nat, p: nat)
    requires cs > 0 && p < |content|
    ensures var k := p / cs;
            && 0 <= k < |ChunksOf(content, cs)| && 0 <= p % cs < |ChunksOf(content, cs)[k]|
            && ChunksOf(content, cs)[k][p % cs] == content[p]
  {
    var k, i := p / cs, p % cs;
    assert p == k * cs + i;
    DivCeilBound(|content|, cs);
    IndexInRange(p, cs, DivCeil(|content|, cs));
    assert ChunksOf(content, cs)[k] == PieceAt(content, cs, k * cs);
  }

  /**
   * Every byte of a file that was written to the blob is where its chunk table says, however many files
   * were written before and after it, unless two different chunks have the same digest.
   */
  lemma BlobServesFile(b: Blob, hash: Hash, r: ErofsReader, content: seq<byte>, cs: nat, indexes: seq<ChunkIndex>)
    requires cs > 0 && Good(b, hash) && r.blobMmap.Some? && b.file <= r.blobMmap.value && |r.blobMmap.value| < TWO_64
    requires Indexed(b, hash, ChunksOf(content, cs), indexes) && CollisionFree(b, hash, ChunksOf(content, cs))
    ensures ChunksStored(r, indexes, cs, content)
  {
    var chunks, dev := ChunksOf(content, cs), r.blobMmap.value;
    forall p | 0 <= p < |content| ensures Mapped(r, indexes, cs, p) && ByteAt(r, indexes, cs, p) == content[p] {
      ByteOfChunk(content, cs, p);
      ChunkStored(b, hash, dev, chunks, indexes, p / cs);
      StoredByte(dev, indexes[p / cs].blkaddr * 4096, chunks[p / cs], p % cs);
    }
  }

  /** A blob of at most 2^48 blocks (1 EiB) only hands out addresses that an index can hold. */
  lemma IndexesAddressable(b: Blob, hash: Hash, chunks: seq<seq<byte>>, indexes: seq<ChunkIndex>)
    requires Good(b, hash) && |b.file| <= TWO_48 * 4096 && Indexed(b, hash, chunks, indexes)
    requires forall k :: 0 <= k < |chunks| ==> chunks[k] != []
    requires CollisionFree(b, hash, chunks)
    ensures Addressable(indexes)
  {
    forall k | 0 <= k < |indexes| ensures Chunks.Typed(indexes[k]) && indexes[k].blkaddr < TWO_48 {
      ChunkStored(b, hash, b.file, chunks, indexes, k);
    }
  }
}
