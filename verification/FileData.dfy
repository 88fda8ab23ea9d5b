/** Reading file data: the chunk loops and the entry points over them (src/fs/data.rs). */
module FileData {
  import opened Bytes
  import opened Metadata
  import opened Inodes
  import opened Chunks
  import opened Reader

  // ------------------------------------------------------------------
  // Chunk arithmetic
  // ------------------------------------------------------------------

  function Pow2(n: nat): (r: nat)
    ensures r > 0
  {
    if n == 0 then 1 else 2 * Pow2(n - 1)
  }

  /** `chunkbits`; the images modelled here have 4096-byte blocks. */
  function ChunkBits(r: ErofsReader, v: ErofsInode): nat {
    Blkszbits(r) + ChunkFormat(v) % 32
  }

  function ChunkSize(r: ErofsReader, v: ErofsInode): (c: nat)
    ensures c > 0
  {
    Pow2(ChunkBits(r, v))
  }

  function NChunks(r: ErofsReader, v: ErofsInode): nat {
    DivCeil(Size(v), ChunkSize(r, v))
  }

  lemma {:induction false} Pow2Monotone(a: nat, b: nat)
    requires a <= b
    ensures Pow2(a) <= Pow2(b)
  {
    if a < b {
      Pow2Monotone(a, b - 1);
    }
  }

  lemma DivCeilBound(n: nat, c: nat)
    requires c > 0
    ensures n <= DivCeil(n, c) * c < n + c
    ensures n > 0 ==> DivCeil(n, c) > 0
  {
    var q, m := (n + c - 1) / c, (n + c - 1) % c;
    assert n + c - 1 == q * c + m;
    assert q == 0 ==> q * c == 0;
  }

  /**
   * With 4096-byte blocks nothing in the chunk loops overflows 64 bits, whatever the size of the
   * file: not the chunk size, not the table, not the address of any byte of an extent.
   */
  lemma ChunkArithmeticFits(r: ErofsReader, v: ErofsInode, ci: ChunkIndex, chunkOff: nat, n: nat)
    requires Blkszbits(r) == EROFS_BLKSZBITS && ci.blkaddr < TWO_48
    requires chunkOff + n <= ChunkSize(r, v)
    ensures 4096 <= ChunkSize(r, v) <= 0x800_0000_0000
    ensures NChunks(r, v) * EROFS_CHUNK_INDEX_SIZE < TWO_64
    ensures ci.blkaddr * EROFS_BLOCK_SIZE + chunkOff + n < TWO_64
  {
    ChunkSizeRange(r, v);
    NChunksBound(Size(v), ChunkSize(r, v));
  }

  lemma ChunkSizeRange(r: ErofsReader, v: ErofsInode)
    requires Blkszbits(r) == EROFS_BLKSZBITS
    ensures 4096 <= ChunkSize(r, v) <= 0x800_0000_0000
  {
    Pow2Monotone(12, ChunkBits(r, v));
    Pow2Monotone(ChunkBits(r, v), 43);
    Pow2Values();
  }

  lemma NChunksBound(size: nat, c: nat)
    requires size < TWO_64 && c >= 4096
    ensures DivCeil(size, c) * EROFS_CHUNK_INDEX_SIZE < TWO_64
  {
    var q := DivCeil(size, c);
    DivCeilBound(size, c);
    if q >= 1 {
      MulGrows(q - 1, 4096, c);
      assert (q - 1) * c == q * c - c;
    }
  }

  lemma MulGrows(k: nat, a: nat, b: nat)
    requires a <= b
    ensures k * a <= k * b
  {
  }

  lemma Pow2Values()
    ensures Pow2(12) == 4096 && Pow2(43) == 0x800_0000_0000
  {
    assert Pow2(5) == 32;
    assert Pow2(10) == 1024;
    assert Pow2(15) == 0x8000;
    assert Pow2(20) == 0x10_0000;
    assert Pow2(25) == 0x200_0000;
    assert Pow2(30) == 0x4000_0000;
    assert Pow2(35) == 0x8_0000_0000;
    assert Pow2(40) == 0x100_0000_0000;
  }

  /** Position `p` lies in the same chunk as `pos` before it. */
  lemma SameChunk(pos: nat, p: nat, cs: nat)
    requires cs > 0 && pos <= p && pos % cs + (p - pos) < cs
    ensures p / cs == pos / cs && p % cs == pos % cs + (p - pos)
  {
    ModUnique(p, cs, pos / cs, pos % cs + (p - pos));
  }

  // ------------------------------------------------------------------
  // What a chunk table says about each byte of the file
  // ------------------------------------------------------------------

  /** A table as the loops see it: addresses are below 2^48 or mark a hole. */
  predicate TableOk(table: seq<ChunkIndex>) {
    forall i :: 0 <= i < |table| ==> table[i].blkaddr < TWO_48 || table[i].blkaddr == EROFS_NULL_ADDR
  }

  predicate IsHole(ci: ChunkIndex) {
    ci.blkaddr == EROFS_NULL_ADDR
  }

  /** The device of an extent: the blob for every non-zero id, the image itself for 0. */
  function Device(r: ErofsReader, ci: ChunkIndex): Option<seq<byte>> {
    if ci.deviceId > 0 then r.blobMmap else Some(r.mmap)
  }

  /** Byte `p` of the file is a hole, or lies inside the device of its chunk. */
  predicate Mapped(r: ErofsReader, table: seq<ChunkIndex>, cs: nat, p: nat)
    requires cs > 0
  {
    p / cs < |table| &&
    var ci := table[p / cs];
    IsHole(ci) || (Device(r, ci).Some? && ci.blkaddr * EROFS_BLOCK_SIZE + p % cs < |Device(r, ci).value|)
  }

  function ByteAt(r: ErofsReader, table: seq<ChunkIndex>, cs: nat, p: nat): byte
    requires cs > 0
  {
    if Mapped(r, table, cs, p) && !IsHole(table[p / cs]) then
      Device(r, table[p / cs]).value[table[p / cs].blkaddr * EROFS_BLOCK_SIZE + p % cs]
    else 0
  }

  ghost predicate AllMapped(r: ErofsReader, table: seq<ChunkIndex>, cs: nat, offset: nat, n: nat)
    requires cs > 0
  {
    forall p :: offset <= p < offset + n ==> Mapped(r, table, cs, p)
  }

  function FileBytes(r: ErofsReader, table: seq<ChunkIndex>, cs: nat, offset: nat, n: nat): (d: seq<byte>)
    requires cs > 0
    ensures |d| == n && forall i :: 0 <= i < n ==> d[i] == ByteAt(r, table, cs, offset + i)
  {
    seq<byte>(n, i requires 0 <= i < n => ByteAt(r, table, cs, offset + i))
  }

  lemma FileBytesSplit(r: ErofsReader, table: seq<ChunkIndex>, cs: nat, offset: nat, a: nat, b: nat)
    requires cs > 0
    ensures FileBytes(r, table, cs, offset, a + b)
            == FileBytes(r, table, cs, offset, a) + FileBytes(r, table, cs, offset + a, b)
    ensures AllMapped(r, table, cs, offset, a + b)
            <==> AllMapped(r, table, cs, offset, a) && AllMapped(r, table, cs, offset + a, b)
  {
    var all, left, right := FileBytes(r, table, cs, offset, a + b), FileBytes(r, table, cs, offset, a),
                            FileBytes(r, table, cs, offset + a, b);
    forall i | 0 <= i < a + b ensures all[i] == (left + right)[i] {
      assert i >= a ==> right[i - a] == ByteAt(r, table, cs, offset + a + (i - a));
    }
  }

  /** The slice of one chunk, by the three branches of the loops. */
  function Piece(r: ErofsReader, ci: ChunkIndex, chunkOff: nat, n: nat): Result<seq<byte>> {
    if IsHole(ci) then Ok(Zeros(n))
    else if ci.deviceId > 0 then BlobMmapSlice(r, Wrap64(ci.blkaddr * EROFS_BLOCK_SIZE + chunkOff), n)
    else MmapSlice(r, Wrap64(ci.blkaddr * EROFS_BLOCK_SIZE + chunkOff), n)
  }

  /** What `Mapped` and `ByteAt` mean for the bytes of one chunk. */
  lemma ByteInChunk(r: ErofsReader, table: seq<ChunkIndex>, cs: nat, pos: nat, p: nat)
    requires cs > 0 && pos <= p && pos % cs + (p - pos) < cs && pos / cs < |table|
    ensures var ci := table[pos / cs];
            var dev, at := Device(r, ci), ci.blkaddr * EROFS_BLOCK_SIZE + pos % cs + (p - pos);
            && (Mapped(r, table, cs, p) <==> IsHole(ci) || (dev.Some? && at < |dev.value|))
            && (IsHole(ci) ==> ByteAt(r, table, cs, p) == 0)
            && (!IsHole(ci) && dev.Some? && at < |dev.value| ==> ByteAt(r, table, cs, p) == dev.value[at])
  {
    SameChunk(pos, p, cs);
  }

  lemma SliceExact(dev: seq<byte>, base: nat, n: nat)
    requires base + n < TWO_64
    ensures Wrap64(base) == base
    ensures SliceOf(dev, base, n).Ok? <==> base + n <= |dev|
    ensures SliceOf(dev, base, n).Ok? ==> SliceOf(dev, base, n).value == dev[base..base + n]
  {
  }

  /** A piece is there exactly when each of its bytes is mapped, and it holds exactly those bytes. */
  lemma PieceExact(r: ErofsReader, table: seq<ChunkIndex>, cs: nat, pos: nat, n: nat)
    requires 0 < cs < TWO_48 && n > 0 && pos % cs + n <= cs && pos / cs < |table| && TableOk(table)
    ensures var piece := Piece(r, table[pos / cs], pos % cs, n);
            && (piece.Ok? <==> AllMapped(r, table, cs, pos, n))
            && (piece.Ok? ==> piece.value == FileBytes(r, table, cs, pos, n))
  {
    var ci, off := table[pos / cs], pos % cs;
    var piece, dev, base := Piece(r, ci, off, n), Device(r, ci), ci.blkaddr * EROFS_BLOCK_SIZE + off;
    if IsHole(ci) {
      HolePiece(r, table, cs, pos, n);
    } else if dev.Some? {
      assert ci.blkaddr < TWO_48;
      SliceExact(dev.value, base, n);
      ExtentPiece(r, table, cs, pos, n);
    } else {
      ByteInChunk(r, table, cs, pos, pos);
      assert !Mapped(r, table, cs, pos);
    }
  }

  lemma HolePiece(r: ErofsReader, table: seq<ChunkIndex>, cs: nat, pos: nat, n: nat)
    requires 0 < cs && pos % cs + n <= cs && pos / cs < |table| && IsHole(table[pos / cs])
    ensures AllMapped(r, table, cs, pos, n) && FileBytes(r, table, cs, pos, n) == Zeros(n)
  {
    forall p | pos <= p < pos + n
      ensures Mapped(r, table, cs, p) && ByteAt(r, table, cs, p) == 0
    {
      ByteInChunk(r, table, cs, pos, p);
    }
  }

  lemma ExtentPiece(r: ErofsReader, table: seq<ChunkIndex>, cs: nat, pos: nat, n: nat)
    requires 0 < cs && n > 0 && pos % cs + n <= cs && pos / cs < |table| && !IsHole(table[pos / cs])
    requires Device(r, table[pos / cs]).Some?
    ensures var dev, base := Device(r, table[pos / cs]).value, table[pos / cs].blkaddr * EROFS_BLOCK_SIZE + pos % cs;
            && (AllMapped(r, table, cs, pos, n) <==> base + n <= |dev|)
            && (base + n <= |dev| ==> dev[base..base + n] == FileBytes(r, table, cs, pos, n))
  {
    var dev, base := Device(r, table[pos / cs]).value, table[pos / cs].blkaddr * EROFS_BLOCK_SIZE + pos % cs;
    var last := pos + n - 1;
    ByteInChunk(r, table, cs, pos, last);
    assert AllMapped(r, table, cs, pos, n) ==> Mapped(r, table, cs, last);
    if base + n <= |dev| {
      forall p | pos <= p < pos + n
        ensures Mapped(r, table, cs, p) && ByteAt(r, table, cs, p) == dev[base + (p - pos)]
      {
        ByteInChunk(r, table, cs, pos, p);
      }
      var d := FileBytes(r, table, cs, pos, n);
      forall i | 0 <= i < n ensures dev[base..base + n][i] == d[i] {
        assert d[i] == ByteAt(r, table, cs, pos + i);
      }
    }
  }

  lemma IndexInRange(pos: nat, cs: nat, n: nat)
    requires cs > 0 && pos < n * cs
    ensures 0 <= pos / cs < n
  {
    var q := pos / cs;
    assert pos == q * cs + pos % cs;
    assert q >= n ==> q * cs >= n * cs;
  }

  /** One round of either loop: the chunk exists, and what it yields is the next stretch of the file. */
  lemma Round(r: ErofsReader, table: seq<ChunkIndex>, cs: nat, offset: nat, size: nat, done: nat)
    requires 0 < cs < TWO_48 && TableOk(table) && done < size && offset + size <= |table| * cs
    ensures var pos := offset + done;
            var k := Min(size - done, cs - pos % cs);
            && 0 <= pos / cs < |table| && 0 <= pos % cs && 0 < k <= size - done
            && var piece := Piece(r, table[pos / cs], pos % cs, k);
            && (piece.Ok? ==> FileBytes(r, table, cs, offset, done + k) ==
                                FileBytes(r, table, cs, offset, done) + piece.value)
            && (piece.Ok? ==> piece.value == FileBytes(r, table, cs, pos, k))
            && (piece.Ok? && AllMapped(r, table, cs, offset, done) ==> AllMapped(r, table, cs, offset, done + k))
            && (piece.Err? ==> !AllMapped(r, table, cs, offset, size))
  {
    hide Piece, FileBytes;
    var pos := offset + done;
    var k := Min(size - done, cs - pos % cs);
    IndexInRange(pos, cs, |table|);
    PieceExact(r, table, cs, pos, k);
    FileBytesSplit(r, table, cs, offset, done, k);
    FileBytesSplit(r, table, cs, offset, done, size - done);
    FileBytesSplit(r, table, cs, pos, k, size - done - k);
  }

  // ------------------------------------------------------------------
  // The chunk loops
  // ------------------------------------------------------------------

  /** A sink that accepts `room` bytes in all; `None` is a sink that never fails. */
  class Writer {
    var out: seq<byte>
    const room: Option<nat>

    constructor (room: Option<nat>)
      ensures this.room == room && out == [] && Valid()
    {
      this.room := room;
      out := [];
    }

    ghost predicate Valid()
      reads this
    {
      Fits(0)
    }

    predicate Fits(n: nat)
      reads this
    {
      room.None? || |out| + n <= room.value
    }

    /** `write_all`: everything, or an error after the part that still fitted. */
    method WriteAll(data: seq<byte>) returns (ok: bool, ghost n: nat)
      requires Valid()
      modifies this
      ensures Valid() && (ok <==> old(Fits(|data|)))
      ensures n <= |data| && out == old(out) + data[..n] && (ok ==> n == |data|)
    {
      ok := Fits(|data|);
      if ok {
        n := |data|;
        out := out + data;
      } else {
        var left := room.value - |out|;
        n := left;
        out := out + data[..left];
      }
    }
  }

  /** The zero-fill loop for a hole: zeros in pieces of at most one block. */
  method WriteZeros(w: Writer, count: nat) returns (ok: bool, ghost n: nat)
    requires w.Valid()
    modifies w
    ensures w.Valid() && (ok <==> old(w.Fits(count)))
    ensures n <= count && w.out == old(w.out) + Zeros(n) && (ok ==> n == count)
  {
    var zeros := Zeros(EROFS_BLOCK_SIZE);
    var left: nat := count;
    n := 0;
    while left > 0
      invariant w.Valid() && left <= count && n == count - left && w.out == old(w.out) + Zeros(n)
    {
      var k := Min(left, |zeros|);
      ghost var m;
      ok, m := w.WriteAll(zeros[..k]);
      assert zeros[..k][..m] == Zeros(m) && Zeros(n) + Zeros(m) == Zeros(n + m);
      AppendAssoc(old(w.out), Zeros(n), Zeros(m));
      n := n + m;
      if !ok {
        return false, n;
      }
      left := left - k;
    }
    return true, n;
  }

  /** The three branches of that loop: zeros for a hole, a slice of the blob, a slice of the image. */
  method WritePiece(r: ErofsReader, ci: ChunkIndex, chunkOff: nat, toRead: nat, w: Writer)
    returns (res: Result<()>, ghost n: nat)
    requires w.Valid()
    modifies w
    ensures w.Valid() && n <= toRead
    ensures var piece := Piece(r, ci, chunkOff, toRead);
            && (res.Ok? <==> piece.Ok? && old(w.Fits(toRead)))
            && (piece.Ok? ==> |piece.value| == toRead && w.out == old(w.out) + piece.value[..n])
            && (piece.Err? ==> n == 0 && w.out == old(w.out))
    ensures res.Ok? ==> n == toRead
  {
    var ok: bool;
    if ci.blkaddr == EROFS_NULL_ADDR {
      ok, n := WriteZeros(w, toRead);
      assert Zeros(toRead)[..n] == Zeros(n);
    } else {
      var slice;
      if ci.deviceId > 0 {
        slice := BlobMmapSlice(r, Wrap64(ci.blkaddr * EROFS_BLOCK_SIZE + chunkOff), toRead);
      } else {
        slice := MmapSlice(r, Wrap64(ci.blkaddr * EROFS_BLOCK_SIZE + chunkOff), toRead);
      }
      if slice.Err? {
        return Err(slice.error), 0;
      }
      ok, n := w.WriteAll(slice.value);
    }
    res := if ok then Ok(()) else Err(WriteFailed);
  }

  /**
   * The loop of `write_chunk_data_to` over a decoded table. It succeeds exactly when every byte of the
   * range is mapped and the sink has room, and then has written exactly those bytes; when it fails it
   * has written a prefix of them. The test for an index past the table never leaves the loop.
   */
  method WriteChunks(r: ErofsReader, table: seq<ChunkIndex>, cs: nat, offset: nat, size: nat, w: Writer)
    returns (res: Result<nat>, ghost done: nat)
    requires 0 < cs < TWO_48 && TableOk(table) && offset + size <= |table| * cs && w.Valid()
    modifies w
    ensures w.Valid()
    ensures res.Ok? <==> AllMapped(r, table, cs, offset, size) && old(w.Fits(size))
    ensures res.Ok? ==> res.value == size && done == size
    ensures done <= size && w.out == old(w.out) + FileBytes(r, table, cs, offset, done)
    ensures AllMapped(r, table, cs, offset, done)
  {
    var remaining: nat := size;
    var filePos: nat := offset;
    done := 0;
    while remaining > 0
      invariant w.Valid() && remaining <= size && filePos == offset + (size - remaining) && done == size - remaining
      invariant w.out == old(w.out) + FileBytes(r, table, cs, offset, done)
      invariant AllMapped(r, table, cs, offset, done)
    {
      hide Piece, AllMapped, FileBytes;
      Round(r, table, cs, offset, size, done);
      var chunkIdx := filePos / cs;
      var chunkOff := filePos % cs;
      var toRead := Min(remaining, cs - chunkOff);
      if chunkIdx >= |table| {
        break;
      }
      ghost var was := w.out;
      ghost var piece := Piece(r, table[chunkIdx], chunkOff, toRead);
      var step, n := WritePiece(r, table[chunkIdx], chunkOff, toRead, w);
      StepWritten(r, table, cs, offset, done, n, toRead, old(w.out), was, w.out, piece);
      if step.Err? {
        return Err(step.error), done + n;
      }
      done := done + toRead;
      filePos := filePos + toRead;
      remaining := remaining - toRead;
    }
    return Ok(size - remaining), done;
  }

  /** What one piece adds to the output. */
  lemma StepWritten(r: ErofsReader, table: seq<ChunkIndex>, cs: nat, offset: nat, done: nat, n: nat, k: nat,
                    first: seq<byte>, was: seq<byte>, now: seq<byte>, piece: Result<seq<byte>>)
    requires cs > 0 && n <= k && was == first + FileBytes(r, table, cs, offset, done)
    requires AllMapped(r, table, cs, offset, done)
    requires piece.Ok? ==> piece.value == FileBytes(r, table, cs, offset + done, k) && now == was + piece.value[..n]
    requires piece.Ok? ==> AllMapped(r, table, cs, offset, done + k)
    requires piece.Err? ==> n == 0 && now == was
    ensures now == first + FileBytes(r, table, cs, offset, done + n) && AllMapped(r, table, cs, offset, done + n)
  {
    if piece.Ok? {
      PartialPiece(r, table, cs, offset, done, n, k, first);
    }
  }

  /** A sink that stopped inside a piece has taken a prefix of the range. */
  lemma PartialPiece(r: ErofsReader, table: seq<ChunkIndex>, cs: nat, offset: nat, done: nat, n: nat, k: nat,
                     was: seq<byte>)
    requires cs > 0 && n <= k
    ensures var d := FileBytes(r, table, cs, offset + done, k);
            (was + FileBytes(r, table, cs, offset, done)) + d[..n] == was + FileBytes(r, table, cs, offset, done + n)
    ensures AllMapped(r, table, cs, offset, done + k) ==> AllMapped(r, table, cs, offset, done + n)
  {
    FileBytesSplit(r, table, cs, offset, done, n);
    FileBytesSplit(r, table, cs, offset + done, n, k - n);
    assert FileBytes(r, table, cs, offset + done, k)[..n] == FileBytes(r, table, cs, offset + done, n);
    AppendAssoc(was, FileBytes(r, table, cs, offset, done), FileBytes(r, table, cs, offset + done, n));
  }

  /** The three branches of that loop: a hole leaves the buffer alone, a slice is copied into place. */
  method CopyPiece(r: ErofsReader, ci: ChunkIndex, chunkOff: nat, toRead: nat, buf: array<byte>, bufPos: nat)
    returns (res: Result<()>)
    requires bufPos + toRead <= buf.Length
    modifies buf
    ensures var piece := Piece(r, ci, chunkOff, toRead);
            && (res.Ok? <==> piece.Ok?)
            && (IsHole(ci) ==> piece == Ok(Zeros(toRead)) && buf[..] == old(buf[..]))
            && (piece.Ok? && !IsHole(ci) ==>
                  |piece.value| == toRead && buf[..] == Splice(old(buf[..]), bufPos, piece.value))
  {
    if ci.blkaddr == EROFS_NULL_ADDR {
      return Ok(());
    }
    var slice;
    if ci.deviceId > 0 {
      slice := BlobMmapSlice(r, Wrap64(ci.blkaddr * EROFS_BLOCK_SIZE + chunkOff), toRead);
    } else {
      slice := MmapSlice(r, Wrap64(ci.blkaddr * EROFS_BLOCK_SIZE + chunkOff), toRead);
    }
    if slice.Err? {
      return Err(slice.error);
    }
    CopyFromSlice(buf, bufPos, slice.value);
    return Ok(());
  }

  /**
   * The loop of `read_chunk_data_sync` (and of its async twin) over a decoded table: fills a zeroed
   * buffer in place, leaving holes untouched. Same success condition, same bytes.
   */
  method ReadChunks(r: ErofsReader, table: seq<ChunkIndex>, cs: nat, offset: nat, size: nat)
    returns (res: Result<seq<byte>>)
    requires 0 < cs < TWO_48 && TableOk(table) && offset + size <= |table| * cs
    ensures res.Ok? <==> AllMapped(r, table, cs, offset, size)
    ensures res.Ok? ==> res.value == FileBytes(r, table, cs, offset, size)
  {
    var result := ZeroBuffer(size);
    var remaining: nat := size;
    var filePos: nat := offset;
    var bufPos: nat := 0;
    while remaining > 0
      invariant remaining <= size && filePos == offset + bufPos && bufPos == size - remaining
      invariant result[..] == FileBytes(r, table, cs, offset, bufPos) + Zeros(remaining)
      invariant AllMapped(r, table, cs, offset, bufPos)
    {
      IndexInRange(filePos, cs, |table|);
      var chunkIdx := filePos / cs;
      var chunkOff := filePos % cs;
      if chunkIdx >= |table| {
        break;
      }
      var toRead := Min(remaining, cs - chunkOff);
      var step := CopyNext(r, table, cs, offset, size, bufPos, toRead, result);
      if step.Err? {
        return Err(step.error);
      }
      filePos := filePos + toRead;
      bufPos := bufPos + toRead;
      remaining := remaining - toRead;
    }
    assert result[..] == FileBytes(r, table, cs, offset, size);
    return Ok(result[..]);
  }

  /** One piece of that loop. */
  method CopyNext(r: ErofsReader, table: seq<ChunkIndex>, cs: nat, offset: nat, size: nat, done: nat, k: nat,
                  buf: array<byte>)
    returns (res: Result<()>)
    requires 0 < cs < TWO_48 && TableOk(table) && offset + size <= |table| * cs && done < size
    requires k == Min(size - done, cs - (offset + done) % cs)
    requires buf[..] == FileBytes(r, table, cs, offset, done) + Zeros(size - done)
    requires AllMapped(r, table, cs, offset, done)
    modifies buf
    ensures 0 < k <= size - done
    ensures res.Ok? ==> && buf[..] == FileBytes(r, table, cs, offset, done + k) + Zeros(size - done - k)
                        && AllMapped(r, table, cs, offset, done + k)
    ensures res.Err? ==> !AllMapped(r, table, cs, offset, size)
  {
    Round(r, table, cs, offset, size, done);
    var pos := offset + done;
    ghost var was := buf[..];
    res := CopyPiece(r, table[pos / cs], pos % cs, k, buf, done);
    if res.Ok? {
      BufferStep(r, table, cs, offset, done, k, size - done, Piece(r, table[pos / cs], pos % cs, k).value, was);
    }
  }

  /** A piece copied into the zeroed buffer extends the filled part; a hole is already there. */
  lemma BufferStep(r: ErofsReader, table: seq<ChunkIndex>, cs: nat, offset: nat, done: nat, k: nat, rem: nat,
                   piece: seq<byte>,
                   now: seq<byte>)
    requires cs > 0 && k <= rem && piece == FileBytes(r, table, cs, offset + done, k)
    requires now == FileBytes(r, table, cs, offset, done) + Zeros(rem)
    ensures var next := FileBytes(r, table, cs, offset, done + k) + Zeros(rem - k);
            Splice(now, done, piece) == next && (piece == Zeros(k) ==> now == next)
  {
    FileBytesSplit(r, table, cs, offset, done, k);
    FillZeros(FileBytes(r, table, cs, offset, done), piece, rem);
    ZerosInPlace(FileBytes(r, table, cs, offset, done), rem, k);
  }

  lemma ZerosInPlace(done: seq<byte>, remaining: nat, k: nat)
    requires k <= remaining
    ensures done + Zeros(remaining) == (done + Zeros(k)) + Zeros(remaining - k)
  {
  }

  // ------------------------------------------------------------------
  // Entry points
  // ------------------------------------------------------------------

  /** `chunk_indexes`: the table starts right after the header and the xattrs, without rounding. */
  function ChunkIndexes(r: ErofsReader, nid: nat, v: ErofsInode): (d: Result<seq<byte>>)
    ensures d.Ok? ==> |d.value| == NChunks(r, v) * EROFS_CHUNK_INDEX_SIZE
  {
    if DataLayout(v) != EROFS_INODE_CHUNK_BASED then Err(InvalidData)
    else MmapSlice(r, InlineAddr(r, nid, v, 0), NChunks(r, v) * EROFS_CHUNK_INDEX_SIZE)
  }

  /** What a chunk read of a range inside the file yields: its bytes when all are mapped, else an error. */
  ghost function ChunkRead(r: ErofsReader, nid: nat, v: ErofsInode, offset: nat, size: nat): Option<seq<byte>> {
    match ChunkIndexes(r, nid, v)
    case Err(_) => None
    case Ok(d) =>
      var table := DecodeTable(d, NChunks(r, v));
      if AllMapped(r, table, ChunkSize(r, v), offset, size)
      then Some(FileBytes(r, table, ChunkSize(r, v), offset, size))
      else None
  }

  /** What reading a range inside the file yields, by data layout; `None` is an error. */
  ghost function RangeRead(r: ErofsReader, nid: nat, v: ErofsInode, offset: nat, size: nat): Option<seq<byte>>
    requires offset + size <= Size(v)
  {
    if DataLayout(v) == EROFS_INODE_FLAT_PLAIN || DataLayout(v) == EROFS_INODE_FLAT_INLINE then
      Read(ReadFlatDataVec(r, nid, v, offset, size))
    else if DataLayout(v) == EROFS_INODE_CHUNK_BASED then ChunkRead(r, nid, v, offset, size)
    else None
  }

  /** What reading `size` bytes at `offset` yields, cut off at the end of the file. */
  ghost function FileRead(r: ErofsReader, nid: nat, v: ErofsInode, offset: nat, size: nat): Option<seq<byte>> {
    if offset >= Size(v) then Some([]) else RangeRead(r, nid, v, offset, Min(size, Size(v) - offset))
  }

  lemma DecodedTableOk(r: ErofsReader, v: ErofsInode, d: seq<byte>)
    requires Blkszbits(r) == EROFS_BLKSZBITS && |d| == NChunks(r, v) * EROFS_CHUNK_INDEX_SIZE
    ensures var table := DecodeTable(d, NChunks(r, v));
            TableOk(table) && Size(v) <= |table| * ChunkSize(r, v) && ChunkSize(r, v) < TWO_48
  {
    DivCeilBound(Size(v), ChunkSize(r, v));
    ChunkSizeRange(r, v);
  }

  /**
   * What a sink has been given by a call that reached byte `n` of its range, finished or not: exactly what
   * a read of those `n` bytes yields.
   */
  ghost predicate Received(was: seq<byte>, now: seq<byte>, n: nat, read: Option<seq<byte>>) {
    if n == 0 then now == was else read.Some? && now == was + read.value
  }

  /** `write_chunk_data_to`. */
  method WriteChunkDataTo(r: ErofsReader, nid: nat, v: ErofsInode, offset: nat, size: nat, w: Writer)
    returns (res: Result<nat>, ghost n: nat)
    requires Blkszbits(r) == EROFS_BLKSZBITS && offset + size <= Size(v) && w.Valid()
    modifies w
    ensures w.Valid()
    ensures res.Ok? <==> ChunkRead(r, nid, v, offset, size).Some? && old(w.Fits(size))
    ensures res.Ok? ==> res.value == size && w.out == old(w.out) + ChunkRead(r, nid, v, offset, size).value
    ensures n <= size && Received(old(w.out), w.out, n, ChunkRead(r, nid, v, offset, n))
  {
    var ciData := ChunkIndexes(r, nid, v);
    if ciData.Err? {
      return Err(ciData.error), 0;
    }
    DecodedTableOk(r, v, ciData.value);
    res, n := WriteChunks(r, DecodeTable(ciData.value, NChunks(r, v)), ChunkSize(r, v), offset, size, w);
  }

  /** `read_chunk_data_sync` and `read_chunk_data_async`. */
  method ReadChunkData(r: ErofsReader, nid: nat, v: ErofsInode, offset: nat, size: nat) returns (res: Result<seq<byte>>)
    requires Blkszbits(r) == EROFS_BLKSZBITS && offset + size <= Size(v)
    ensures res.Ok? <==> ChunkRead(r, nid, v, offset, size).Some?
    ensures res.Ok? ==> res.value == ChunkRead(r, nid, v, offset, size).value
  {
    var ciData := ChunkIndexes(r, nid, v);
    if ciData.Err? {
      return Err(ciData.error);
    }
    DecodedTableOk(r, v, ciData.value);
    res := ReadChunks(r, DecodeTable(ciData.value, NChunks(r, v)), ChunkSize(r, v), offset, size);
  }

  lemma SliceShorter(dev: seq<byte>, base: nat, size: nat, n: nat)
    requires n <= size && SliceOf(dev, base, size).Ok?
    ensures SliceOf(dev, base, n) == Ok(SliceOf(dev, base, size).value[..n])
  {
    assert dev[base..base + size][..n] == dev[base..base + n];
  }

  /** A shorter read in one slice is a prefix of the longer one. */
  lemma FlatShorter(r: ErofsReader, nid: nat, v: ErofsInode, offset: nat, size: nat, n: nat)
    requires offset + size <= Size(v) && n <= size && !Spans(v, offset, size)
    requires ReadFlatData(r, nid, v, offset, size).Ok?
    ensures |ReadFlatData(r, nid, v, offset, size).value| == size
    ensures ReadFlatDataVec(r, nid, v, offset, n) == Ok(ReadFlatData(r, nid, v, offset, size).value[..n])
  {
    if DataLayout(v) == EROFS_INODE_FLAT_PLAIN || offset < BlocksSize(v) {
      SliceShorter(r.mmap, BlockAddr(v, offset), size, n);
    } else {
      SliceShorter(r.mmap, InlineAddr(r, nid, v, offset - BlocksSize(v)), size, n);
    }
  }

  /** A shorter read that stays in the blocks. */
  lemma BlocksShorter(r: ErofsReader, nid: nat, v: ErofsInode, offset: nat, size: nat, blocks: seq<byte>, n: nat,
                      was: seq<byte>, now: seq<byte>)
    requires offset + size <= Size(v) && Spans(v, offset, size) && n <= |blocks| && now == was + blocks[..n]
    requires MmapSlice(r, BlockAddr(v, offset), BlocksSize(v) - offset) == Ok(blocks)
    ensures |blocks| == BlocksSize(v) - offset && n < size
    ensures Received(was, now, n, Read(ReadFlatDataVec(r, nid, v, offset, n)))
  {
    SliceShorter(r.mmap, BlockAddr(v, offset), BlocksSize(v) - offset, n);
    assert n == 0 ==> was + blocks[..n] == was;
  }

  /** A shorter read that reaches into the tail. */
  lemma TailShorter(r: ErofsReader, nid: nat, v: ErofsInode, offset: nat, size: nat, blocks: seq<byte>, tail: seq<byte>,
                    m: nat, was: seq<byte>, now: seq<byte>)
    requires offset + size <= Size(v) && Spans(v, offset, size) && m <= |tail| && now == (was + blocks) + tail[..m]
    requires MmapSlice(r, BlockAddr(v, offset), BlocksSize(v) - offset) == Ok(blocks)
    requires MmapSlice(r, InlineAddr(r, nid, v, 0), size - (BlocksSize(v) - offset)) == Ok(tail)
    ensures |blocks| + m <= size && ReadFlatDataVec(r, nid, v, offset, size) == Ok(blocks + tail)
    ensures Received(was, now, |blocks| + m, Read(ReadFlatDataVec(r, nid, v, offset, |blocks| + m)))
    ensures m == |tail| ==> |blocks| + m == size && now == was + (blocks + tail)
  {
    if m == 0 {
      assert blocks[..|blocks|] == blocks && now == was + blocks;
      BlocksShorter(r, nid, v, offset, size, blocks, |blocks|, was, now);
    } else {
      SliceShorter(r.mmap, InlineAddr(r, nid, v, 0), size - (BlocksSize(v) - offset), m);
      AppendAssoc(was, blocks, tail[..m]);
      assert ReadFlatDataVec(r, nid, v, offset, |blocks| + m) == Ok(blocks + tail[..m]);
    }
    assert m == |tail| ==> tail[..m] == tail;
    AppendAssoc(was, blocks, tail);
  }

  function Read(d: Result<seq<byte>>): Option<seq<byte>> {
    match d
    case Ok(bytes) => Some(bytes)
    case Err(_) => None
  }

  /** Two writes: the blocks, then the inline tail. */
  method WriteSpanning(r: ErofsReader, nid: nat, v: ErofsInode, offset: nat, size: nat, w: Writer)
    returns (res: Result<nat>, ghost n: nat)
    requires offset + size <= Size(v) && w.Valid() && Spans(v, offset, size)
    modifies w
    ensures w.Valid()
    ensures var read := ReadFlatDataVec(r, nid, v, offset, size);
            && (res.Ok? <==> read.Ok? && old(w.Fits(size)))
            && (res.Ok? ==> res.value == size && w.out == old(w.out) + read.value)
    ensures n <= size && Received(old(w.out), w.out, n, Read(ReadFlatDataVec(r, nid, v, offset, n)))
  {
    hide BlockAddr, InlineAddr;
    var ok;
    var blockReadSize := BlocksSize(v) - offset;
    var blockData := MmapSlice(r, BlockAddr(v, offset), blockReadSize);
    if blockData.Err? {
      return Err(blockData.error), 0;
    }
    ok, n := w.WriteAll(blockData.value);
    BlocksShorter(r, nid, v, offset, size, blockData.value, n, old(w.out), w.out);
    if !ok {
      return Err(WriteFailed), n;
    }
    var inlineData := MmapSlice(r, InlineAddr(r, nid, v, 0), size - blockReadSize);
    if inlineData.Err? {
      return Err(inlineData.error), n;
    }
    assert blockData.value[..n] == blockData.value;
    ghost var m;
    ok, m := w.WriteAll(inlineData.value);
    TailShorter(r, nid, v, offset, size, blockData.value, inlineData.value, m, old(w.out), w.out);
    return if ok then Ok(size) else Err(WriteFailed), n + m;
  }

  /** `write_flat_data_to`: one write, or two when the range spans blocks and tail. */
  method WriteFlatDataTo(r: ErofsReader, nid: nat, v: ErofsInode, offset: nat, size: nat, w: Writer)
    returns (res: Result<nat>, ghost n: nat)
    requires offset + size <= Size(v) && w.Valid()
    modifies w
    ensures w.Valid()
    ensures var read := ReadFlatDataVec(r, nid, v, offset, size);
            && (res.Ok? <==> read.Ok? && old(w.Fits(size)))
            && (res.Ok? ==> res.value == size && w.out == old(w.out) + read.value)
    ensures n <= size && Received(old(w.out), w.out, n, Read(ReadFlatDataVec(r, nid, v, offset, n)))
  {
    if DataLayout(v) == EROFS_INODE_FLAT_INLINE {
      if 0 < BlocksSize(v) && offset < BlocksSize(v) && offset + size > BlocksSize(v) {
        res, n := WriteSpanning(r, nid, v, offset, size, w);
        return res, n;
      }
    }
    var slice := ReadFlatData(r, nid, v, offset, size);
    if slice.Err? {
      return Err(slice.error), 0;
    }
    FlatShorter(r, nid, v, offset, size, 0);
    var ok;
    ok, n := w.WriteAll(slice.value);
    FlatShorter(r, nid, v, offset, size, n);
    assert n == 0 ==> w.out == old(w.out) + [];
    assert n == size ==> slice.value[..n] == slice.value;
    return if ok then Ok(size) else Err(WriteFailed), n;
  }

  /**
   * `write_file_data_to`: succeeds exactly when the read does and the sink has room, with the same bytes;
   * a call that fails has written what a shorter read would have.
   */
  method WriteFileDataTo(r: ErofsReader, nid: nat, v: ErofsInode, offset: nat, size: nat, w: Writer)
    returns (res: Result<nat>, ghost n: nat)
    requires w.Valid() && (DataLayout(v) == EROFS_INODE_CHUNK_BASED ==> Blkszbits(r) == EROFS_BLKSZBITS)
    modifies w
    ensures w.Valid()
    ensures var read := FileRead(r, nid, v, offset, size);
            && (res.Ok? <==> read.Some? && old(w.Fits(|read.value|)))
            && (res.Ok? ==> res.value == |read.value| && w.out == old(w.out) + read.value)
    ensures n <= size && Received(old(w.out), w.out, n, FileRead(r, nid, v, offset, n))
  {
    if offset >= Size(v) {
      return Ok(0), 0;
    }
    var actualSize := Min(size, Size(v) - offset);
    var layout := DataLayout(v);
    if layout == EROFS_INODE_FLAT_PLAIN || layout == EROFS_INODE_FLAT_INLINE {
      res, n := WriteFlatDataTo(r, nid, v, offset, actualSize, w);
      FlatDispatched(r, nid, v, offset, size, actualSize);
      FlatDispatched(r, nid, v, offset, n, n);
    } else if layout == EROFS_INODE_CHUNK_BASED {
      res, n := WriteChunkDataTo(r, nid, v, offset, actualSize, w);
      ChunkDispatched(r, nid, v, offset, size, actualSize);
      ChunkDispatched(r, nid, v, offset, n, n);
    } else {
      res, n := Err(InvalidData), 0;
    }
  }

  /** Which read the dispatch comes down to inside the file. */
  lemma FlatDispatched(r: ErofsReader, nid: nat, v: ErofsInode, offset: nat, size: nat, n: nat)
    requires offset < Size(v) && n == Min(size, Size(v) - offset)
    requires DataLayout(v) == EROFS_INODE_FLAT_PLAIN || DataLayout(v) == EROFS_INODE_FLAT_INLINE
    ensures FileRead(r, nid, v, offset, size) == Read(ReadFlatDataVec(r, nid, v, offset, n))
    ensures ReadFlatDataVec(r, nid, v, offset, n).Ok? ==> |ReadFlatDataVec(r, nid, v, offset, n).value| == n
  {
    hide ReadFlatDataVec;
    FlatLength(r, nid, v, offset, n);
  }

  lemma FlatLength(r: ErofsReader, nid: nat, v: ErofsInode, offset: nat, n: nat)
    requires offset + n <= Size(v)
    ensures ReadFlatDataVec(r, nid, v, offset, n).Ok? ==> |ReadFlatDataVec(r, nid, v, offset, n).value| == n
  {
    hide BlockAddr, InlineAddr, BlocksSize, DataLayout;
  }

  lemma ChunkDispatched(r: ErofsReader, nid: nat, v: ErofsInode, offset: nat, size: nat, n: nat)
    requires offset < Size(v) && n == Min(size, Size(v) - offset) && DataLayout(v) == EROFS_INODE_CHUNK_BASED
    ensures FileRead(r, nid, v, offset, size) == ChunkRead(r, nid, v, offset, n)
    ensures ChunkRead(r, nid, v, offset, n).Some? ==> |ChunkRead(r, nid, v, offset, n).value| == n
  {
  }

  /** `read_file_data_sync` and `read_file_data`: the same bytes in a buffer. */
  method ReadFileData(r: ErofsReader, nid: nat, v: ErofsInode, offset: nat, size: nat) returns (res: Result<seq<byte>>)
    requires DataLayout(v) == EROFS_INODE_CHUNK_BASED ==> Blkszbits(r) == EROFS_BLKSZBITS
    ensures var read := FileRead(r, nid, v, offset, size);
            (res.Ok? <==> read.Some?) && (res.Ok? ==> res.value == read.value)
  {
    hide ReadFlatDataVec, ChunkRead;
    if offset >= Size(v) {
      return Ok([]);
    }
    var actualSize := Min(size, Size(v) - offset);
    var layout := DataLayout(v);
    if layout == EROFS_INODE_FLAT_PLAIN || layout == EROFS_INODE_FLAT_INLINE {
      res := ReadFlatDataVec(r, nid, v, offset, actualSize);
    } else if layout == EROFS_INODE_CHUNK_BASED {
      res := ReadChunkData(r, nid, v, offset, actualSize);
    } else {
      res := Err(InvalidData);
    }
  }

  // ------------------------------------------------------------------
  // Reads are slices of one content, and compose
  // ------------------------------------------------------------------

  /** The chunk `k` of the content lies, in bounds and in full, where index `k` says. */
  ghost predicate ChunksStored(r: ErofsReader, table: seq<ChunkIndex>, cs: nat, content: seq<byte>)
    requires cs > 0
  {
    forall p :: 0 <= p < |content| ==> Mapped(r, table, cs, p) && ByteAt(r, table, cs, p) == content[p]
  }

  ghost predicate FileStored(r: ErofsReader, nid: nat, v: ErofsInode, content: seq<byte>) {
    if DataLayout(v) == EROFS_INODE_CHUNK_BASED then
      && |content| == Size(v)
      && ChunkIndexes(r, nid, v).Ok?
      && ChunksStored(r, DecodeTable(ChunkIndexes(r, nid, v).value, NChunks(r, v)), ChunkSize(r, v), content)
    else FlatStored(r, nid, v, content)
  }

  /** Every read of a stored file, at any offset and of any size, yields the slice of its content. */
  lemma FileReadIsSlice(r: ErofsReader, nid: nat, v: ErofsInode, content: seq<byte>, offset: nat, size: nat)
    requires FileStored(r, nid, v, content)
    ensures var lo, hi := Min(offset, |content|), Min(offset + size, |content|);
            FileRead(r, nid, v, offset, size) == Some(content[lo..hi])
  {
    hide ReadFlatDataVec, ChunkRead, ChunksStored;
    if offset < |content| {
      var n := Min(size, |content| - offset);
      ReadInside(r, nid, v, offset, size, n);
      RangeIsSlice(r, nid, v, content, offset, n);
    } else {
      assert content[|content|..|content|] == [];
    }
  }

  /** The same for a range inside the file. */
  lemma RangeIsSlice(r: ErofsReader, nid: nat, v: ErofsInode, content: seq<byte>, offset: nat, n: nat)
    requires FileStored(r, nid, v, content) && offset + n <= |content|
    ensures offset + n <= Size(v) && RangeRead(r, nid, v, offset, n) == Some(content[offset..offset + n])
  {
    if DataLayout(v) == EROFS_INODE_CHUNK_BASED {
      ChunkRangeIsSlice(r, nid, v, content, offset, n);
    } else {
      FlatReadsRefineContent(r, nid, v, content, offset, n);
    }
  }

  lemma ChunkRangeIsSlice(r: ErofsReader, nid: nat, v: ErofsInode, content: seq<byte>, offset: nat, n: nat)
    requires DataLayout(v) == EROFS_INODE_CHUNK_BASED && FileStored(r, nid, v, content) && offset + n <= |content|
    ensures ChunkRead(r, nid, v, offset, n) == Some(content[offset..offset + n])
  {
    StoredBytes(r, DecodeTable(ChunkIndexes(r, nid, v).value, NChunks(r, v)), ChunkSize(r, v), content, offset, n);
  }

  lemma StoredBytes(r: ErofsReader, table: seq<ChunkIndex>, cs: nat, content: seq<byte>, offset: nat, n: nat)
    requires cs > 0 && ChunksStored(r, table, cs, content) && offset + n <= |content|
    ensures AllMapped(r, table, cs, offset, n) && FileBytes(r, table, cs, offset, n) == content[offset..offset + n]
  {
    var d := FileBytes(r, table, cs, offset, n);
    forall i | 0 <= i < n ensures d[i] == content[offset..offset + n][i] {
      assert d[i] == ByteAt(r, table, cs, offset + i);
    }
  }

  /**
   * For any inode: one read of `a + b` bytes is the two reads in a row. It succeeds exactly when both do, but for
   * a second read of no bytes, which can fail at the end of the whole blocks (see `EmptyReadFails`).
   */
  lemma ReadsCompose(r: ErofsReader, nid: nat, v: ErofsInode, offset: nat, a: nat, b: nat)
    ensures var all, first, second := FileRead(r, nid, v, offset, a + b), FileRead(r, nid, v, offset, a),
                                      FileRead(r, nid, v, offset + a, b);
            && (all.Some? <==> first.Some? && (b == 0 || second.Some?))
            && (all.Some? && second.Some? ==> all.value == first.value + second.value)
  {
    hide FileRead;
    var all, first, second := FileRead(r, nid, v, offset, a + b), FileRead(r, nid, v, offset, a),
                              FileRead(r, nid, v, offset + a, b);
    ReadsSucceed(r, nid, v, offset, a, b);
    if all.Some? && second.Some? {
      ValuesCompose(r, nid, v, offset, a, b, all.value, first.value, second.value);
    }
  }

  lemma ReadsSucceed(r: ErofsReader, nid: nat, v: ErofsInode, offset: nat, a: nat, b: nat)
    ensures FileRead(r, nid, v, offset, a + b).Some?
            <==> FileRead(r, nid, v, offset, a).Some? && (b == 0 || FileRead(r, nid, v, offset + a, b).Some?)
  {
    hide FileRead, RangeRead;
    if offset + a < Size(v) {
      var n := Min(b, Size(v) - offset - a);
      ReadInside(r, nid, v, offset, a + b, a + n);
      ReadInside(r, nid, v, offset, a, a);
      ReadInside(r, nid, v, offset + a, b, n);
      if b > 0 {
        RangesSucceed(r, nid, v, offset, a, n);
      }
    } else {
      ReadPastEnd(r, nid, v, offset, a, b);
    }
  }

  lemma RangesSucceed(r: ErofsReader, nid: nat, v: ErofsInode, offset: nat, a: nat, n: nat)
    requires offset + a + n <= Size(v) && n > 0
    ensures RangeRead(r, nid, v, offset, a + n).Some?
            <==> RangeRead(r, nid, v, offset, a).Some? && RangeRead(r, nid, v, offset + a, n).Some?
  {
    hide ReadFlatDataVec, ChunkRead;
    if DataLayout(v) == EROFS_INODE_CHUNK_BASED {
      ChunkReadsSucceed(r, nid, v, offset, a, n);
    } else {
      FlatReadsSucceed(r, nid, v, offset, a, n);
    }
  }

  lemma ChunkReadsSucceed(r: ErofsReader, nid: nat, v: ErofsInode, offset: nat, a: nat, n: nat)
    ensures ChunkRead(r, nid, v, offset, a + n).Some?
            <==> ChunkRead(r, nid, v, offset, a).Some? && ChunkRead(r, nid, v, offset + a, n).Some?
  {
    var d := ChunkIndexes(r, nid, v);
    if d.Ok? {
      FileBytesSplit(r, DecodeTable(d.value, NChunks(r, v)), ChunkSize(r, v), offset, a, n);
    }
  }

  lemma SlicesSucceed(dev: seq<byte>, base: nat, a: nat, n: nat)
    requires |dev| < TWO_64
    ensures SliceOf(dev, Wrap64(base), a + n).Ok?
            <==> SliceOf(dev, Wrap64(base), a).Ok? && SliceOf(dev, Wrap64(base + a), n).Ok?
  {
    if Wrap64(base) + a <= |dev| {
      WrapShift(base, a);
    }
  }

  // Which slices of the mapping a flat read needs.

  predicate BlocksOk(r: ErofsReader, v: ErofsInode, offset: nat, n: nat) {
    MmapSlice(r, BlockAddr(v, offset), n).Ok?
  }

  predicate TailOk(r: ErofsReader, nid: nat, v: ErofsInode, k: nat, n: nat) {
    MmapSlice(r, InlineAddr(r, nid, v, k), n).Ok?
  }

  lemma FlatNeeds(r: ErofsReader, nid: nat, v: ErofsInode, offset: nat, n: nat, bs: nat)
    requires offset + n <= Size(v) && bs == BlocksSize(v)
    ensures ReadFlatDataVec(r, nid, v, offset, n).Ok? <==>
              if DataLayout(v) == EROFS_INODE_FLAT_PLAIN then BlocksOk(r, v, offset, n)
              else if DataLayout(v) != EROFS_INODE_FLAT_INLINE then false
              else if bs <= offset then TailOk(r, nid, v, offset - bs, n)
              else if offset + n <= bs then BlocksOk(r, v, offset, n)
              else BlocksOk(r, v, offset, bs - offset) && TailOk(r, nid, v, 0, n - (bs - offset))
  {
  }

  lemma BlocksSplit(r: ErofsReader, v: ErofsInode, offset: nat, a: nat, n: nat)
    ensures BlocksOk(r, v, offset, a + n) <==> BlocksOk(r, v, offset, a) && BlocksOk(r, v, offset + a, n)
  {
    var base := Startblk(v) * EROFS_BLOCK_SIZE + offset;
    assert base + a == Startblk(v) * EROFS_BLOCK_SIZE + (offset + a);
    SlicesSucceed(r.mmap, base, a, n);
  }

  lemma TailSplit(r: ErofsReader, nid: nat, v: ErofsInode, k: nat, a: nat, n: nat)
    ensures TailOk(r, nid, v, k, a + n) <==> TailOk(r, nid, v, k, a) && TailOk(r, nid, v, k + a, n)
  {
    var base := InodeOffset(r, nid) + HeaderSize(v) + XattrSize(v) + k;
    assert base + a == InodeOffset(r, nid) + HeaderSize(v) + XattrSize(v) + (k + a);
    SlicesSucceed(r.mmap, base, a, n);
  }

  lemma FlatReadsSucceed(r: ErofsReader, nid: nat, v: ErofsInode, offset: nat, a: nat, n: nat)
    requires offset + a + n <= Size(v) && n > 0
    ensures ReadFlatDataVec(r, nid, v, offset, a + n).Ok?
            <==> ReadFlatDataVec(r, nid, v, offset, a).Ok? && ReadFlatDataVec(r, nid, v, offset + a, n).Ok?
  {
    hide ReadFlatDataVec, BlocksOk, TailOk, BlocksSize, DataLayout;
    var bs := BlocksSize(v);
    FlatNeeds(r, nid, v, offset, a + n, bs);
    FlatNeeds(r, nid, v, offset, a, bs);
    FlatNeeds(r, nid, v, offset + a, n, bs);
    if DataLayout(v) == EROFS_INODE_FLAT_PLAIN || offset + a + n <= bs {
      BlocksSplit(r, v, offset, a, n);
    } else if bs <= offset {
      TailSplit(r, nid, v, offset - bs, a, n);
    } else if offset + a <= bs {
      BlocksSplit(r, v, offset, a, bs - offset - a);
    } else {
      TailSplit(r, nid, v, 0, offset + a - bs, n);
    }
  }

  /** A FLAT_INLINE file of 4097 bytes whose xattr count leads its tail out of an image of one block. */
  const WILD_TAIL: ErofsInode :=
    InodeView(false, Header(2 * EROFS_INODE_FLAT_INLINE, 0xFFFF, 0, 0, 4097, 0, 0, 0, 0, 0, 0, 1))

  /** The image: the inode is at its start, with the start block 0. */
  const ONE_BLOCK: ErofsReader :=
    ReaderData(HeaderBytes(WILD_TAIL.h, false) + Zeros(992) + PutU32(EROFS_SUPER_MAGIC_V1) + Zeros(3068), None)

  /** Its whole block can be read, and no bytes behind it cannot. */
  lemma EmptyReadFails()
    ensures Open(ONE_BLOCK.mmap, None) == Ok(ONE_BLOCK) && ReadInode(ONE_BLOCK, 0) == Ok(WILD_TAIL)
    ensures FileRead(ONE_BLOCK, 0, WILD_TAIL, 0, 4096).Some? && FileRead(ONE_BLOCK, 0, WILD_TAIL, 4096, 0).None?
  {
    hide FileRead, Cast, HeaderBytes;
    var d, h := ONE_BLOCK.mmap, HeaderBytes(WILD_TAIL.h, false);
    var front := h + Zeros(992);
    assert front + PutU32(EROFS_SUPER_MAGIC_V1) <= d;
    U32At(front, EROFS_SUPER_MAGIC_V1, d);
    assert MetaBlkaddr(ONE_BLOCK) == 0;
    assert h <= d[0..64];
    HeaderRoundTrip(WILD_TAIL.h, false, d[0..64]);
    WildTail(ONE_BLOCK);
  }

  lemma WildTail(r: ErofsReader)
    requires MetaBlkaddr(r) == 0 && |r.mmap| == 4096
    ensures FileRead(r, 0, WILD_TAIL, 0, 4096).Some? && FileRead(r, 0, WILD_TAIL, 4096, 0).None?
  {
    assert InodeOffset(r, 0) == 0 && BlocksSize(WILD_TAIL) == 4096 && DataLayout(WILD_TAIL) == EROFS_INODE_FLAT_INLINE;
  }

  /** The value of two reads in a row. */
  lemma ValuesCompose(r: ErofsReader, nid: nat, v: ErofsInode, offset: nat, a: nat, b: nat,
                      all: seq<byte>, first: seq<byte>, second: seq<byte>)
    requires FileRead(r, nid, v, offset, a + b) == Some(all)
    requires FileRead(r, nid, v, offset, a) == Some(first) && FileRead(r, nid, v, offset + a, b) == Some(second)
    ensures all == first + second
  {
    if offset + a < Size(v) {
      InsideCompose(r, nid, v, offset, a, b, all, first, second);
    } else {
      ReadPastEnd(r, nid, v, offset, a, b);
    }
  }

  lemma InsideCompose(r: ErofsReader, nid: nat, v: ErofsInode, offset: nat, a: nat, b: nat,
                      all: seq<byte>, first: seq<byte>, second: seq<byte>)
    requires offset + a < Size(v) && FileRead(r, nid, v, offset, a + b) == Some(all)
    requires FileRead(r, nid, v, offset, a) == Some(first) && FileRead(r, nid, v, offset + a, b) == Some(second)
    ensures all == first + second
  {
    hide FileRead, RangeRead;
    var n := Min(b, Size(v) - offset - a);
    ReadInside(r, nid, v, offset, a + b, a + n);
    ReadInside(r, nid, v, offset, a, a);
    ReadInside(r, nid, v, offset + a, b, n);
    RangesCompose(r, nid, v, offset, a, n, all, first, second);
  }

  lemma ReadPastEnd(r: ErofsReader, nid: nat, v: ErofsInode, offset: nat, a: nat, b: nat)
    requires offset + a >= Size(v)
    ensures FileRead(r, nid, v, offset + a, b) == Some([])
    ensures FileRead(r, nid, v, offset, a + b) == FileRead(r, nid, v, offset, a)
  {
    hide RangeRead;
    if offset < Size(v) {
      ReadInside(r, nid, v, offset, a + b, Size(v) - offset);
      ReadInside(r, nid, v, offset, a, Size(v) - offset);
    }
  }

  lemma ReadInside(r: ErofsReader, nid: nat, v: ErofsInode, offset: nat, size: nat, n: nat)
    requires offset < Size(v) && n == Min(size, Size(v) - offset)
    ensures FileRead(r, nid, v, offset, size) == RangeRead(r, nid, v, offset, n)
  {
  }

  lemma RangesCompose(r: ErofsReader, nid: nat, v: ErofsInode, offset: nat, a: nat, b: nat,
                      all: seq<byte>, first: seq<byte>, second: seq<byte>)
    requires offset + a + b <= Size(v) && RangeRead(r, nid, v, offset, a + b) == Some(all)
    requires RangeRead(r, nid, v, offset, a) == Some(first) && RangeRead(r, nid, v, offset + a, b) == Some(second)
    ensures all == first + second
  {
    hide ReadFlatDataVec, ChunkRead, FlatBytes;
    if DataLayout(v) == EROFS_INODE_CHUNK_BASED {
      ChunkReadsCompose(r, nid, v, offset, a, b, all, first, second);
    } else {
      FlatRangeBytes(r, nid, v, offset, a + b, all);
      FlatRangeBytes(r, nid, v, offset, a, first);
      FlatRangeBytes(r, nid, v, offset + a, b, second);
      FlatBytesSplit(r, nid, v, offset, a, b, all, first, second);
    }
  }

  lemma ChunkReadsCompose(r: ErofsReader, nid: nat, v: ErofsInode, offset: nat, a: nat, b: nat,
                          all: seq<byte>, first: seq<byte>, second: seq<byte>)
    requires ChunkRead(r, nid, v, offset, a + b) == Some(all)
    requires ChunkRead(r, nid, v, offset, a) == Some(first) && ChunkRead(r, nid, v, offset + a, b) == Some(second)
    ensures all == first + second
  {
    FileBytesSplit(r, DecodeTable(ChunkIndexes(r, nid, v).value, NChunks(r, v)), ChunkSize(r, v), offset, a, b);
  }

  // A flat read, byte by byte.

  function DevByte(dev: seq<byte>, at: nat): byte {
    if at < |dev| then dev[at] else 0
  }

  function FlatByte(r: ErofsReader, nid: nat, v: ErofsInode, p: nat): byte {
    if DataLayout(v) == EROFS_INODE_FLAT_PLAIN || p < BlocksSize(v) then DevByte(r.mmap, BlockAddr(v, p))
    else DevByte(r.mmap, InlineAddr(r, nid, v, p - BlocksSize(v)))
  }

  function FlatBytes(r: ErofsReader, nid: nat, v: ErofsInode, offset: nat, n: nat): (d: seq<byte>)
    ensures |d| == n && forall i :: 0 <= i < n ==> d[i] == FlatByte(r, nid, v, offset + i)
  {
    seq<byte>(n, i requires 0 <= i < n => FlatByte(r, nid, v, offset + i))
  }

  lemma SliceBytes(dev: seq<byte>, base: nat, n: nat, i: nat)
    requires |dev| < TWO_64 && SliceOf(dev, Wrap64(base), n).Ok? && i < n
    ensures SliceOf(dev, Wrap64(base), n).value[i] == DevByte(dev, Wrap64(base + i))
  {
    WrapShift(base, i);
  }

  lemma BlockBytes(r: ErofsReader, nid: nat, v: ErofsInode, offset: nat, n: nat)
    requires DataLayout(v) == EROFS_INODE_FLAT_PLAIN || offset + n <= BlocksSize(v)
    requires MmapSlice(r, BlockAddr(v, offset), n).Ok?
    ensures MmapSlice(r, BlockAddr(v, offset), n).value == FlatBytes(r, nid, v, offset, n)
  {
    var d, base := FlatBytes(r, nid, v, offset, n), Startblk(v) * EROFS_BLOCK_SIZE + offset;
    forall i | 0 <= i < n ensures MmapSlice(r, BlockAddr(v, offset), n).value[i] == d[i] {
      SliceBytes(r.mmap, base, n, i);
      assert d[i] == FlatByte(r, nid, v, offset + i);
    }
  }

  lemma TailByte(r: ErofsReader, nid: nat, v: ErofsInode, k: nat, n: nat, i: nat)
    requires DataLayout(v) != EROFS_INODE_FLAT_PLAIN && i < n && MmapSlice(r, InlineAddr(r, nid, v, k), n).Ok?
    ensures MmapSlice(r, InlineAddr(r, nid, v, k), n).value[i] == FlatByte(r, nid, v, BlocksSize(v) + k + i)
  {
    SliceBytes(r.mmap, InodeOffset(r, nid) + HeaderSize(v) + XattrSize(v) + k, n, i);
  }

  lemma TailBytes(r: ErofsReader, nid: nat, v: ErofsInode, offset: nat, n: nat)
    requires DataLayout(v) != EROFS_INODE_FLAT_PLAIN && BlocksSize(v) <= offset
    requires MmapSlice(r, InlineAddr(r, nid, v, offset - BlocksSize(v)), n).Ok?
    ensures MmapSlice(r, InlineAddr(r, nid, v, offset - BlocksSize(v)), n).value == FlatBytes(r, nid, v, offset, n)
  {
    var d, k := FlatBytes(r, nid, v, offset, n), offset - BlocksSize(v);
    forall i | 0 <= i < n ensures MmapSlice(r, InlineAddr(r, nid, v, k), n).value[i] == d[i] {
      TailByte(r, nid, v, k, n, i);
      assert d[i] == FlatByte(r, nid, v, offset + i);
    }
  }

  lemma FlatBytesSplit(r: ErofsReader, nid: nat, v: ErofsInode, offset: nat, a: nat, b: nat,
                       all: seq<byte>, left: seq<byte>, right: seq<byte>)
    requires all == FlatBytes(r, nid, v, offset, a + b)
    requires left == FlatBytes(r, nid, v, offset, a) && right == FlatBytes(r, nid, v, offset + a, b)
    ensures all == left + right
  {
    forall i | 0 <= i < a + b ensures all[i] == (left + right)[i] {
      assert i >= a ==> right[i - a] == FlatByte(r, nid, v, offset + a + (i - a));
    }
  }

  lemma SpanningBytes(r: ErofsReader, nid: nat, v: ErofsInode, offset: nat, n: nat)
    requires offset + n <= Size(v) && Spans(v, offset, n) && ReadFlatDataVec(r, nid, v, offset, n).Ok?
    ensures ReadFlatDataVec(r, nid, v, offset, n).value == FlatBytes(r, nid, v, offset, n)
  {
    var k := BlocksSize(v) - offset;
    var blocks, tail := MmapSlice(r, BlockAddr(v, offset), k), MmapSlice(r, InlineAddr(r, nid, v, 0), n - k);
    PartsBytes(r, nid, v, offset, n, k, blocks, tail);
  }

  lemma PartsBytes(r: ErofsReader, nid: nat, v: ErofsInode, offset: nat, n: nat, k: nat,
                   blocks: Result<seq<byte>>, tail: Result<seq<byte>>)
    requires Spans(v, offset, n) && k == BlocksSize(v) - offset && blocks.Ok? && tail.Ok?
    requires blocks == MmapSlice(r, BlockAddr(v, offset), k) && tail == MmapSlice(r, InlineAddr(r, nid, v, 0), n - k)
    ensures blocks.value + tail.value == FlatBytes(r, nid, v, offset, n)
  {
    BlockBytes(r, nid, v, offset, k);
    TailBytes(r, nid, v, BlocksSize(v), n - k);
    FlatBytesSplit(r, nid, v, offset, k, n - k, FlatBytes(r, nid, v, offset, n), blocks.value, tail.value);
  }

  lemma SingleBytes(r: ErofsReader, nid: nat, v: ErofsInode, offset: nat, n: nat)
    requires offset + n <= Size(v) && !Spans(v, offset, n) && ReadFlatData(r, nid, v, offset, n).Ok?
    ensures ReadFlatData(r, nid, v, offset, n).value == FlatBytes(r, nid, v, offset, n)
  {
    if DataLayout(v) == EROFS_INODE_FLAT_PLAIN || offset < BlocksSize(v) {
      BlockBytes(r, nid, v, offset, n);
    } else {
      TailBytes(r, nid, v, offset, n);
    }
  }

  lemma FlatReadBytes(r: ErofsReader, nid: nat, v: ErofsInode, offset: nat, n: nat, d: seq<byte>)
    requires offset + n <= Size(v) && ReadFlatDataVec(r, nid, v, offset, n) == Ok(d)
    ensures d == FlatBytes(r, nid, v, offset, n)
  {
    if Spans(v, offset, n) {
      SpanningBytes(r, nid, v, offset, n);
    } else {
      SingleBytes(r, nid, v, offset, n);
    }
  }

  lemma FlatRangeBytes(r: ErofsReader, nid: nat, v: ErofsInode, offset: nat, n: nat, d: seq<byte>)
    requires offset + n <= Size(v) && DataLayout(v) != EROFS_INODE_CHUNK_BASED
    requires RangeRead(r, nid, v, offset, n) == Some(d)
    ensures d == FlatBytes(r, nid, v, offset, n)
  {
    hide ReadFlatDataVec, FlatBytes;
    FlatReadBytes(r, nid, v, offset, n, d);
  }
}
