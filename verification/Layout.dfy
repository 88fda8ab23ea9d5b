/** The metadata allocator (src/metadata/layout.rs). */
module Layout {
  import opened Bytes
  import opened Metadata

  // ------------------------------------------------------------------
  // The allocator as a state machine
  // ------------------------------------------------------------------

  datatype Region = Region(offset: nat, size: nat, block: bool)

  /** The buffer, which always ends at the cursor, and what has been handed out. */
  datatype State = State(buf: seq<byte>, regions: seq<Region>)

  datatype Op =
    | AllocInode(size: nat)
    | PadToBlock
    | AllocDirData(size: nat)
    | WriteAt(offset: nat, data: seq<byte>)

  function Padded(buf: seq<byte>): (r: seq<byte>)
    ensures |r| == RoundUpBlock(|buf|)
  {
    buf + Zeros(RoundUpBlock(|buf|) - |buf|)
  }

  /** `write_at` panics outside of the buffer. */
  predicate Enabled(s: State, op: Op) {
    op.WriteAt? ==> op.offset + |op.data| <= |s.buf|
  }

  function Step(s: State, op: Op): State
    requires Enabled(s, op)
  {
    match op
    case AllocInode(size) =>
      State(s.buf + Zeros(RoundUpSlot(size)), s.regions + [Region(|s.buf|, RoundUpSlot(size), false)])
    case PadToBlock =>
      State(Padded(s.buf), s.regions)
    case AllocDirData(size) =>
      var b := Padded(s.buf);
      State(b + Zeros(RoundUpBlock(size)), s.regions + [Region(|b|, RoundUpBlock(size), true)])
    case WriteAt(offset, data) =>
      State(Splice(s.buf, offset, data), s.regions)
  }

  const INIT := State([], [])

  /** The state after a run; the last operation comes last. */
  ghost function Run(ops: seq<Op>): State
    requires CanRun(ops)
    decreases |ops|, 1
  {
    if ops == [] then INIT else Step(Run(ops[..|ops| - 1]), ops[|ops| - 1])
  }

  ghost predicate CanRun(ops: seq<Op>)
    decreases |ops|, 0
  {
    ops != [] ==> CanRun(ops[..|ops| - 1]) && Enabled(Run(ops[..|ops| - 1]), ops[|ops| - 1])
  }

  // ------------------------------------------------------------------
  // Safety of every run
  // ------------------------------------------------------------------

  predicate Aligned(r: Region) {
    if r.block then r.offset % 4096 == 0 && r.size % 4096 == 0 else r.offset % 32 == 0 && r.size % 32 == 0
  }

  /** Every region is aligned and ends before the next one starts and before the buffer ends. */
  ghost predicate Safe(s: State) {
    && |s.buf| % 32 == 0
    && (forall i :: 0 <= i < |s.regions| ==>
         Aligned(s.regions[i]) && s.regions[i].offset + s.regions[i].size <= |s.buf|)
    && (forall i, j :: 0 <= i < j < |s.regions| ==> s.regions[i].offset + s.regions[i].size <= s.regions[j].offset)
  }

  lemma RoundUpsAligned(n: nat)
    ensures RoundUpSlot(n) % 32 == 0 && RoundUpBlock(n) % 4096 == 0 && RoundUpBlock(n) % 32 == 0
  {
    var q, b := (n + 31) / 32, (n + 4095) / 4096;
    ModUnique(RoundUpSlot(n), 32, q, 0);
    ModUnique(RoundUpBlock(n), 4096, b, 0);
    ModUnique(RoundUpBlock(n), 32, b * 128, 0);
  }

  lemma AlignedSum(a: nat, b: nat)
    requires a % 32 == 0 && b % 32 == 0
    ensures (a + b) % 32 == 0
  {
    ModUnique(a + b, 32, a / 32 + b / 32, 0);
  }

  lemma StepKeepsSafe(s: State, op: Op)
    requires Safe(s) && Enabled(s, op)
    ensures Safe(Step(s, op))
  {
    match op
    case AllocInode(size) =>
      RoundUpsAligned(size);
      AlignedSum(|s.buf|, RoundUpSlot(size));
    case PadToBlock =>
      RoundUpsAligned(|s.buf|);
    case AllocDirData(size) =>
      RoundUpsAligned(|s.buf|);
      RoundUpsAligned(size);
      AlignedSum(RoundUpBlock(|s.buf|), RoundUpBlock(size));
    case WriteAt(offset, data) =>
  }

  /** Every run hands out aligned, in-bounds, pairwise disjoint regions. */
  lemma {:induction false} RunsAreSafe(ops: seq<Op>)
    requires CanRun(ops)
    ensures Safe(Run(ops))
  {
    if ops != [] {
      RunsAreSafe(ops[..|ops| - 1]);
      StepKeepsSafe(Run(ops[..|ops| - 1]), ops[|ops| - 1]);
    }
  }

  // ------------------------------------------------------------------
  // What a region holds
  // ------------------------------------------------------------------

  function Held(s: State, k: nat): seq<byte>
    requires k < |s.regions| && s.regions[k].offset + s.regions[k].size <= |s.buf|
  {
    s.buf[s.regions[k].offset..s.regions[k].offset + s.regions[k].size]
  }

  /** A write stays inside region `k`. */
  predicate Within(r: Region, op: Op)
    requires op.WriteAt?
  {
    r.offset <= op.offset && op.offset + |op.data| <= r.offset + r.size
  }

  /** Allocation and padding leave the bytes of every region alone; a new region starts as zeros. */
  lemma AllocKeepsBytes(s: State, op: Op, k: nat)
    requires Safe(s) && !op.WriteAt? && k < |Step(s, op).regions|
    ensures Safe(Step(s, op))
    ensures k < |s.regions| ==> Held(Step(s, op), k) == Held(s, k)
    ensures k == |s.regions| ==> Held(Step(s, op), k) == Zeros(Step(s, op).regions[k].size)
  {
    StepKeepsSafe(s, op);
    if k < |s.regions| {
      var r, t := s.regions[k], Step(s, op);
      assert s.buf <= t.buf;
      PrefixSlice(s.buf, t.buf, r.offset, r.offset + r.size);
    }
  }

  lemma PrefixSlice(a: seq<byte>, b: seq<byte>, lo: nat, hi: nat)
    requires a <= b && lo <= hi <= |a|
    ensures b[lo..hi] == a[lo..hi]
  {
    assert a == b[..|a|];
  }

  /** A write inside region `j` changes the written bytes of `j` and nothing in any other region. */
  lemma WriteIsLocal(s: State, op: Op, j: nat, k: nat)
    requires Safe(s) && op.WriteAt? && j < |s.regions| && k < |s.regions| && Within(s.regions[j], op)
    ensures Enabled(s, op) && Safe(Step(s, op))
    ensures k != j ==> Held(Step(s, op), k) == Held(s, k)
    ensures Held(Step(s, op), j) == Splice(Held(s, j), op.offset - s.regions[j].offset, op.data)
  {
    if k != j {
      OtherRegion(s, op, j, k);
    }
    OwnRegion(s, op, j);
  }

  lemma OwnRegion(s: State, op: Op, j: nat)
    requires Safe(s) && op.WriteAt? && j < |s.regions| && Within(s.regions[j], op)
    ensures Enabled(s, op) && Safe(Step(s, op))
    ensures Held(Step(s, op), j) == Splice(Held(s, j), op.offset - s.regions[j].offset, op.data)
  {
    StepKeepsSafe(s, op);
    var r := s.regions[j];
    SpliceInside(s.buf, op.offset, op.data, r.offset, r.offset + r.size);
  }

  lemma OtherRegion(s: State, op: Op, j: nat, k: nat)
    requires Safe(s) && op.WriteAt? && j < |s.regions| && k < |s.regions| && j != k && Within(s.regions[j], op)
    ensures Enabled(s, op) && Safe(Step(s, op)) && Held(Step(s, op), k) == Held(s, k)
  {
    StepKeepsSafe(s, op);
    var q := s.regions[k];
    SpliceElsewhere(s.buf, op.offset, op.data, q.offset, q.offset + q.size);
  }

  lemma SpliceInside(s: seq<byte>, off: nat, data: seq<byte>, lo: nat, hi: nat)
    requires lo <= off && off + |data| <= hi <= |s|
    ensures Splice(s, off, data)[lo..hi] == Splice(s[lo..hi], off - lo, data)
  {
  }

  /** What was last written to region `k`, as a reader of the operations alone would compute it. */
  ghost function LastWritten(ops: seq<Op>, k: nat): seq<byte>
    requires CanRun(ops) && ConfinedRun(ops) && k < |Run(ops).regions|
    ensures |LastWritten(ops, k)| == Run(ops).regions[k].size
  {
    RunsAreSafe(ops);
    var before, op := ops[..|ops| - 1], ops[|ops| - 1];
    RunsAreSafe(before);
    if k >= |Run(before).regions| then Zeros(Run(ops).regions[k].size)
    else if op.WriteAt? && Within(Run(before).regions[k], op) then
      Splice(LastWritten(before, k), op.offset - Run(before).regions[k].offset, op.data)
    else LastWritten(before, k)
  }

  /** Every write of the run stays inside one region that was handed out before it. */
  ghost predicate ConfinedRun(ops: seq<Op>)
    requires CanRun(ops)
  {
    ops != [] ==>
      var before, op := ops[..|ops| - 1], ops[|ops| - 1];
      && ConfinedRun(before)
      && (op.WriteAt? ==> exists j :: 0 <= j < |Run(before).regions| && Within(Run(before).regions[j], op))
  }

  /**
   * After any run whose writes stay inside their regions, in any order and interleaving, every
   * region holds exactly what was last written to it.
   */
  lemma {:induction false} RegionsHoldLastWritten(ops: seq<Op>, k: nat)
    requires CanRun(ops) && ConfinedRun(ops) && k < |Run(ops).regions|
    ensures Safe(Run(ops)) && Held(Run(ops), k) == LastWritten(ops, k)
  {
    RunsAreSafe(ops);
    var before, op := ops[..|ops| - 1], ops[|ops| - 1];
    RunsAreSafe(before);
    if k < |Run(before).regions| {
      RegionsHoldLastWritten(before, k);
    }
    StepHolds(Run(before), op, k);
  }

  /** What one operation leaves in region `k`. */
  lemma StepHolds(s: State, op: Op, k: nat)
    requires Safe(s) && Enabled(s, op) && k < |Step(s, op).regions|
    requires op.WriteAt? ==> exists j :: 0 <= j < |s.regions| && Within(s.regions[j], op)
    ensures Safe(Step(s, op))
    ensures Held(Step(s, op), k) ==
              if k >= |s.regions| then Zeros(Step(s, op).regions[k].size)
              else if op.WriteAt? && Within(s.regions[k], op) then
                Splice(Held(s, k), op.offset - s.regions[k].offset, op.data)
              else Held(s, k)
  {
    if op.WriteAt? {
      var j :| 0 <= j < |s.regions| && Within(s.regions[j], op);
      WriteIsLocal(s, op, if Within(s.regions[k], op) then k else j, k);
    } else {
      AllocKeepsBytes(s, op, k);
    }
  }

  // ------------------------------------------------------------------
  // Addresses
  // ------------------------------------------------------------------

  /** `nid_to_offset` for an image whose metadata area starts at `metaBlkaddr`. */
  function NidToOffset(metaBlkaddr: nat, nid: nat): (r: nat)
    ensures r < TWO_64
  {
    Wrap64(metaBlkaddr * EROFS_BLOCK_SIZE + nid * EROFS_SLOTSIZE)
  }

  /** Where the reader looks for a region: by the start block of directory data, by the nid of an inode. */
  function ReaderAddress(r: Region): nat {
    var startblk, nid := 1 + r.offset / EROFS_BLOCK_SIZE, r.offset / EROFS_SLOTSIZE;
    if r.block then startblk * EROFS_BLOCK_SIZE else NidToOffset(1, nid)
  }

  /**
   * The reader's own arithmetic finds every region again: from the nid of an inode and from the
   * start block of directory data, in an image made of one block and then the buffer.
   */
  lemma AddressesAgree(ops: seq<Op>, k: nat, block0: seq<byte>, image: seq<byte>)
    requires CanRun(ops) && k < |Run(ops).regions|
    requires |block0| == EROFS_BLOCK_SIZE && block0 + Run(ops).buf <= image && |image| < TWO_64
    ensures Safe(Run(ops))
    ensures var r := Run(ops).regions[k];
            var at := ReaderAddress(r);
            at + r.size <= |image| && image[at..at + r.size] == Held(Run(ops), k)
  {
    RunsAreSafe(ops);
    FoundAtAddress(Run(ops), k, block0, image);
  }

  lemma FoundAtAddress(s: State, k: nat, block0: seq<byte>, image: seq<byte>)
    requires Safe(s) && k < |s.regions|
    requires |block0| == EROFS_BLOCK_SIZE && block0 + s.buf <= image && |image| < TWO_64
    ensures var at := ReaderAddress(s.regions[k]);
            at + s.regions[k].size <= |image| && image[at..at + s.regions[k].size] == Held(s, k)
  {
    var r := s.regions[k];
    assert Aligned(r);
    SliceAfterBlock(block0, s.buf, image, r.offset, r.size);
    RegionAddress(r);
  }

  lemma RegionAddress(r: Region)
    requires Aligned(r) && EROFS_BLOCK_SIZE + r.offset < TWO_64
    ensures ReaderAddress(r) == EROFS_BLOCK_SIZE + r.offset
  {
    if r.block {
      assert r.offset == 4096 * (r.offset / 4096);
    } else {
      assert r.offset == 32 * (r.offset / 32);
    }
  }

  lemma SliceAfterBlock(block0: seq<byte>, buf: seq<byte>, image: seq<byte>, off: nat, n: nat)
    requires block0 + buf <= image && off + n <= |buf|
    ensures image[|block0| + off..|block0| + off + n] == buf[off..off + n]
  {
    var e := block0 + buf;
    assert image[|block0| + off..|block0| + off + n] == e[|block0| + off..|block0| + off + n];
  }

  // ------------------------------------------------------------------
  // The allocator itself
  // ------------------------------------------------------------------

  class MetadataLayout {
    var buf: seq<byte>
    var cursor: nat
    var metaBlkaddr: nat
    ghost var regions: seq<Region>

    ghost predicate Valid()
      reads this
    {
      cursor == |buf| && metaBlkaddr == 1 && Safe(Abs())
    }

    ghost function Abs(): State
      reads this
    {
      State(buf, regions)
    }

    constructor ()
      ensures Valid() && Abs() == INIT
    {
      buf, cursor, metaBlkaddr := [], 0, 1;
      regions := [];
    }

    method GrowTo()
      requires |buf| <= cursor
      modifies this`buf
      ensures buf == old(buf) + Zeros(cursor - old(|buf|))
    {
      if |buf| < cursor {
        buf := buf + Zeros(cursor - |buf|);
      }
    }

    method AllocInode(size: nat) returns (offset: nat, nid: nat)
      requires Valid()
      modifies this
      ensures Valid() && Abs() == Step(old(Abs()), Op.AllocInode(size))
      ensures offset == old(cursor) && nid * EROFS_SLOTSIZE == offset
    {
      StepKeepsSafe(Abs(), Op.AllocInode(size));
      var aligned := RoundUpSlot(size);
      offset := cursor;
      cursor := cursor + aligned;
      GrowTo();
      nid := offset / EROFS_SLOTSIZE;
      regions := regions + [Region(offset, aligned, false)];
    }

    method PadToBlock() returns (r: nat)
      requires Valid()
      modifies this
      ensures Valid() && Abs() == Step(old(Abs()), Op.PadToBlock)
      ensures r == cursor
    {
      StepKeepsSafe(Abs(), Op.PadToBlock);
      cursor := RoundUpBlock(cursor);
      GrowTo();
      r := cursor;
    }

    method AllocDirData(size: nat) returns (offset: nat, startblk: nat)
      requires Valid()
      modifies this
      ensures Valid() && Abs() == Step(old(Abs()), Op.AllocDirData(size))
      ensures offset == RoundUpBlock(old(cursor)) && startblk * EROFS_BLOCK_SIZE == EROFS_BLOCK_SIZE + offset
    {
      StepKeepsSafe(Abs(), Op.AllocDirData(size));
      cursor := RoundUpBlock(cursor);
      offset := cursor;
      var alignedSize := RoundUpBlock(size);
      cursor := cursor + alignedSize;
      ghost var was := buf;
      GrowTo();
      assert buf == Padded(was) + Zeros(alignedSize);
      startblk := metaBlkaddr + offset / EROFS_BLOCK_SIZE;
      regions := regions + [Region(offset, alignedSize, true)];
    }

    method WriteAt(offset: nat, data: seq<byte>)
      requires Valid() && offset + |data| <= |buf|
      modifies this`buf
      ensures Valid() && Abs() == Step(old(Abs()), Op.WriteAt(offset, data))
    {
      StepKeepsSafe(Abs(), Op.WriteAt(offset, data));
      buf := Splice(buf, offset, data);
    }

    function TotalBlocks(): (r: nat)
      reads this
      ensures r * EROFS_BLOCK_SIZE == RoundUpBlock(|buf|)
    {
      RoundUpBlock(|buf|) / EROFS_BLOCK_SIZE
    }
  }
}
