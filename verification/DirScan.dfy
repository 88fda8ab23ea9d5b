/** Parsing directory data: the loops of `parse_dir_entries` (src/fs/meta.rs). */
module DirScan {
  import opened Bytes
  import opened Metadata
  import opened Dirents
  import opened DirBlocks

  /** How a scan ended: ran through, stopped by the callback, or panicked on malformed data. */
  datatype End = Finished | Stopped | Panicked

  /** The entries handed to the callback, in order. */
  datatype Scan = Scan(out: seq<Entry>, end: End)

  function Prepend(xs: seq<Entry>, s: Scan): Scan {
    Scan(xs + s.out, s.end)
  }

  /** What a callback that stops after the first entry with `stop` sees of a list. */
  function Deliver(es: seq<Entry>, stop: Entry -> bool): Scan {
    if es == [] then Scan([], Finished)
    else if stop(es[0]) then Scan([es[0]], Stopped)
    else Prepend([es[0]], Deliver(es[1..], stop))
  }

  // ------------------------------------------------------------------
  // The loops as functions
  // ------------------------------------------------------------------

  /** The first position from `end` on that is past the block or holds a NUL. */
  function NulOrEnd(block: seq<byte>, end: nat): (r: nat)
    ensures end <= r && (r < |block| ==> block[r] == 0) && (r > end ==> r <= |block|)
    decreases |block| - end
  {
    if end < |block| && block[end] != 0 then NulOrEnd(block, end + 1) else end
  }

  /** Entry `i` of a block with `count` entries: found, a reason to leave the block, or a panic. */
  datatype Probe = Found(e: Entry) | Leave | Broken

  function EntryAt(block: seq<byte>, i: nat, count: nat): Probe
    requires i < count
  {
    var deOff := i * EROFS_DIRENT_SIZE;
    if deOff + EROFS_DIRENT_SIZE > |block| then Leave else
    var nameoff := DirentNameoff(block, deOff);
    if i + 1 < count then
      var nextOff := (i + 1) * EROFS_DIRENT_SIZE;
      if nextOff + EROFS_DIRENT_SIZE > |block| then Broken
      else Slice(block, deOff, nameoff, DirentNameoff(block, nextOff))
    else Slice(block, deOff, nameoff, NulOrEnd(block, nameoff))
  }

  function Slice(block: seq<byte>, deOff: nat, nameoff: nat, nameEnd: nat): Probe
    requires deOff + EROFS_DIRENT_SIZE <= |block|
  {
    if nameoff >= |block| || nameEnd > |block| then Leave
    else if nameEnd < nameoff then Broken
    else Found(Entry(DirentNid(block, deOff), DirentFileType(block, deOff), block[nameoff..nameEnd]))
  }

  function ScanBlock(block: seq<byte>, i: nat, count: nat, stop: Entry -> bool): Scan
    decreases count - i
  {
    if i >= count then Scan([], Finished) else
    match EntryAt(block, i, count)
    case Leave => Scan([], Finished)
    case Broken => Scan([], Panicked)
    case Found(e) => if stop(e) then Scan([e], Stopped) else Prepend([e], ScanBlock(block, i + 1, count, stop))
  }

  function BlockAt(data: seq<byte>, pos: nat): seq<byte>
    requires pos <= |data|
  {
    data[pos..Min(pos + EROFS_BLOCK_SIZE, |data|)]
  }

  function EntryCount(block: seq<byte>): nat
    requires |block| >= EROFS_DIRENT_SIZE
  {
    DirentNameoff(block, 0) / EROFS_DIRENT_SIZE
  }

  function ScanBlocks(data: seq<byte>, pos: nat, stop: Entry -> bool): Scan
    decreases |data| - pos
  {
    if pos >= |data| then Scan([], Finished) else
    var block := BlockAt(data, pos);
    if |block| < EROFS_DIRENT_SIZE then Scan([], Finished) else
    var s := ScanBlock(block, 0, EntryCount(block), stop);
    if s.end != Finished then s else Prepend(s.out, ScanBlocks(data, pos + EROFS_BLOCK_SIZE, stop))
  }

  // ------------------------------------------------------------------
  // The loops themselves
  // ------------------------------------------------------------------

  /** The name-end loop for the last entry of a block. */
  method FindNul(block: seq<byte>, nameoff: nat) returns (end: nat)
    ensures end == NulOrEnd(block, nameoff)
  {
    end := nameoff;
    while end < |block| && block[end] != 0
      invariant NulOrEnd(block, end) == NulOrEnd(block, nameoff)
      decreases |block| - end
    {
      end := end + 1;
    }
  }

  /** The loop over the entries of one block; `out` is what the callback has been given. */
  method ParseBlock(block: seq<byte>, stop: Entry -> bool) returns (out: seq<Entry>, end: End)
    requires |block| >= EROFS_DIRENT_SIZE
    ensures Scan(out, end) == ScanBlock(block, 0, EntryCount(block), stop)
  {
    hide DirentNameoff, DirentNid, DirentFileType;
    var firstNameoff := DirentNameoff(block, 0);
    var direntCount := firstNameoff / EROFS_DIRENT_SIZE;
    out := [];
    var i: nat := 0;
    while i < direntCount
      invariant i <= direntCount
      invariant Prepend(out, ScanBlock(block, i, direntCount, stop)) == ScanBlock(block, 0, direntCount, stop)
    {
      var deOff := i * EROFS_DIRENT_SIZE;
      if deOff + EROFS_DIRENT_SIZE > |block| {
        break;
      }
      var nameoff := DirentNameoff(block, deOff);
      var nameEnd: nat;
      if i + 1 < direntCount {
        if (i + 1) * EROFS_DIRENT_SIZE + EROFS_DIRENT_SIZE > |block| {
          return out, Panicked;
        }
        nameEnd := DirentNameoff(block, (i + 1) * EROFS_DIRENT_SIZE);
      } else {
        nameEnd := FindNul(block, nameoff);
      }
      if nameoff >= |block| || nameEnd > |block| {
        break;
      }
      if nameEnd < nameoff {
        return out, Panicked;
      }
      var e := Entry(DirentNid(block, deOff), DirentFileType(block, deOff), block[nameoff..nameEnd]);
      PrependStep(out, e, ScanBlock(block, i + 1, direntCount, stop));
      out := out + [e];
      if stop(e) {
        return out, Stopped;
      }
      i := i + 1;
    }
    return out, Finished;
  }

  lemma PrependStep(out: seq<Entry>, e: Entry, rest: Scan)
    ensures Prepend(out, Prepend([e], rest)) == Prepend(out + [e], rest)
    ensures forall end :: Prepend(out, Scan([e], end)) == Scan(out + [e], end)
    ensures forall end :: Prepend(out, Scan([], end)) == Scan(out, end)
  {
    AppendAssoc(out, [e], rest.out);
    assert out + [] == out;
  }

  /**
   * `parse_dir_entries`. The callback is the predicate `stop`, which sees every entry of `out` and
   * answers whether to go on; a slice out of range or an entry cast past the block is a panic.
   */
  method ParseDirEntries(data: seq<byte>, stop: Entry -> bool) returns (out: seq<Entry>, end: End)
    ensures Scan(out, end) == ScanBlocks(data, 0, stop)
  {
    out := [];
    var pos: nat := 0;
    while pos < |data|
      invariant Prepend(out, ScanBlocks(data, pos, stop)) == ScanBlocks(data, 0, stop)
      decreases |data| - pos
    {
      var block := BlockAt(data, pos);
      if |block| < EROFS_DIRENT_SIZE {
        break;
      }
      var got, how := ParseBlock(block, stop);
      AppendAssoc(out, got, ScanBlocks(data, pos + EROFS_BLOCK_SIZE, stop).out);
      out := out + got;
      if how != Finished {
        return out, how;
      }
      pos := pos + EROFS_BLOCK_SIZE;
    }
    assert out + [] == out;
    return out, Finished;
  }

  // ------------------------------------------------------------------
  // Lookup and listing agree on any bytes
  // ------------------------------------------------------------------

  function Never(e: Entry): bool {
    false
  }

  lemma {:induction false} DeliverEnds(xs: seq<Entry>, stop: Entry -> bool)
    ensures Deliver(xs, stop).end != Panicked
    ensures Deliver(xs, stop).end == Finished ==> Deliver(xs, stop).out == xs
  {
    if xs != [] {
      DeliverEnds(xs[1..], stop);
    }
  }

  lemma {:induction false} DeliverAppend(xs: seq<Entry>, ys: seq<Entry>, stop: Entry -> bool)
    ensures Deliver(xs + ys, stop) == var s := Deliver(xs, stop);
                                      if s.end == Stopped then s else Prepend(s.out, Deliver(ys, stop))
  {
    if xs == [] {
      assert xs + ys == ys;
      assert Prepend([], Deliver(ys, stop)) == Deliver(ys, stop);
    } else {
      DeliverAppend(xs[1..], ys, stop);
      var all := xs + ys;
      assert all[1..] == xs[1..] + ys && all[0] == xs[0];
      AppendAssoc([xs[0]], Deliver(xs[1..], stop).out, Deliver(ys, stop).out);
    }
  }

  lemma {:induction false} NeverStopsInBlock(block: seq<byte>, i: nat, count: nat)
    ensures ScanBlock(block, i, count, Never).end != Stopped
    decreases count - i
  {
    if i < count && EntryAt(block, i, count).Found? {
      NeverStopsInBlock(block, i + 1, count);
    }
  }

  lemma {:induction false} NeverStops(data: seq<byte>, pos: nat)
    ensures ScanBlocks(data, pos, Never).end != Stopped
    decreases |data| - pos
  {
    if pos < |data| && |BlockAt(data, pos)| >= EROFS_DIRENT_SIZE {
      NeverStopsInBlock(BlockAt(data, pos), 0, EntryCount(BlockAt(data, pos)));
      NeverStops(data, pos + EROFS_BLOCK_SIZE);
    }
  }

  /** A full scan, cut off behind the first entry that the callback wants. */
  function Until(s: Scan, stop: Entry -> bool): Scan {
    if Deliver(s.out, stop).end == Stopped then Deliver(s.out, stop) else s
  }

  lemma UntilPrepend(xs: seq<Entry>, s: Scan, stop: Entry -> bool)
    ensures Until(Prepend(xs, s), stop) ==
              if Deliver(xs, stop).end == Stopped then Deliver(xs, stop) else Prepend(xs, Until(s, stop))
  {
    DeliverAppend(xs, s.out, stop);
    DeliverEnds(xs, stop);
  }

  lemma {:induction false} StopInBlock(block: seq<byte>, i: nat, count: nat, stop: Entry -> bool)
    ensures ScanBlock(block, i, count, stop) == Until(ScanBlock(block, i, count, Never), stop)
    decreases count - i
  {
    if i < count && EntryAt(block, i, count).Found? {
      var e := EntryAt(block, i, count).e;
      StopInBlock(block, i + 1, count, stop);
      UntilPrepend([e], ScanBlock(block, i + 1, count, Never), stop);
      assert [e][1..] == [];
      assert Deliver([e], stop) == if stop(e) then Scan([e], Stopped) else Scan([e] + [], Finished);
    }
  }

  /**
   * On any directory bytes whatever, a callback that stops early is given what a full scan is given, up to
   * and including the first entry it wanted; a panic further on is never reached.
   */
  lemma {:induction false} StopIsDeliver(data: seq<byte>, pos: nat, stop: Entry -> bool)
    ensures ScanBlocks(data, pos, stop) == Until(ScanBlocks(data, pos, Never), stop)
    decreases |data| - pos
  {
    if pos < |data| && |BlockAt(data, pos)| >= EROFS_DIRENT_SIZE {
      var block := BlockAt(data, pos);
      var s := ScanBlock(block, 0, EntryCount(block), Never);
      StopInBlock(block, 0, EntryCount(block), stop);
      NeverStopsInBlock(block, 0, EntryCount(block));
      DeliverEnds(s.out, stop);
      if s.end == Finished {
        StopIsDeliver(data, pos + EROFS_BLOCK_SIZE, stop);
        UntilPrepend(s.out, ScanBlocks(data, pos + EROFS_BLOCK_SIZE, Never), stop);
      }
    }
  }

  // ------------------------------------------------------------------
  // When the parser panics
  // ------------------------------------------------------------------

  /** Where the name of entry `j` starts. */
  function NameOff(block: seq<byte>, j: nat): nat
    requires (j + 1) * EROFS_DIRENT_SIZE <= |block|
  {
    DirentNameoff(block, j * EROFS_DIRENT_SIZE)
  }

  /** A last block with room for one entry that claims to have more: the second one is cast past its end. */
  predicate ShortTail(block: seq<byte>)
    requires |block| >= EROFS_DIRENT_SIZE
  {
    |block| < 2 * EROFS_DIRENT_SIZE <= NameOff(block, 0)
  }

  /** The names are in order up to entry `i`, whose name starts inside the block and ends before it starts. */
  predicate DropsAt(block: seq<byte>, i: nat)
    requires |block| >= EROFS_DIRENT_SIZE
  {
    && (i + 2) * EROFS_DIRENT_SIZE <= |block| && i + 1 < EntryCount(block)
    && (forall j :: 0 <= j < i ==> NameOff(block, j) <= NameOff(block, j + 1))
    && NameOff(block, i + 1) < NameOff(block, i) < |block|
  }

  ghost predicate BlockPanics(block: seq<byte>)
    requires |block| >= EROFS_DIRENT_SIZE
  {
    ShortTail(block) || exists i: nat :: DropsAt(block, i)
  }

  /** The entries before `i` are all there. */
  ghost predicate FoundBefore(block: seq<byte>, i: nat, count: nat) {
    i <= count && forall j: nat :: j < i ==> EntryAt(block, j, count).Found?
  }

  lemma BrokenMeans(block: seq<byte>, i: nat)
    requires |block| >= EROFS_DIRENT_SIZE && i < EntryCount(block)
    requires FoundBefore(block, i, EntryCount(block)) && EntryAt(block, i, EntryCount(block)).Broken?
    ensures BlockPanics(block)
  {
    var count := EntryCount(block);
    assert i > 0 ==> EntryAt(block, 0, count).Found? && NameOff(block, 0) < |block|;
    if (i + 2) * EROFS_DIRENT_SIZE > |block| {
      assert ShortTail(block);
    } else {
      forall j: nat | j < i ensures NameOff(block, j) <= NameOff(block, j + 1) {
        assert EntryAt(block, j, count).Found?;
      }
      assert DropsAt(block, i);
    }
  }

  lemma {:induction false} PanicFound(block: seq<byte>, i: nat)
    requires |block| >= EROFS_DIRENT_SIZE && FoundBefore(block, i, EntryCount(block))
    requires ScanBlock(block, i, EntryCount(block), Never).end == Panicked
    ensures BlockPanics(block)
    decreases EntryCount(block) - i
  {
    if EntryAt(block, i, EntryCount(block)).Found? {
      PanicFound(block, i + 1);
    } else {
      BrokenMeans(block, i);
    }
  }

  lemma {:induction false} OffsetsRise(block: seq<byte>, j: nat, i: nat)
    requires j <= i && (i + 1) * EROFS_DIRENT_SIZE <= |block|
    requires forall l :: 0 <= l < i ==> NameOff(block, l) <= NameOff(block, l + 1)
    ensures NameOff(block, j) <= NameOff(block, i)
    decreases i - j
  {
    if j < i {
      OffsetsRise(block, j + 1, i);
    }
  }

  lemma {:induction false} PanicReached(block: seq<byte>, i: nat, j: nat)
    requires |block| >= EROFS_DIRENT_SIZE && DropsAt(block, i) && j <= i
    ensures ScanBlock(block, j, EntryCount(block), Never).end == Panicked
    decreases i - j
  {
    if j < i {
      OffsetsRise(block, j + 1, i);
      assert NameOff(block, j) <= NameOff(block, j + 1);
      assert EntryAt(block, j, EntryCount(block)).Found?;
      PanicReached(block, i, j + 1);
    }
  }

  /** A full scan of a block panics exactly when its name offsets say so. */
  lemma BlockPanicsExact(block: seq<byte>)
    requires |block| >= EROFS_DIRENT_SIZE
    ensures ScanBlock(block, 0, EntryCount(block), Never).end == Panicked <==> BlockPanics(block)
  {
    if ScanBlock(block, 0, EntryCount(block), Never).end == Panicked {
      PanicFound(block, 0);
    }
    if i: nat :| DropsAt(block, i) {
      PanicReached(block, i, 0);
    }
  }

  /** Some block from number `b` on has name offsets that make the parser panic. */
  ghost predicate PanicsFrom(data: seq<byte>, b: nat) {
    exists k: nat :: k >= b && PanicsIn(data, k)
  }

  ghost predicate PanicsIn(data: seq<byte>, k: nat) {
    && k * EROFS_BLOCK_SIZE < |data| && |BlockAt(data, k * EROFS_BLOCK_SIZE)| >= EROFS_DIRENT_SIZE
    && BlockPanics(BlockAt(data, k * EROFS_BLOCK_SIZE))
  }

  /** A full scan of a directory panics exactly when one of its blocks makes it panic. */
  lemma {:induction false} PanicsExact(data: seq<byte>, b: nat)
    ensures ScanBlocks(data, b * EROFS_BLOCK_SIZE, Never).end == Panicked <==> PanicsFrom(data, b)
    decreases |data| - b * EROFS_BLOCK_SIZE
  {
    var pos := b * EROFS_BLOCK_SIZE;
    if pos < |data| {
      PanicsExact(data, b + 1);
      assert (b + 1) * EROFS_BLOCK_SIZE == pos + EROFS_BLOCK_SIZE;
      assert PanicsFrom(data, b) <==> PanicsIn(data, b) || PanicsFrom(data, b + 1);
      if |BlockAt(data, pos)| >= EROFS_DIRENT_SIZE {
        BlockPanicsExact(BlockAt(data, pos));
        NeverStopsInBlock(BlockAt(data, pos), 0, EntryCount(BlockAt(data, pos)));
      }
    }
  }

  /** With a callback that stops early, the panic must also come before the first entry that it wants. */
  lemma StoppedPanicsExact(data: seq<byte>, stop: Entry -> bool)
    ensures ScanBlocks(data, 0, stop).end == Panicked <==>
              PanicsFrom(data, 0) && forall e :: e in ScanBlocks(data, 0, Never).out ==> !stop(e)
  {
    PanicsExact(data, 0);
    StopIsDeliver(data, 0, stop);
    DeliverEnds(ScanBlocks(data, 0, Never).out, stop);
    StopsExact(ScanBlocks(data, 0, Never).out, stop);
  }

  lemma {:induction false} StopsExact(xs: seq<Entry>, stop: Entry -> bool)
    ensures Deliver(xs, stop).end == Stopped <==> exists e :: e in xs && stop(e)
  {
    if xs != [] {
      StopsExact(xs[1..], stop);
      assert forall e :: e in xs <==> e == xs[0] || e in xs[1..];
    }
  }

  lemma OffsetOf(pre: seq<byte>, nid: nat, nameoff: nat, ft: byte, d: seq<byte>)
    requires pre + DirentBytes(nid, nameoff, ft) <= d && nid < TWO_64 && nameoff < TWO_16
    ensures DirentNameoff(d, |pre|) == nameoff
  {
    DirentRoundTrip(pre, nid, nameoff, ft, d);
  }

  /** A directory of 12 bytes: its only entry claims that its name starts at byte 24. */
  lemma ShortTailPanics()
    ensures ScanBlocks(DirentBytes(0, 24, 1), 0, Never) == Scan([], Panicked)
  {
    var d := DirentBytes(0, 24, 1);
    assert [] + d == d;
    OffsetOf([], 0, 24, 1, d);
    assert BlockAt(d, 0) == d;
  }

  /** Two entries whose names are stored in the other order: the first name would end before it starts. */
  lemma SwappedNamesPanic()
    ensures ScanBlocks(DirentBytes(0, 26, 1) + DirentBytes(1, 24, 1) + [97, 98, 99], 0, Never) == Scan([], Panicked)
  {
    var first, second := DirentBytes(0, 26, 1), DirentBytes(1, 24, 1);
    var d := first + second + [97, 98, 99];
    assert [] + first == first;
    OffsetOf([], 0, 26, 1, d);
    OffsetOf(first, 1, 24, 1, d);
    assert BlockAt(d, 0) == d;
    assert EntryAt(d, 0, 2).Broken?;
  }

  // ------------------------------------------------------------------
  // Packing and parsing
  // ------------------------------------------------------------------

  /** What a file name is: not empty and without NUL bytes; the nid is a `u64`. */
  predicate EntryOk(e: Entry) {
    e.nid < TWO_64 && e.name != [] && forall k :: 0 <= k < |e.name| ==> e.name[k] != 0
  }

  predicate EntriesOk(es: seq<Entry>) {
    forall i :: 0 <= i < |es| ==> EntryOk(es[i])
  }

  lemma {:induction false} DirentPrefix(es: seq<Entry>, i: nat, n: nat, base: nat)
    requires i < n <= |es|
    ensures DirentArea(es, i, base) + EntryDirent(es, i, base) <= DirentArea(es, n, base)
  {
    if i + 1 < n {
      DirentPrefix(es, i, n - 1, base);
    }
  }

  lemma {:induction false} NamePrefix(es: seq<Entry>, i: nat, n: nat)
    requires i < n <= |es|
    ensures NameArea(es, i) + es[i].name <= NameArea(es, n)
  {
    if i + 1 < n {
      NamePrefix(es, i, n - 1);
    }
  }

  lemma PrefixOfSum<T>(a: seq<T>, b: seq<T>, c: seq<T>)
    requires a <= b
    ensures a <= b + c && c + a <= c + b
  {
  }

  /** The dirent of entry `i` as the parser reads it. */
  lemma DirentInBlock(es: seq<Entry>, i: nat)
    requires FitsBlock(es) && i < |es| && es[i].nid < TWO_64
    ensures var b, at := Block(es), i * EROFS_DIRENT_SIZE;
            && DirentNid(b, at) == es[i].nid && DirentFileType(b, at) == es[i].fileType
            && DirentNameoff(b, at) == NamesStart(es) + NamesLen(es, i)
  {
    var base, n := NamesStart(es), |es|;
    DirentPrefix(es, i, n, base);
    NamesLenMonotone(es, i, n);
    PrefixOfSum(DirentArea(es, i, base) + EntryDirent(es, i, base), DirentArea(es, n, base), NameArea(es, n));
    DirentRoundTrip(DirentArea(es, i, base), es[i].nid, base + NamesLen(es, i), es[i].fileType, Block(es));
  }

  /** The name of entry `i`, and what follows the last name. */
  lemma NameInBlock(es: seq<Entry>, i: nat)
    requires FitsBlock(es) && i < |es|
    ensures var b, at := Block(es), NamesStart(es) + NamesLen(es, i);
            && at + |es[i].name| <= |b| && b[at..at + |es[i].name|] == es[i].name
            && (i + 1 == |es| ==> at + |es[i].name| == |b| || b[at + |es[i].name|] == 0)
  {
    var n := |es|;
    var ds, tail := DirentArea(es, n, NamesStart(es)), Zeros(EROFS_BLOCK_SIZE - NamesStart(es) - NamesLen(es, n));
    NamePrefix(es, i, n);
    NamesLenMonotone(es, i, n);
    SliceOfThree(ds, NameArea(es, n), tail, NameArea(es, i), es[i].name);
  }

  lemma SliceOfThree(a: seq<byte>, b: seq<byte>, c: seq<byte>, pre: seq<byte>, f: seq<byte>)
    requires pre + f <= b
    ensures (a + b + c)[|a| + |pre|..|a| + |pre| + |f|] == f
  {
    assert b[|pre|..|pre| + |f|] == f;
  }

  lemma {:induction false} NulFound(block: seq<byte>, off: nat, n: nat)
    requires off + n <= |block| && forall k :: off <= k < off + n ==> block[k] != 0
    requires off + n == |block| || block[off + n] == 0
    ensures NulOrEnd(block, off) == off + n
    decreases n
  {
    if n > 0 {
      NulFound(block, off + 1, n - 1);
    }
  }

  lemma EntryInBlock(es: seq<Entry>, i: nat)
    requires FitsBlock(es) && EntriesOk(es) && i < |es|
    ensures EntryAt(Block(es), i, |es|) == Found(es[i])
  {
    hide Block, EntryAt;
    var off := NamesStart(es) + NamesLen(es, i);
    assert EntryOk(es[i]);
    NamesLenMonotone(es, i, |es|);
    SliceInBlock(es, i);
    DirentInBlock(es, i);
    if i + 1 < |es| {
      assert EntryOk(es[i + 1]);
      DirentInBlock(es, i + 1);
    } else {
      LastNameEnds(es, i);
    }
    EntryAtIs(Block(es), i, |es|, off, off + |es[i].name|);
  }

  /** What the parser makes of an entry whose dirent and name end are known. */
  lemma EntryAtIs(block: seq<byte>, i: nat, count: nat, off: nat, end: nat)
    requires i < count && count * EROFS_DIRENT_SIZE <= |block| && DirentNameoff(block, i * EROFS_DIRENT_SIZE) == off
    requires if i + 1 < count then DirentNameoff(block, (i + 1) * EROFS_DIRENT_SIZE) == end
             else NulOrEnd(block, off) == end
    ensures EntryAt(block, i, count) == Slice(block, i * EROFS_DIRENT_SIZE, off, end)
  {
  }

  /** The slice between the two offsets is the name. */
  lemma SliceInBlock(es: seq<Entry>, i: nat)
    requires FitsBlock(es) && i < |es| && EntryOk(es[i])
    ensures i * EROFS_DIRENT_SIZE + EROFS_DIRENT_SIZE <= |Block(es)|
    ensures var off := NamesStart(es) + NamesLen(es, i);
            Slice(Block(es), i * EROFS_DIRENT_SIZE, off, off + |es[i].name|) == Found(es[i])
  {
    DirentInBlock(es, i);
    NameInBlock(es, i);
  }

  lemma LastNameEnds(es: seq<Entry>, i: nat)
    requires FitsBlock(es) && i + 1 == |es| && EntryOk(es[i])
    ensures var off := NamesStart(es) + NamesLen(es, i); NulOrEnd(Block(es), off) == off + |es[i].name|
  {
    var b, off, name := Block(es), NamesStart(es) + NamesLen(es, i), es[i].name;
    NameInBlock(es, i);
    forall k | off <= k < off + |name| ensures b[k] != 0 {
      assert b[k] == b[off..off + |name|][k - off] == name[k - off];
    }
    NulFound(b, off, |name|);
  }

  /** A block whose entries can all be found is delivered entry by entry. */
  lemma {:induction false} ScanDelivers(block: seq<byte>, es: seq<Entry>, i: nat, stop: Entry -> bool)
    requires i <= |es| && forall k :: 0 <= k < |es| ==> EntryAt(block, k, |es|) == Found(es[k])
    ensures ScanBlock(block, i, |es|, stop) == Deliver(es[i..], stop)
    decreases |es| - i
  {
    if i < |es| {
      ScanDelivers(block, es, i + 1, stop);
      assert es[i..][1..] == es[i + 1..];
    }
  }

  lemma BlockRoundTrip(es: seq<Entry>, i: nat, stop: Entry -> bool)
    requires FitsBlock(es) && EntriesOk(es) && i <= |es|
    ensures ScanBlock(Block(es), i, |es|, stop) == Deliver(es[i..], stop)
  {
    forall k | 0 <= k < |es| ensures EntryAt(Block(es), k, |es|) == Found(es[k]) {
      EntryInBlock(es, k);
    }
    ScanDelivers(Block(es), es, i, stop);
  }

  lemma CountInBlock(es: seq<Entry>)
    requires FitsBlock(es) && EntriesOk(es) && es != []
    ensures EntryCount(Block(es)) == |es|
  {
    assert EntryOk(es[0]);
    DirentInBlock(es, 0);
  }

  /**
   * The parser inverts the packer: any entries with non-empty NUL-free names, packed over any number
   * of blocks, are handed to the callback once each and in order, until it stops.
   */
  lemma {:induction false} PackRoundTrip(es: seq<Entry>, data: seq<byte>, pos: nat, stop: Entry -> bool)
    requires EntriesOk(es) && Pack(es).Ok?
    requires pos <= |data| && data[pos..] == Pack(es).value
    ensures ScanBlocks(data, pos, stop) == Deliver(es, stop)
    decreases |es|
  {
    if es != [] {
      var n := NextCount(es);
      var first, rest := es[..n], es[n..];
      var block := Block(first);
      assert Pack(es).value == block + Pack(rest).value;
      assert BlockAt(data, pos) == block && data[pos + EROFS_BLOCK_SIZE..] == Pack(rest).value by {
        TakeBlock(data, pos, block, Pack(rest).value);
      }
      CountInBlock(first);
      BlockRoundTrip(first, 0, stop);
      PackRoundTrip(rest, data, pos + EROFS_BLOCK_SIZE, stop);
      assert first[0..] == first && es == first + rest;
      DeliverEnds(first, stop);
      DeliverAppend(first, rest, stop);
    }
  }

  lemma TakeBlock(data: seq<byte>, pos: nat, block: seq<byte>, rest: seq<byte>)
    requires pos <= |data| && data[pos..] == block + rest && |block| == EROFS_BLOCK_SIZE
    ensures BlockAt(data, pos) == block && pos + EROFS_BLOCK_SIZE <= |data| && data[pos + EROFS_BLOCK_SIZE..] == rest
  {
    assert |data| == pos + |block| + |rest|;
    forall k | 0 <= k < |block| ensures BlockAt(data, pos)[k] == block[k] {
      assert data[pos..][k] == block[k];
    }
    forall k | 0 <= k < |rest| ensures data[pos + EROFS_BLOCK_SIZE..][k] == rest[k] {
      assert data[pos..][EROFS_BLOCK_SIZE + k] == rest[k];
    }
  }
}
