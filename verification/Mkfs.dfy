/** Laying out and writing the metadata: the second phase of the builder (src/bin/erofs-mkfs.rs). */
module Mkfs {
  import opened Bytes
  import opened Metadata
  import opened Dirents
  import opened DirBlocks
  import opened Layout
  import opened Reader
  import opened InodeBuild
  import opened Wiring

  // ------------------------------------------------------------------
  // Inode slots
  // ------------------------------------------------------------------

  function Sizes(xs: seq<InodeInfo>): (r: seq<nat>)
    ensures |r| == |xs| && forall i {:trigger r[i]} :: 0 <= i < |xs| ==> r[i] == MetaSize(xs[i])
  {
    seq(|xs|, i requires 0 <= i < |xs| => MetaSize(xs[i]))
  }

  /** Where the slot of inode `i` starts: after the rounded-up sizes of the inodes before it. */
  function SlotAt(sizes: seq<nat>, i: nat): (r: nat)
    requires i <= |sizes|
  {
    if i == 0 then 0 else SlotAt(sizes, i - 1) + RoundUpSlot(sizes[i - 1])
  }

  lemma {:induction false} SlotsAligned(sizes: seq<nat>, i: nat)
    requires i <= |sizes|
    ensures SlotAt(sizes, i) % 32 == 0
  {
    if i > 0 {
      SlotsAligned(sizes, i - 1);
      RoundUpsAligned(sizes[i - 1]);
      AlignedSum(SlotAt(sizes, i - 1), RoundUpSlot(sizes[i - 1]));
    }
  }

  /** The slots lie one behind the other. */
  lemma {:induction false} SlotsOrdered(sizes: seq<nat>, i: nat, j: nat)
    requires i < j <= |sizes|
    ensures SlotAt(sizes, i) + sizes[i] <= SlotAt(sizes, j)
  {
    if i + 1 < j {
      SlotsOrdered(sizes, i, j - 1);
    }
  }

  function Place(x: InodeInfo, offset: nat): InodeInfo {
    x.(metaOffset := offset, nid := offset / EROFS_SLOTSIZE)
  }

  /** The inodes with their slots. */
  function Placed(xs: seq<InodeInfo>): (r: seq<InodeInfo>)
    ensures |r| == |xs| && forall i {:trigger r[i]} :: 0 <= i < |xs| ==> r[i] == Place(xs[i], SlotAt(Sizes(xs), i))
  {
    seq(|xs|, i requires 0 <= i < |xs| => Place(xs[i], SlotAt(Sizes(xs), i)))
  }

  /** Halfway through a pass over the inodes. */
  function Mixed(done: seq<InodeInfo>, xs: seq<InodeInfo>, i: nat): (r: seq<InodeInfo>)
    requires i <= |xs| == |done|
    ensures |r| == |xs|
  {
    done[..i] + xs[i..]
  }

  lemma MixedStep(done: seq<InodeInfo>, xs: seq<InodeInfo>, i: nat)
    requires i < |xs| == |done|
    ensures Mixed(done, xs, i)[i] == xs[i]
    ensures Mixed(done, xs, i)[i := done[i]] == Mixed(done, xs, i + 1)
  {
  }

  /** Phase 2a: every inode gets a slot. */
  method AllocInodes(layout: MetadataLayout, inodes: array<InodeInfo>)
    requires layout.Valid() && layout.buf == []
    modifies layout, inodes
    ensures layout.Valid() && |layout.buf| == SlotAt(Sizes(old(inodes[..])), inodes.Length)
    ensures inodes[..] == Placed(old(inodes[..]))
  {
    ghost var xs := inodes[..];
    ghost var starts := SlotStarts(Sizes(xs));
    AllocLoop(layout, inodes, Placed(xs), starts);
  }

  ghost function SlotStarts(sizes: seq<nat>): (r: seq<nat>)
    ensures |r| == |sizes| + 1 && forall i {:trigger r[i]} :: 0 <= i <= |sizes| ==> r[i] == SlotAt(sizes, i)
  {
    seq(|sizes| + 1, i requires 0 <= i <= |sizes| => SlotAt(sizes, i))
  }

  /** The loop of phase 2a, slot by slot. */
  method AllocLoop(layout: MetadataLayout, inodes: array<InodeInfo>, ghost placed: seq<InodeInfo>,
                   ghost starts: seq<nat>)
    requires layout.Valid() && layout.buf == []
    requires |placed| == inodes.Length && |starts| == inodes.Length + 1 && starts[0] == 0
    requires forall i {:trigger placed[i]} :: 0 <= i < inodes.Length ==>
               placed[i] == Place(inodes[i], starts[i]) && starts[i + 1] == starts[i] + RoundUpSlot(MetaSize(inodes[i]))
    modifies layout, inodes
    ensures layout.Valid() && |layout.buf| == starts[inodes.Length] && inodes[..] == placed
  {
    ghost var xs := inodes[..];
    assert Mixed(placed, xs, 0) == xs;
    for i := 0 to inodes.Length
      invariant layout.Valid() && |layout.buf| == starts[i]
      invariant inodes[..] == Mixed(placed, xs, i)
    {
      MixedStep(placed, xs, i);
      assert inodes[i] == Mixed(placed, xs, i)[i];
      assert placed[i] == Place(xs[i], starts[i]);
      inodes[i] := AllocSlot(layout, inodes[i]);
    }
    assert Mixed(placed, xs, |xs|) == placed;
  }

  method AllocSlot(layout: MetadataLayout, x: InodeInfo) returns (y: InodeInfo)
    requires layout.Valid()
    modifies layout
    ensures layout.Valid() && |layout.buf| == |old(layout.buf)| + RoundUpSlot(MetaSize(x))
    ensures y == Place(x, |old(layout.buf)|)
  {
    var metaSize := MetaSize(x);
    var offset, nid := layout.AllocInode(metaSize);
    y := x.(metaOffset := offset, nid := nid);
  }

  // ------------------------------------------------------------------
  // Directory data
  // ------------------------------------------------------------------

  /** What is needed to write a directory, captured before any directory is placed. */
  datatype DirInfo = DirInfo(idx: nat, children: seq<DirChild>, selfNid: nat, parentNid: nat)

  function ChildrenOf(xs: seq<InodeInfo>, es: seq<DirEntry>): (cs: seq<DirChild>)
    requires forall k :: 0 <= k < |es| ==> es[k].inodeIdx < |xs|
    ensures |cs| == |es|
    ensures forall k :: 0 <= k < |es| ==> cs[k] == DirChild(es[k].name, xs[es[k].inodeIdx].nid, es[k].fileType)
  {
    seq(|es|, k requires 0 <= k < |es| => DirChild(es[k].name, xs[es[k].inodeIdx].nid, es[k].fileType))
  }

  ghost predicate Ascending(infos: seq<DirInfo>, n: nat) {
    && (forall k :: 0 <= k < |infos| ==> infos[k].idx < n)
    && (forall k, l :: 0 <= k < l < |infos| ==> infos[k].idx < infos[l].idx)
  }

  function InfoOf(xs: seq<InodeInfo>, i: nat): DirInfo
    requires InRange(xs) && i < |xs| && xs[i].data.Directory?
  {
    DirInfo(i, ChildrenOf(xs, xs[i].data.children), xs[i].nid, xs[i].data.parentNid)
  }

  /** The number of directories among the first `i` inodes. */
  function Rank(xs: seq<InodeInfo>, i: nat): nat
    requires i <= |xs|
  {
    if i == 0 then 0 else Rank(xs, i - 1) + if xs[i - 1].data.Directory? then 1 else 0
  }

  /** The infos of the directories among the first `m` inodes, in order. */
  function Infos(xs: seq<InodeInfo>, m: nat): (r: seq<DirInfo>)
    requires InRange(xs) && m <= |xs|
    ensures |r| == Rank(xs, m)
  {
    if m == 0 then []
    else if xs[m - 1].data.Directory? then Infos(xs, m - 1) + [InfoOf(xs, m - 1)]
    else Infos(xs, m - 1)
  }

  /** They are ascending, and each directory stands at its rank. */
  lemma {:induction false} InfosAscend(xs: seq<InodeInfo>, m: nat)
    requires InRange(xs) && m <= |xs|
    ensures Ascending(Infos(xs, m), m)
  {
    if m > 0 {
      InfosAscend(xs, m - 1);
    }
  }

  lemma {:induction false} InfoAtRank(xs: seq<InodeInfo>, m: nat, i: nat)
    requires InRange(xs) && i < m <= |xs| && xs[i].data.Directory?
    ensures Rank(xs, i) < |Infos(xs, m)| && Infos(xs, m)[Rank(xs, i)] == InfoOf(xs, i)
  {
    if i < m - 1 {
      InfoAtRank(xs, m - 1, i);
    }
  }

  /** The map over the children of one directory. */
  method NamedChildren(inodes: array<InodeInfo>, es: seq<DirEntry>) returns (cs: seq<DirChild>)
    requires forall k :: 0 <= k < |es| ==> es[k].inodeIdx < inodes.Length
    ensures cs == ChildrenOf(inodes[..], es)
  {
    cs := [];
    for k := 0 to |es|
      invariant |cs| == k
      invariant forall l :: 0 <= l < k ==> cs[l] == DirChild(es[l].name, inodes[es[l].inodeIdx].nid, es[l].fileType)
    {
      cs := cs + [DirChild(es[k].name, inodes[es[k].inodeIdx].nid, es[k].fileType)];
    }
  }

  /** The directories in the order of their inodes. */
  method GatherDirs(inodes: array<InodeInfo>) returns (infos: seq<DirInfo>)
    requires InRange(inodes[..])
    ensures infos == Infos(inodes[..], inodes.Length)
  {
    ghost var xs := inodes[..];
    infos := [];
    for m := 0 to inodes.Length
      invariant infos == Infos(xs, m)
    {
      var x := inodes[m];
      assert x == xs[m];
      if x.data.Directory? {
        var dirChildren := NamedChildren(inodes, x.data.children);
        infos := infos + [DirInfo(m, dirChildren, x.nid, x.data.parentNid)];
      }
    }
  }

  function PackedDir(info: DirInfo): Result<seq<byte>> {
    Pack(DirEntries(info.children, info.selfNid, info.parentNid))
  }

  function DirSize(info: DirInfo): nat {
    if PackedDir(info).Ok? then |PackedDir(info).value| else 0
  }

  /** Where the data of directory `k` starts: the directories lie one behind the other from `base` on. */
  function DirOffset(base: nat, infos: seq<DirInfo>, k: nat): nat
    requires k <= |infos|
  {
    if k == 0 then base else DirOffset(base, infos, k - 1) + DirSize(infos[k - 1])
  }

  lemma {:induction false} DirOffsetMonotone(base: nat, infos: seq<DirInfo>, k: nat, l: nat)
    requires k <= l <= |infos|
    ensures DirOffset(base, infos, k) <= DirOffset(base, infos, l)
  {
    hide DirSize, PackedDir;
    if k < l {
      DirOffsetMonotone(base, infos, k, l - 1);
    }
  }

  /** A `Vec` never grows beyond `isize::MAX` bytes: it panics. */
  const ISIZE_MAX := 0x7FFF_FFFF_FFFF_FFFF

  /** The directory data of one inode: appended to the buffer as whole blocks. */
  method PlaceDir(layout: MetadataLayout, info: DirInfo) returns (res: Result<(nat, nat)>)
    requires layout.Valid() && |layout.buf| % 4096 == 0
    modifies layout
    ensures layout.Valid() && |layout.buf| % 4096 == 0
    ensures res.Ok? <==> PackedDir(info).Ok? && |old(layout.buf)| + DirSize(info) <= ISIZE_MAX
    ensures res.Ok? ==> && layout.buf == old(layout.buf) + PackedDir(info).value
                        && res.value == (1 + |old(layout.buf)| / 4096, DirSize(info))
    ensures res.Err? ==> res == Err(Panic)
  {
    hide Pack, DirEntries;
    PackFails(DirEntries(info.children, info.selfNid, info.parentNid));
    var dirData := SerializeDirectory(info.children, info.selfNid, info.parentNid);
    if dirData.Err? {
      return Err(dirData.error);
    }
    PackSize(DirEntries(info.children, info.selfNid, info.parentNid));
    var startblk := AppendBlocks(layout, dirData.value);
    if startblk.Err? {
      return Err(startblk.error);
    }
    return Ok((startblk.value, |dirData.value|));
  }

  /** Allocates room for whole blocks of directory data and writes them there. */
  method AppendBlocks(layout: MetadataLayout, data: seq<byte>) returns (res: Result<nat>)
    requires layout.Valid() && |layout.buf| % 4096 == 0 && |data| % 4096 == 0
    modifies layout
    ensures layout.Valid() && |layout.buf| % 4096 == 0
    ensures res.Ok? <==> |old(layout.buf)| + |data| <= ISIZE_MAX
    ensures res.Ok? ==> layout.buf == old(layout.buf) + data && res.value == 1 + |old(layout.buf)| / 4096
    ensures res.Err? ==> res == Err(Panic)
  {
    ghost var was := layout.buf;
    var len := |data|;
    WholeBlocks(was, len);
    var dataOffset, startblk := layout.AllocDirData(len);
    if |layout.buf| > ISIZE_MAX {
      return Err(Panic);
    }
    FillZeros(was, data, len);
    assert Zeros(0) == [];
    layout.WriteAt(dataOffset, data);
    return Ok(startblk);
  }

  lemma {:induction false} PackFails(es: seq<Entry>)
    ensures Pack(es).Err? ==> Pack(es) == Err(Panic)
    decreases |es|
  {
    if es != [] && NextCount(es) > 0 {
      PackFails(es[NextCount(es)..]);
    }
  }

  lemma WholeBlocks(b: seq<byte>, n: nat)
    requires |b| % 4096 == 0 && n % 4096 == 0
    ensures RoundUpBlock(|b|) == |b| && RoundUpBlock(n) == n && Padded(b) == b && (|b| + n) % 4096 == 0
  {
    assert Zeros(0) == [];
  }

  /** A directory that knows where its data is: at `offset` of the buffer, which starts at block 1. */
  function Settle(x: InodeInfo, offset: nat, size: nat): InodeInfo {
    if x.data.Directory?
    then x.(size := size, data := x.data.(startblk := 1 + offset / EROFS_BLOCK_SIZE, dirDataSize := size))
    else x
  }

  /** The data of directory `l` stand where they belong. */
  ghost predicate DirStored(buf: seq<byte>, base: nat, infos: seq<DirInfo>, l: nat)
    requires l < |infos|
  {
    PackedDir(infos[l]).Ok? && StoredAt(buf, DirOffset(base, infos, l), PackedDir(infos[l]).value)
  }

  /** The first `k` directories stand one behind the other, up to the end of the buffer. */
  ghost predicate DirsStored(buf: seq<byte>, base: nat, infos: seq<DirInfo>, k: nat)
    requires k <= |infos|
  {
    |buf| == DirOffset(base, infos, k) && forall l :: 0 <= l < k ==> DirStored(buf, base, infos, l)
  }

  lemma DirsStoredMore(buf: seq<byte>, base: nat, infos: seq<DirInfo>, k: nat)
    requires k < |infos| && DirsStored(buf, base, infos, k) && PackedDir(infos[k]).Ok?
    ensures DirsStored(buf + PackedDir(infos[k]).value, base, infos, k + 1)
  {
    hide PackedDir, StoredAt;
    var d := PackedDir(infos[k]).value;
    forall l | 0 <= l < k + 1 ensures DirStored(buf + d, base, infos, l) {
      if l < k {
        assert DirStored(buf, base, infos, l);
        StoredStays(buf, buf + d, DirOffset(base, infos, l), PackedDir(infos[l]).value);
      } else {
        AppendedStored(buf, d);
      }
    }
  }

  lemma AppendedStored(buf: seq<byte>, d: seq<byte>)
    ensures StoredAt(buf + d, |buf|, d)
  {
  }

  /** The inodes after the first `k` directories have been placed. */
  function SettledTo(xs: seq<InodeInfo>, base: nat, infos: seq<DirInfo>, k: nat): (ys: seq<InodeInfo>)
    requires k <= |infos| && Ascending(infos, |xs|)
    ensures |ys| == |xs|
  {
    if k == 0 then xs else
    var ys, i := SettledTo(xs, base, infos, k - 1), infos[k - 1].idx;
    ys[i := Settle(ys[i], DirOffset(base, infos, k - 1), DirSize(infos[k - 1]))]
  }

  /** Only directories that have been reached are settled. */
  lemma {:induction false} SettledLater(xs: seq<InodeInfo>, base: nat, infos: seq<DirInfo>, k: nat, i: nat)
    requires k <= |infos| && Ascending(infos, |xs|) && i < |xs| && (k > 0 ==> infos[k - 1].idx < i)
    ensures SettledTo(xs, base, infos, k)[i] == xs[i]
  {
    if k > 0 {
      SettledLater(xs, base, infos, k - 1, i);
    }
  }

  /** The value that a step gives is still there when no later step changes it. */
  lemma {:induction false} NeverAgain<T>(values: seq<T>, first: nat, k: nat)
    requires first <= k < |values|
    requires forall m {:trigger values[m]} :: first < m <= k ==> values[m] == values[m - 1]
    ensures values[k] == values[first]
    decreases k
  {
    if first < k {
      NeverAgain(values, first, k - 1);
    }
  }

  /** A directory is settled in its own turn and never again. */
  lemma SettledOnce(xs: seq<InodeInfo>, base: nat, infos: seq<DirInfo>, k: nat, l: nat)
    requires l < k <= |infos| && Ascending(infos, |xs|)
    ensures var i := infos[l].idx;
            SettledTo(xs, base, infos, k)[i] == Settle(xs[i], DirOffset(base, infos, l), DirSize(infos[l]))
  {
    hide SettledTo, Settle, DirOffset;
    var i := infos[l].idx;
    var values := seq(k + 1, m requires 0 <= m <= k => SettledTo(xs, base, infos, m)[i]);
    forall m {:trigger values[m]} | l + 1 < m <= k ensures values[m] == values[m - 1] {
      SettledKept(xs, base, infos, m, l);
    }
    NeverAgain(values, l + 1, k);
    SettledLast(xs, base, infos, l);
  }

  lemma SettledKept(xs: seq<InodeInfo>, base: nat, infos: seq<DirInfo>, k: nat, l: nat)
    requires l < k - 1 && k <= |infos| && Ascending(infos, |xs|)
    ensures SettledTo(xs, base, infos, k)[infos[l].idx] == SettledTo(xs, base, infos, k - 1)[infos[l].idx]
  {
    assert infos[l].idx < infos[k - 1].idx;
    SettledStep(xs, base, infos, k, infos[l].idx);
  }

  lemma SettledLast(xs: seq<InodeInfo>, base: nat, infos: seq<DirInfo>, l: nat)
    requires l < |infos| && Ascending(infos, |xs|)
    ensures var i := infos[l].idx;
            SettledTo(xs, base, infos, l + 1)[i] == Settle(xs[i], DirOffset(base, infos, l), DirSize(infos[l]))
  {
    SettledLater(xs, base, infos, l, infos[l].idx);
    SettledStep(xs, base, infos, l + 1, infos[l].idx);
  }

  /** The last step of settling changes one inode. */
  lemma SettledStep(xs: seq<InodeInfo>, base: nat, infos: seq<DirInfo>, k: nat, i: nat)
    requires 0 < k <= |infos| && Ascending(infos, |xs|) && i < |xs|
    ensures var ys := SettledTo(xs, base, infos, k - 1);
            SettledTo(xs, base, infos, k)[i] ==
              if i == infos[k - 1].idx then Settle(ys[i], DirOffset(base, infos, k - 1), DirSize(infos[k - 1]))
              else ys[i]
  {
  }

  /** Every name fits into a block and all the data into a buffer. */
  ghost predicate Placeable(base: nat, infos: seq<DirInfo>) {
    DirOffset(base, infos, |infos|) <= ISIZE_MAX && forall k :: 0 <= k < |infos| ==> PackedDir(infos[k]).Ok?
  }

  lemma NotPlaceable(base: nat, infos: seq<DirInfo>, k: nat)
    requires k < |infos|
    requires PackedDir(infos[k]).Err? || DirOffset(base, infos, k) + DirSize(infos[k]) > ISIZE_MAX
    ensures !Placeable(base, infos)
  {
    DirOffsetMonotone(base, infos, k + 1, |infos|);
  }

  lemma AllPlaced(buf: seq<byte>, base: nat, infos: seq<DirInfo>)
    requires DirsStored(buf, base, infos, |infos|) && |buf| <= ISIZE_MAX
    ensures Placeable(base, infos)
  {
    forall l | 0 <= l < |infos| ensures PackedDir(infos[l]).Ok? {
      assert DirStored(buf, base, infos, l);
    }
  }

  /** The body of the loop of phase 2b. */
  method PlaceAndSettle(layout: MetadataLayout, inodes: array<InodeInfo>, info: DirInfo) returns (res: Result<()>)
    requires layout.Valid() && |layout.buf| % 4096 == 0 && info.idx < inodes.Length
    modifies layout, inodes
    ensures layout.Valid() && |layout.buf| % 4096 == 0
    ensures res.Ok? <==> PackedDir(info).Ok? && |old(layout.buf)| + DirSize(info) <= ISIZE_MAX
    ensures res.Ok? ==> && layout.buf == old(layout.buf) + PackedDir(info).value
                        && inodes[..] ==
                          old(inodes[..])[info.idx := Settle(old(inodes[info.idx]), |old(layout.buf)|, DirSize(info))]
    ensures res.Err? ==> res == Err(Panic)
  {
    var placed := PlaceDir(layout, info);
    if placed.Err? {
      return Err(placed.error);
    }
    var (startblk, len) := placed.value;
    var x := inodes[info.idx];
    if x.data.Directory? {
      inodes[info.idx] := x.(size := len, data := x.data.(startblk := startblk, dirDataSize := len));
    }
    return Ok(());
  }

  /**
   * Phase 2b: places and writes every directory. It fails exactly when a name does not fit into a block
   * or the buffer would outgrow `isize::MAX`.
   */
  method PlaceDirs(layout: MetadataLayout, inodes: array<InodeInfo>, infos: seq<DirInfo>) returns (res: Result<()>)
    requires layout.Valid() && |layout.buf| % 4096 == 0 && |layout.buf| <= ISIZE_MAX
    requires Ascending(infos, inodes.Length)
    modifies layout, inodes
    ensures layout.Valid() && |layout.buf| % 4096 == 0
    ensures res.Ok? <==> Placeable(|old(layout.buf)|, infos)
    ensures res.Ok? ==> var base := |old(layout.buf)|;
                        && DirsStored(layout.buf, base, infos, |infos|)
                        && inodes[..] == SettledTo(old(inodes[..]), base, infos, |infos|)
    ensures res.Err? ==> res == Err(Panic)
  {
    ghost var base, xs := |layout.buf|, inodes[..];
    for k := 0 to |infos|
      invariant layout.Valid() && |layout.buf| % 4096 == 0 && |layout.buf| <= ISIZE_MAX
      invariant DirsStored(layout.buf, base, infos, k)
      invariant inodes[..] == SettledTo(xs, base, infos, k)
    {
      var placed := PlaceNext(layout, inodes, infos, k, base, xs);
      if placed.Err? {
        return placed;
      }
    }
    AllPlaced(layout.buf, base, infos);
    return Ok(());
  }

  /** One round of that loop. */
  method PlaceNext(layout: MetadataLayout, inodes: array<InodeInfo>, infos: seq<DirInfo>, k: nat,
                   ghost base: nat, ghost xs: seq<InodeInfo>)
    returns (res: Result<()>)
    requires layout.Valid() && |layout.buf| % 4096 == 0
    requires k < |infos| && |xs| == inodes.Length && Ascending(infos, |xs|)
    requires DirsStored(layout.buf, base, infos, k) && inodes[..] == SettledTo(xs, base, infos, k)
    modifies layout, inodes
    ensures layout.Valid() && |layout.buf| % 4096 == 0
    ensures res.Ok? ==> && |layout.buf| <= ISIZE_MAX && DirsStored(layout.buf, base, infos, k + 1)
                        && inodes[..] == SettledTo(xs, base, infos, k + 1)
    ensures res.Err? ==> res == Err(Panic) && !Placeable(base, infos)
  {
    ghost var was, ys := layout.buf, inodes[..];
    res := PlaceAndSettle(layout, inodes, infos[k]);
    if res.Err? {
      NotPlaceable(base, infos, k);
      return res;
    }
    DirsStoredMore(was, base, infos, k);
    assert ys[infos[k].idx] == old(inodes[infos[k].idx]);
  }

  // ------------------------------------------------------------------
  // Inodes
  // ------------------------------------------------------------------

  ghost predicate AllTyped(xs: seq<InodeInfo>) {
    forall i :: 0 <= i < |xs| ==> Typed(xs[i])
  }

  ghost predicate WriteArgs(xs: seq<InodeInfo>, epoch: nat, chunkbits: nat) {
    AllTyped(xs) && epoch < TWO_64 && EROFS_BLKSZBITS <= chunkbits < 32
  }

  /** The serialized inodes. */
  ghost function AllBytes(xs: seq<InodeInfo>, epoch: nat, chunkbits: nat): (r: seq<seq<byte>>)
    requires WriteArgs(xs, epoch, chunkbits)
    ensures |r| == |xs|
    ensures forall i :: 0 <= i < |xs| ==> r[i] == InodeBytes(xs[i], epoch, chunkbits) && |r[i]| == MetaSize(xs[i])
  {
    seq(|xs|, i requires 0 <= i < |xs| => InodeBytes(xs[i], epoch, chunkbits))
  }

  ghost predicate SlotStored(buf: seq<byte>, sizes: seq<nat>, bytes: seq<seq<byte>>, i: nat)
    requires i < |bytes| == |sizes|
  {
    StoredAt(buf, SlotAt(sizes, i), bytes[i])
  }

  /** The first `n` inodes stand in their slots, and nothing behind the slots has changed since `was`. */
  ghost predicate SlotsStored(was: seq<byte>, buf: seq<byte>, sizes: seq<nat>, bytes: seq<seq<byte>>, n: nat)
    requires n <= |bytes| == |sizes|
  {
    && |buf| == |was| >= SlotAt(sizes, |sizes|) && buf[SlotAt(sizes, |sizes|)..] == was[SlotAt(sizes, |sizes|)..]
    && forall i :: 0 <= i < n ==> SlotStored(buf, sizes, bytes, i)
  }

  lemma SlotWritten(was: seq<byte>, buf: seq<byte>, sizes: seq<nat>, bytes: seq<seq<byte>>, n: nat)
    requires n < |bytes| == |sizes| && SlotsStored(was, buf, sizes, bytes, n)
    requires forall i :: 0 <= i < |sizes| ==> |bytes[i]| == sizes[i]
    ensures SlotAt(sizes, n) + |bytes[n]| <= |buf|
    ensures SlotsStored(was, Splice(buf, SlotAt(sizes, n), bytes[n]), sizes, bytes, n + 1)
  {
    SlotsOrdered(sizes, n, |sizes|);
    BehindKept(buf, SlotAt(sizes, n), bytes[n], SlotAt(sizes, |sizes|));
    SlotsKept(buf, sizes, bytes, n);
  }

  lemma SlotsKept(buf: seq<byte>, sizes: seq<nat>, bytes: seq<seq<byte>>, n: nat)
    requires n < |bytes| == |sizes| && SlotAt(sizes, n) + |bytes[n]| <= |buf|
    requires forall i :: 0 <= i < n ==> SlotStored(buf, sizes, bytes, i)
    requires forall i :: 0 <= i < |sizes| ==> |bytes[i]| == sizes[i]
    ensures forall i :: 0 <= i < n + 1 ==> SlotStored(Splice(buf, SlotAt(sizes, n), bytes[n]), sizes, bytes, i)
  {
    var now := Splice(buf, SlotAt(sizes, n), bytes[n]);
    forall i | 0 <= i < n + 1 ensures SlotStored(now, sizes, bytes, i) {
      if i < n {
        SlotKept(buf, sizes, bytes, n, i);
      }
    }
  }

  lemma BehindKept(buf: seq<byte>, off: nat, data: seq<byte>, end: nat)
    requires off + |data| <= end <= |buf|
    ensures Splice(buf, off, data)[end..] == buf[end..]
  {
    SpliceElsewhere(buf, off, data, end, |buf|);
    var now := Splice(buf, off, data);
    assert now[end..] == now[end..|buf|] && buf[end..] == buf[end..|buf|];
  }

  lemma SlotKept(buf: seq<byte>, sizes: seq<nat>, bytes: seq<seq<byte>>, n: nat, i: nat)
    requires i < n < |bytes| == |sizes| && SlotStored(buf, sizes, bytes, i) && |bytes[i]| == sizes[i]
    requires SlotAt(sizes, n) + |bytes[n]| <= |buf|
    ensures SlotStored(Splice(buf, SlotAt(sizes, n), bytes[n]), sizes, bytes, i)
  {
    SlotsOrdered(sizes, i, n);
    SpliceElsewhere(buf, SlotAt(sizes, n), bytes[n], SlotAt(sizes, i), SlotAt(sizes, i) + |bytes[i]|);
  }

  /** Phase 2c: writes every inode into its slot. */
  method WriteInodes(layout: MetadataLayout, inodes: array<InodeInfo>, epoch: nat, chunkbits: nat)
    requires layout.Valid() && WriteArgs(inodes[..], epoch, chunkbits)
    requires |layout.buf| >= SlotAt(Sizes(inodes[..]), inodes.Length)
    requires forall i :: 0 <= i < inodes.Length ==> inodes[i].metaOffset == SlotAt(Sizes(inodes[..]), i)
    modifies layout`buf
    ensures layout.Valid()
    ensures SlotsStored(old(layout.buf), layout.buf, Sizes(inodes[..]), AllBytes(inodes[..], epoch, chunkbits),
                        inodes.Length)
  {
    ghost var was, xs := layout.buf, inodes[..];
    ghost var sizes, bytes := Sizes(xs), AllBytes(xs, epoch, chunkbits);
    for i := 0 to inodes.Length
      invariant layout.Valid() && SlotsStored(was, layout.buf, sizes, bytes, i)
    {
      assert inodes[i] == xs[i] && bytes[i] == InodeBytes(xs[i], epoch, chunkbits);
      SlotWritten(was, layout.buf, sizes, bytes, i);
      WriteInode(layout, inodes[i], epoch, chunkbits);
    }
  }

  method WriteInode(layout: MetadataLayout, x: InodeInfo, epoch: nat, chunkbits: nat)
    requires layout.Valid() && Typed(x) && epoch < TWO_64 && EROFS_BLKSZBITS <= chunkbits < 32
    requires x.metaOffset + MetaSize(x) <= |layout.buf|
    modifies layout`buf
    ensures layout.Valid()
    ensures layout.buf == Splice(old(layout.buf), x.metaOffset, InodeBytes(x, epoch, chunkbits))
  {
    var inodeBytes := SerializeInode(x, epoch, chunkbits);
    layout.WriteAt(x.metaOffset, inodeBytes[..]);
  }
}
