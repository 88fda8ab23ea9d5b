/** The whole second phase of the builder: from inodes to an image (src/bin/erofs-mkfs.rs). */
module Builder {
  import opened Bytes
  import opened Metadata
  import opened Dirents
  import opened DirBlocks
  import opened Layout
  import opened Reader
  import opened InodeBuild
  import opened Wiring
  import opened Mkfs
  import opened Image

  // ------------------------------------------------------------------
  // The inodes in the end
  // ------------------------------------------------------------------

  /** The inodes with slots and parent links. */
  function Linked(ys: seq<InodeInfo>): (xs: seq<InodeInfo>)
    ensures |xs| == |ys|
  {
    Wired(Placed(ys))
  }

  /** Directory data start on the first block behind the slots. */
  function MetaBase(ys: seq<InodeInfo>): nat {
    RoundUpBlock(SlotAt(Sizes(ys), |ys|))
  }

  lemma LinkedInRange(ys: seq<InodeInfo>)
    requires InRange(ys)
    ensures InRange(Placed(ys)) && InRange(Linked(ys))
  {
    var ps, xs := Placed(ys), Linked(ys);
    assert forall i :: 0 <= i < |ys| ==> ps[i].data == ys[i].data;
    assert forall i :: 0 <= i < |ys| && ys[i].data.Directory? ==>
      xs[i].data.Directory? && xs[i].data.children == ps[i].data.children;
    assert forall i :: 0 <= i < |ys| && xs[i].data.Directory? ==> ys[i].data.Directory?;
  }

  function DirInfos(ys: seq<InodeInfo>): (infos: seq<DirInfo>)
    requires InRange(ys)
    ensures Ascending(infos, |ys|) && |infos| == Rank(Linked(ys), |ys|)
  {
    LinkedInRange(ys);
    InfosAscend(Linked(ys), |ys|);
    Infos(Linked(ys), |ys|)
  }

  /** Where the last directory ends: the size of the metadata. */
  function MetaEnd(ys: seq<InodeInfo>): nat
    requires InRange(ys)
  {
    DirOffset(MetaBase(ys), DirInfos(ys), |DirInfos(ys)|)
  }

  /** Everything fits: the slots, the names, the directories. */
  ghost predicate Buildable(ys: seq<InodeInfo>)
    requires InRange(ys)
  {
    MetaBase(ys) <= ISIZE_MAX && Placeable(MetaBase(ys), DirInfos(ys))
  }

  // ------------------------------------------------------------------
  // When the builder can go through
  // ------------------------------------------------------------------

  /** No name is longer than a directory block can hold. */
  predicate NamesFit(ys: seq<InodeInfo>) {
    forall i, k :: 0 <= i < |ys| && ys[i].data.Directory? && 0 <= k < |ys[i].data.children| ==>
      |ys[i].data.children[k].name| <= MAX_NAME
  }

  lemma DirFitsExact(info: DirInfo)
    ensures PackedDir(info).Ok? <==> forall k :: 0 <= k < |info.children| ==> |info.children[k].name| <= MAX_NAME
  {
    var ch := ChildEntries(info.children);
    PackExact(DirEntries(info.children, info.selfNid, info.parentNid));
    ShortBehindTwo(Entry(info.selfNid, EROFS_FT_DIR, DOT), Entry(info.parentNid, EROFS_FT_DIR, DOTDOT), ch);
    assert forall k :: 0 <= k < |ch| ==> ch[k].name == info.children[k].name;
  }

  lemma ShortBehindTwo(a: Entry, b: Entry, ch: seq<Entry>)
    requires |a.name| <= MAX_NAME && |b.name| <= MAX_NAME
    ensures (forall e :: e in [a, b] + ch ==> |e.name| <= MAX_NAME)
            <==> (forall k :: 0 <= k < |ch| ==> |ch[k].name| <= MAX_NAME)
  {
    var es := [a, b] + ch;
    if forall e :: e in es ==> |e.name| <= MAX_NAME {
      forall k | 0 <= k < |ch| ensures |ch[k].name| <= MAX_NAME {
        assert es[k + 2] in es;
      }
    }
    if forall k :: 0 <= k < |ch| ==> |ch[k].name| <= MAX_NAME {
      forall e | e in es ensures |e.name| <= MAX_NAME {
        var j :| 0 <= j < |es| && es[j] == e;
        assert j >= 2 ==> e == ch[j - 2];
      }
    }
  }

  lemma {:induction false} InfoFrom(xs: seq<InodeInfo>, m: nat, k: nat)
    requires InRange(xs) && m <= |xs| && k < |Infos(xs, m)|
    ensures var i := Infos(xs, m)[k].idx; i < m && xs[i].data.Directory? && Infos(xs, m)[k] == InfoOf(xs, i)
  {
    if k < |Infos(xs, m - 1)| {
      InfoFrom(xs, m - 1, k);
    }
  }

  lemma SameNames(ys: seq<InodeInfo>, i: nat)
    requires InRange(ys) && i < |ys| && ys[i].data.Directory?
    ensures InRange(Linked(ys)) && Linked(ys)[i].data.Directory?
    ensures PackedDir(InfoOf(Linked(ys), i)).Ok? <==>
            forall k :: 0 <= k < |ys[i].data.children| ==> |ys[i].data.children[k].name| <= MAX_NAME
  {
    LinkedInRange(ys);
    LinkedAt(ys, i);
    var info, es := InfoOf(Linked(ys), i), ys[i].data.children;
    DirFitsExact(info);
    assert |info.children| == |es| && forall k :: 0 <= k < |es| ==> info.children[k].name == es[k].name;
  }

  /** The builder goes through if and only if all names fit a block and the metadata fit into memory. */
  lemma BuildableExact(ys: seq<InodeInfo>)
    requires InRange(ys)
    ensures Buildable(ys) <==> NamesFit(ys) && MetaBase(ys) <= ISIZE_MAX && MetaEnd(ys) <= ISIZE_MAX
  {
    hide Pack, Linked;
    LinkedInRange(ys);
    var infos := DirInfos(ys);
    if forall k :: 0 <= k < |infos| ==> PackedDir(infos[k]).Ok? {
      forall i, k | 0 <= i < |ys| && ys[i].data.Directory? && 0 <= k < |ys[i].data.children|
        ensures |ys[i].data.children[k].name| <= MAX_NAME
      {
        SameNames(ys, i);
        InfoAtRank(Linked(ys), |ys|, i);
      }
    }
    if NamesFit(ys) {
      forall k | 0 <= k < |infos| ensures PackedDir(infos[k]).Ok? {
        InfoFrom(Linked(ys), |ys|, k);
        LinkedAt(ys, infos[k].idx);
        SameNames(ys, infos[k].idx);
      }
    }
  }

  /** The number of entries, "." and ".." included, of the first `k` directories. */
  function EntryCount(infos: seq<DirInfo>, k: nat): nat
    requires k <= |infos|
  {
    if k == 0 then 0 else EntryCount(infos, k - 1) + |infos[k - 1].children| + 2
  }

  lemma {:induction false} DirOffsetBound(base: nat, infos: seq<DirInfo>, k: nat)
    requires k <= |infos|
    ensures DirOffset(base, infos, k) <= base + 4096 * EntryCount(infos, k)
  {
    if k > 0 {
      DirOffsetBound(base, infos, k - 1);
      DirSizeBound(infos[k - 1]);
    }
  }

  lemma DirSizeBound(info: DirInfo)
    ensures DirSize(info) <= 4096 * (|info.children| + 2)
  {
    if PackedDir(info).Ok? {
      PackBound(DirEntries(info.children, info.selfNid, info.parentNid));
    }
  }

  /** A bound to check beforehand: one block for each directory entry. */
  lemma BuildsWhenSmall(ys: seq<InodeInfo>)
    requires InRange(ys) && NamesFit(ys)
    requires MetaBase(ys) + 4096 * EntryCount(DirInfos(ys), |DirInfos(ys)|) <= ISIZE_MAX
    ensures Buildable(ys)
  {
    DirOffsetBound(MetaBase(ys), DirInfos(ys), |DirInfos(ys)|);
    BuildableExact(ys);
  }

  // ------------------------------------------------------------------
  // What becomes of the inodes
  // ------------------------------------------------------------------

  /** The inodes as they are written. */
  function Final(ys: seq<InodeInfo>): (xs: seq<InodeInfo>)
    requires InRange(ys)
    ensures |xs| == |ys|
  {
    SettledTo(Linked(ys), MetaBase(ys), DirInfos(ys), |DirInfos(ys)|)
  }

  lemma {:induction false} RankMonotone(xs: seq<InodeInfo>, i: nat, j: nat)
    requires i <= j <= |xs|
    ensures Rank(xs, i) <= Rank(xs, j)
  {
    if i < j {
      RankMonotone(xs, i, j - 1);
    }
  }

  /** Where the data of directory `i` lie in the buffer. */
  function DirStart(ys: seq<InodeInfo>, i: nat): nat
    requires InRange(ys) && i < |ys|
  {
    RankMonotone(Linked(ys), i, |ys|);
    DirOffset(MetaBase(ys), DirInfos(ys), Rank(Linked(ys), i))
  }

  lemma {:induction false} NotADirectory(xs: seq<InodeInfo>, base: nat, infos: seq<DirInfo>, k: nat, i: nat)
    requires k <= |infos| && Ascending(infos, |xs|) && i < |xs| && !xs[i].data.Directory?
    ensures SettledTo(xs, base, infos, k)[i] == xs[i]
  {
    hide SettledTo, Settle, DirOffset, DirSize, Ascending;
    if k == 0 {
      NoneSettled(xs, base, infos);
    } else {
      SettledStep(xs, base, infos, k, i);
      NotADirectory(xs, base, infos, k - 1, i);
      SettleOther(xs[i], DirOffset(base, infos, k - 1), DirSize(infos[k - 1]));
    }
  }

  lemma NoneSettled(xs: seq<InodeInfo>, base: nat, infos: seq<DirInfo>)
    requires Ascending(infos, |xs|)
    ensures SettledTo(xs, base, infos, 0) == xs
  {
  }

  lemma SettleOther(x: InodeInfo, at: nat, size: nat)
    requires !x.data.Directory?
    ensures Settle(x, at, size) == x
  {
  }

  lemma LinkedAt(ys: seq<InodeInfo>, i: nat)
    requires i < |ys|
    ensures var x, at := Linked(ys)[i], SlotAt(Sizes(ys), i);
            && x.data.Directory? == ys[i].data.Directory?
            && (!x.data.Directory? ==> x == Place(ys[i], at))
            && (x.data.Directory? ==>
                  x == SetParent(Place(ys[i], at), ParentNid(Placed(ys), i, |ys|)))
  {
    assert Placed(ys)[i] == Place(ys[i], SlotAt(Sizes(ys), i));
  }

  /** What becomes of inode `i`: nothing but its place, its parent link and the place of its data. */
  lemma FinalAt(ys: seq<InodeInfo>, i: nat)
    requires InRange(ys) && i < |ys|
    ensures !ys[i].data.Directory? ==> Final(ys)[i] == Linked(ys)[i]
    ensures ys[i].data.Directory? ==>
              && InRange(Linked(ys)) && Linked(ys)[i].data.Directory?
              && Rank(Linked(ys), i) < |DirInfos(ys)| && DirInfos(ys)[Rank(Linked(ys), i)] == InfoOf(Linked(ys), i)
              && Final(ys)[i] == Settle(Linked(ys)[i], DirStart(ys, i), DirSize(InfoOf(Linked(ys), i)))
  {
    LinkedAt(ys, i);
    LinkedInRange(ys);
    var xs, infos := Linked(ys), DirInfos(ys);
    if ys[i].data.Directory? {
      InfoAtRank(xs, |xs|, i);
      SettledOnce(xs, MetaBase(ys), infos, |infos|, Rank(xs, i));
    } else {
      NotADirectory(xs, MetaBase(ys), infos, |infos|, i);
    }
  }

  /** `x` is the inode `y` of the source tree, given a place, a parent and room for its data. */
  ghost predicate SameInode(y: InodeInfo, x: InodeInfo) {
    && x == y.(nid := x.nid, metaOffset := x.metaOffset, size := x.size, data := x.data)
    && (if y.data.Directory? then x.data.Directory? && x.data.children == y.data.children
        else x.size == y.size && x.data == y.data)
  }

  ghost predicate SameTree(ys: seq<InodeInfo>, xs: seq<InodeInfo>) {
    |xs| == |ys| && forall i :: 0 <= i < |ys| ==> SameInode(ys[i], xs[i])
  }

  lemma FinalSame(ys: seq<InodeInfo>, i: nat)
    requires InRange(ys) && i < |ys|
    ensures SameInode(ys[i], Final(ys)[i]) && MetaSize(Final(ys)[i]) == MetaSize(ys[i])
    ensures Final(ys)[i].metaOffset == SlotAt(Sizes(ys), i) == Final(ys)[i].nid * 32
    ensures Final(ys)[i].nid == Linked(ys)[i].nid
  {
    var at := SlotAt(Sizes(ys), i);
    FinalAt(ys, i);
    LinkedAt(ys, i);
    SlotsAligned(Sizes(ys), i);
    if ys[i].data.Directory? {
      DirectoryStages(ys[i], at, ParentNid(Placed(ys), i, |ys|), DirStart(ys, i), DirSize(InfoOf(Linked(ys), i)));
    } else {
      PlaceStage(ys[i], at);
    }
  }

  lemma PlaceStage(y: InodeInfo, at: nat)
    requires at % 32 == 0
    ensures Place(y, at).metaOffset == at == Place(y, at).nid * 32 && MetaSize(Place(y, at)) == MetaSize(y)
    ensures !y.data.Directory? ==> SameInode(y, Place(y, at))
  {
  }

  lemma DirectoryStages(y: InodeInfo, at: nat, parent: nat, start: nat, size: nat)
    requires y.data.Directory? && at % 32 == 0
    ensures var x := SetParent(Place(y, at), parent);
            var z := Settle(x, start, size);
            && SameInode(y, z) && MetaSize(z) == MetaSize(y) && z.metaOffset == at == z.nid * 32 && z.nid == x.nid
  {
  }

  lemma FinalTree(ys: seq<InodeInfo>)
    requires InRange(ys)
    ensures SameTree(ys, Final(ys)) && InRange(Final(ys)) && Sizes(Final(ys)) == Sizes(ys)
    ensures forall i :: 0 <= i < |ys| ==> Final(ys)[i].metaOffset == SlotAt(Sizes(ys), i)
  {
    var xs := Final(ys);
    forall i | 0 <= i < |ys|
      ensures SameInode(ys[i], xs[i]) && MetaSize(xs[i]) == MetaSize(ys[i]) && xs[i].metaOffset == SlotAt(Sizes(ys), i)
    {
      FinalSame(ys, i);
    }
    SameInRange(ys, xs);
  }

  lemma SameInRange(ys: seq<InodeInfo>, xs: seq<InodeInfo>)
    requires InRange(ys) && SameTree(ys, xs)
    ensures InRange(xs)
  {
    forall i, k | 0 <= i < |xs| && xs[i].data.Directory? && 0 <= k < |xs[i].data.children|
      ensures xs[i].data.children[k].inodeIdx < |xs|
    {
      assert SameInode(ys[i], xs[i]);
    }
  }

  lemma FinalTyped(ys: seq<InodeInfo>)
    requires InRange(ys) && AllTyped(ys) && Buildable(ys)
    ensures AllTyped(Final(ys))
  {
    forall i | 0 <= i < |ys| ensures Typed(Final(ys)[i]) {
      assert Typed(ys[i]);
      FinalSame(ys, i);
      if ys[i].data.Directory? {
        FinalAt(ys, i);
        SizeBounded(MetaBase(ys), DirInfos(ys), Rank(Linked(ys), i));
      }
    }
  }

  lemma SizeBounded(base: nat, infos: seq<DirInfo>, k: nat)
    requires k < |infos| && DirOffset(base, infos, |infos|) <= ISIZE_MAX
    ensures DirSize(infos[k]) <= ISIZE_MAX
  {
    hide PackedDir;
    DirOffsetMonotone(base, infos, k + 1, |infos|);
  }

  // ------------------------------------------------------------------
  // The image
  // ------------------------------------------------------------------

  /** What a directory of the image must contain: itself, its parent, its children by name. */
  function EntriesOf(xs: seq<InodeInfo>, i: nat): seq<Entry>
    requires InRange(xs) && i < |xs| && xs[i].data.Directory?
  {
    DirEntries(ChildrenOf(xs, xs[i].data.children), xs[i].nid, xs[i].data.parentNid)
  }

  /** The bytes of inode `i` are where its nid says. */
  ghost predicate InodeInImage(image: seq<byte>, xs: seq<InodeInfo>, epoch: nat, chunkbits: nat, i: nat)
    requires WriteArgs(xs, epoch, chunkbits) && i < |xs|
  {
    StoredAt(image, EROFS_BLOCK_SIZE + xs[i].nid * EROFS_SLOTSIZE, InodeBytes(xs[i], epoch, chunkbits))
  }

  /** The reader's 64-byte window on an inode is inside the image. */
  predicate InWindow(image: seq<byte>, nid: nat) {
    EROFS_BLOCK_SIZE + nid * EROFS_SLOTSIZE + 64 <= |image|
  }

  /** The data of directory `i` are where its start block says. */
  ghost predicate DirInImage(image: seq<byte>, xs: seq<InodeInfo>, i: nat)
    requires InRange(xs) && i < |xs| && xs[i].data.Directory?
  {
    var d := Pack(EntriesOf(xs, i));
    d.Ok? && |d.value| == xs[i].size && StoredAt(image, xs[i].data.startblk * EROFS_BLOCK_SIZE, d.value)
  }

  /** `image` holds the inodes `xs`, whatever the first of them is. */
  ghost predicate HoldsInodes(image: seq<byte>, xs: seq<InodeInfo>, f: Facts, chunkbits: nat) {
    && WriteArgs(xs, f.epoch, chunkbits) && InRange(xs) && FactsTyped(f)
    && 2 * EROFS_BLOCK_SIZE <= |image| <= ISIZE_MAX + EROFS_BLOCK_SIZE
    && (exists blocks :: Block0(f, blocks) <= image)
    && |xs| > 0 && f.rootNid == xs[0].nid == 0
    && (forall i, j :: 0 <= i < j < |xs| ==> xs[i].nid < xs[j].nid)
    && (forall i :: 0 <= i < |xs| ==> InodeInImage(image, xs, f.epoch, chunkbits, i))
    && (forall i :: 0 <= i < |xs| && xs[i].data.Directory? ==> DirInImage(image, xs, i))
  }

  /** `image` is an image of the inodes `xs`: the first is a directory, and every inode can be read. */
  ghost predicate IsImage(image: seq<byte>, xs: seq<InodeInfo>, f: Facts, chunkbits: nat) {
    && HoldsInodes(image, xs, f, chunkbits) && xs[0].data.Directory?
    && forall i :: 0 <= i < |xs| ==> InWindow(image, xs[i].nid)
  }

  lemma StoredAfter(block0: seq<byte>, buf: seq<byte>, at: nat, d: seq<byte>)
    requires StoredAt(buf, at, d)
    ensures StoredAt(block0 + buf, |block0| + at, d)
  {
    SliceAfterBlock(block0, buf, block0 + buf, at, |d|);
  }

  lemma StoredBehind(was: seq<byte>, now: seq<byte>, end: nat, at: nat, d: seq<byte>)
    requires end <= at && |was| == |now| >= end && was[end..] == now[end..] && StoredAt(was, at, d)
    ensures StoredAt(now, at, d)
  {
    DropSlice(was, end, at, at + |d|);
    DropSlice(now, end, at, at + |d|);
  }

  lemma {:induction false} DirOffsetAligned(base: nat, infos: seq<DirInfo>, k: nat)
    requires k <= |infos| && base % 4096 == 0
    ensures DirOffset(base, infos, k) % 4096 == 0
  {
    if k > 0 {
      DirOffsetAligned(base, infos, k - 1);
      DirSizeAligned(infos[k - 1]);
      BlockSum(DirOffset(base, infos, k - 1), DirSize(infos[k - 1]));
    }
  }

  lemma BlockSum(a: nat, b: nat)
    requires a % 4096 == 0 && b % 4096 == 0
    ensures (a + b) % 4096 == 0
  {
  }

  /** Directory data are whole blocks, and never empty. */
  lemma DirSizeAligned(info: DirInfo)
    ensures DirSize(info) % 4096 == 0
    ensures PackedDir(info).Ok? ==> DirSize(info) >= 4096
  {
    if PackedDir(info).Ok? {
      PackSize(DirEntries(info.children, info.selfNid, info.parentNid));
    }
  }

  lemma SameChildren(xs: seq<InodeInfo>, zs: seq<InodeInfo>, es: seq<DirEntry>)
    requires |xs| == |zs| && forall i :: 0 <= i < |xs| ==> xs[i].nid == zs[i].nid
    requires forall k :: 0 <= k < |es| ==> es[k].inodeIdx < |xs|
    ensures ChildrenOf(xs, es) == ChildrenOf(zs, es)
  {
  }

  /** The entries written for directory `i` are those of the final inodes. */
  lemma FinalEntries(ys: seq<InodeInfo>, i: nat)
    requires InRange(ys) && i < |ys| && ys[i].data.Directory?
    ensures InRange(Linked(ys)) && InRange(Final(ys)) && Linked(ys)[i].data.Directory? && Final(ys)[i].data.Directory?
    ensures PackedDir(InfoOf(Linked(ys), i)) == Pack(EntriesOf(Final(ys), i))
    ensures Final(ys)[i].size == DirSize(InfoOf(Linked(ys), i))
    ensures Final(ys)[i].data.startblk == 1 + DirStart(ys, i) / 4096
  {
    FinalAt(ys, i);
    FinalTree(ys);
    LinkedInRange(ys);
    forall j | 0 <= j < |ys| ensures Linked(ys)[j].nid == Final(ys)[j].nid {
      FinalSame(ys, j);
    }
    SameChildren(Linked(ys), Final(ys), Linked(ys)[i].data.children);
  }

  lemma DirHolds(ys: seq<InodeInfo>, was: seq<byte>, buf: seq<byte>, block0: seq<byte>, i: nat)
    requires InRange(ys) && i < |ys| && ys[i].data.Directory? && |block0| == 4096
    requires DirsStored(was, MetaBase(ys), DirInfos(ys), |DirInfos(ys)|)
    requires |buf| == |was| >= SlotAt(Sizes(ys), |ys|)
    requires buf[SlotAt(Sizes(ys), |ys|)..] == was[SlotAt(Sizes(ys), |ys|)..]
    ensures InRange(Final(ys)) && Final(ys)[i].data.Directory? && DirInImage(block0 + buf, Final(ys), i)
  {
    FinalEntries(ys, i);
    StartBlock(ys, i);
    DirBehind(ys, was, buf, i);
    StoredAfter(block0, buf, DirStart(ys, i), PackedDir(InfoOf(Linked(ys), i)).value);
  }

  /** The start block of a directory is where its data are, one block further in the image than in the buffer. */
  lemma StartBlock(ys: seq<InodeInfo>, i: nat)
    requires InRange(ys) && i < |ys| && ys[i].data.Directory?
    ensures Final(ys)[i].data.Directory? && Final(ys)[i].data.startblk * 4096 == 4096 + DirStart(ys, i)
  {
    FinalEntries(ys, i);
    RankMonotone(Linked(ys), i, |ys|);
    RoundUpsAligned(SlotAt(Sizes(ys), |ys|));
    DirOffsetAligned(MetaBase(ys), DirInfos(ys), Rank(Linked(ys), i));
  }

  /** Writing the inodes leaves the directory data alone. */
  lemma DirBehind(ys: seq<InodeInfo>, was: seq<byte>, buf: seq<byte>, i: nat)
    requires InRange(ys) && i < |ys| && ys[i].data.Directory?
    requires DirsStored(was, MetaBase(ys), DirInfos(ys), |DirInfos(ys)|)
    requires |buf| == |was| >= SlotAt(Sizes(ys), |ys|)
    requires buf[SlotAt(Sizes(ys), |ys|)..] == was[SlotAt(Sizes(ys), |ys|)..]
    ensures InRange(Linked(ys)) && Linked(ys)[i].data.Directory? && PackedDir(InfoOf(Linked(ys), i)).Ok?
    ensures StoredAt(buf, DirStart(ys, i), PackedDir(InfoOf(Linked(ys), i)).value)
  {
    FinalAt(ys, i);
    var base, infos, k := MetaBase(ys), DirInfos(ys), Rank(Linked(ys), i);
    assert DirStored(was, base, infos, k);
    DirOffsetMonotone(base, infos, 0, k);
    StoredBehind(was, buf, SlotAt(Sizes(ys), |ys|), DirStart(ys, i), PackedDir(infos[k]).value);
  }

  /** The root directory's data follow the slots, so there are 64 bytes at every slot. */
  lemma WindowInBounds(ys: seq<InodeInfo>, buf: seq<byte>, i: nat)
    requires InRange(ys) && i < |ys| && ys[0].data.Directory?
    requires DirsStored(buf, MetaBase(ys), DirInfos(ys), |DirInfos(ys)|)
    ensures SlotAt(Sizes(ys), i) + 64 <= |buf|
  {
    FinalAt(ys, 0);
    var base, infos := MetaBase(ys), DirInfos(ys);
    assert Rank(Linked(ys), 0) == 0;
    assert DirStored(buf, base, infos, 0);
    DirSizeAligned(infos[0]);
    DirOffsetMonotone(base, infos, 1, |infos|);
    assert DirOffset(base, infos, 1) == DirOffset(base, infos, 0) + DirSize(infos[0]);
    SlotsOrdered(Sizes(ys), i, |ys|);
  }

  lemma InodeHolds(ys: seq<InodeInfo>, buf: seq<byte>, block0: seq<byte>, epoch: nat, chunkbits: nat, i: nat)
    requires InRange(ys) && i < |ys| && |block0| == 4096
    requires WriteArgs(Final(ys), epoch, chunkbits)
    requires SlotStored(buf, Sizes(ys), AllBytes(Final(ys), epoch, chunkbits), i)
    ensures InodeInImage(block0 + buf, Final(ys), epoch, chunkbits, i)
  {
    hide Final, Linked, AllBytes, SlotAt, StoredAt, InodeBytes, Sizes;
    var x, at := Final(ys)[i], SlotAt(Sizes(ys), i);
    assert x.nid * 32 == at by {
      FinalSame(ys, i);
    }
    var d := AllBytes(Final(ys), epoch, chunkbits)[i];
    StoredAfter(block0, buf, at, d);
    assert d == InodeBytes(x, epoch, chunkbits);
  }

  /** The slot of the first inode fills a block at least. */
  lemma OneBlock(ys: seq<InodeInfo>, buf: seq<byte>)
    requires InRange(ys) && |ys| > 0 && |buf| % 4096 == 0
    requires DirsStored(buf, MetaBase(ys), DirInfos(ys), |DirInfos(ys)|)
    ensures |buf| >= EROFS_BLOCK_SIZE
  {
    hide DirsStored, DirInfos;
    SlotsOrdered(Sizes(ys), 0, |ys|);
    SlotsBelow(ys, buf);
    SomeBlock(SlotAt(Sizes(ys), |ys|), |buf|);
  }

  lemma SomeBlock(slots: nat, size: nat)
    requires 0 < slots <= size && size % 4096 == 0
    ensures size >= EROFS_BLOCK_SIZE
  {
  }

  lemma NidsAscend(ys: seq<InodeInfo>, i: nat, j: nat)
    requires InRange(ys) && i < j < |ys|
    ensures Final(ys)[i].nid < Final(ys)[j].nid
  {
    FinalSame(ys, i);
    FinalSame(ys, j);
    SlotsOrdered(Sizes(ys), i, j);
  }

  /** The buffer after phases 2b (`was`) and 2c (`buf`). */
  ghost predicate LaidOut(ys: seq<InodeInfo>, was: seq<byte>, buf: seq<byte>, epoch: nat, chunkbits: nat)
    requires InRange(ys)
  {
    && Buildable(ys) && WriteArgs(Final(ys), epoch, chunkbits) && |buf| % 4096 == 0 && |buf| <= ISIZE_MAX
    && DirsStored(was, MetaBase(ys), DirInfos(ys), |DirInfos(ys)|)
    && SlotsStored(was, buf, Sizes(ys), AllBytes(Final(ys), epoch, chunkbits), |ys|)
  }

  /** The finished buffer behind block 0 holds the final inodes. */
  lemma BufferHolds(ys: seq<InodeInfo>, was: seq<byte>, buf: seq<byte>, f: Facts, blocks: nat, chunkbits: nat)
    requires InRange(ys) && LaidOut(ys, was, buf, f.epoch, chunkbits)
    requires |ys| > 0 && FactsTyped(f) && f.rootNid == 0
    ensures HoldsInodes(Block0(f, blocks) + buf, Final(ys), f, chunkbits)
  {
    var xs, block0 := Final(ys), Block0(f, blocks);
    FinalTree(ys);
    FinalSame(ys, 0);
    OneBlock(ys, was);
    assert block0 <= block0 + buf;
    forall i, j | 0 <= i < j < |xs| ensures xs[i].nid < xs[j].nid {
      NidsAscend(ys, i, j);
    }
    InodesHold(ys, was, buf, block0, f.epoch, chunkbits);
    DirsHold(ys, was, buf, block0);
  }

  lemma InodesHold(ys: seq<InodeInfo>, was: seq<byte>, buf: seq<byte>, block0: seq<byte>, epoch: nat, chunkbits: nat)
    requires InRange(ys) && WriteArgs(Final(ys), epoch, chunkbits) && |block0| == 4096
    requires SlotsStored(was, buf, Sizes(ys), AllBytes(Final(ys), epoch, chunkbits), |ys|)
    ensures forall i :: 0 <= i < |ys| ==> InodeInImage(block0 + buf, Final(ys), epoch, chunkbits, i)
  {
    forall i | 0 <= i < |ys| ensures InodeInImage(block0 + buf, Final(ys), epoch, chunkbits, i) {
      assert SlotStored(buf, Sizes(ys), AllBytes(Final(ys), epoch, chunkbits), i);
      InodeHolds(ys, buf, block0, epoch, chunkbits, i);
    }
  }

  lemma DirsHold(ys: seq<InodeInfo>, was: seq<byte>, buf: seq<byte>, block0: seq<byte>)
    requires InRange(ys) && InRange(Final(ys)) && |block0| == 4096
    requires DirsStored(was, MetaBase(ys), DirInfos(ys), |DirInfos(ys)|)
    requires |buf| == |was| >= SlotAt(Sizes(ys), |ys|)
    requires buf[SlotAt(Sizes(ys), |ys|)..] == was[SlotAt(Sizes(ys), |ys|)..]
    ensures forall i :: 0 <= i < |ys| && Final(ys)[i].data.Directory? ==> DirInImage(block0 + buf, Final(ys), i)
  {
    FinalTree(ys);
    forall i | 0 <= i < |ys| && Final(ys)[i].data.Directory? ensures DirInImage(block0 + buf, Final(ys), i) {
      assert SameInode(ys[i], Final(ys)[i]);
      DirHolds(ys, was, buf, block0, i);
    }
  }

  /** When the first inode is a directory, the buffer behind block 0 is an image. */
  lemma BufferIsImage(ys: seq<InodeInfo>, was: seq<byte>, buf: seq<byte>, f: Facts, blocks: nat, chunkbits: nat)
    requires InRange(ys) && LaidOut(ys, was, buf, f.epoch, chunkbits)
    requires |ys| > 0 && ys[0].data.Directory? && FactsTyped(f) && f.rootNid == 0
    ensures IsImage(Block0(f, blocks) + buf, Final(ys), f, chunkbits)
  {
    var xs, image := Final(ys), Block0(f, blocks) + buf;
    BufferHolds(ys, was, buf, f, blocks, chunkbits);
    FinalTree(ys);
    assert SameInode(ys[0], xs[0]);
    forall i | 0 <= i < |xs| ensures InWindow(image, xs[i].nid) {
      FinalSame(ys, i);
      WindowInBounds(ys, was, i);
    }
  }

  /** Phase 2a, the parent links, and the padding before the directory data. */
  method PlaceAndLink(inodes: array<InodeInfo>) returns (layout: MetadataLayout, dirStart: nat)
    requires inodes.Length > 0 && InRange(inodes[..])
    modifies inodes
    ensures fresh(layout) && layout.Valid() && inodes[..] == Linked(old(inodes[..]))
    ensures |layout.buf| == dirStart == MetaBase(old(inodes[..])) && dirStart % 4096 == 0
  {
    LinkedInRange(inodes[..]);
    layout := new MetadataLayout();
    AllocInodes(layout, inodes);
    SetParentNids(inodes);
    RoundUpsAligned(|layout.buf|);
    dirStart := layout.PadToBlock();
  }

  /** Phase 2 up to the finished metadata buffer. */
  method LayOut(inodes: array<InodeInfo>, epoch: nat, chunkbits: nat)
    returns (res: Result<seq<byte>>, ghost was: seq<byte>)
    requires inodes.Length > 0 && InRange(inodes[..]) && AllTyped(inodes[..])
    requires epoch < TWO_64 && EROFS_BLKSZBITS <= chunkbits < 32
    modifies inodes
    ensures res.Ok? <==> Buildable(old(inodes[..]))
    ensures res.Err? ==> res == Err(Panic)
    ensures res.Ok? ==> && inodes[..] == Final(old(inodes[..]))
                        && LaidOut(old(inodes[..]), was, res.value, epoch, chunkbits)
  {
    hide Final, Linked, LaidOut, DirsStored, DirInfos;
    ghost var ys := inodes[..];
    LinkedInRange(ys);
    var layout, dirStart := PlaceAndLink(inodes);
    was := [];
    if dirStart > ISIZE_MAX {
      return Err(Panic), was;
    }
    var placed := PlaceAll(layout, inodes, ys);
    if placed.Err? {
      return Err(placed.error), was;
    }
    was := layout.buf;
    WriteFinal(layout, inodes, ys, epoch, chunkbits);
    return Ok(layout.buf), was;
  }

  /** Phase 2b: gathers the directories and places them. */
  method PlaceAll(layout: MetadataLayout, inodes: array<InodeInfo>, ghost ys: seq<InodeInfo>) returns (res: Result<()>)
    requires InRange(ys) && |ys| == inodes.Length && InRange(Linked(ys)) && inodes[..] == Linked(ys)
    requires layout.Valid() && |layout.buf| == MetaBase(ys) <= ISIZE_MAX && MetaBase(ys) % 4096 == 0
    modifies layout, inodes
    ensures layout.Valid() && |layout.buf| % 4096 == 0
    ensures res.Ok? <==> Buildable(ys)
    ensures res.Ok? ==> && DirsStored(layout.buf, MetaBase(ys), DirInfos(ys), |DirInfos(ys)|)
                        && inodes[..] == Final(ys)
    ensures res.Err? ==> res == Err(Panic)
  {
    var infos := GatherDirs(inodes);
    assert infos == DirInfos(ys);
    res := PlaceDirs(layout, inodes, infos);
  }

  lemma SlotsBelow(ys: seq<InodeInfo>, buf: seq<byte>)
    requires InRange(ys) && DirsStored(buf, MetaBase(ys), DirInfos(ys), |DirInfos(ys)|)
    ensures SlotAt(Sizes(ys), |ys|) <= |buf|
  {
    DirOffsetMonotone(MetaBase(ys), DirInfos(ys), 0, |DirInfos(ys)|);
  }

  /** Phase 2c, once the directories are in place. */
  method WriteFinal(layout: MetadataLayout, inodes: array<InodeInfo>, ghost ys: seq<InodeInfo>, epoch: nat,
                    chunkbits: nat)
    requires InRange(ys) && Buildable(ys) && AllTyped(ys) && inodes[..] == Final(ys)
    requires epoch < TWO_64 && EROFS_BLKSZBITS <= chunkbits < 32
    requires layout.Valid() && |layout.buf| % 4096 == 0
    requires DirsStored(layout.buf, MetaBase(ys), DirInfos(ys), |DirInfos(ys)|)
    modifies layout`buf
    ensures layout.Valid() && LaidOut(ys, old(layout.buf), layout.buf, epoch, chunkbits)
  {
    FinalTree(ys);
    FinalTyped(ys);
    SlotsBelow(ys, layout.buf);
    WriteInodes(layout, inodes, epoch, chunkbits);
  }

  /**
   * The builder from inodes to image. It panics exactly when a name does not fit into a directory block
   * or the metadata into a buffer; otherwise the inodes keep their contents and the result holds them, and is an
   * image of them when the first one is a directory.
   */
  method BuildImage(inodes: array<InodeInfo>, epoch: nat, chunkbits: nat, blobBlocks: nat, uuid: seq<byte>)
    returns (res: Result<seq<byte>>)
    requires inodes.Length > 0 && InRange(inodes[..]) && AllTyped(inodes[..])
    requires epoch < TWO_64 && EROFS_BLKSZBITS <= chunkbits < 32
    requires blobBlocks < TWO_64 && |uuid| == 16 && inodes.Length < TWO_64
    modifies inodes
    ensures res.Ok? <==> Buildable(old(inodes[..]))
    ensures res.Ok? ==> SameTree(old(inodes[..]), inodes[..]) && inodes[..] == Final(old(inodes[..]))
    ensures res.Ok? ==> Written(res.value, inodes[..], Facts(0, inodes.Length, epoch, blobBlocks, uuid), chunkbits)
    ensures res.Ok? ==> |res.value| == EROFS_BLOCK_SIZE + MetaEnd(old(inodes[..]))
    ensures res.Err? ==> res == Err(Panic)
  {
    hide Final, Written, MetaEnd, LaidOut, Buildable;
    ghost var ys := inodes[..];
    ghost var was;
    var laidOut;
    laidOut, was := LayOut(inodes, epoch, chunkbits);
    if laidOut.Err? {
      return laidOut;
    }
    FinalTree(ys);
    FinalSame(ys, 0);
    var rootNid := inodes[0].nid;
    assert rootNid <= 0xFFFF;
    var image := Finish(laidOut.value, Facts(rootNid, inodes.Length, epoch, blobBlocks, uuid), ys, was, chunkbits);
    return Ok(image);
  }

  /** `image` holds the inodes `xs`, and is an image of them when the first one is a directory. */
  ghost predicate Written(image: seq<byte>, xs: seq<InodeInfo>, f: Facts, chunkbits: nat) {
    HoldsInodes(image, xs, f, chunkbits) && (xs[0].data.Directory? ==> IsImage(image, xs, f, chunkbits))
  }

  /** Phase 3: the image file. */
  method Finish(buf: seq<byte>, f: Facts, ghost ys: seq<InodeInfo>, ghost was: seq<byte>, ghost chunkbits: nat)
    returns (image: seq<byte>)
    requires InRange(ys) && LaidOut(ys, was, buf, f.epoch, chunkbits)
    requires |ys| > 0 && FactsTyped(f) && f.rootNid == 0
    ensures Written(image, Final(ys), f, chunkbits) && |image| == EROFS_BLOCK_SIZE + MetaEnd(ys)
  {
    image := WriteImage(buf, f);
    BytesAreImage(ys, was, buf, f, chunkbits);
  }

  lemma BytesAreImage(ys: seq<InodeInfo>, was: seq<byte>, buf: seq<byte>, f: Facts, chunkbits: nat)
    requires InRange(ys) && LaidOut(ys, was, buf, f.epoch, chunkbits)
    requires |ys| > 0 && FactsTyped(f) && f.rootNid == 0
    ensures Written(ImageBytes(f, buf), Final(ys), f, chunkbits)
    ensures |ImageBytes(f, buf)| == EROFS_BLOCK_SIZE + MetaEnd(ys)
  {
    var blocks := WholeImage(f, buf);
    BufferHolds(ys, was, buf, f, blocks, chunkbits);
    FinalTree(ys);
    assert SameInode(ys[0], Final(ys)[0]);
    if ys[0].data.Directory? {
      BufferIsImage(ys, was, buf, f, blocks, chunkbits);
    }
  }

  lemma WholeImage(f: Facts, buf: seq<byte>) returns (blocks: nat)
    requires FactsTyped(f) && |buf| % 4096 == 0
    ensures ImageBytes(f, buf) == Block0(f, blocks) + buf
  {
    blocks := 1 + RoundUpBlock(|buf|) / EROFS_BLOCK_SIZE;
    WholeBlocks(buf, 0);
  }
}
