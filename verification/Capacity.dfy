/** How much room the metadata of a source tree take, worked out from the tree alone (src/bin/erofs-mkfs.rs). */
module Capacity {
  import opened Bytes
  import opened Metadata
  import opened Inodes
  import opened Dirents
  import opened DirBlocks
  import opened InodeBuild
  import opened BlobChunk
  import opened Wiring
  import opened Mkfs
  import opened Builder
  import opened TreeRead
  import opened SourceTree
  import opened TreeBuild

  // ------------------------------------------------------------------
  // What a source tree needs
  // ------------------------------------------------------------------

  /** No name in the tree is longer than a directory block can hold. */
  predicate NamesShort(n: Node)
    decreases n
  {
    n.body.DirBody? ==> forall k :: 0 <= k < |n.body.entries| ==>
      |n.body.entries[k].name| <= MAX_NAME && NamesShort(n.body.entries[k].node)
  }

  /** How many of the name lengths from `n` on fit into a block that holds `n` names of `names` bytes in all. */
  function LensCount(lens: seq<nat>, n: nat, names: nat): (m: nat)
    requires n <= |lens|
    ensures n <= m <= |lens|
    decreases |lens| - n
  {
    if n < |lens| && (n + 1) * EROFS_DIRENT_SIZE + names + lens[n] <= EROFS_BLOCK_SIZE
    then LensCount(lens, n + 1, names + lens[n])
    else n
  }

  /** The number of directory blocks that names of the given lengths fill. */
  function BlocksFor(lens: seq<nat>): nat
    decreases |lens|
  {
    var n := LensCount(lens, 0, 0);
    if n == 0 then 0 else 1 + BlocksFor(lens[n..])
  }

  /** The metadata of an inode: header, xattr body, and 8 bytes per chunk or the symlink target. */
  function NodeMeta(n: Node, cs: nat): nat
    requires cs > 0
  {
    HeaderSizeOf(IsExtended(n.stat)) + IbodySize(KeptXattrs(n.xattrs))
    + match n.body
      case FileBody(_) => DivCeil(n.stat.size, cs) * EROFS_CHUNK_INDEX_SIZE
      case LinkBody(target) => |target|
      case _ => 0
  }

  function EntryLens(es: seq<NamedNode>): (r: seq<nat>)
    ensures |r| == |es| + 2
  {
    [1, 2] + seq(|es|, k requires 0 <= k < |es| => |es[k].name|)
  }

  /** Inodes, bytes of inode slots, bytes of directory data, and the files with several links met so far. */
  datatype Need = Need(inodes: nat, slots: nat, dirs: nat, seen: set<HostKey>)

  function Plus(a: Need, b: Need): Need {
    Need(a.inodes + b.inodes, a.slots + b.slots, a.dirs + b.dirs, b.seen)
  }

  function NodeNeed(n: Node, seen: set<HostKey>, cs: nat): Need
    requires cs > 0
    decreases n, 0, 0
  {
    var slot := RoundUpSlot(NodeMeta(n, cs));
    if n.body.DirBody? then
      Plus(Need(1, slot, EROFS_BLOCK_SIZE * BlocksFor(EntryLens(n.body.entries)), seen),
           EntriesNeed(n, |n.body.entries|, seen, cs))
    else Need(1, slot, 0, seen)
  }

  function EntriesNeed(n: Node, k: nat, seen: set<HostKey>, cs: nat): Need
    requires cs > 0 && n.body.DirBody? && k <= |n.body.entries|
    decreases n.body, 1, k
  {
    if k == 0 then Need(0, 0, 0, seen) else
    var a := EntriesNeed(n, k - 1, seen, cs);
    Plus(a, EntryNeed(n.body.entries[k - 1], a.seen, cs))
  }

  /** A further name of a file that has been met needs no inode. */
  function EntryNeed(e: NamedNode, seen: set<HostKey>, cs: nat): Need
    requires cs > 0
    decreases e, 0, 0
  {
    if MaybeShared(e.node) && KeyOf(e.node) in seen then Need(0, 0, 0, seen) else
    var a := NodeNeed(e.node, seen, cs);
    if MaybeShared(e.node) then a.(seen := a.seen + {KeyOf(e.node)}) else a
  }

  /** The bytes behind block 0 of the image: all slots, rounded up to a block, and all directory data. */
  function MetaBytes(source: Node, cs: nat): nat
    requires cs > 0
  {
    var need := NodeNeed(source, {}, cs);
    RoundUpBlock(need.slots) + need.dirs
  }

  /** An empty directory without xattrs takes one block for its slot and one for "." and "..". */
  lemma EmptyTree(source: Node, cs: nat)
    requires cs > 0 && source.body == DirBody([]) && source.xattrs == []
    ensures NamesShort(source) && MetaBytes(source, cs) == 2 * EROFS_BLOCK_SIZE
  {
    var lens := EntryLens([]);
    assert lens == [1, 2];
    assert LensCount(lens, 2, 3) == 2 && LensCount(lens, 1, 1) == 2 && LensCount(lens, 0, 0) == 2;
    assert lens[2..] == [] && BlocksFor([]) == 0 && BlocksFor(lens) == 1;
    var slot := RoundUpSlot(NodeMeta(source, cs));
    assert slot == NodeMeta(source, cs) <= 64 && slot > 0;
    assert NodeNeed(source, {}, cs) == Need(1, slot, EROFS_BLOCK_SIZE, {});
  }

  // ------------------------------------------------------------------
  // Sums over inode lists
  // ------------------------------------------------------------------

  function SlotOf(x: InodeInfo): nat {
    RoundUpSlot(MetaSize(x))
  }

  function ChildLens(es: seq<DirEntry>): (r: seq<nat>)
    ensures |r| == |es| + 2
  {
    [1, 2] + seq(|es|, k requires 0 <= k < |es| => |es[k].name|)
  }

  function DirOf(x: InodeInfo): nat {
    if x.data.Directory? then EROFS_BLOCK_SIZE * BlocksFor(ChildLens(x.data.children)) else 0
  }

  function Total(w: InodeInfo -> nat, xs: seq<InodeInfo>): nat {
    if xs == [] then 0 else w(xs[0]) + Total(w, xs[1..])
  }

  lemma {:induction false} TotalAppend(w: InodeInfo -> nat, xs: seq<InodeInfo>, ys: seq<InodeInfo>)
    ensures Total(w, xs + ys) == Total(w, xs) + Total(w, ys)
  {
    if xs == [] {
      assert xs + ys == ys;
    } else {
      TotalAppend(w, xs[1..], ys);
      assert (xs + ys)[1..] == xs[1..] + ys && (xs + ys)[0] == xs[0];
    }
  }

  lemma TotalOne(w: InodeInfo -> nat, x: InodeInfo)
    ensures Total(w, [x]) == w(x)
  {
    assert [x][1..] == [];
  }

  /** The inodes of `ys` behind those of `xs` are the ones that `need` counts. */
  ghost predicate Needs(xs: seq<InodeInfo>, ys: seq<InodeInfo>, need: Need) {
    && |xs| + need.inodes == |ys|
    && Total(SlotOf, ys[|xs|..]) == need.slots && Total(DirOf, ys[|xs|..]) == need.dirs
  }

  lemma NeedsPlus(xs: seq<InodeInfo>, ys: seq<InodeInfo>, zs: seq<InodeInfo>, a: Need, b: Need)
    requires Needs(xs, ys, a) && Needs(ys, zs, b) && ys <= zs
    ensures Needs(xs, zs, Plus(a, b))
  {
    assert zs[|xs|..] == ys[|xs|..] + zs[|ys|..];
    TotalAppend(SlotOf, ys[|xs|..], zs[|ys|..]);
    TotalAppend(DirOf, ys[|xs|..], zs[|ys|..]);
  }

  lemma NeedsNothing(xs: seq<InodeInfo>, seen: set<HostKey>)
    ensures Needs(xs, xs, Need(0, 0, 0, seen))
  {
    assert xs[|xs|..] == [];
  }

  lemma NeedsOne(xs: seq<InodeInfo>, x: InodeInfo, seen: set<HostKey>)
    ensures Needs(xs, xs + [x], Need(1, SlotOf(x), DirOf(x), seen))
  {
    assert (xs + [x])[|xs|..] == [x];
    TotalOne(SlotOf, x);
    TotalOne(DirOf, x);
  }

  /** The names of the directories among the last inodes of a list all fit a block. */
  predicate NamesFitFrom(xs: seq<InodeInfo>, lo: nat) {
    forall i, k :: lo <= i < |xs| && xs[i].data.Directory? && 0 <= k < |xs[i].data.children| ==>
      |xs[i].data.children[k].name| <= MAX_NAME
  }

  // ------------------------------------------------------------------
  // The built inodes need what the source tree says
  // ------------------------------------------------------------------

  lemma NamesOfEntries(n: Node, k: nat, s: Build, p: Params)
    requires Readable(n) && p.cs > 0 && n.body.DirBody? && k <= |n.body.entries|
    ensures forall j :: 0 <= j < k ==> EntriesBuilt(n, k, s, p).1[j].name == n.body.entries[j].name
    decreases k
  {
    if k > 0 {
      NamesOfEntries(n, k - 1, s, p);
    }
  }

  /** Everything that is known of the inodes built for a file. */
  ghost predicate Fitting(xs: seq<InodeInfo>, t: Build, need: Need, short: bool) {
    && xs <= t.xs && Needs(xs, t.xs, need) && t.links.Keys == need.seen
    && (NamesFitFrom(t.xs, |xs|) <==> short)
  }

  lemma {:induction false} NodeFits(n: Node, s: Build, p: Params)
    requires Readable(n) && p.cs > 0
    ensures Fitting(s.xs, NodeBuilt(n, s, p), NodeNeed(n, s.links.Keys, p.cs), NamesShort(n))
    decreases n, 0, 0
  {
    if n.body.DirBody? {
      EntriesFit(n, |n.body.entries|, Opened(n, s), p);
      DirectoryFits(n, s, p);
    } else {
      var x := LeafBuilt(n, NextIno(s), s, p).xs[|s.xs|];
      NeedsOne(s.xs, x, s.links.Keys);
      assert MetaSize(x) == NodeMeta(n, p.cs);
    }
  }

  lemma DirectoryFits(n: Node, s: Build, p: Params)
    requires Readable(n) && p.cs > 0 && n.body.DirBody?
    requires Fitting(Opened(n, s).xs, EntriesBuilt(n, |n.body.entries|, Opened(n, s), p).0,
                     EntriesNeed(n, |n.body.entries|, s.links.Keys, p.cs), EntriesShort(n, |n.body.entries|))
    ensures Fitting(s.xs, NodeBuilt(n, s, p), NodeNeed(n, s.links.Keys, p.cs), NamesShort(n))
  {
    var m, o := |n.body.entries|, Opened(n, s);
    var (t, cs) := EntriesBuilt(n, m, o, p);
    NamesOfEntries(n, m, o, p);
    DirectoryNeeds(n, NextIno(s), s, o, t, cs, EntriesNeed(n, m, s.links.Keys, p.cs), p.cs);
  }

  lemma DirectoryNeeds(n: Node, ino: nat, s: Build, o: Build, t: Build, cs: seq<DirEntry>, need: Need, size: nat)
    requires n.body.DirBody? && size > 0 && |cs| == |n.body.entries|
    requires forall j :: 0 <= j < |cs| ==> cs[j].name == n.body.entries[j].name
    requires o.xs == s.xs + [InodeOf(n, ino, Directory([], 0, 0, 0))]
    requires Fitting(o.xs, t, need, EntriesShort(n, |n.body.entries|))
    ensures Fitting(s.xs, Closed(n, ino, |s.xs|, t, cs),
                    Plus(Need(1, RoundUpSlot(NodeMeta(n, size)),
                              EROFS_BLOCK_SIZE * BlocksFor(EntryLens(n.body.entries)), s.links.Keys), need),
                    NamesShort(n))
  {
    hide Total, BlocksFor, NamesShort, NamesFitFrom, IbodySize, KeptXattrs, Needs;
    var z := InodeOf(n, ino, Directory(cs, 0, 0, 0));
    assert ChildLens(cs) == EntryLens(n.body.entries);
    NeedsClosed(s.xs, o.xs, t.xs, z, need, s.links.Keys);
    NamesOfDirectory(n, t.xs, |s.xs|, z);
  }

  /** Closing a directory exchanges the inode that was reserved for it. */
  lemma NeedsClosed(xs: seq<InodeInfo>, os: seq<InodeInfo>, ts: seq<InodeInfo>, z: InodeInfo, need: Need,
                    seen: set<HostKey>)
    requires |os| == |xs| + 1 && xs <= os <= ts && Needs(os, ts, need)
    ensures xs <= ts[|xs| := z] && Needs(xs, ts[|xs| := z], Plus(Need(1, SlotOf(z), DirOf(z), seen), need))
  {
    var zs := ts[|xs| := z];
    NeedsOne(xs, z, seen);
    assert zs[|os|..] == ts[|os|..];
    assert xs + [z] <= zs;
    NeedsPlus(xs, xs + [z], zs, Need(1, SlotOf(z), DirOf(z), seen), need);
  }

  /** The first `k` entries have short names, all the way down. */
  predicate EntriesShort(n: Node, k: nat)
    requires n.body.DirBody? && k <= |n.body.entries|
  {
    forall j :: 0 <= j < k ==> NamesShort(n.body.entries[j].node)
  }

  lemma NamesOfDirectory(n: Node, xs: seq<InodeInfo>, idx: nat, z: InodeInfo)
    requires n.body.DirBody? && idx < |xs| && z.data.Directory? && |z.data.children| == |n.body.entries|
    requires forall k :: 0 <= k < |n.body.entries| ==> z.data.children[k].name == n.body.entries[k].name
    requires NamesFitFrom(xs, idx + 1) <==> EntriesShort(n, |n.body.entries|)
    ensures NamesFitFrom(xs[idx := z], idx) <==> NamesShort(n)
  {
    var zs := xs[idx := z];
    assert NamesFitFrom(zs, idx + 1) <==> NamesFitFrom(xs, idx + 1) by {
      assert forall i :: idx + 1 <= i < |xs| ==> zs[i] == xs[i];
    }
    if NamesFitFrom(zs, idx) {
      forall k | 0 <= k < |z.data.children| ensures |z.data.children[k].name| <= MAX_NAME {
        assert zs[idx].data.children[k] == z.data.children[k];
      }
    }
    assert NamesShort(n) <==>
      EntriesShort(n, |n.body.entries|)
      && forall k :: 0 <= k < |n.body.entries| ==> |n.body.entries[k].name| <= MAX_NAME;
  }

  lemma {:induction false} EntriesFit(n: Node, k: nat, s: Build, p: Params)
    requires Readable(n) && p.cs > 0 && n.body.DirBody? && k <= |n.body.entries|
    ensures Fitting(s.xs, EntriesBuilt(n, k, s, p).0, EntriesNeed(n, k, s.links.Keys, p.cs), EntriesShort(n, k))
    decreases n.body, 1, k
  {
    hide Total;
    if k == 0 {
      NeedsNothing(s.xs, s.links.Keys);
    } else {
      var t := EntriesBuilt(n, k - 1, s, p).0;
      var e := n.body.entries[k - 1];
      var a := EntriesNeed(n, k - 1, s.links.Keys, p.cs);
      EntriesFit(n, k - 1, s, p);
      EntryFits(e, t, p);
      var u := EntryBuilt(e, t, p).0;
      NeedsPlus(s.xs, t.xs, u.xs, a, EntryNeed(e, a.seen, p.cs));
      NamesJoin(s.xs, t.xs, u.xs);
    }
  }

  lemma NamesJoin(xs: seq<InodeInfo>, ys: seq<InodeInfo>, zs: seq<InodeInfo>)
    requires xs <= ys <= zs
    ensures NamesFitFrom(zs, |xs|) <==> NamesFitFrom(ys, |xs|) && NamesFitFrom(zs, |ys|)
  {
    assert forall i :: 0 <= i < |ys| ==> zs[i] == ys[i];
  }

  lemma {:induction false} EntryFits(e: NamedNode, s: Build, p: Params)
    requires Readable(e.node) && p.cs > 0
    ensures Fitting(s.xs, EntryBuilt(e, s, p).0, EntryNeed(e, s.links.Keys, p.cs), NamesShort(e.node))
    decreases e, 0, 0
  {
    if MaybeShared(e.node) && KeyOf(e.node) in s.links {
      NeedsNothing(s.xs, s.links.Keys);
    } else {
      NodeFits(e.node, s, p);
    }
  }

  // ------------------------------------------------------------------
  // The builder's own accounting
  // ------------------------------------------------------------------

  lemma {:induction false} SlotsTotal(xs: seq<InodeInfo>, m: nat)
    requires m <= |xs|
    ensures SlotAt(Sizes(xs), m) == Total(SlotOf, xs[..m]) && 32 * m <= SlotAt(Sizes(xs), m)
  {
    if m > 0 {
      SlotsTotal(xs, m - 1);
      assert xs[..m] == xs[..m - 1] + [xs[m - 1]];
      TotalAppend(SlotOf, xs[..m - 1], [xs[m - 1]]);
      TotalOne(SlotOf, xs[m - 1]);
    } else {
      assert xs[..0] == [];
    }
  }

  function Lens(es: seq<Entry>): (r: seq<nat>)
    ensures |r| == |es| && forall k :: 0 <= k < |es| ==> r[k] == |es[k].name|
  {
    seq(|es|, k requires 0 <= k < |es| => |es[k].name|)
  }

  lemma {:induction false} SameGreedy(es: seq<Entry>, n: nat, names: nat)
    requires n <= |es|
    ensures LensCount(Lens(es), n, names) == GreedyCount(es, n, names)
    decreases |es| - n
  {
    if n < |es| && (n + 1) * EROFS_DIRENT_SIZE + names + |es[n].name| <= EROFS_BLOCK_SIZE {
      SameGreedy(es, n + 1, names + |es[n].name|);
    }
  }

  lemma FirstBlock(es: seq<Entry>)
    requires es != [] && Pack(es).Ok?
    ensures var n := NextCount(es);
            n > 0 && Pack(es[n..]).Ok? && |Pack(es).value| == EROFS_BLOCK_SIZE + |Pack(es[n..]).value|
  {
    var n := NextCount(es);
    assert |Pack(es).value| == |Block(es[..n]) + Pack(es[n..]).value|;
  }

  lemma FirstLens(es: seq<Entry>)
    ensures var n := NextCount(es);
            BlocksFor(Lens(es)) == if n == 0 then 0 else 1 + BlocksFor(Lens(es[n..]))
  {
    var n := NextCount(es);
    SameGreedy(es, 0, 0);
    assert Lens(es)[n..] == Lens(es[n..]);
  }

  /** Packed entries take as many blocks as their name lengths say. */
  lemma {:induction false} PackedBlocks(es: seq<Entry>)
    requires Pack(es).Ok?
    ensures |Pack(es).value| == EROFS_BLOCK_SIZE * BlocksFor(Lens(es))
    decreases |es|
  {
    FirstLens(es);
    if es != [] {
      FirstBlock(es);
      PackedBlocks(es[NextCount(es)..]);
    }
  }

  lemma LensOfDir(es: seq<DirEntry>, cs: seq<DirChild>, selfNid: nat, parentNid: nat)
    requires |cs| == |es| && forall k :: 0 <= k < |es| ==> cs[k].name == es[k].name
    ensures Lens(DirEntries(cs, selfNid, parentNid)) == ChildLens(es)
  {
    var ch := ChildEntries(cs);
    var all := DirEntries(cs, selfNid, parentNid);
    forall k | 0 <= k < |all| ensures |all[k].name| == ChildLens(es)[k] {
      if k >= 2 {
        assert all[k] == ch[k - 2];
      }
    }
  }

  lemma DirSizeIs(xs: seq<InodeInfo>, i: nat)
    requires InRange(xs) && i < |xs| && xs[i].data.Directory? && PackedDir(InfoOf(xs, i)).Ok?
    ensures DirSize(InfoOf(xs, i)) == DirOf(xs[i])
  {
    var info := InfoOf(xs, i);
    LensOfDir(xs[i].data.children, info.children, info.selfNid, info.parentNid);
    PackedBlocks(DirEntries(info.children, info.selfNid, info.parentNid));
  }

  lemma {:induction false} OffsetPrefix(base: nat, infos: seq<DirInfo>, more: seq<DirInfo>, k: nat)
    requires k <= |infos|
    ensures DirOffset(base, infos + more, k) == DirOffset(base, infos, k)
  {
    if k > 0 {
      OffsetPrefix(base, infos, more, k - 1);
    }
  }

  /** Where the directory data of the first `m` inodes end. */
  function DirsEnd(base: nat, xs: seq<InodeInfo>, m: nat): nat
    requires InRange(xs) && m <= |xs|
  {
    DirOffset(base, Infos(xs, m), |Infos(xs, m)|)
  }

  lemma OneMoreDir(base: nat, xs: seq<InodeInfo>, m: nat)
    requires InRange(xs) && m < |xs|
    requires xs[m].data.Directory? ==> PackedDir(InfoOf(xs, m)).Ok?
    ensures DirsEnd(base, xs, m + 1) == DirsEnd(base, xs, m) + DirOf(xs[m])
  {
    if xs[m].data.Directory? {
      var infos, last := Infos(xs, m), InfoOf(xs, m);
      DirSizeIs(xs, m);
      OffsetPrefix(base, infos, [last], |infos|);
      OffsetLast(base, infos, last);
      assert Infos(xs, m + 1) == infos + [last];
    }
  }

  lemma OffsetLast(base: nat, infos: seq<DirInfo>, last: DirInfo)
    ensures DirOffset(base, infos + [last], |infos| + 1) == DirOffset(base, infos + [last], |infos|) + DirSize(last)
  {
    assert (infos + [last])[|infos|] == last;
  }

  ghost predicate Packable(xs: seq<InodeInfo>, i: nat)
    requires InRange(xs) && i < |xs|
  {
    xs[i].data.Directory? ==> PackedDir(InfoOf(xs, i)).Ok?
  }

  lemma SameGrowth(base: nat, xs: seq<InodeInfo>, m: nat)
    requires InRange(xs) && 0 < m <= |xs| && Packable(xs, m - 1)
    ensures DirsEnd(base, xs, m) - DirsEnd(base, xs, m - 1) == Total(DirOf, xs[..m]) - Total(DirOf, xs[..m - 1])
  {
    OneMoreDir(base, xs, m - 1);
    TotalLast(xs, m);
  }

  lemma SameStart(base: nat, xs: seq<InodeInfo>)
    requires InRange(xs)
    ensures DirsEnd(base, xs, 0) == base + Total(DirOf, xs[..0])
  {
    assert xs[..0] == [];
  }

  /** The directory data of the first `m` inodes end where their sizes add up to. */
  lemma {:induction false} DirsTotal(base: nat, xs: seq<InodeInfo>, m: nat, end: nat, total: nat)
    requires InRange(xs) && m <= |xs| && forall i :: 0 <= i < m ==> Packable(xs, i)
    requires end == DirsEnd(base, xs, m) && total == Total(DirOf, xs[..m])
    ensures end == base + total
    decreases m
  {
    if m == 0 {
      SameStart(base, xs);
    } else {
      DirsTotal(base, xs, m - 1, DirsEnd(base, xs, m - 1), Total(DirOf, xs[..m - 1]));
      SameGrowth(base, xs, m);
    }
  }

  lemma {:induction false} SameTotal(ys: seq<InodeInfo>, xs: seq<InodeInfo>, m: nat)
    requires |xs| == |ys| && m <= |xs| && forall i :: 0 <= i < |xs| ==> DirOf(xs[i]) == DirOf(ys[i])
    ensures Total(DirOf, xs[..m]) == Total(DirOf, ys[..m])
  {
    if m == 0 {
      assert xs[..0] == ys[..0];
    } else {
      SameTotal(ys, xs, m - 1);
      TotalLast(xs, m);
      TotalLast(ys, m);
    }
  }

  lemma TotalLast(xs: seq<InodeInfo>, m: nat)
    requires 0 < m <= |xs|
    ensures Total(DirOf, xs[..m]) == Total(DirOf, xs[..m - 1]) + DirOf(xs[m - 1])
  {
    assert xs[..m] == xs[..m - 1] + [xs[m - 1]];
    TotalAppend(DirOf, xs[..m - 1], [xs[m - 1]]);
    TotalOne(DirOf, xs[m - 1]);
  }

  lemma LinkedDirs(ys: seq<InodeInfo>, i: nat)
    requires InRange(ys) && i < |ys|
    ensures DirOf(Linked(ys)[i]) == DirOf(ys[i])
    ensures NamesFit(ys) && Linked(ys)[i].data.Directory? ==>
              InRange(Linked(ys)) && PackedDir(InfoOf(Linked(ys), i)).Ok?
  {
    LinkedAt(ys, i);
    if NamesFit(ys) && ys[i].data.Directory? {
      SameNames(ys, i);
    }
  }

  /** Where the directory data end, when all names fit. */
  lemma DataEnd(ys: seq<InodeInfo>)
    requires InRange(ys) && NamesFit(ys)
    ensures MetaEnd(ys) == RoundUpBlock(Total(SlotOf, ys)) + Total(DirOf, ys)
  {
    var xs := Linked(ys);
    LinkedInRange(ys);
    forall i | 0 <= i < |ys|
      ensures DirOf(xs[i]) == DirOf(ys[i]) && Packable(xs, i)
    {
      LinkedDirs(ys, i);
    }
    DirsTotal(MetaBase(ys), xs, |xs|, MetaEnd(ys), Total(DirOf, xs[..|xs|]));
    SameTotal(ys, xs, |xs|);
    SlotsTotal(ys, |ys|);
    assert xs[..|xs|] == xs && ys[..|ys|] == ys;
  }

  /**
   * The second phase goes through for the inodes of a source tree exactly when no name of the tree is too
   * long and the bytes worked out from the tree fit into a buffer; and that many bytes the metadata take.
   */
  lemma TreeFits(source: Node, p: Params)
    requires Readable(source) && p.cs > 0 && InRange(Tree(source, p).xs)
    ensures var ys := Tree(source, p).xs;
            && |ys| == NodeNeed(source, {}, p.cs).inodes
            && (|ys| <= ISIZE_MAX && Buildable(ys) <==> NamesShort(source) && MetaBytes(source, p.cs) <= ISIZE_MAX)
            && (NamesShort(source) ==> MetaEnd(ys) == MetaBytes(source, p.cs))
  {
    NodeFits(source, START, p);
    assert START.links.Keys == {};
    InodesFit(Tree(source, p).xs, NodeNeed(source, {}, p.cs), NamesShort(source));
  }

  lemma InodesFit(ys: seq<InodeInfo>, need: Need, short: bool)
    requires InRange(ys) && Needs([], ys, need) && (NamesFitFrom(ys, 0) <==> short)
    ensures var bytes := RoundUpBlock(need.slots) + need.dirs;
            && |ys| == need.inodes
            && (|ys| <= ISIZE_MAX && Buildable(ys) <==> short && bytes <= ISIZE_MAX)
            && (short ==> MetaEnd(ys) == bytes)
  {
    assert ys[0..] == ys && ys[..|ys|] == ys;
    BuildableExact(ys);
    SlotsTotal(ys, |ys|);
    assert NamesFit(ys) <==> short;
    if NamesFit(ys) {
      DataEnd(ys);
    }
  }
}
