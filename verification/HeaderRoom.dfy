/** Which source trees have headers with room for the sizes and places of their directories (src/bin/erofs-mkfs.rs). */
module HeaderRoom {
  import opened Bytes
  import opened Metadata
  import opened Layout
  import opened InodeBuild
  import opened BlobChunk
  import opened Wiring
  import opened Mkfs
  import opened Builder
  import opened InodeRead
  import opened SourceTree
  import opened TreeBuild
  import opened Capacity

  // ------------------------------------------------------------------
  // What a source tree asks of its headers
  // ------------------------------------------------------------------

  /** The bytes of directory data of a source directory. */
  function DirBytes(n: Node): nat
    requires n.body.DirBody?
  {
    EROFS_BLOCK_SIZE * BlocksFor(EntryLens(n.body.entries))
  }

  /** No directory with a 32-byte header has 4 GiB of data. */
  predicate DirsSmall(n: Node)
    decreases n
  {
    n.body.DirBody? ==>
      && (IsExtended(n.stat) || DirBytes(n) < TWO_32)
      && forall k :: 0 <= k < |n.body.entries| ==> DirsSmall(n.body.entries[k].node)
  }

  /** The bytes of the last directory of the tree, in the order of its inodes; 0 when there is none. */
  function LastBytes(n: Node): nat
    decreases n, 0
  {
    if !n.body.DirBody? then 0 else
    var last := EntriesLast(n, |n.body.entries|);
    if last != 0 then last else DirBytes(n)
  }

  function EntriesLast(n: Node, k: nat): nat
    requires n.body.DirBody? && k <= |n.body.entries|
    decreases n.body, k
  {
    if k == 0 then 0 else
    var last := LastBytes(n.body.entries[k - 1].node);
    if last != 0 then last else EntriesLast(n, k - 1)
  }

  /** The size of every directory and the start block of the last one fit their fields. */
  predicate HeadersFit(source: Node, cs: nat)
    requires cs > 0
  {
    DirsSmall(source)
    && (source.body.DirBody? ==> 1 + (MetaBytes(source, cs) - LastBytes(source)) / EROFS_BLOCK_SIZE < TWO_48)
  }

  // ------------------------------------------------------------------
  // The same for inode lists
  // ------------------------------------------------------------------

  predicate SmallFrom(xs: seq<InodeInfo>, lo: nat) {
    forall i :: lo <= i < |xs| && xs[i].data.Directory? ==> xs[i].isExtended || DirOf(xs[i]) < TWO_32
  }

  function LastOf(xs: seq<InodeInfo>): nat {
    if xs == [] then 0 else
    var last := DirOf(xs[|xs| - 1]);
    if last != 0 then last else LastOf(xs[..|xs| - 1])
  }

  lemma {:induction false} LastAppend(xs: seq<InodeInfo>, ys: seq<InodeInfo>)
    ensures LastOf(xs + ys) == if LastOf(ys) != 0 then LastOf(ys) else LastOf(xs)
  {
    if ys == [] {
      assert xs + ys == xs;
    } else {
      var zs, m := xs + ys, |ys| - 1;
      assert zs[..|zs| - 1] == xs + ys[..m] && zs[|zs| - 1] == ys[m];
      LastAppend(xs, ys[..m]);
    }
  }

  lemma LastOne(x: InodeInfo)
    ensures LastOf([x]) == DirOf(x)
  {
    assert [x][..0] == [];
  }

  /** What is known of the directories among the inodes behind `xs`. */
  ghost predicate DirsAre(xs: seq<InodeInfo>, ys: seq<InodeInfo>, small: bool, last: nat) {
    xs <= ys && (SmallFrom(ys, |xs|) <==> small) && LastOf(ys[|xs|..]) == last
  }

  lemma DirsNone(xs: seq<InodeInfo>)
    ensures DirsAre(xs, xs, true, 0)
  {
    assert xs[|xs|..] == [];
  }

  lemma DirsOne(xs: seq<InodeInfo>, x: InodeInfo)
    ensures DirsAre(xs, xs + [x], x.data.Directory? ==> x.isExtended || DirOf(x) < TWO_32, DirOf(x))
  {
    assert (xs + [x])[|xs|..] == [x];
    LastOne(x);
  }

  lemma DirsJoin(xs: seq<InodeInfo>, ys: seq<InodeInfo>, zs: seq<InodeInfo>, a: bool, b: bool, k: nat, l: nat)
    requires DirsAre(xs, ys, a, k) && DirsAre(ys, zs, b, l)
    ensures DirsAre(xs, zs, a && b, if l != 0 then l else k)
  {
    assert zs[|xs|..] == ys[|xs|..] + zs[|ys|..];
    LastAppend(ys[|xs|..], zs[|ys|..]);
    assert forall i :: 0 <= i < |ys| ==> zs[i] == ys[i];
  }

  /** Closing a directory exchanges the inode that was reserved for it. */
  lemma DirsClosed(xs: seq<InodeInfo>, os: seq<InodeInfo>, ts: seq<InodeInfo>, z: InodeInfo, small: bool, last: nat)
    requires |os| == |xs| + 1 && xs <= os && DirsAre(os, ts, small, last)
    ensures DirsAre(xs, ts[|xs| := z], (z.data.Directory? ==> z.isExtended || DirOf(z) < TWO_32) && small,
                    if last != 0 then last else DirOf(z))
  {
    var zs := ts[|xs| := z];
    DirsOne(xs, z);
    assert xs + [z] <= zs && zs[|os|..] == ts[|os|..];
    assert SmallFrom(zs, |os|) <==> SmallFrom(ts, |os|) by {
      assert forall i :: |os| <= i < |ts| ==> zs[i] == ts[i];
    }
    DirsJoin(xs, xs + [z], zs, z.data.Directory? ==> z.isExtended || DirOf(z) < TWO_32, small, DirOf(z), last);
  }

  // ------------------------------------------------------------------
  // The built inodes have the directories of the source tree
  // ------------------------------------------------------------------

  /** The first `k` entries have small directories, all the way down. */
  predicate EntriesSmall(n: Node, k: nat)
    requires n.body.DirBody? && k <= |n.body.entries|
  {
    forall j :: 0 <= j < k ==> DirsSmall(n.body.entries[j].node)
  }

  lemma {:induction false} NodeDirs(n: Node, s: Build, p: Params)
    requires Readable(n) && p.cs > 0
    ensures DirsAre(s.xs, NodeBuilt(n, s, p).xs, DirsSmall(n), LastBytes(n))
    decreases n, 0, 0
  {
    if n.body.DirBody? {
      EntriesDirs(n, |n.body.entries|, Opened(n, s), p);
      DirectoryDirs(n, s, p);
    } else {
      DirsOne(s.xs, LeafBuilt(n, NextIno(s), s, p).xs[|s.xs|]);
    }
  }

  lemma DirectoryDirs(n: Node, s: Build, p: Params)
    requires Readable(n) && p.cs > 0 && n.body.DirBody?
    requires DirsAre(Opened(n, s).xs, EntriesBuilt(n, |n.body.entries|, Opened(n, s), p).0.xs,
                     EntriesSmall(n, |n.body.entries|), EntriesLast(n, |n.body.entries|))
    ensures DirsAre(s.xs, NodeBuilt(n, s, p).xs, DirsSmall(n), LastBytes(n))
  {
    hide EntriesBuilt, EntriesLast, DirsAre, BlocksFor;
    var m, o := |n.body.entries|, Opened(n, s);
    var (t, cs) := EntriesBuilt(n, m, o, p);
    NamesOfEntries(n, m, o, p);
    var z := InodeOf(n, NextIno(s), Directory(cs, 0, 0, 0));
    assert ChildLens(cs) == EntryLens(n.body.entries);
    DirsClosed(s.xs, o.xs, t.xs, z, EntriesSmall(n, m), EntriesLast(n, m));
  }

  lemma {:induction false} EntriesDirs(n: Node, k: nat, s: Build, p: Params)
    requires Readable(n) && p.cs > 0 && n.body.DirBody? && k <= |n.body.entries|
    ensures DirsAre(s.xs, EntriesBuilt(n, k, s, p).0.xs, EntriesSmall(n, k), EntriesLast(n, k))
    decreases n.body, 1, k
  {
    if k == 0 {
      DirsNone(s.xs);
    } else {
      hide DirsAre, DirsSmall, EntryBuilt, LastBytes;
      var t := EntriesBuilt(n, k - 1, s, p).0;
      var e := n.body.entries[k - 1];
      EntriesDirs(n, k - 1, s, p);
      EntryDirs(e, t, p);
      DirsJoin(s.xs, t.xs, EntryBuilt(e, t, p).0.xs, EntriesSmall(n, k - 1), DirsSmall(e.node),
               EntriesLast(n, k - 1), LastBytes(e.node));
      assert EntriesSmall(n, k) <==> EntriesSmall(n, k - 1) && DirsSmall(e.node);
    }
  }

  lemma {:induction false} EntryDirs(e: NamedNode, s: Build, p: Params)
    requires Readable(e.node) && p.cs > 0
    ensures DirsAre(s.xs, EntryBuilt(e, s, p).0.xs, DirsSmall(e.node), LastBytes(e.node))
    decreases e, 0, 0
  {
    if MaybeShared(e.node) && KeyOf(e.node) in s.links {
      DirsNone(s.xs);
    } else {
      NodeDirs(e.node, s, p);
    }
  }

  // ------------------------------------------------------------------
  // Where the builder puts directories
  // ------------------------------------------------------------------

  lemma SomeData(x: InodeInfo)
    ensures x.data.Directory? <==> DirOf(x) > 0
  {
    if x.data.Directory? {
      var lens := ChildLens(x.data.children);
      assert LensCount(lens, 0, 0) >= 1;
      assert BlocksFor(lens) >= 1;
    }
  }

  lemma {:induction false} InfosPrefix(xs: seq<InodeInfo>, i: nat, m: nat)
    requires InRange(xs) && i <= m <= |xs|
    ensures Infos(xs, i) <= Infos(xs, m)
  {
    if i < m {
      InfosPrefix(xs, i, m - 1);
    }
  }

  /** A directory's data start behind the slots and the data of the directories before it. */
  lemma StartAt(ys: seq<InodeInfo>, i: nat)
    requires InRange(ys) && NamesFit(ys) && i < |ys|
    ensures DirStart(ys, i) == MetaBase(ys) + Total(DirOf, ys[..i])
  {
    var xs := Linked(ys);
    LinkedInRange(ys);
    forall j | 0 <= j < |ys|
      ensures DirOf(xs[j]) == DirOf(ys[j]) && Packable(xs, j)
    {
      LinkedDirs(ys, j);
    }
    DirsTotal(MetaBase(ys), xs, i, DirsEnd(MetaBase(ys), xs, i), Total(DirOf, xs[..i]));
    SameTotal(ys, xs, i);
    StartIsEnd(MetaBase(ys), xs, i);
  }

  lemma StartIsEnd(base: nat, xs: seq<InodeInfo>, i: nat)
    requires InRange(xs) && i < |xs|
    ensures Rank(xs, i) <= |Infos(xs, |xs|)|
    ensures DirOffset(base, Infos(xs, |xs|), Rank(xs, i)) == DirsEnd(base, xs, i)
  {
    InfosPrefix(xs, i, |xs|);
    var infos, all := Infos(xs, i), Infos(xs, |xs|);
    assert all == infos + all[|infos|..];
    OffsetPrefix(base, infos, all[|infos|..], |infos|);
  }

  lemma SizeAt(ys: seq<InodeInfo>, i: nat)
    requires InRange(ys) && NamesFit(ys) && i < |ys| && ys[i].data.Directory?
    ensures Final(ys)[i].size == DirOf(ys[i])
  {
    FinalEntries(ys, i);
    LinkedDirs(ys, i);
    DirSizeIs(Linked(ys), i);
  }

  /** What the header of directory `i` must hold. */
  lemma FitsAt(ys: seq<InodeInfo>, i: nat)
    requires InRange(ys) && NamesFit(ys) && i < |ys| && ys[i].data.Directory? && Sound(ys[i], |ys|)
    ensures Fits(Final(ys)[i]) <==>
              && (ys[i].isExtended || DirOf(ys[i]) < TWO_32)
              && 1 + (MetaBase(ys) + Total(DirOf, ys[..i])) / EROFS_BLOCK_SIZE < TWO_48
  {
    hide DirOf, Total, MetaBase, Final, DirStart, Linked, DirSize, PackedDir, Sizes, InfoOf;
    FinalTree(ys);
    assert SameInode(ys[i], Final(ys)[i]);
    FinalEntries(ys, i);
    SizeAt(ys, i);
    StartAt(ys, i);
  }

  lemma {:induction false} TotalMonotone(xs: seq<InodeInfo>, i: nat, m: nat)
    requires i <= m <= |xs|
    ensures Total(DirOf, xs[..i]) <= Total(DirOf, xs[..m])
  {
    if i < m {
      TotalMonotone(xs, i, m - 1);
      TotalLast(xs, m);
    }
  }

  lemma LastIs(xs: seq<InodeInfo>)
    requires xs != []
    ensures var n := |xs| - 1; Total(DirOf, xs) == Total(DirOf, xs[..n]) + DirOf(xs[n])
  {
    TotalLast(xs, |xs|);
    assert xs[..|xs|] == xs;
  }

  /** No directory starts behind the last one. */
  lemma {:induction false} StartsBefore(xs: seq<InodeInfo>, i: nat)
    requires i < |xs| && xs[i].data.Directory?
    ensures Total(DirOf, xs[..i]) + LastOf(xs) <= Total(DirOf, xs)
  {
    var n := |xs| - 1;
    LastIs(xs);
    SomeData(xs[n]);
    if DirOf(xs[n]) != 0 {
      TotalMonotone(xs, i, n);
    } else {
      StartsBefore(xs[..n], i);
      assert xs[..n][..i] == xs[..i];
    }
  }

  /** And the last one starts where the bytes of all the others end. */
  lemma {:induction false} LastStarts(xs: seq<InodeInfo>) returns (i: nat)
    requires LastOf(xs) != 0
    ensures i < |xs| && xs[i].data.Directory? && Total(DirOf, xs[..i]) + LastOf(xs) == Total(DirOf, xs)
  {
    var n := |xs| - 1;
    LastIs(xs);
    SomeData(xs[n]);
    if DirOf(xs[n]) != 0 {
      i := n;
    } else {
      i := LastStarts(xs[..n]);
      assert xs[..n][..i] == xs[..i];
    }
  }

  // ------------------------------------------------------------------
  // The exact condition
  // ------------------------------------------------------------------

  lemma LaterBlock(a: nat, b: nat)
    requires a <= b && 1 + b / EROFS_BLOCK_SIZE < TWO_48
    ensures 1 + a / EROFS_BLOCK_SIZE < TWO_48
  {
  }

  lemma AllFitList(ys: seq<InodeInfo>)
    requires InRange(ys) && NamesFit(ys) && forall i :: 0 <= i < |ys| ==> Sound(ys[i], |ys|)
    ensures (forall i :: 0 <= i < |ys| ==> Fits(Final(ys)[i])) <==>
              && SmallFrom(ys, 0)
              && (LastOf(ys) != 0 ==>
                    1 + (MetaBase(ys) + Total(DirOf, ys) - LastOf(ys)) / EROFS_BLOCK_SIZE < TWO_48)
  {
    hide DirOf, Total, MetaBase, Final, LastOf, Fits, Sound;
    if LastOf(ys) != 0 {
      var m := LastStarts(ys);
      FitsAt(ys, m);
    }
    forall i | 0 <= i < |ys|
      ensures Fits(Final(ys)[i]) ==> ys[i].data.Directory? ==> ys[i].isExtended || DirOf(ys[i]) < TWO_32
      ensures !ys[i].data.Directory? ==> Fits(Final(ys)[i])
      ensures ys[i].data.Directory? && (ys[i].isExtended || DirOf(ys[i]) < TWO_32)
              && (LastOf(ys) != 0 ==>
                    1 + (MetaBase(ys) + Total(DirOf, ys) - LastOf(ys)) / EROFS_BLOCK_SIZE < TWO_48)
              ==> Fits(Final(ys)[i])
    {
      if ys[i].data.Directory? {
        DirectoryFitsToo(ys, i);
      } else {
        OthersFit(ys, i);
      }
    }
  }

  lemma DirectoryFitsToo(ys: seq<InodeInfo>, i: nat)
    requires InRange(ys) && NamesFit(ys) && i < |ys| && ys[i].data.Directory? && Sound(ys[i], |ys|)
    ensures Fits(Final(ys)[i]) ==> ys[i].isExtended || DirOf(ys[i]) < TWO_32
    ensures LastOf(ys) != 0
    ensures && (ys[i].isExtended || DirOf(ys[i]) < TWO_32)
            && 1 + (MetaBase(ys) + Total(DirOf, ys) - LastOf(ys)) / EROFS_BLOCK_SIZE < TWO_48
            ==> Fits(Final(ys)[i])
  {
    hide DirOf, Total, MetaBase, Final, Fits, Sound;
    FitsAt(ys, i);
    StartsBefore(ys, i);
    LastThere(ys, i);
    var all := MetaBase(ys) + Total(DirOf, ys) - LastOf(ys);
    if 1 + all / EROFS_BLOCK_SIZE < TWO_48 {
      LaterBlock(MetaBase(ys) + Total(DirOf, ys[..i]), all);
    }
  }

  lemma {:induction false} LastThere(xs: seq<InodeInfo>, i: nat)
    requires i < |xs| && xs[i].data.Directory?
    ensures LastOf(xs) != 0
  {
    SomeData(xs[|xs| - 1]);
    if i < |xs| - 1 {
      LastThere(xs[..|xs| - 1], i);
    }
  }

  lemma OthersFit(ys: seq<InodeInfo>, i: nat)
    requires InRange(ys) && i < |ys| && !ys[i].data.Directory? && Sound(ys[i], |ys|)
    ensures Fits(Final(ys)[i])
  {
    FinalTree(ys);
    assert SameInode(ys[i], Final(ys)[i]);
  }

  /**
   * For every source tree without names that are too long: all headers can hold what the builder puts into them
   * exactly when no directory with a small header has 4 GiB of data and the last directory starts below block 2^48.
   */
  lemma HeadersExact(source: Node, p: Params)
    requires SourceOk(source) && FromOneHost(source) && Readable(source) && p.cs > 0 && NamesShort(source)
    ensures var ys := Tree(source, p).xs;
            InRange(ys) && ((forall i :: 0 <= i < |ys| ==> Fits(Final(ys)[i])) <==> HeadersFit(source, p.cs))
  {
    var ys := Tree(source, p).xs;
    TreeRepresents(source, p);
    SubtreeSound(ys);
    assert forall i :: 0 <= i < |ys| ==> Sound(ys[i], |ys|);
    NodeFits(source, START, p);
    assert START.links.Keys == {};
    NodeDirs(source, START, p);
    SourceNumbers(source, p, ys, NodeNeed(source, {}, p.cs));
    AllFitList(ys);
  }

  /** The numbers of the list are those worked out from the source tree. */
  lemma SourceNumbers(source: Node, p: Params, ys: seq<InodeInfo>, need: Need)
    requires p.cs > 0 && need == NodeNeed(source, {}, p.cs) && Needs([], ys, need)
    requires DirsAre([], ys, DirsSmall(source), LastBytes(source))
    ensures MetaBase(ys) + Total(DirOf, ys) == MetaBytes(source, p.cs)
    ensures (SmallFrom(ys, 0) <==> DirsSmall(source)) && LastOf(ys) == LastBytes(source)
    ensures LastBytes(source) != 0 <==> source.body.DirBody?
  {
    assert ys[0..] == ys && ys[..|ys|] == ys;
    SlotsTotal(ys, |ys|);
    if source.body.DirBody? {
      FirstFits(EntryLens(source.body.entries));
    }
  }

  lemma FirstFits(lens: seq<nat>)
    requires |lens| > 0 && lens[0] == 1
    ensures BlocksFor(lens) >= 1
  {
    assert LensCount(lens, 0, 0) >= 1;
  }
}
