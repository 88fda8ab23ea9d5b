/** The tree that the reader sees in an image the builder wrote: lookups, paths and "..". */
module TreeRead {
  import opened Bytes
  import opened Metadata
  import opened Inodes
  import opened Layout
  import opened Dirents
  import opened DirBlocks
  import opened DirScan
  import opened InodeBuild
  import opened Wiring
  import opened Mkfs
  import opened Image
  import opened Builder
  import opened Reader
  import opened DirReader
  import opened Fuse
  import opened InodeRead

  /** The file names are what file systems allow: not empty, without NUL. */
  ghost predicate NamesOk(xs: seq<InodeInfo>) {
    forall i, k :: 0 <= i < |xs| && xs[i].data.Directory? && 0 <= k < |xs[i].data.children| ==>
      NameOk(xs[i].data.children[k].name)
  }

  predicate NameOk(name: seq<byte>) {
    name != [] && forall k :: 0 <= k < |name| ==> name[k] != 0
  }

  /** An opened image of the inodes `xs`, all of which fit their headers. */
  ghost predicate Mounted(r: ErofsReader, xs: seq<InodeInfo>, f: Facts, chunkbits: nat) {
    && IsImage(r.mmap, xs, f, chunkbits) && NamesOk(xs)
    && Blkszbits(r) == EROFS_BLKSZBITS && RootNid(r) == 0 && Epoch(r) == f.epoch && MetaBlkaddr(r) == 1
    && forall i :: 0 <= i < |xs| ==> Fits(xs[i])
  }

  /** Opening a written image mounts it. */
  lemma OpenMounts(image: seq<byte>, blob: Option<seq<byte>>, xs: seq<InodeInfo>, f: Facts, chunkbits: nat)
    requires IsImage(image, xs, f, chunkbits) && NamesOk(xs) && forall i :: 0 <= i < |xs| ==> Fits(xs[i])
    ensures Open(image, blob) == Ok(ReaderData(image, blob)) && HasSuperblock(image)
    ensures Mounted(ReaderData(image, blob), xs, f, chunkbits)
  {
    var blocks :| Block0(f, blocks) <= image;
    ImageOpens(f, blocks, image, blob);
  }

  // ------------------------------------------------------------------
  // Single inodes and directories
  // ------------------------------------------------------------------

  lemma NidOffset(r: ErofsReader, nid: nat)
    requires MetaBlkaddr(r) == 1 && EROFS_BLOCK_SIZE + nid * EROFS_SLOTSIZE < TWO_64
    ensures InodeOffset(r, nid) == EROFS_BLOCK_SIZE + nid * EROFS_SLOTSIZE && nid < TWO_64
  {
  }

  lemma InodePresent(r: ErofsReader, xs: seq<InodeInfo>, f: Facts, chunkbits: nat, i: nat)
    requires Mounted(r, xs, f, chunkbits) && i < |xs|
    ensures Args(xs[i], f.epoch, chunkbits) && Present(r, xs[i].nid, xs[i], f.epoch, chunkbits) && xs[i].nid < TWO_64
    ensures ReadInode(r, xs[i].nid) == Ok(ViewOf(xs[i], f.epoch, chunkbits))
  {
    hide InodeBytes, ReadInode, DirInImage, Block0, StoredAt;
    assert InodeBuild.Typed(xs[i]);
    assert InodeInImage(r.mmap, xs, f.epoch, chunkbits, i) && InWindow(r.mmap, xs[i].nid);
    PresentAt(r, xs[i].nid, xs[i], f.epoch, chunkbits);
    ReadInodeExact(r, xs[i].nid, xs[i], f.epoch, chunkbits);
  }

  lemma PresentAt(r: ErofsReader, nid: nat, x: InodeInfo, epoch: nat, chunkbits: nat)
    requires Args(x, epoch, chunkbits) && MetaBlkaddr(r) == 1 && InWindow(r.mmap, nid)
    requires StoredAt(r.mmap, EROFS_BLOCK_SIZE + nid * EROFS_SLOTSIZE, InodeBytes(x, epoch, chunkbits))
    ensures Present(r, nid, x, epoch, chunkbits) && nid < TWO_64
  {
    NidOffset(r, nid);
  }

  lemma EntryValid(r: ErofsReader, xs: seq<InodeInfo>, f: Facts, chunkbits: nat, i: nat, k: nat)
    requires Mounted(r, xs, f, chunkbits) && i < |xs| && xs[i].data.Directory? && k < |xs[i].data.children|
    ensures EntryOk(ChildEntries(ChildrenOf(xs, xs[i].data.children))[k])
  {
    var e := xs[i].data.children[k];
    assert NameOk(e.name);
    InodePresent(r, xs, f, chunkbits, e.inodeIdx);
  }

  lemma EntriesValid(r: ErofsReader, xs: seq<InodeInfo>, f: Facts, chunkbits: nat, i: nat)
    requires Mounted(r, xs, f, chunkbits) && i < |xs| && xs[i].data.Directory? && xs[i].data.parentNid < TWO_64
    ensures EntriesOk(EntriesOf(xs, i))
  {
    InodePresent(r, xs, f, chunkbits, i);
    var ch := ChildEntries(ChildrenOf(xs, xs[i].data.children));
    forall k | 0 <= k < |ch| ensures EntryOk(ch[k]) {
      EntryValid(r, xs, f, chunkbits, i, k);
    }
    FirstTwoOk(xs[i].nid, xs[i].data.parentNid, ch);
  }

  lemma FirstTwoOk(selfNid: nat, parentNid: nat, ch: seq<Entry>)
    requires selfNid < TWO_64 && parentNid < TWO_64 && EntriesOk(ch)
    ensures EntriesOk([Entry(selfNid, EROFS_FT_DIR, DOT), Entry(parentNid, EROFS_FT_DIR, DOTDOT)] + ch)
  {
    var es := [Entry(selfNid, EROFS_FT_DIR, DOT), Entry(parentNid, EROFS_FT_DIR, DOTDOT)] + ch;
    forall k | 0 <= k < |es| ensures EntryOk(es[k]) {
      assert k >= 2 ==> es[k] == ch[k - 2];
    }
  }

  lemma DirectoryData(r: ErofsReader, xs: seq<InodeInfo>, f: Facts, chunkbits: nat, i: nat)
    requires Mounted(r, xs, f, chunkbits) && i < |xs| && xs[i].data.Directory?
    ensures Args(xs[i], f.epoch, chunkbits) && Pack(EntriesOf(xs, i)).Ok?
    ensures var v, d := ViewOf(xs[i], f.epoch, chunkbits), Pack(EntriesOf(xs, i));
            Size(v) == |d.value| && DirData(r, xs[i].nid, v) == d
  {
    InodePresent(r, xs, f, chunkbits, i);
    assert DirInImage(r.mmap, xs, i);
    FlatDirectory(r, xs[i].nid, xs[i], f.epoch, chunkbits, Pack(EntriesOf(xs, i)).value);
  }

  lemma FlatDirectory(r: ErofsReader, nid: nat, x: InodeInfo, epoch: nat, chunkbits: nat, d: seq<byte>)
    requires Args(x, epoch, chunkbits) && Fits(x) && x.data.Directory?
    requires |d| == x.size && StoredAt(r.mmap, x.data.startblk * EROFS_BLOCK_SIZE, d)
    ensures Size(ViewOf(x, epoch, chunkbits)) == |d| && DirData(r, nid, ViewOf(x, epoch, chunkbits)) == Ok(d)
  {
    var v := ViewOf(x, epoch, chunkbits);
    LayoutRead(x, epoch, chunkbits);
    HighPart(x.data.startblk);
    FlatReadsRefineContent(r, nid, v, d, 0, |d|);
    assert d[0..|d|] == d;
  }

  lemma PackedScans(es: seq<Entry>)
    requires EntriesOk(es) && Pack(es).Ok?
    ensures ScanBlocks(Pack(es).value, 0, Never) == Scan(es, Finished)
    ensures es != [] ==> |Pack(es).value| > 0
  {
    var d := Pack(es).value;
    assert d[0..] == d;
    PackSize(es);
    PackRoundTrip(es, d, 0, Never);
    DeliverAll(es);
  }

  lemma {:induction false} DeliverAll(es: seq<Entry>)
    ensures Deliver(es, Never) == Scan(es, Finished)
  {
    if es != [] {
      DeliverAll(es[1..]);
    }
  }

  /** A directory lists as exactly the entries it was built from: itself, its parent, its children in order. */
  lemma DirectoryLists(r: ErofsReader, xs: seq<InodeInfo>, f: Facts, chunkbits: nat, i: nat)
    requires Mounted(r, xs, f, chunkbits) && i < |xs| && xs[i].data.Directory? && xs[i].data.parentNid < TWO_64
    ensures Args(xs[i], f.epoch, chunkbits)
    ensures Listing(r, xs[i].nid, ViewOf(xs[i], f.epoch, chunkbits)) == Ok(EntriesOf(xs, i))
  {
    DirectoryData(r, xs, f, chunkbits, i);
    EntriesValid(r, xs, f, chunkbits, i);
    PackedScans(EntriesOf(xs, i));
  }

  // ------------------------------------------------------------------
  // Lookups
  // ------------------------------------------------------------------

  /** The directory that contains directory `i`; the root contains itself. */
  function ParentIdx(xs: seq<InodeInfo>, i: nat): (p: nat)
    requires i < |xs|
    ensures p < |xs|
  {
    match LastContainer(xs, i, |xs|)
    case Some(j) => j
    case None => 0
  }

  /** Every ".." leads to the container. */
  ghost predicate ParentsRight(xs: seq<InodeInfo>) {
    forall i :: 0 <= i < |xs| && xs[i].data.Directory? ==> xs[i].data.parentNid == xs[ParentIdx(xs, i)].nid
  }

  function ChildNamed(es: seq<DirEntry>, name: seq<byte>): (c: Option<nat>)
    ensures c.Some? ==> exists k :: 0 <= k < |es| && es[k].name == name && es[k].inodeIdx == c.value
    ensures c.None? ==> forall k :: 0 <= k < |es| ==> es[k].name != name
  {
    if es == [] then None else if es[0].name == name then Some(es[0].inodeIdx) else ChildNamed(es[1..], name)
  }

  /** One step of a path in the tree of inodes. */
  function TreeStep(xs: seq<InodeInfo>, i: nat, name: seq<byte>): (c: Option<nat>)
    requires InRange(xs) && i < |xs| && xs[i].data.Directory?
    ensures c.Some? ==> c.value < |xs|
  {
    if name == DOT then Some(i)
    else if name == DOTDOT then Some(ParentIdx(xs, i))
    else ChildNamed(xs[i].data.children, name)
  }

  /** The first entry of the given name among the children is the entry of the first child of that name. */
  lemma {:induction false} FirstChild(xs: seq<InodeInfo>, es: seq<DirEntry>, name: seq<byte>)
    requires forall k :: 0 <= k < |es| ==> es[k].inodeIdx < |xs|
    ensures var e, c := FirstNamed(ChildEntries(ChildrenOf(xs, es)), name), ChildNamed(es, name);
            && (c.None? ==> e.None?)
            && (c.Some? ==> e.Some? && c.value < |xs| && e.value.nid == xs[c.value].nid)
  {
    if es != [] {
      var all, rest := ChildEntries(ChildrenOf(xs, es)), ChildEntries(ChildrenOf(xs, es[1..]));
      assert all[1..] == rest;
      FirstChild(xs, es[1..], name);
    }
  }

  lemma FirstOfThree(a: Entry, b: Entry, rest: seq<Entry>, name: seq<byte>)
    ensures FirstNamed([a, b] + rest, name)
            == if a.name == name then Some(a) else if b.name == name then Some(b) else FirstNamed(rest, name)
  {
    var all := [a, b] + rest;
    assert all[1..] == [b] + rest && all[1..][1..] == rest;
  }

  lemma EntryOfStep(xs: seq<InodeInfo>, i: nat, name: seq<byte>)
    requires InRange(xs) && ParentsRight(xs) && i < |xs| && xs[i].data.Directory?
    ensures var e, c := FirstNamed(EntriesOf(xs, i), name), TreeStep(xs, i, name);
            (c.None? ==> e.None?) && (c.Some? ==> e.Some? && e.value.nid == xs[c.value].nid)
  {
    var ch := xs[i].data.children;
    FirstChild(xs, ch, name);
    FirstOfThree(Entry(xs[i].nid, EROFS_FT_DIR, DOT), Entry(xs[i].data.parentNid, EROFS_FT_DIR, DOTDOT),
                 ChildEntries(ChildrenOf(xs, ch)), name);
  }

  /** The answer to a lookup that leads to inode `c`, or ENOENT. */
  ghost function StepReply(r: ErofsReader, xs: seq<InodeInfo>, f: Facts, chunkbits: nat,
                           c: Option<nat>): Result<LookupReply>
    requires Mounted(r, xs, f, chunkbits) && (c.Some? ==> c.value < |xs|)
  {
    match c
    case None => Err(Enoent)
    case Some(j) =>
      InodePresent(r, xs, f, chunkbits, j);
      Ok(LookupReply(ToIno(r, xs[j].nid), xs[j].nid, ViewOf(xs[j], f.epoch, chunkbits)))
  }

  /** In every directory and for every name, a lookup is one step in the tree of inodes. */
  lemma LookupIsStep(r: ErofsReader, xs: seq<InodeInfo>, f: Facts, chunkbits: nat, i: nat, name: seq<byte>)
    requires Mounted(r, xs, f, chunkbits) && ParentsRight(xs) && i < |xs| && xs[i].data.Directory?
    ensures ReadInode(r, xs[i].nid).Ok? && Listing(r, xs[i].nid, ReadInode(r, xs[i].nid).value).Ok?
    ensures LookupSpec(r, Listing(r, xs[i].nid, ReadInode(r, xs[i].nid).value).value, name)
            == StepReply(r, xs, f, chunkbits, TreeStep(xs, i, name))
  {
    InodePresent(r, xs, f, chunkbits, i);
    InodePresent(r, xs, f, chunkbits, ParentIdx(xs, i));
    DirectoryLists(r, xs, f, chunkbits, i);
    EntryOfStep(xs, i, name);
    var c := TreeStep(xs, i, name);
    if c.Some? {
      InodePresent(r, xs, f, chunkbits, c.value);
    }
  }

  // ------------------------------------------------------------------
  // Paths
  // ------------------------------------------------------------------

  /** Where a path leads from a directory: to an inode, nowhere, or through something that is no directory. */
  datatype Walked = Reached(idx: nat) | Missing | NotADirectory

  function Walk(xs: seq<InodeInfo>, i: nat, path: seq<seq<byte>>): (w: Walked)
    requires InRange(xs) && i < |xs|
    ensures w.Reached? ==> w.idx < |xs|
    decreases |path|
  {
    if path == [] then Reached(i)
    else if !xs[i].data.Directory? then NotADirectory
    else
      var c := TreeStep(xs, i, path[0]);
      if c.None? then Missing else Walk(xs, c.value, path[1..])
  }

  /** The inode behind which a path cannot go on, because it is no directory. */
  function Obstacle(xs: seq<InodeInfo>, i: nat, path: seq<seq<byte>>): (o: nat)
    requires InRange(xs) && i < |xs| && Walk(xs, i, path).NotADirectory?
    ensures o < |xs| && !xs[o].data.Directory?
    decreases |path|
  {
    if !xs[i].data.Directory? then i else Obstacle(xs, TreeStep(xs, i, path[0]).value, path[1..])
  }

  /** One more name at the end of a path. */
  lemma {:induction false} WalkLonger(xs: seq<InodeInfo>, i: nat, path: seq<seq<byte>>, name: seq<byte>)
    requires InRange(xs) && i < |xs| && Walk(xs, i, path).Reached?
    ensures var j := Walk(xs, i, path).idx;
            Walk(xs, i, path + [name]) ==
              if !xs[j].data.Directory? then NotADirectory
              else if TreeStep(xs, j, name).None? then Missing
              else Reached(TreeStep(xs, j, name).value)
    decreases |path|
  {
    if path == [] {
      assert path + [name] == [name] && [name][1..] == [];
    } else {
      assert (path + [name])[0] == path[0] && (path + [name])[1..] == path[1..] + [name];
      WalkLonger(xs, TreeStep(xs, i, path[0]).value, path[1..], name);
    }
  }

  /** The nid that a directory lists first under a name is the nid of the inode that the longer path leads to. */
  ghost predicate ListingLeads(es: seq<Entry>, xs: seq<InodeInfo>, path: seq<seq<byte>>)
    requires InRange(xs) && |xs| > 0
  {
    forall name :: match FirstNamed(es, name)
                   case None => Walk(xs, 0, path + [name]) == Missing
                   case Some(e) => && Walk(xs, 0, path + [name]).Reached?
                                   && e.nid == xs[Walk(xs, 0, path + [name]).idx].nid
  }

  /** In a mounted image every listing leads where lookups lead, "." and ".." included. */
  lemma ListingsLead(r: ErofsReader, xs: seq<InodeInfo>, f: Facts, chunkbits: nat, path: seq<seq<byte>>)
    requires Mounted(r, xs, f, chunkbits) && ParentsRight(xs)
    requires Walk(xs, 0, path).Reached? && xs[Walk(xs, 0, path).idx].data.Directory?
    ensures var nid := xs[Walk(xs, 0, path).idx].nid;
            && ReadInode(r, nid).Ok? && Listing(r, nid, ReadInode(r, nid).value).Ok?
            && ListingLeads(Listing(r, nid, ReadInode(r, nid).value).value, xs, path)
  {
    var i := Walk(xs, 0, path).idx;
    InodePresent(r, xs, f, chunkbits, i);
    InodePresent(r, xs, f, chunkbits, ParentIdx(xs, i));
    DirectoryLists(r, xs, f, chunkbits, i);
    forall name
      ensures match FirstNamed(EntriesOf(xs, i), name)
              case None => Walk(xs, 0, path + [name]) == Missing
              case Some(e) => && Walk(xs, 0, path + [name]).Reached?
                              && e.nid == xs[Walk(xs, 0, path + [name]).idx].nid
    {
      WalkLonger(xs, 0, path, name);
      EntryOfStep(xs, i, name);
    }
  }

  // What a lookup does below a file that is no directory.

  /** It is certain when the file has no data or only chunks; else the data are taken for a directory. */
  predicate Certain(x: InodeInfo) {
    x.data.RegularFile? || StoredSize(x) == 0
  }

  function BelowFile(x: InodeInfo): Error {
    if StoredSize(x) == 0 then Enoent else InvalidData
  }

  lemma LookupBelowFile(r: ErofsReader, xs: seq<InodeInfo>, f: Facts, chunkbits: nat, i: nat, name: seq<byte>)
    requires Mounted(r, xs, f, chunkbits) && i < |xs| && !xs[i].data.Directory? && Certain(xs[i])
    ensures LookupScan(r, xs[i].nid, name) == Err(BelowFile(xs[i]))
  {
    InodePresent(r, xs, f, chunkbits, i);
    LayoutRead(xs[i], f.epoch, chunkbits);
    AttributesPreserved(xs[i], f.epoch, chunkbits);
    NoFlatData(r, xs[i].nid, ViewOf(xs[i], f.epoch, chunkbits), Wanted(name));
  }

  lemma NoFlatData(r: ErofsReader, nid: nat, v: ErofsInode, stop: Entry -> bool)
    ensures Size(v) == 0 ==> DirScanOf(r, nid, v, stop) == Ok([])
    ensures Size(v) > 0 && DataLayout(v) == EROFS_INODE_CHUNK_BASED ==> DirScanOf(r, nid, v, stop) == Err(InvalidData)
  {
  }

  lemma RootIno(r: ErofsReader, nid: nat)
    requires RootNid(r) == 0 && nid < TWO_64
    ensures ToNid(r, ToIno(r, nid)) == nid
  {
    InoNidExact(r, nid);
  }

  /** One lookup of the walk; below the data of a symlink anything may come back. */
  method WalkStep(fs: ErofsFs, ghost xs: seq<InodeInfo>, ghost f: Facts, ghost chunkbits: nat,
                  ino: nat, ghost at: nat, ghost lost: bool, name: seq<byte>)
    returns (res: Result<LookupReply>)
    requires Mounted(fs.reader, xs, f, chunkbits) && ParentsRight(xs) && at < |xs| && ino < TWO_64
    requires !lost ==> ino == ToIno(fs.reader, xs[at].nid)
    ensures !lost && xs[at].data.Directory? ==> res == StepReply(fs.reader, xs, f, chunkbits, TreeStep(xs, at, name))
    ensures !lost && !xs[at].data.Directory? && Certain(xs[at]) ==> res == Err(BelowFile(xs[at]))
    ensures res.Ok? ==> res.value.ino == ToIno(fs.reader, res.value.nid)
  {
    res := fs.Lookup(ino, name);
    if !lost {
      InodePresent(fs.reader, xs, f, chunkbits, at);
      RootIno(fs.reader, xs[at].nid);
      if xs[at].data.Directory? {
        LookupIsStep(fs.reader, xs, f, chunkbits, at, name);
      } else if Certain(xs[at]) {
        LookupBelowFile(fs.reader, xs, f, chunkbits, at, name);
      }
    }
  }

  lemma WalkOn(xs: seq<InodeInfo>, at: nat, path: seq<seq<byte>>, k: nat)
    requires InRange(xs) && at < |xs| && k < |path|
    ensures Walk(xs, at, path[k..]) ==
              if !xs[at].data.Directory? then NotADirectory
              else if TreeStep(xs, at, path[k]).None? then Missing
              else Walk(xs, TreeStep(xs, at, path[k]).value, path[k + 1..])
    ensures Walk(xs, at, path[k..]).NotADirectory? ==>
              Obstacle(xs, at, path[k..]) ==
                if !xs[at].data.Directory? then at
                else Obstacle(xs, TreeStep(xs, at, path[k]).value, path[k + 1..])
  {
    var rest := path[k..];
    assert rest[1..] == path[k + 1..];
  }

  /**
   * Resolving any path by repeated lookups, from any directory: it reaches exactly the inode that the
   * path names in the tree the image was built from, and reports ENOENT when a name is missing. Behind a file
   * that is no directory it reports an error, unless the file is a symlink, whose target it takes for entries.
   */
  method ResolvePath(fs: ErofsFs, ghost xs: seq<InodeInfo>, ghost f: Facts, ghost chunkbits: nat,
                     start: nat, ghost i: nat, path: seq<seq<byte>>)
    returns (res: Result<nat>)
    requires Mounted(fs.reader, xs, f, chunkbits) && ParentsRight(xs) && i < |xs|
    requires start == ToIno(fs.reader, xs[i].nid)
    ensures var w := Walk(xs, i, path);
            && (w.Reached? ==> res == Ok(ToIno(fs.reader, xs[w.idx].nid)))
            && (w.Missing? ==> res == Err(Enoent))
            && (w.NotADirectory? && Certain(xs[Obstacle(xs, i, path)]) ==>
                  res == Err(BelowFile(xs[Obstacle(xs, i, path)])))
  {
    var ino: nat := start;
    ghost var at: nat := i;
    ghost var lost := false;
    for k := 0 to |path|
      invariant ino < TWO_64 && at < |xs|
      invariant lost ==> Walk(xs, i, path) == NotADirectory && !Certain(xs[Obstacle(xs, i, path)])
      invariant !lost ==> ino == ToIno(fs.reader, xs[at].nid) && Walk(xs, i, path) == Walk(xs, at, path[k..])
      invariant !lost && Walk(xs, i, path).NotADirectory? ==> Obstacle(xs, i, path) == Obstacle(xs, at, path[k..])
    {
      WalkOn(xs, at, path, k);
      var reply := WalkStep(fs, xs, f, chunkbits, ino, at, lost, path[k]);
      if reply.Err? {
        return Err(reply.error);
      }
      ino := reply.value.ino;
      lost := lost || !xs[at].data.Directory?;
      if !lost {
        at := TreeStep(xs, at, path[k]).value;
      }
    }
    return Ok(ino);
  }

  // ------------------------------------------------------------------
  // Up to the root
  // ------------------------------------------------------------------

  /** A container comes before what it contains, as in any pre-order. */
  ghost predicate Ordered(xs: seq<InodeInfo>) {
    forall j, i :: 0 <= j < |xs| && 0 <= i && Lists(xs[j], i) ==> j < i
  }

  lemma ParentAbove(xs: seq<InodeInfo>, i: nat)
    requires TreeShaped(xs) && Ordered(xs) && i < |xs| && xs[i].data.Directory?
    ensures xs[ParentIdx(xs, i)].data.Directory? && (if i == 0 then ParentIdx(xs, i) == 0 else ParentIdx(xs, i) < i)
  {
    if i != 0 {
      var j :| 0 <= j < |xs| && Lists(xs[j], i);
      assert LastContainer(xs, i, |xs|).Some?;
    }
  }

  /** How deep a directory lies below the root. */
  ghost function Depth(xs: seq<InodeInfo>, i: nat): nat
    requires TreeShaped(xs) && Ordered(xs) && i < |xs| && xs[i].data.Directory?
    decreases i
  {
    ParentAbove(xs, i);
    if i == 0 then 0 else 1 + Depth(xs, ParentIdx(xs, i))
  }

  function DotDots(n: nat): (p: seq<seq<byte>>)
    ensures |p| == n && forall k :: 0 <= k < n ==> p[k] == DOTDOT
  {
    seq(n, _ => DOTDOT)
  }

  /**
   * Following ".." from any directory is at the root after exactly as many steps as the directory is deep, and
   * stays there.
   */
  lemma {:induction false} DotDotClimbs(xs: seq<InodeInfo>, i: nat, n: nat)
    requires TreeShaped(xs) && Ordered(xs) && i < |xs| && xs[i].data.Directory?
    ensures Walk(xs, i, DotDots(n)).Reached?
    ensures Walk(xs, i, DotDots(n)) == Reached(0) <==> n >= Depth(xs, i)
    decreases n
  {
    DepthAbove(xs, i);
    if n > 0 {
      OneUp(xs, i, n);
      DotDotClimbs(xs, ParentIdx(xs, i), n - 1);
    }
  }

  lemma DepthAbove(xs: seq<InodeInfo>, i: nat)
    requires TreeShaped(xs) && Ordered(xs) && i < |xs| && xs[i].data.Directory?
    ensures InRange(xs) && ParentIdx(xs, i) < |xs| && xs[ParentIdx(xs, i)].data.Directory?
    ensures Depth(xs, i) == if i == 0 then 0 else 1 + Depth(xs, ParentIdx(xs, i))
    ensures i == 0 ==> ParentIdx(xs, i) == 0
  {
    ParentAbove(xs, i);
  }

  lemma OneUp(xs: seq<InodeInfo>, i: nat, n: nat)
    requires InRange(xs) && i < |xs| && xs[i].data.Directory? && n > 0
    ensures ParentIdx(xs, i) < |xs| && Walk(xs, i, DotDots(n)) == Walk(xs, ParentIdx(xs, i), DotDots(n - 1))
  {
    assert DotDots(n)[1..] == DotDots(n - 1);
  }

  /** Of all inode numbers of an image, only the root's is 1. */
  lemma RootNumber(r: ErofsReader, xs: seq<InodeInfo>, f: Facts, chunkbits: nat, i: nat)
    requires Mounted(r, xs, f, chunkbits) && i < |xs|
    ensures ToIno(r, xs[i].nid) == FUSE_ROOT_ID <==> i == 0
  {
    InodePresent(r, xs, f, chunkbits, i);
    RootIno(r, xs[i].nid);
    RootIno(r, 0);
    assert i > 0 ==> xs[0].nid < xs[i].nid;
  }

  /**
   * A client of a mounted image that looks up ".." `n` times, from any directory, ends at the root exactly
   * when the directory is at most `n` deep.
   */
  method ClimbToRoot(fs: ErofsFs, ghost xs: seq<InodeInfo>, ghost f: Facts, ghost chunkbits: nat,
                     start: nat, ghost i: nat, n: nat)
    returns (res: Result<nat>)
    requires Mounted(fs.reader, xs, f, chunkbits) && ParentsRight(xs) && TreeShaped(xs) && Ordered(xs)
    requires i < |xs| && xs[i].data.Directory? && start == ToIno(fs.reader, xs[i].nid)
    ensures res.Ok? && (res.value == FUSE_ROOT_ID <==> n >= Depth(xs, i))
  {
    DotDotClimbs(xs, i, n);
    RootNumber(fs.reader, xs, f, chunkbits, Walk(xs, i, DotDots(n)).idx);
    res := ResolvePath(fs, xs, f, chunkbits, start, i, DotDots(n));
  }

  // ------------------------------------------------------------------
  // The builder's output
  // ------------------------------------------------------------------

  lemma {:induction false} SameContainerIdx(ys: seq<InodeInfo>, xs: seq<InodeInfo>, i: nat, m: nat)
    requires SameTree(ys, xs) && m <= |ys|
    ensures LastContainer(xs, i, m) == LastContainer(ys, i, m)
  {
    if m > 0 {
      assert SameInode(ys[m - 1], xs[m - 1]);
      SameContainerIdx(ys, xs, i, m - 1);
    }
  }

  lemma TreeKept(ys: seq<InodeInfo>, xs: seq<InodeInfo>)
    requires SameTree(ys, xs) && TreeShaped(ys) && Ordered(ys) && NamesOk(ys)
    ensures TreeShaped(xs) && Ordered(xs) && NamesOk(xs)
  {
    SameInRange(ys, xs);
    forall j | 0 <= j < |xs|
      ensures xs[j].data.Directory? == ys[j].data.Directory?
      ensures xs[j].data.Directory? ==> xs[j].data.children == ys[j].data.children
    {
      assert SameInode(ys[j], xs[j]);
    }
    forall j, i | 0 <= j < |xs| && 0 <= i ensures Lists(xs[j], i) == Lists(ys[j], i) {
    }
  }

  /** In the inodes that the builder writes, every ".." is right. */
  lemma FinalParentsRight(ys: seq<InodeInfo>)
    requires TreeShaped(ys)
    ensures ParentsRight(Final(ys))
  {
    var xs := Final(ys);
    FinalTree(ys);
    forall i | 0 <= i < |xs| && xs[i].data.Directory? ensures xs[i].data.parentNid == xs[ParentIdx(xs, i)].nid {
      FinalParent(ys, i);
    }
  }

  lemma FinalParent(ys: seq<InodeInfo>, i: nat)
    requires TreeShaped(ys) && i < |ys| && Final(ys)[i].data.Directory?
    ensures Final(ys)[i].data.parentNid == Final(ys)[ParentIdx(Final(ys), i)].nid
  {
    var ps, xs := Placed(ys), Final(ys);
    FinalTree(ys);
    assert SameInode(ys[i], xs[i]);
    SameContainerIdx(ys, xs, i, |ys|);
    FinalLink(ys, i);
    PlacedParent(ys, i);
    var p := ParentIdx(ys, i);
    FinalSame(ys, p);
    LinkedAt(ys, p);
    assert ps[p] == Place(ys[p], SlotAt(Sizes(ys), p));
  }

  /** Placing the data of a directory keeps its parent link. */
  lemma FinalLink(ys: seq<InodeInfo>, i: nat)
    requires InRange(ys) && i < |ys| && ys[i].data.Directory?
    ensures Final(ys)[i].data.Directory? && Placed(ys)[i].data.Directory?
    ensures Final(ys)[i].data.parentNid == ParentNid(Placed(ys), i, |ys|)
  {
    FinalAt(ys, i);
    LinkedAt(ys, i);
    assert Placed(ys)[i] == Place(ys[i], SlotAt(Sizes(ys), i));
  }

  lemma PlacedParent(ys: seq<InodeInfo>, i: nat)
    requires TreeShaped(ys) && i < |ys| && ys[i].data.Directory?
    ensures Placed(ys)[i].data.Directory?
    ensures ParentNid(Placed(ys), i, |ys|) == Placed(ys)[ParentIdx(ys, i)].nid
  {
    var ps := Placed(ys);
    PlacedSame(ys);
    assert SameInode(ys[i], ps[i]);
    SameContainerIdx(ys, ps, i, |ys|);
    ContainerFound(ys, i);
    ParentOf(ps, i, LastContainer(ys, i, |ys|));
  }

  lemma ContainerFound(ys: seq<InodeInfo>, i: nat)
    requires TreeShaped(ys) && i < |ys| && ys[i].data.Directory?
    ensures LastContainer(ys, i, |ys|).None? ==> i == 0
  {
    if i != 0 {
      var j :| 0 <= j < |ys| && Lists(ys[j], i);
      assert LastContainer(ys, i, |ys|).Some?;
    }
  }

  lemma ParentOf(ps: seq<InodeInfo>, i: nat, c: Option<nat>)
    requires i < |ps| && ps[i].data.Directory? && c == LastContainer(ps, i, |ps|) && (c.None? ==> i == 0)
    ensures ParentNid(ps, i, |ps|) == ps[if c.Some? then c.value else 0].nid
  {
  }

  lemma PlacedSame(ys: seq<InodeInfo>)
    ensures SameTree(ys, Placed(ys))
  {
  }
}
