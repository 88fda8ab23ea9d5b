/** `erofs-mkfs` from source tree to image, and what a mounted image shows of the tree (src/bin/erofs-mkfs.rs). */
module EndToEnd {
  import opened Bytes
  import opened Metadata
  import opened Chunks
  import opened Inodes
  import opened Layout
  import opened Xattrs
  import opened Dirents
  import opened DirBlocks
  import opened InodeBuild
  import opened BlobChunk
  import opened Wiring
  import opened Mkfs
  import opened Image
  import opened Builder
  import opened SourceTree
  import opened TreeBuild
  import opened Paths
  import opened Capacity
  import opened Reader
  import opened FileData
  import opened DirReader
  import opened Fuse
  import opened InodeRead
  import opened TreeRead
  import opened HeaderRoom
  import opened Shown

  // ------------------------------------------------------------------
  // The program
  // ------------------------------------------------------------------

  function TrailingZeros(n: nat): (k: nat)
    requires n > 0
    ensures n % Pow2(k) == 0 && n >= Pow2(k)
  {
    if n % 2 == 1 then assert Pow2(0) == 1; 0
    else
      var k := TrailingZeros(n / 2);
      TwiceMultiple(n, Pow2(k));
      k + 1
  }

  lemma TwiceMultiple(n: nat, p: nat)
    requires p > 0 && n > 0 && n % 2 == 0 && (n / 2) % p == 0
    ensures n % (2 * p) == 0
  {
    var q := n / 2 / p;
    assert n / 2 == q * p;
    ModUnique(n, 2 * p, q, 0);
  }

  predicate IsPowerOfTwo(n: nat) {
    n > 0 && n == Pow2(TrailingZeros(n))
  }

  lemma ChunkBitsInRange(n: nat)
    requires 4096 <= n < TWO_32 && IsPowerOfTwo(n)
    ensures EROFS_BLKSZBITS <= TrailingZeros(n) < 32 && n % 4096 == 0
  {
    Pow2Outside(TrailingZeros(n));
    Pow2Multiple(TrailingZeros(n));
  }

  lemma Pow2Outside(k: nat)
    ensures k < 12 ==> Pow2(k) < 4096
    ensures k >= 32 ==> Pow2(k) >= TWO_32
  {
    Pow2Values();
    assert Pow2(12) == 2 * Pow2(11);
    assert Pow2(30) == 0x4000_0000;
    assert Pow2(32) == 4 * Pow2(30);
    if k < 12 {
      Pow2Monotone(k, 11);
    }
    if k >= 32 {
      Pow2Monotone(32, k);
    }
  }

  lemma {:induction false} Pow2Multiple(k: nat)
    ensures k >= 12 ==> Pow2(k) % 4096 == 0
  {
    if k == 12 {
      Pow2Values();
    } else if k > 12 {
      Pow2Multiple(k - 1);
    }
  }

  /**
   * What `stat` says of the source path, as against `lstat`, which the tree is built from: it follows symlinks, so
   * it may see a directory where `lstat` sees a symlink.
   */
  predicate StatSees(source: Node, isDir: bool) {
    (source.body.DirBody? ==> isDir) && (source.body.FileBody? || source.body.OtherBody? ==> !isDir)
  }

  predicate ChunkSizeValid(chunksize: nat) {
    chunksize >= EROFS_BLOCK_SIZE && IsPowerOfTwo(chunksize)
  }

  predicate ArgsValid(isDir: bool, chunksize: nat) {
    ChunkSizeValid(chunksize) && isDir
  }

  /** The metadata of the source tree fit: no name is too long for a block, and all of it fits into memory. */
  predicate Small(source: Node, chunksize: nat)
    requires chunksize > 0
  {
    NamesShort(source) && MetaBytes(source, chunksize) <= ISIZE_MAX
  }

  /** The inodes `ys` and the device `d` hold the source tree, and `image` is an image of them. */
  ghost predicate Made(source: Node, ys: seq<InodeInfo>, d: Device, image: seq<byte>, f: Facts, chunkbits: nat) {
    && Subtree(ys, 0) && Represents(source, 0, 0, ys, d) && source.body.DirBody?
    && DeviceOk(d) && chunkbits < 32 && d.cs == Pow2(chunkbits)
    && InRange(ys) && IsImage(image, Final(ys), f, chunkbits)
  }

  /** A source tree, all of whose files can be read. */
  ghost predicate GoodSource(source: Node) {
    SourceOk(source) && FromOneHost(source) && Readable(source)
  }

  /** What the superblock and the device slot say about the image of a source tree. */
  ghost function FactsOf(t: Build, epoch: nat, uuid: seq<byte>): Facts {
    Facts(0, |t.xs|, epoch, Wrap64(|t.blob.file| / 4096), uuid)
  }

  /** `image` holds the inodes of a tree, and takes the room they need. */
  ghost predicate ImageFor(xs: seq<InodeInfo>, image: seq<byte>, f: Facts, chunkbits: nat) {
    InRange(xs) && Written(image, Final(xs), f, chunkbits) && |image| == EROFS_BLOCK_SIZE + MetaEnd(xs)
  }

  /** `image` and `blob` are the two files made from the source tree with these parameters. */
  ghost predicate Shipped(source: Node, p: Params, epoch: nat, uuid: seq<byte>, image: seq<byte>, blob: seq<byte>) {
    && GoodSource(source) && ChunkSizeValid(p.cs) && p.cs < TWO_32 && Small(source, p.cs)
    && var t := Tree(source, p);
       ImageFor(t.xs, image, FactsOf(t, epoch, uuid), TrailingZeros(p.cs)) && blob == t.blob.file
  }

  /** The two files that the builder makes of a directory hold the source tree. */
  lemma ShippedIsMade(source: Node, p: Params, epoch: nat, uuid: seq<byte>, image: seq<byte>, blob: seq<byte>)
    requires Shipped(source, p, epoch, uuid, image, blob)
    ensures var t := Tree(source, p);
            && (Made(source, t.xs, DeviceOf(t, p), image, FactsOf(t, epoch, uuid), TrailingZeros(p.cs))
                <==> source.body.DirBody?)
            && |image| == EROFS_BLOCK_SIZE + MetaBytes(source, p.cs)
  {
    hide Small, MetaBytes, Tree, ChunkSizeValid, Final, MetaEnd, Subtree, Represents, HoldsInodes;
    var t := Tree(source, p);
    ShippedParts(source, p, epoch, uuid, image, blob);
    TreeRepresents(source, p);
    TreeFits(source, p);
    TreeCanBeLaidOut(source, p);
    FinalTree(t.xs);
    assert SameInode(t.xs[0], Final(t.xs)[0]);
  }

  lemma ShippedParts(source: Node, p: Params, epoch: nat, uuid: seq<byte>, image: seq<byte>, blob: seq<byte>)
    requires Shipped(source, p, epoch, uuid, image, blob)
    ensures p.cs > 0 && NamesShort(source)
    ensures EROFS_BLKSZBITS <= TrailingZeros(p.cs) < 32 && p.cs == Pow2(TrailingZeros(p.cs))
  {
    ChunkBitsInRange(p.cs);
  }

  /**
   * `main`: checks its arguments, builds the tree, lays it out, writes the image. It fails exactly when the
   * arguments are bad, a file is shorter than its recorded size, or the metadata do not fit; each of the
   * three is a condition on the source tree and the arguments. Otherwise image and blob are those of the
   * source tree. The check of the source path follows symlinks, the tree is built without following them.
   */
  method MakeFs(source: Node, isDir: bool, chunksize: nat, epoch: nat, uuid: seq<byte>, hash: Hash)
    returns (res: Result<(seq<byte>, seq<byte>)>)
    requires SourceOk(source) && FromOneHost(source) && StatSees(source, isDir)
    requires chunksize < TWO_32 && epoch < TWO_64 && |uuid| == 16
    ensures res == Err(InvalidInput) <==> !ArgsValid(isDir, chunksize)
    ensures res == Err(UnexpectedEof) <==> ArgsValid(isDir, chunksize) && !Readable(source)
    ensures res == Err(Panic) <==> ArgsValid(isDir, chunksize) && Readable(source) && !Small(source, chunksize)
    ensures res.Ok? <==> ArgsValid(isDir, chunksize) && Readable(source) && Small(source, chunksize)
    ensures res.Ok? ==> Shipped(source, Params(hash, chunksize), epoch, uuid, res.value.0, res.value.1)
  {
    var args := CheckArgs(isDir, chunksize);
    if args.Err? {
      return Err(args.error);
    }
    res := MakeFiles(source, chunksize, args.value, epoch, uuid, hash);
  }

  /** The three phases, once the arguments have been checked. */
  method MakeFiles(source: Node, chunksize: nat, chunkbits: nat, epoch: nat, uuid: seq<byte>, hash: Hash)
    returns (res: Result<(seq<byte>, seq<byte>)>)
    requires SourceOk(source) && FromOneHost(source) && ChunkSizeValid(chunksize) && chunksize < TWO_32
    requires epoch < TWO_64 && |uuid| == 16
    requires chunkbits == TrailingZeros(chunksize) && EROFS_BLKSZBITS <= chunkbits < 32 && chunksize % 4096 == 0
    ensures res.Ok? <==> Readable(source) && Small(source, chunksize)
    ensures res.Err? ==> res == Err(if Readable(source) then Panic else UnexpectedEof)
    ensures res.Ok? ==> Shipped(source, Params(hash, chunksize), epoch, uuid, res.value.0, res.value.1)
  {
    var blob := new BlobWriter(chunksize, hash);
    var tree := BuildTree(source, blob);
    if tree.Err? {
      return Err(tree.error);
    }
    ghost var p := Params(hash, chunksize);
    TreeCanBeLaidOut(source, p);
    assert blob.nextBlkaddr == |blob.file| / 4096;
    var image := ImageOf(tree.value, epoch, chunkbits, Wrap64(blob.nextBlkaddr), uuid);
    if image.Err? {
      return Err(image.error);
    }
    FilesShipped(source, p, epoch, uuid, tree.value, blob.Abs(), image.value, chunkbits);
    return Ok((image.value, blob.file));
  }

  lemma FilesShipped(source: Node, p: Params, epoch: nat, uuid: seq<byte>, xs: seq<InodeInfo>, blob: Blob,
                     image: seq<byte>, chunkbits: nat)
    requires GoodSource(source) && ChunkSizeValid(p.cs) && p.cs < TWO_32 && Small(source, p.cs)
    requires chunkbits == TrailingZeros(p.cs)
    requires xs == Tree(source, p).xs && blob == Tree(source, p).blob
    requires ImageFor(xs, image, Facts(0, |xs|, epoch, Wrap64(|blob.file| / 4096), uuid), chunkbits)
    ensures Shipped(source, p, epoch, uuid, image, blob.file)
  {
  }

  /** The checks of the arguments. */
  method CheckArgs(isDir: bool, chunksize: nat) returns (res: Result<nat>)
    requires chunksize < TWO_32
    ensures res.Ok? <==> ArgsValid(isDir, chunksize)
    ensures res.Err? ==> res == Err(InvalidInput)
    ensures res.Ok? ==> && res.value == TrailingZeros(chunksize) && EROFS_BLKSZBITS <= res.value < 32
                        && chunksize % 4096 == 0
  {
    if chunksize < EROFS_BLOCK_SIZE {
      return Err(InvalidInput);
    }
    if !IsPowerOfTwo(chunksize) {
      return Err(InvalidInput);
    }
    ChunkBitsInRange(chunksize);
    if !isDir {
      return Err(InvalidInput);
    }
    return Ok(TrailingZeros(chunksize));
  }

  lemma TreeCanBeLaidOut(source: Node, p: Params)
    requires GoodSource(source) && p.cs > 0
    ensures var ys := Tree(source, p).xs;
            && |ys| > 0 && (ys[0].data.Directory? <==> source.body.DirBody?) && InRange(ys) && AllTyped(ys)
            && (|ys| <= ISIZE_MAX && Buildable(ys) <==> Small(source, p.cs))
  {
    TreeRepresents(source, p);
    SubtreeSound(Tree(source, p).xs);
    TreeFits(source, p);
  }

  /** Phases 2 and 3. */
  method ImageOf(tree: seq<InodeInfo>, epoch: nat, chunkbits: nat, blobBlocks: nat, uuid: seq<byte>)
    returns (res: Result<seq<byte>>)
    requires |tree| > 0 && InRange(tree) && AllTyped(tree)
    requires epoch < TWO_64 && EROFS_BLKSZBITS <= chunkbits < 32 && blobBlocks < TWO_64 && |uuid| == 16
    ensures res.Ok? <==> |tree| <= ISIZE_MAX && Buildable(tree)
    ensures res.Ok? ==> ImageFor(tree, res.value, Facts(0, |tree|, epoch, blobBlocks, uuid), chunkbits)
    ensures res.Err? ==> res == Err(Panic)
  {
    if |tree| > ISIZE_MAX {
      return Err(Panic);
    }
    var inodes := ToVec(tree);
    res := BuildImage(inodes, epoch, chunkbits, blobBlocks, uuid);
  }

  method ToVec(xs: seq<InodeInfo>) returns (a: array<InodeInfo>)
    requires |xs| > 0
    ensures fresh(a) && a[..] == xs
  {
    a := new InodeInfo[|xs|](i requires 0 <= i < |xs| => xs[i]);
  }

  // ------------------------------------------------------------------
  // Paths
  // ------------------------------------------------------------------

  /** A path leads in the inodes to what represents the file that it leads to in the source tree. */
  lemma {:induction false} PathsAgree(n: Node, idx: nat, lo: nat, xs: seq<InodeInfo>, d: Device, path: seq<seq<byte>>)
    requires Represents(n, idx, lo, xs, d) && DeviceOk(d) && InRange(xs) && Plain(path)
    ensures match NodeAt(n, path)
            case Found(m) => Walk(xs, idx, path).Reached? && Represents(m, Walk(xs, idx, path).idx, 0, xs, d)
            case NoEntry => Walk(xs, idx, path) == Missing
            case NoDirectory => && Walk(xs, idx, path) == NotADirectory
                                && Represents(Blocker(n, path), Obstacle(xs, idx, path), 0, xs, d)
    decreases |path|
  {
    if path == [] || !n.body.DirBody? {
      RepresentsKept(n, idx, lo, 0, xs, xs, d, d);
    } else {
      var es, cs := n.body.entries, xs[idx].data.children;
      forall k | 0 <= k < |es| ensures cs[k].name == es[k].name {
        assert EntryRepresents(es[k], cs[k], idx + 1, xs, d);
      }
      SameChild(es, cs, path[0]);
      var k := EntryNamed(es, path[0]);
      if k.Some? {
        assert EntryRepresents(es[k.value], cs[k.value], idx + 1, xs, d);
        PathsAgree(es[k.value].node, cs[k.value].inodeIdx, idx + 1, xs, d, path[1..]);
      }
    }
  }

  /** The builder's second phase does not change where paths lead. */
  lemma {:induction false} WalksAgree(ys: seq<InodeInfo>, xs: seq<InodeInfo>, i: nat, path: seq<seq<byte>>)
    requires SameTree(ys, xs) && InRange(ys) && InRange(xs) && i < |ys| && Plain(path)
    ensures Walk(xs, i, path) == Walk(ys, i, path)
    ensures Walk(ys, i, path).NotADirectory? ==> Obstacle(xs, i, path) == Obstacle(ys, i, path)
    decreases |path|
  {
    if path != [] {
      assert SameInode(ys[i], xs[i]);
      if ys[i].data.Directory? {
        var c := TreeStep(ys, i, path[0]);
        if c.Some? {
          WalksAgree(ys, xs, c.value, path[1..]);
        }
      }
    }
  }

  // ------------------------------------------------------------------
  // The main theorem
  // ------------------------------------------------------------------

  lemma ZeroFirst(image: seq<byte>, xs: seq<InodeInfo>, f: Facts, chunkbits: nat)
    requires HoldsInodes(image, xs, f, chunkbits)
    ensures |image| > 0 && image[0] == 0
  {
    var blocks :| Block0(f, blocks) <= image;
    assert image[0] == Block0(f, blocks)[0];
  }

  /** All headers fit when the metadata are smaller than 4 GiB. */
  lemma SmallImagesFit(source: Node, ys: seq<InodeInfo>, d: Device, image: seq<byte>, f: Facts, chunkbits: nat)
    requires Made(source, ys, d, image, f, chunkbits) && |image| < TWO_32
    ensures forall i :: 0 <= i < |ys| ==> Fits(Final(ys)[i])
  {
    var xs := Final(ys);
    FinalTree(ys);
    forall i | 0 <= i < |ys| ensures Fits(xs[i]) {
      hide Subtree, Represents, WriteArgs, InodeInImage, InWindow, Final;
      assert SameInode(ys[i], xs[i]) && Sound(ys[i], |ys|) by {
        SoundAt(ys, i);
      }
      assert xs[i].data.Directory? ==> DirInImage(image, xs, i);
      SmallInode(image, xs, i, ys[i], |ys|);
    }
  }

  lemma SoundAt(ys: seq<InodeInfo>, i: nat)
    requires Subtree(ys, 0) && i < |ys|
    ensures Sound(ys[i], |ys|)
  {
  }

  lemma SmallInode(image: seq<byte>, xs: seq<InodeInfo>, i: nat, y: InodeInfo, count: nat)
    requires InRange(xs) && i < |xs| && SameInode(y, xs[i]) && Sound(y, count) && |image| < TWO_32
    requires xs[i].data.Directory? ==> DirInImage(image, xs, i)
    ensures Fits(xs[i])
  {
    hide Pack;
  }

  /** The image of a source tree opens, and its tree has the shape of the source tree. */
  lemma MadeMounts(source: Node, ys: seq<InodeInfo>, d: Device, image: seq<byte>, f: Facts, chunkbits: nat)
    requires Made(source, ys, d, image, f, chunkbits) && forall i :: 0 <= i < |ys| ==> Fits(Final(ys)[i])
    ensures Open(image, Some(d.blob.file)) == Ok(ReaderData(image, Some(d.blob.file))) && HasSuperblock(image)
    ensures Mounted(ReaderData(image, Some(d.blob.file)), Final(ys), f, chunkbits)
    ensures SameTree(ys, Final(ys)) && TreeShaped(Final(ys)) && Ordered(Final(ys)) && ParentsRight(Final(ys))
  {
    SubtreeIsTree(ys);
    SubtreeSound(ys);
    FinalTree(ys);
    TreeKept(ys, Final(ys));
    FinalParentsRight(ys);
    OpenMounts(image, Some(d.blob.file), Final(ys), f, chunkbits);
  }

  /** Less than 4 GiB of metadata are little enough for every header. */
  lemma SmallHeadersFit(source: Node, p: Params, epoch: nat, uuid: seq<byte>, image: seq<byte>, blob: seq<byte>)
    requires Shipped(source, p, epoch, uuid, image, blob)
    requires source.body.DirBody? && EROFS_BLOCK_SIZE + MetaBytes(source, p.cs) < TWO_32
    ensures HeadersFit(source, p.cs)
  {
    hide HeadersFit, MetaBytes, Tree, Made;
    var t := Tree(source, p);
    ShippedIsMade(source, p, epoch, uuid, image, blob);
    ShippedParts(source, p, epoch, uuid, image, blob);
    HeadersExact(source, p);
    SmallImagesFit(source, t.xs, DeviceOf(t, p), image, FactsOf(t, epoch, uuid), TrailingZeros(p.cs));
  }

  /** What the image shows of the inode `i` for a file `n` at `path`. */
  ghost predicate ShowsAt(r: ErofsReader, xs: seq<InodeInfo>, i: nat, n: Node, d: Device, epoch: nat,
                          path: seq<seq<byte>>)
    requires InRange(xs) && |xs| > 0 && i < |xs|
  {
    && ShowsExactly(r, xs[i].nid, n, d, epoch) && (WithinLimits(n, d) ==> Shows(r, xs[i].nid, n, epoch))
    && (n.body.DirBody? ==>
          && ReadInode(r, xs[i].nid).Ok? && Listing(r, xs[i].nid, ReadInode(r, xs[i].nid).value).Ok?
          && ListingLeads(Listing(r, xs[i].nid, ReadInode(r, xs[i].nid).value).value, xs, path))
  }

  /**
   * End to end, for every source tree and every path of plain names: in the mounted image the path leads
   * to an inode that shows the file the path names in the source tree, each part exactly when it is within its
   * limit, and whose listing leads where lookups lead; and nowhere when the source has no such entry.
   */
  lemma ImageShowsTree(source: Node, ys: seq<InodeInfo>, d: Device, f: Facts, chunkbits: nat, r: ErofsReader,
                       path: seq<seq<byte>>)
    requires Made(source, ys, d, r.mmap, f, chunkbits) && Mounted(r, Final(ys), f, chunkbits) && BlobServed(r, d)
    requires Plain(path)
    ensures match NodeAt(source, path)
            case Found(n) => && Walk(Final(ys), 0, path).Reached?
                             && ShowsAt(r, Final(ys), Walk(Final(ys), 0, path).idx, n, d, f.epoch, path)
            case NoEntry => Walk(Final(ys), 0, path) == Missing
            case NoDirectory => && Walk(Final(ys), 0, path) == NotADirectory
                                && Obstructs(Final(ys)[Obstacle(Final(ys), 0, path)], Blocker(source, path))
  {
    hide Shows, ShowsExactly, Mounted, BlobServed, WithinLimits, ListingLeads, Subtree, IsImage, Final, TreeShaped;
    hide Ordered, ParentsRight, ReadInode, Listing;
    var xs := Final(ys);
    MountedTree(source, ys, d, f, chunkbits, r);
    PathsAgree(source, 0, 0, ys, d, path);
    WalksAgree(ys, xs, 0, path);
    match NodeAt(source, path)
    case Found(n) =>
      RepresentedShown(source, ys, d, f, chunkbits, r, n, Walk(xs, 0, path).idx);
      RepresentedLists(source, ys, d, f, chunkbits, r, n, path);
      if WithinLimits(n, d) {
        WithinShows(r, xs[Walk(xs, 0, path).idx].nid, n, d, f.epoch);
      }
    case NoDirectory =>
      RepresentedMade(Blocker(source, path), Obstacle(xs, 0, path), ys, xs, d);
    case NoEntry =>
  }

  /** The inode `x` was made from the file `m`, which is no directory. */
  ghost predicate Obstructs(x: InodeInfo, m: Node) {
    && x.data.RegularFile? == m.body.FileBody? && x.size == SizeOf(m)
    && x.data.Symlink? == m.body.LinkBody? && !x.data.Directory?
  }

  lemma MountedTree(source: Node, ys: seq<InodeInfo>, d: Device, f: Facts, chunkbits: nat, r: ErofsReader)
    requires Made(source, ys, d, r.mmap, f, chunkbits) && Mounted(r, Final(ys), f, chunkbits)
    ensures SameTree(ys, Final(ys)) && InRange(Final(ys)) && |ys| > 0
    ensures TreeShaped(Final(ys)) && Ordered(Final(ys)) && ParentsRight(Final(ys))
  {
    hide Mounted, IsImage;
    SubtreeIsTree(ys);
    SubtreeSound(ys);
    FinalTree(ys);
    TreeKept(ys, Final(ys));
    FinalParentsRight(ys);
  }

  lemma RepresentedLists(source: Node, ys: seq<InodeInfo>, d: Device, f: Facts, chunkbits: nat, r: ErofsReader,
                         n: Node, path: seq<seq<byte>>)
    requires Made(source, ys, d, r.mmap, f, chunkbits) && Mounted(r, Final(ys), f, chunkbits)
    requires Walk(Final(ys), 0, path).Reached? && Represents(n, Walk(Final(ys), 0, path).idx, 0, ys, d)
    ensures var nid := Final(ys)[Walk(Final(ys), 0, path).idx].nid;
            n.body.DirBody? ==>
              && ReadInode(r, nid).Ok? && Listing(r, nid, ReadInode(r, nid).value).Ok?
              && ListingLeads(Listing(r, nid, ReadInode(r, nid).value).value, Final(ys), path)
  {
    MountedTree(source, ys, d, f, chunkbits, r);
    if n.body.DirBody? {
      assert SameInode(ys[Walk(Final(ys), 0, path).idx], Final(ys)[Walk(Final(ys), 0, path).idx]);
      ListingsLead(r, Final(ys), f, chunkbits, path);
    }
  }

  /** The inode that represents a file shows it. */
  lemma RepresentedShown(source: Node, ys: seq<InodeInfo>, d: Device, f: Facts, chunkbits: nat, r: ErofsReader,
                         n: Node, i: nat)
    requires Made(source, ys, d, r.mmap, f, chunkbits) && Mounted(r, Final(ys), f, chunkbits) && BlobServed(r, d)
    requires Represents(n, i, 0, ys, d)
    ensures i < |Final(ys)| && ShowsExactly(r, Final(ys)[i].nid, n, d, f.epoch)
  {
    hide ShowsExactly, Final, Subtree, TreeShaped, Ordered, ParentsRight;
    var xs := Final(ys);
    MountedTree(source, ys, d, f, chunkbits, r);
    ZeroFirst(r.mmap, xs, f, chunkbits);
    RepresentedMade(n, i, ys, xs, d);
    InodePresent(r, xs, f, chunkbits, i);
    if n.body.DirBody? {
      DirectoryShown(r, ys, xs, f, chunkbits, i, n, d);
    }
    InodeShows(r, xs[i].nid, xs[i], f.epoch, chunkbits, n, d);
  }

  lemma NidsTellInodes(r: ErofsReader, xs: seq<InodeInfo>, f: Facts, chunkbits: nat, i: nat, j: nat)
    requires Mounted(r, xs, f, chunkbits) && i < |xs| && j < |xs|
    ensures ToIno(r, xs[i].nid) == ToIno(r, xs[j].nid) <==> i == j
  {
    InodePresent(r, xs, f, chunkbits, i);
    InodePresent(r, xs, f, chunkbits, j);
    RootIno(r, xs[i].nid);
    RootIno(r, xs[j].nid);
    assert i < j ==> xs[i].nid < xs[j].nid;
    assert j < i ==> xs[j].nid < xs[i].nid;
  }

  /** The inode number that the mounted image shows at a path of the source tree. */
  ghost function NumberAt(r: ErofsReader, ys: seq<InodeInfo>, path: seq<seq<byte>>): nat
    requires InRange(ys) && InRange(Final(ys)) && |ys| > 0 && Walk(Final(ys), 0, path).Reached?
  {
    ToIno(r, Final(ys)[Walk(Final(ys), 0, path).idx].nid)
  }

  /**
   * Hard links, end to end: two different paths of plain names show one inode number exactly when they are
   * two names of one file with several links.
   */
  lemma NumbersTellFiles(source: Node, p: Params, f: Facts, chunkbits: nat, r: ErofsReader,
                         path: seq<seq<byte>>, other: seq<seq<byte>>)
    requires GoodSource(source) && p.cs > 0 && InRange(Tree(source, p).xs)
    requires Mounted(r, Final(Tree(source, p).xs), f, chunkbits)
    requires Plain(path) && Plain(other) && path != other && NodeAt(source, path).Found? && NodeAt(source, other).Found?
    ensures var ys := Tree(source, p).xs;
            && InRange(Final(ys)) && |ys| > 0
            && Walk(Final(ys), 0, path).Reached? && Walk(Final(ys), 0, other).Reached?
            && (NumberAt(r, ys, path) == NumberAt(r, ys, other) <==>
                  SameFile(NodeAt(source, path).node, NodeAt(source, other).node))
  {
    hide Final, Tree, Walk, NodeAt, Mounted, SameFile;
    var ys := Tree(source, p).xs;
    TreePaths(source, p, path, other);
    FinalTree(ys);
    WalksAgree(ys, Final(ys), 0, path);
    WalksAgree(ys, Final(ys), 0, other);
    NidsTellInodes(r, Final(ys), f, chunkbits, Walk(ys, 0, path).idx, Walk(ys, 0, other).idx);
  }

  /**
   * The files that the builder makes: the reader opens them, and is then in the state that the theorems about a
   * mounted image ask for exactly when the source is a directory and its headers have room for it. The chunks
   * are all addressable when they take at most 1 EiB.
   */
  lemma ShippedMounts(source: Node, p: Params, epoch: nat, uuid: seq<byte>, image: seq<byte>, blob: seq<byte>)
    requires Shipped(source, p, epoch, uuid, image, blob)
    ensures var t := Tree(source, p);
            var d, f, chunkbits := DeviceOf(t, p), FactsOf(t, epoch, uuid), TrailingZeros(p.cs);
            && HasSuperblock(image) && Open(image, Some(blob)) == Ok(ReaderData(image, Some(blob)))
            && (Made(source, t.xs, d, image, f, chunkbits)
                && Mounted(ReaderData(image, Some(blob)), Final(t.xs), f, chunkbits)
                <==> source.body.DirBody? && HeadersFit(source, p.cs))
            && (|blob| <= TWO_48 * 4096 ==> BlobServed(ReaderData(image, Some(blob)), d))
  {
    hide HeadersFit, Tree, Made, Small, IsImage, HoldsInodes, Final, MetaEnd, Open;
    var t := Tree(source, p);
    var d, f, chunkbits := DeviceOf(t, p), FactsOf(t, epoch, uuid), TrailingZeros(p.cs);
    ShippedIsMade(source, p, epoch, uuid, image, blob);
    ShippedParts(source, p, epoch, uuid, image, blob);
    TreeRepresents(source, p);
    HeadersExact(source, p);
    HeldOpens(image, Some(blob), Final(t.xs), f, chunkbits);
    if source.body.DirBody? && HeadersFit(source, p.cs) {
      MadeMounts(source, t.xs, d, image, f, chunkbits);
    }
  }

  lemma HeldOpens(image: seq<byte>, blob: Option<seq<byte>>, xs: seq<InodeInfo>, f: Facts, chunkbits: nat)
    requires HoldsInodes(image, xs, f, chunkbits)
    ensures HasSuperblock(image) && Open(image, blob) == Ok(ReaderData(image, blob))
    ensures var r: ErofsReader := ReaderData(image, blob);
            Blkszbits(r) == EROFS_BLKSZBITS && RootNid(r) == 0 && Epoch(r) == f.epoch && MetaBlkaddr(r) == 1
  {
    var blocks :| Block0(f, blocks) <= image;
    ImageOpens(f, blocks, image, blob);
  }

  // ------------------------------------------------------------------
  // A source path that is a symlink to a directory
  // ------------------------------------------------------------------

  /** The symlink to "." that `stat` sees as a directory, and all that the builder needs to know of it. */
  const LINK_SOURCE := Node(Stat(0xA1FF, 0, 0, 1, 0, 0, 1, 0, 1, 1), [], LinkBody([46]))

  /** `MakeFs` goes through for it: the conditions of its last clause hold. */
  lemma LinkSourceShips()
    ensures SourceOk(LINK_SOURCE) && FromOneHost(LINK_SOURCE) && StatSees(LINK_SOURCE, true)
    ensures ArgsValid(true, 4096) && Readable(LINK_SOURCE) && Small(LINK_SOURCE, 4096)
  {
    hide Small, IsPowerOfTwo;
    assert Consistent(LINK_SOURCE, map[]);
    BlockIsPower();
    LinkSourceSmall();
  }

  lemma BlockIsPower()
    ensures IsPowerOfTwo(4096)
  {
    hide TrailingZeros;
    Pow2Values();
    PowerTrailing(12);
  }

  lemma LinkSourceSmall()
    ensures Small(LINK_SOURCE, 4096)
  {
    hide DivCeil, KeptXattrs, IbodySize;
    assert KeptXattrs(LINK_SOURCE.xattrs) == [] && IbodySize([]) == 0 by {
      NoXattrs();
    }
    assert NodeMeta(LINK_SOURCE, 4096) == 33;
    assert NodeNeed(LINK_SOURCE, {}, 4096) == Need(1, 64, 0, {});
  }

  lemma NoXattrs()
    ensures KeptXattrs([]) == [] && IbodySize([]) == 0
  {
  }

  /**
   * What the builder makes of a source path that is no directory itself: an image whose only inode shows the
   * symlink, under the number of the root.
   */
  lemma LinkRootShows(source: Node, p: Params, epoch: nat, uuid: seq<byte>, image: seq<byte>, blob: seq<byte>)
    requires Shipped(source, p, epoch, uuid, image, blob) && !source.body.DirBody? && |blob| <= TWO_48 * 4096
    ensures HasSuperblock(image) && |Tree(source, p).xs| == 1
    ensures var r: ErofsReader := ReaderData(image, Some(blob));
            ShowsExactly(r, ToNid(r, FUSE_ROOT_ID), source, DeviceOf(Tree(source, p), p), epoch)
  {
    hide Tree, HeadersFit, Final, ShowsExactly, MadeFrom, HoldsInodes, Made, Mounted, Small, ImageFor;
    LinkRootMade(source, p, epoch, uuid, image, blob);
    ShippedMounts(source, p, epoch, uuid, image, blob);
    ShippedParts(source, p, epoch, uuid, image, blob);
    var t := Tree(source, p);
    var d, f, chunkbits, xs := DeviceOf(t, p), FactsOf(t, epoch, uuid), TrailingZeros(p.cs), Final(t.xs);
    var r: ErofsReader := ReaderData(image, Some(blob));
    HeldOpens(image, Some(blob), xs, f, chunkbits);
    ZeroFirst(image, xs, f, chunkbits);
    RootPresent(r, xs, f, chunkbits);
    InodeShows(r, 0, xs[0], epoch, chunkbits, source, d);
  }

  lemma LinkRootMade(source: Node, p: Params, epoch: nat, uuid: seq<byte>, image: seq<byte>, blob: seq<byte>)
    requires Shipped(source, p, epoch, uuid, image, blob) && !source.body.DirBody?
    ensures var t := Tree(source, p);
            && |t.xs| == 1 && InRange(t.xs)
            && HoldsInodes(image, Final(t.xs), FactsOf(t, epoch, uuid), TrailingZeros(p.cs))
            && MadeFrom(Final(t.xs)[0], source, DeviceOf(t, p)) && Fits(Final(t.xs)[0])
  {
    hide Final, HoldsInodes, Small, MetaEnd, TrailingZeros;
    var t := Tree(source, p);
    ShippedParts(source, p, epoch, uuid, image, blob);
    TreeRepresents(source, p);
    FinalTree(t.xs);
    RepresentedMade(source, 0, t.xs, Final(t.xs), DeviceOf(t, p));
    LeafFits(source, t.xs);
  }

  lemma {:induction false} PowerTrailing(k: nat)
    ensures TrailingZeros(Pow2(k)) == k
  {
    if k > 0 {
      PowerTrailing(k - 1);
      assert Pow2(k) / 2 == Pow2(k - 1);
    }
  }

  lemma LeafFits(n: Node, ys: seq<InodeInfo>)
    requires !n.body.DirBody? && Subtree(ys, 0) && InRange(ys) && |ys| > 0 && !ys[0].data.Directory?
    ensures Fits(Final(ys)[0])
  {
    assert Sound(ys[0], |ys|);
    OthersFit(ys, 0);
  }

  lemma RootPresent(r: ErofsReader, xs: seq<InodeInfo>, f: Facts, chunkbits: nat)
    requires HoldsInodes(r.mmap, xs, f, chunkbits) && MetaBlkaddr(r) == 1
    ensures Args(xs[0], f.epoch, chunkbits) && Present(r, 0, xs[0], f.epoch, chunkbits)
  {
    assert InodeBuild.Typed(xs[0]);
    assert InodeInImage(r.mmap, xs, f.epoch, chunkbits, 0);
    PresentAt(r, 0, xs[0], f.epoch, chunkbits);
  }

  /** The root of the image is listed exactly when `lstat` sees a directory; else the reader says it is none. */
  lemma RootListed(source: Node, p: Params, epoch: nat, uuid: seq<byte>, image: seq<byte>, blob: seq<byte>)
    requires Shipped(source, p, epoch, uuid, image, blob) && HeadersFit(source, p.cs) && |blob| <= TWO_48 * 4096
    ensures HasSuperblock(image)
    ensures var r: ErofsReader := ReaderData(image, Some(blob));
            && (DirectoryListing(r, ToNid(r, FUSE_ROOT_ID)).Ok? <==> source.body.DirBody?)
            && (!source.body.DirBody? ==> DirectoryListing(r, ToNid(r, FUSE_ROOT_ID)) == Err(Enotdir))
  {
    hide Tree, HeadersFit, Final, ShowsExactly, Made, Mounted, Small, ImageFor, DirectoryListing, HoldsInodes;
    ShippedParts(source, p, epoch, uuid, image, blob);
    var t := Tree(source, p);
    var d, f, chunkbits := DeviceOf(t, p), FactsOf(t, epoch, uuid), TrailingZeros(p.cs);
    ShippedMounts(source, p, epoch, uuid, image, blob);
    var r: ErofsReader := ReaderData(image, Some(blob));
    if source.body.DirBody? {
      DirectoryRootListed(source, t.xs, d, f, chunkbits, r);
    } else {
      LinkRootShows(source, p, epoch, uuid, image, blob);
      DirectoryListed(r, ToNid(r, FUSE_ROOT_ID), source, d, epoch);
    }
  }

  lemma DirectoryRootListed(source: Node, ys: seq<InodeInfo>, d: Device, f: Facts, chunkbits: nat, r: ErofsReader)
    requires Made(source, ys, d, r.mmap, f, chunkbits) && Mounted(r, Final(ys), f, chunkbits) && BlobServed(r, d)
    requires SourceOk(source)
    ensures DirectoryListing(r, ToNid(r, FUSE_ROOT_ID)).Ok?
  {
    hide Subtree, Represents, IsImage, Final, Mounted, BlobServed, WithinLimits, Shows, ListingLeads;
    MountedRoot(r, Final(ys), f, chunkbits);
    ImageShowsTree(source, ys, d, f, chunkbits, r, []);
    assert ShowsAt(r, Final(ys), 0, source, d, f.epoch, []);
    DirectoryListed(r, 0, source, d, f.epoch);
  }

  lemma MountedRoot(r: ErofsReader, xs: seq<InodeInfo>, f: Facts, chunkbits: nat)
    requires Mounted(r, xs, f, chunkbits)
    ensures |xs| > 0 && InRange(xs) && xs[0].nid == 0 && RootNid(r) == 0
  {
  }

  lemma DirectoryListed(r: ErofsReader, nid: nat, n: Node, d: Device, epoch: nat)
    requires ShowsExactly(r, nid, n, d, epoch) && StatOk(n)
    ensures n.body.DirBody? ==> DirectoryListing(r, nid).Ok?
    ensures !n.body.DirBody? ==> DirectoryListing(r, nid) == Err(Enotdir)
  {
    hide ReadInode, Listing, XattrsOf, ReadSymlink, ServesFile, ListOf, Unmixed, XattrsWithin;
  }

  /** A client of the two files that opens the root: it gets a handle exactly when `lstat` sees a directory. */
  method OpenRoot(fs: ErofsFs, ghost source: Node, ghost p: Params, ghost epoch: nat, ghost uuid: seq<byte>,
                  ghost image: seq<byte>, ghost blob: seq<byte>)
    returns (res: Result<nat>)
    requires Shipped(source, p, epoch, uuid, image, blob) && HeadersFit(source, p.cs) && |blob| <= TWO_48 * 4096
    requires fs.reader.mmap == image && fs.reader.blobMmap == Some(blob)
    modifies fs
    ensures res.Ok? <==> source.body.DirBody?
    ensures !source.body.DirBody? ==> res == Err(Enotdir)
  {
    RootListed(source, p, epoch, uuid, image, blob);
    res := fs.OpenDir(FUSE_ROOT_ID);
  }

  /**
   * The whole way through the programs: a client of the mounted file system that resolves a path of plain
   * names by lookups ends at an inode number whose inode shows the file of the source tree at that path,
   * or gets ENOENT when there is none. A path that goes on behind a regular file or an empty one is an error too.
   */
  method OpenByPath(fs: ErofsFs, ghost source: Node, ghost ys: seq<InodeInfo>, ghost d: Device, ghost f: Facts,
                    ghost chunkbits: nat, path: seq<seq<byte>>)
    returns (res: Result<nat>)
    requires Made(source, ys, d, fs.reader.mmap, f, chunkbits) && Mounted(fs.reader, Final(ys), f, chunkbits)
    requires BlobServed(fs.reader, d) && Plain(path)
    ensures NodeAt(source, path).Found? ==>
              && InRange(Final(ys)) && |ys| > 0 && Walk(Final(ys), 0, path).Reached?
              && res == Ok(NumberAt(fs.reader, ys, path)) && res.value < TWO_64
              && ShowsExactly(fs.reader, ToNid(fs.reader, res.value), NodeAt(source, path).node, d, f.epoch)
              && (WithinLimits(NodeAt(source, path).node, d) ==>
                    Shows(fs.reader, ToNid(fs.reader, res.value), NodeAt(source, path).node, f.epoch))
    ensures NodeAt(source, path).NoEntry? ==> res == Err(Enoent)
    ensures NodeAt(source, path).NoDirectory? ==>
              var m := Blocker(source, path);
              m.body.FileBody? || SizeOf(m) == 0 ==> res == Err(if SizeOf(m) == 0 then Enoent else InvalidData)
  {
    hide Shows, WithinLimits, Subtree, Represents, Mounted, BlobServed, TreeShaped, Ordered, ParentsRight, IsImage;
    hide ShowsAt, ShowsExactly, NodeAt, Walk, Blocker, Obstacle, Final;
    ghost var xs := Final(ys);
    MountedTree(source, ys, d, f, chunkbits, fs.reader);
    RootNumber(fs.reader, xs, f, chunkbits, 0);
    res := ResolvePath(fs, xs, f, chunkbits, FUSE_ROOT_ID, 0, path);
    ImageShowsTree(source, ys, d, f, chunkbits, fs.reader, path);
    match NodeAt(source, path)
    case Found(n) => NumberShows(fs.reader, xs, f, chunkbits, Walk(xs, 0, path).idx, n, d, path);
    case NoDirectory =>
      if Blocker(source, path).body.FileBody? || SizeOf(Blocker(source, path)) == 0 {
        ObstacleReplies(xs[Obstacle(xs, 0, path)], Blocker(source, path));
      }
    case NoEntry =>
  }

  /** What an inode shows, it shows under its number. */
  lemma NumberShows(r: ErofsReader, xs: seq<InodeInfo>, f: Facts, chunkbits: nat, i: nat, n: Node, d: Device,
                    path: seq<seq<byte>>)
    requires Mounted(r, xs, f, chunkbits) && i < |xs| && ShowsAt(r, xs, i, n, d, f.epoch, path)
    ensures ToIno(r, xs[i].nid) < TWO_64
    ensures var nid := ToNid(r, ToIno(r, xs[i].nid));
            ShowsExactly(r, nid, n, d, f.epoch) && (WithinLimits(n, d) ==> Shows(r, nid, n, f.epoch))
  {
    hide ShowsExactly, Shows, WithinLimits;
    InodePresent(r, xs, f, chunkbits, i);
    RootIno(r, xs[i].nid);
  }

  lemma ObstacleReplies(x: InodeInfo, m: Node)
    requires Obstructs(x, m) && (m.body.FileBody? || SizeOf(m) == 0)
    ensures Certain(x) && BelowFile(x) == if SizeOf(m) == 0 then Enoent else InvalidData
  {
  }
}
