/** When the mounted image shows a file of the source tree: attributes, xattrs, listings and data of one inode. */
module Shown {
  import opened Bytes
  import opened Metadata
  import opened Chunks
  import opened Inodes
  import opened Xattrs
  import opened Dirents
  import opened DirBlocks
  import opened InodeBuild
  import opened BlobChunk
  import opened Wiring
  import opened Mkfs
  import opened Image
  import opened Builder
  import opened SourceTree
  import opened Reader
  import opened FileData
  import opened DirReader
  import opened InodeRead
  import opened TreeRead

  // ------------------------------------------------------------------
  // What a file of the source tree looks like
  // ------------------------------------------------------------------

  /** The encoded xattrs are within the limit of their count. */
  predicate BodyWithin(n: Node) {
    IbodySize(KeptXattrs(n.xattrs)) <= MAX_IBODY_SIZE
  }

  /** And so is the length of every suffix and of every value. */
  predicate XattrsWithin(n: Node) {
    AllFit(KeptXattrs(n.xattrs)) && BodyWithin(n)
  }

  predicate StartsPlain(target: seq<byte>) {
    target != [] ==> target[0] != 0
  }

  /** No chunk of the file has the digest of a different chunk. */
  ghost predicate Unmixed(n: Node, d: Device) {
    d.cs > 0 && (n.body.FileBody? && n.stat.size <= |n.body.content| ==>
                   CollisionFree(d.blob, d.hash, ChunksOf(n.body.content[..n.stat.size], d.cs)))
  }

  /** The format's limits, and no two chunks with one digest. */
  ghost predicate WithinLimits(n: Node, d: Device) {
    && XattrsWithin(n) && Unmixed(n, d)
    && (n.body.LinkBody? ==> |n.body.target| < 4096 && StartsPlain(n.body.target))
  }

  /** The part of `content` that a read of `size` bytes at `offset` should give. */
  function Window(content: seq<byte>, offset: nat, size: nat): seq<byte> {
    content[Min(offset, |content|)..Min(offset + size, |content|)]
  }

  /**
   * The reader of an image of the given epoch shows the file `n` at `nid`: attributes, xattrs, every read of
   * its data.
   */
  ghost predicate Shows(r: ErofsReader, nid: nat, n: Node, epoch: nat) {
    ReadInode(r, nid).Ok? && ShowsAs(r, nid, ReadInode(r, nid).value, n, epoch)
  }

  ghost predicate ShowsAs(r: ErofsReader, nid: nat, v: ErofsInode, n: Node, epoch: nat) {
    && AttributesAs(v, n.stat, epoch)
    && XattrsOf(r, nid, v) == Ok(Supported(n.xattrs))
    && match n.body
       case DirBody(entries) => ListsAs(r, nid, v, entries)
       case FileBody(content) => n.stat.size <= |content| && ServesFile(r, nid, v, content[..n.stat.size])
       case LinkBody(target) => ReadSymlink(r, nid, v) == Ok(target)
       case OtherBody => IsDevice(n.stat) ==> v.h.iU == n.stat.rdev
  }

  /**
   * The same for files beyond the limits: attributes and listings are always right, the xattrs come back exactly
   * when they are within the limits, and behind an xattr body within its limit the target of a symlink comes back
   * exactly when it is shorter than a block, the content of a file when no digest is shared.
   */
  ghost predicate ShowsExactly(r: ErofsReader, nid: nat, n: Node, d: Device, epoch: nat) {
    ReadInode(r, nid).Ok? && ShowsJust(r, nid, ReadInode(r, nid).value, n, d, epoch)
  }

  ghost predicate ShowsJust(r: ErofsReader, nid: nat, v: ErofsInode, n: Node, d: Device, epoch: nat) {
    && AttributesAs(v, n.stat, epoch)
    && (XattrsOf(r, nid, v) == Ok(Supported(n.xattrs)) <==> XattrsWithin(n))
    && match n.body
       case DirBody(entries) => ListsAs(r, nid, v, entries)
       case FileBody(content) =>
         n.stat.size <= |content|
         && (BodyWithin(n) && Unmixed(n, d) ==> ServesFile(r, nid, v, content[..n.stat.size]))
       case LinkBody(target) =>
         BodyWithin(n) && StartsPlain(target) ==> (ReadSymlink(r, nid, v) == Ok(target) <==> |target| < 4096)
       case OtherBody => IsDevice(n.stat) ==> v.h.iU == n.stat.rdev
  }

  lemma WithinShows(r: ErofsReader, nid: nat, n: Node, d: Device, epoch: nat)
    requires ShowsExactly(r, nid, n, d, epoch) && WithinLimits(n, d)
    ensures Shows(r, nid, n, epoch)
  {
    hide AttributesAs, ListsAs, ServesFile, XattrsOf, ReadSymlink, ReadInode, Unmixed;
  }

  /**
   * Mode and owner; the mtime of a compact inode exactly within 2^32 seconds from the epoch, the link count
   * exactly when it is 1, the nanoseconds exactly when there are none.
   */
  ghost predicate AttributesAs(v: ErofsInode, s: Stat, epoch: nat) {
    && v.h.mode == s.mode && v.h.uid == s.uid && v.h.gid == s.gid
    && (Mtime(v, epoch) == s.mtime <==> IsExtended(s) || (s.mtime + TWO_64 - epoch) % TWO_64 < TWO_32)
    && (v.h.nlink == s.nlink <==> IsExtended(s) || s.nlink == 1)
    && (v.h.mtimeNsec == s.mtimeNsec <==> IsExtended(s) || s.mtimeNsec == 0)
  }

  /** The directory lists as itself, its parent, and the entries of the source directory in order, with their types. */
  ghost predicate ListsAs(r: ErofsReader, nid: nat, v: ErofsInode, entries: seq<NamedNode>) {
    Listing(r, nid, v).Ok? && ListOf(Listing(r, nid, v).value, nid, entries)
  }

  ghost predicate ListOf(got: seq<Entry>, nid: nat, entries: seq<NamedNode>) {
    && |got| == |entries| + 2
    && got[0] == Entry(nid, EROFS_FT_DIR, DOT) && got[1].name == DOTDOT && got[1].fileType == EROFS_FT_DIR
    && forall k :: 0 <= k < |entries| ==>
         got[k + 2].name == entries[k].name && got[k + 2].fileType == ModeToFileType(entries[k].node.stat.mode)
  }

  ghost predicate ServesFile(r: ErofsReader, nid: nat, v: ErofsInode, content: seq<byte>) {
    forall offset: nat, size: nat :: FileRead(r, nid, v, offset, size) == Some(Window(content, offset, size))
  }

  /** The blob that goes with the image: small enough that every block of it has a 48-bit address. */
  ghost predicate BlobServed(r: ErofsReader, d: Device) {
    DeviceOk(d) && r.blobMmap == Some(d.blob.file) && |d.blob.file| <= TWO_48 * 4096
  }

  lemma ChunksNotEmpty(content: seq<byte>, cs: nat)
    requires cs > 0
    ensures forall k :: 0 <= k < |ChunksOf(content, cs)| ==> ChunksOf(content, cs)[k] != []
  {
    var cs0 := ChunksOf(content, cs);
    forall k | 0 <= k < |cs0| ensures cs0[k] != [] {
      assert |cs0[k]| == |PieceAt(content, cs, k * cs)|;
    }
  }

  lemma FileShown(r: ErofsReader, nid: nat, x: InodeInfo, epoch: nat, chunkbits: nat, n: Node, d: Device)
    requires Args(x, epoch, chunkbits) && Present(r, nid, x, epoch, chunkbits) && Fits(x) && BodyFits(x)
    requires Blkszbits(r) == EROFS_BLKSZBITS && BlobServed(r, d) && d.cs == Pow2(chunkbits) && Unmixed(n, d)
    requires n.body.FileBody? && LeafData(n, x.data, d) && x.size == n.stat.size
    ensures ServesFile(r, nid, ViewOf(x, epoch, chunkbits), n.body.content[..n.stat.size])
  {
    var content, cis := n.body.content[..n.stat.size], x.data.chunkIndexes;
    TailKept(x, epoch, chunkbits);
    ChunksNotEmpty(content, d.cs);
    IndexesAddressable(d.blob, d.hash, ChunksOf(content, d.cs), cis);
    BlobServesFile(d.blob, d.hash, r, content, d.cs, cis);
    forall offset: nat, size: nat
      ensures FileRead(r, nid, ViewOf(x, epoch, chunkbits), offset, size) == Some(Window(content, offset, size))
    {
      FileReads(r, nid, x, epoch, chunkbits, content, offset, size);
    }
  }

  lemma LinkShown(r: ErofsReader, nid: nat, x: InodeInfo, epoch: nat, chunkbits: nat, n: Node, d: Device)
    requires Args(x, epoch, chunkbits) && Present(r, nid, x, epoch, chunkbits) && Fits(x) && BodyFits(x)
    requires r.mmap[0] == 0 && n.body.LinkBody? && StartsPlain(n.body.target)
    requires LeafData(n, x.data, d) && x.size == SizeOf(n)
    ensures ReadSymlink(r, nid, ViewOf(x, epoch, chunkbits)) == Ok(n.body.target) <==> |n.body.target| < 4096
  {
    SymlinkExact(r, nid, x, epoch, chunkbits);
  }

  /** The inode `x` was made from the file `n`. */
  ghost predicate MadeFrom(x: InodeInfo, n: Node, d: Device) {
    && x.mode == n.stat.mode && x.uid == n.stat.uid && x.gid == n.stat.gid && x.mtime == n.stat.mtime
    && x.nlink == n.stat.nlink && x.mtimeNsec == n.stat.mtimeNsec
    && x.isExtended == IsExtended(n.stat) && x.xattrs == KeptXattrs(n.xattrs)
    && (!n.body.DirBody? ==> x.size == SizeOf(n) && LeafData(n, x.data, d))
  }

  lemma AttributesShown(x: InodeInfo, epoch: nat, chunkbits: nat, n: Node, d: Device)
    requires Args(x, epoch, chunkbits) && Fits(x) && MadeFrom(x, n, d)
    ensures AttributesAs(ViewOf(x, epoch, chunkbits), n.stat, epoch)
  {
    AttributesPreserved(x, epoch, chunkbits);
  }

  lemma XattrsShown(r: ErofsReader, nid: nat, x: InodeInfo, epoch: nat, chunkbits: nat, n: Node)
    requires Args(x, epoch, chunkbits) && Present(r, nid, x, epoch, chunkbits) && Fits(x)
    requires x.xattrs == KeptXattrs(n.xattrs)
    ensures BodyFits(x) <==> BodyWithin(n)
    ensures XattrsOf(r, nid, ViewOf(x, epoch, chunkbits)) == Ok(Supported(n.xattrs)) <==> XattrsWithin(n)
  {
    XattrsExact(r, nid, x, epoch, chunkbits);
    KeptNames(n.xattrs);
  }

  /** An inode that was made from a file and is present in the image shows the file as far as it can. */
  lemma InodeShows(r: ErofsReader, nid: nat, x: InodeInfo, epoch: nat, chunkbits: nat, n: Node, d: Device)
    requires Args(x, epoch, chunkbits) && Present(r, nid, x, epoch, chunkbits) && Fits(x)
    requires Blkszbits(r) == EROFS_BLKSZBITS && BlobServed(r, d) && d.cs == Pow2(chunkbits)
    requires r.mmap[0] == 0 && MadeFrom(x, n, d)
    requires n.body.DirBody? ==> ListsAs(r, nid, ViewOf(x, epoch, chunkbits), n.body.entries)
    ensures ShowsExactly(r, nid, n, d, epoch)
  {
    ReadInodeExact(r, nid, x, epoch, chunkbits);
    ViewShows(r, nid, x, ViewOf(x, epoch, chunkbits), epoch, chunkbits, n, d);
  }

  lemma ViewShows(r: ErofsReader, nid: nat, x: InodeInfo, v: ErofsInode, epoch: nat, chunkbits: nat, n: Node, d: Device)
    requires Args(x, epoch, chunkbits) && Present(r, nid, x, epoch, chunkbits) && Fits(x)
    requires Blkszbits(r) == EROFS_BLKSZBITS && BlobServed(r, d) && d.cs == Pow2(chunkbits)
    requires r.mmap[0] == 0 && MadeFrom(x, n, d) && v == ViewOf(x, epoch, chunkbits)
    requires n.body.DirBody? ==> ListsAs(r, nid, v, n.body.entries)
    ensures ShowsJust(r, nid, v, n, d, epoch)
  {
    hide AttributesAs, ListsAs, ServesFile, XattrsOf, ReadSymlink;
    AttributesShown(x, epoch, chunkbits, n, d);
    XattrsShown(r, nid, x, epoch, chunkbits, n);
    if n.body.LinkBody? {
      if BodyWithin(n) && StartsPlain(n.body.target) {
        LinkShown(r, nid, x, epoch, chunkbits, n, d);
      }
    } else if n.body.FileBody? {
      if BodyWithin(n) && Unmixed(n, d) {
        FileShown(r, nid, x, epoch, chunkbits, n, d);
      }
    } else if n.body.OtherBody? {
      AttributesPreserved(x, epoch, chunkbits);
    }
  }

  lemma EntriesShown(xs: seq<InodeInfo>, cs: seq<DirEntry>, es: seq<NamedNode>, nid: nat, parent: nat)
    requires forall k :: 0 <= k < |cs| ==> cs[k].inodeIdx < |xs|
    requires |cs| == |es| && forall k :: 0 <= k < |es| ==>
               cs[k].name == es[k].name && cs[k].fileType == ModeToFileType(es[k].node.stat.mode)
    ensures ListOf(DirEntries(ChildrenOf(xs, cs), nid, parent), nid, es)
  {
    var all, ch := DirEntries(ChildrenOf(xs, cs), nid, parent), ChildEntries(ChildrenOf(xs, cs));
    forall k | 0 <= k < |es|
      ensures all[k + 2].name == es[k].name && all[k + 2].fileType == ModeToFileType(es[k].node.stat.mode)
    {
      assert all[k + 2] == ch[k];
    }
  }

  lemma ChildrenShown(ys: seq<InodeInfo>, xs: seq<InodeInfo>, i: nat, n: Node, d: Device)
    requires SameTree(ys, xs) && InRange(xs) && Represents(n, i, 0, ys, d) && n.body.DirBody?
    ensures i < |xs| && xs[i].data.Directory?
    ensures ListOf(EntriesOf(xs, i), xs[i].nid, n.body.entries)
  {
    assert SameInode(ys[i], xs[i]);
    var es, cs := n.body.entries, ys[i].data.children;
    forall k | 0 <= k < |es|
      ensures cs[k].name == es[k].name && cs[k].fileType == ModeToFileType(es[k].node.stat.mode)
    {
      assert EntryRepresents(es[k], cs[k], i + 1, ys, d);
    }
    EntriesShown(xs, cs, es, xs[i].nid, xs[i].data.parentNid);
  }

  /** A directory that represents a source directory lists its entries. */
  lemma DirectoryShown(r: ErofsReader, ys: seq<InodeInfo>, xs: seq<InodeInfo>, f: Facts, chunkbits: nat, i: nat,
                       n: Node, d: Device)
    requires Mounted(r, xs, f, chunkbits) && ParentsRight(xs) && SameTree(ys, xs)
    requires Represents(n, i, 0, ys, d) && n.body.DirBody?
    ensures i < |xs| && Args(xs[i], f.epoch, chunkbits) && Fits(xs[i])
    ensures ListsAs(r, xs[i].nid, ViewOf(xs[i], f.epoch, chunkbits), n.body.entries)
  {
    ChildrenShown(ys, xs, i, n, d);
    InodePresent(r, xs, f, chunkbits, ParentIdx(xs, i));
    DirectoryLists(r, xs, f, chunkbits, i);
  }

  lemma RepresentedMade(n: Node, idx: nat, ys: seq<InodeInfo>, xs: seq<InodeInfo>, d: Device)
    requires Represents(n, idx, 0, ys, d) && SameTree(ys, xs)
    ensures MadeFrom(xs[idx], n, d)
  {
    assert SameInode(ys[idx], xs[idx]);
  }
}
