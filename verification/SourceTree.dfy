/** From a source tree to the builder's inodes: `build_tree` (src/build/inode.rs). */
module SourceTree {
  import opened Bytes
  import opened Metadata
  import opened Chunks
  import opened Xattrs
  import opened InodeBuild
  import opened BlobChunk
  import opened Wiring
  import opened InodeRead
  import opened TreeRead

  // ------------------------------------------------------------------
  // Source trees
  // ------------------------------------------------------------------

  /** What `lstat` reports; `dev` and `ino` identify the file on the host. */
  datatype Stat = Stat(mode: nat, uid: nat, gid: nat, size: nat, mtime: nat, mtimeNsec: nat, nlink: nat,
                       rdev: nat, dev: nat, ino: nat)

  /** A file of the source tree; the entries of a directory come sorted by name. */
  datatype Node = Node(stat: Stat, xattrs: seq<NamedValue>, body: Body)

  datatype Body =
    | DirBody(entries: seq<NamedNode>)
    | FileBody(content: seq<byte>)
    | LinkBody(target: seq<byte>)
    | OtherBody

  datatype NamedNode = NamedNode(name: seq<byte>, node: Node)

  /** `mode & S_IFMT`, as the four-bit file type. */
  function TypeBits(mode: nat): nat {
    mode / 4096
  }

  /** `mode_to_file_type`. */
  function ModeToFileType(mode: nat): byte {
    var t := TypeBits(mode);
    if t == 8 then 1 else if t == 4 then EROFS_FT_DIR else if t == 2 then 3 else if t == 6 then 4
    else if t == 1 then 5 else if t == 12 then 6 else if t == 10 then 7 else 0
  }

  /** The kernel's guarantees about a single file: types and ranges. */
  predicate StatOk(n: Node) {
    && n.stat.mode < TWO_16 && n.stat.uid < TWO_32 && n.stat.gid < TWO_32 && n.stat.size < TWO_64
    && n.stat.mtime < TWO_64 && n.stat.mtimeNsec < TWO_32 && n.stat.nlink < TWO_32 && n.stat.rdev < TWO_32
    && (TypeBits(n.stat.mode) == 4 <==> n.body.DirBody?)
    && (n.body.LinkBody? ==> |n.body.target| < TWO_32)
  }

  /** A source tree: the guarantees at every file, the names of a directory valid. */
  predicate SourceOk(n: Node)
    decreases n
  {
    StatOk(n) && (n.body.DirBody? ==>
      forall k :: 0 <= k < |n.body.entries| ==> NameOk(n.body.entries[k].name) && SourceOk(n.body.entries[k].node))
  }

  type HostKey = (nat, nat)

  function KeyOf(n: Node): HostKey {
    (n.stat.dev, n.stat.ino)
  }

  /** Whether the builder looks for earlier links to the file. */
  predicate MaybeShared(n: Node) {
    !n.body.DirBody? && n.stat.nlink > 1
  }

  /** Device and inode number identify the files with several links. */
  ghost predicate Consistent(n: Node, host: map<HostKey, Node>)
    decreases n
  {
    && (MaybeShared(n) ==> KeyOf(n) in host && host[KeyOf(n)] == n)
    && (n.body.DirBody? ==>
        forall k :: 0 <= k < |n.body.entries| ==> Consistent(n.body.entries[k].node, host))
  }

  /** No file is shorter than its recorded size. */
  predicate Readable(n: Node)
    decreases n
  {
    && (n.body.FileBody? ==> n.stat.size <= |n.body.content|)
    && (n.body.DirBody? ==> forall k :: 0 <= k < |n.body.entries| ==> Readable(n.body.entries[k].node))
  }

  // ------------------------------------------------------------------
  // Single inodes
  // ------------------------------------------------------------------

  /** The xattrs whose names start with a known prefix, split; the others are dropped. */
  function KeptXattrs(list: seq<NamedValue>): seq<Xattr> {
    if list == [] then [] else
    var split := XattrNameSplit(list[0].0);
    if split.None? then KeptXattrs(list[1..])
    else [Xattr(split.value.0, split.value.1, list[0].1)] + KeptXattrs(list[1..])
  }

  function Supported(list: seq<NamedValue>): seq<NamedValue> {
    if list == [] then []
    else if XattrNameSplit(list[0].0).None? then Supported(list[1..])
    else [list[0]] + Supported(list[1..])
  }

  /** Read back with their prefixes, the kept xattrs have the names they had. */
  lemma {:induction false} KeptNames(list: seq<NamedValue>)
    ensures Named(XattrPrefix, KeptXattrs(list)) == Supported(list)
  {
    if list != [] {
      KeptNames(list[1..]);
      XattrSplitSound(list[0].0);
      var split := XattrNameSplit(list[0].0);
      if split.Some? {
        var kept := KeptXattrs(list[1..]);
        var x := Xattr(split.value.0, split.value.1, list[0].1);
        assert ([x] + kept)[1..] == kept;
      }
    }
  }

  /** Character and block devices. */
  predicate IsDevice(s: Stat) {
    TypeBits(s.mode) == 2 || TypeBits(s.mode) == 6
  }

  /** The rule for the 64-byte header. */
  predicate IsExtended(s: Stat) {
    s.size > 0xFFFF_FFFF || s.uid > 0xFFFF || s.gid > 0xFFFF || s.nlink > 1
  }

  function SizeOf(n: Node): nat {
    match n.body
    case FileBody(_) => n.stat.size
    case LinkBody(target) => |target|
    case _ => 0
  }

  function InodeOf(n: Node, ino: nat, data: InodeData): InodeInfo {
    InodeInfo(n.stat.mode, n.stat.uid, n.stat.gid, SizeOf(n), n.stat.mtime, n.stat.mtimeNsec, n.stat.nlink, ino,
              0, 0, IsExtended(n.stat), data, KeptXattrs(n.xattrs))
  }

  /** The blob device and how it is written. */
  datatype Device = Device(blob: Blob, hash: Hash, cs: nat)

  ghost predicate DeviceOk(d: Device) {
    d.cs > 0 && Good(d.blob, d.hash)
  }

  /** On the host of the tree, device and inode number identify the files with several links. */
  ghost predicate FromOneHost(n: Node) {
    exists host :: Consistent(n, host)
  }

  /** The type-specific data of a file that is no directory. */
  predicate LeafData(n: Node, data: InodeData, d: Device) {
    match n.body
    case DirBody(_) => false
    case FileBody(content) =>
      d.cs > 0 && n.stat.size <= |content| && data.RegularFile?
      && Indexed(d.blob, d.hash, ChunksOf(content[..n.stat.size], d.cs), data.chunkIndexes)
    case LinkBody(target) => data == Symlink(target)
    case OtherBody => data == if IsDevice(n.stat) then SpecialDev(n.stat.rdev) else SpecialNoData
  }

  /** Inode `idx` and what it refers to represent the file `n`; the directories among them are not before `lo`. */
  predicate Represents(n: Node, idx: nat, lo: nat, xs: seq<InodeInfo>, d: Device)
    decreases n
  {
    && idx < |xs| && xs[idx] == InodeOf(n, xs[idx].ino, xs[idx].data)
    && if n.body.DirBody? then
         && lo <= idx && xs[idx].data.Directory? && |xs[idx].data.children| == |n.body.entries|
         && forall k :: 0 <= k < |n.body.entries| ==>
              EntryRepresents(n.body.entries[k], xs[idx].data.children[k], idx + 1, xs, d)
       else LeafData(n, xs[idx].data, d)
  }

  predicate EntryRepresents(e: NamedNode, c: DirEntry, lo: nat, xs: seq<InodeInfo>, d: Device)
    decreases e
  {
    c.name == e.name && c.fileType == ModeToFileType(e.node.stat.mode) && Represents(e.node, c.inodeIdx, lo, xs, d)
  }

  /** `ys` extends `xs` and differs from it only in directories before `lo`. */
  ghost predicate Framed(xs: seq<InodeInfo>, ys: seq<InodeInfo>, lo: nat) {
    |xs| <= |ys| && forall i :: 0 <= i < |xs| && (i >= lo || !xs[i].data.Directory?) ==> ys[i] == xs[i]
  }

  ghost predicate DeviceGrows(d: Device, e: Device) {
    DeviceOk(d) && e.hash == d.hash && e.cs == d.cs && Grows(d.blob, e.blob)
  }

  /** Later work on other inodes and on the blob does not disturb what represents a file. */
  lemma {:induction false} RepresentsKept(n: Node, idx: nat, lo: nat, min: nat, xs: seq<InodeInfo>, ys: seq<InodeInfo>,
                                          d: Device, e: Device)
    requires Represents(n, idx, lo, xs, d) && Framed(xs, ys, lo) && DeviceGrows(d, e) && min <= lo
    ensures Represents(n, idx, min, ys, e)
    decreases n
  {
    if n.body.DirBody? {
      forall k | 0 <= k < |n.body.entries|
        ensures EntryRepresents(n.body.entries[k], ys[idx].data.children[k], idx + 1, ys, e)
      {
        assert EntryRepresents(n.body.entries[k], xs[idx].data.children[k], idx + 1, xs, d);
        RepresentsKept(n.body.entries[k].node, xs[idx].data.children[k].inodeIdx, idx + 1, idx + 1, xs, ys, d, e);
      }
    } else {
      LeafKept(n, xs[idx].data, d, e);
    }
  }

  lemma LeafKept(n: Node, data: InodeData, d: Device, e: Device)
    requires LeafData(n, data, d) && DeviceGrows(d, e)
    ensures LeafData(n, data, e)
  {
    if n.body.FileBody? {
      IndexedStays(d.blob, e.blob, d.hash, ChunksOf(n.body.content[..n.stat.size], d.cs), data.chunkIndexes);
    }
  }

  // ------------------------------------------------------------------
  // The shape of the inode list
  // ------------------------------------------------------------------

  /** What holds of every inode on its own. */
  predicate Sound(x: InodeInfo, count: nat) {
    && InodeBuild.Typed(x) && (x.isExtended || (x.uid < TWO_16 && x.gid < TWO_16))
    && (if x.data.Directory? then
          forall k :: 0 <= k < |x.data.children| ==>
            x.data.children[k].inodeIdx < count && NameOk(x.data.children[k].name)
        else Fits(x))
  }

  /** The inodes that some entries name as directories. */
  function DirsIn(es: seq<DirEntry>): set<nat> {
    if es == [] then {} else
    var last := es[|es| - 1];
    DirsIn(es[..|es| - 1]) + if last.fileType == EROFS_FT_DIR then {last.inodeIdx} else {}
  }

  function Dirs(x: InodeInfo): set<nat> {
    if x.data.Directory? then DirsIn(x.data.children) else {}
  }

  ghost predicate ListedFrom(xs: seq<InodeInfo>, lo: nat, i: nat) {
    exists j: nat :: lo <= j < |xs| && i in Dirs(xs[j])
  }

  ghost predicate AllSound(xs: seq<InodeInfo>, lo: nat) {
    forall j: nat :: lo <= j < |xs| ==> Sound(xs[j], |xs|)
  }

  /** Only directories are listed as such, and only by directories before them. */
  ghost predicate EdgesDown(xs: seq<InodeInfo>, lo: nat) {
    forall j: nat, i: nat {:trigger i in Dirs(xs[j])} :: lo <= j < |xs| && i in Dirs(xs[j]) ==>
      j < i < |xs| && xs[i].data.Directory?
  }

  ghost predicate ListedOnce(xs: seq<InodeInfo>, lo: nat) {
    forall i: nat, j: nat, l: nat {:trigger i in Dirs(xs[j]), i in Dirs(xs[l])} ::
      lo <= j < |xs| && lo <= l < |xs| && i in Dirs(xs[j]) && i in Dirs(xs[l]) ==> j == l
  }

  /** From `lo` on, directories are only listed by directories before them, at most once. */
  ghost predicate Forest(xs: seq<InodeInfo>, lo: nat) {
    AllSound(xs, lo) && EdgesDown(xs, lo) && ListedOnce(xs, lo)
  }

  /** A finished subtree: what starts at `lo` is a forest in which only `lo` itself is not listed. */
  ghost predicate Subtree(xs: seq<InodeInfo>, lo: nat) {
    && lo < |xs| && Forest(xs, lo)
    && forall i: nat :: lo < i < |xs| && xs[i].data.Directory? ==> ListedFrom(xs, lo, i)
  }

  /** The subtrees of some children of a directory: only their roots are not listed yet. */
  ghost predicate Children(xs: seq<InodeInfo>, lo: nat, es: seq<DirEntry>) {
    && lo <= |xs| && Forest(xs, lo)
    && (forall i: nat :: lo <= i < |xs| && xs[i].data.Directory? ==> ListedFrom(xs, lo, i) || i in DirsIn(es))
    && (forall i: nat :: i in DirsIn(es) ==> lo <= i < |xs| && xs[i].data.Directory? && !ListedFrom(xs, lo, i))
  }

  lemma SoundJoin(xs: seq<InodeInfo>, ys: seq<InodeInfo>, lo: nat)
    requires lo <= |xs| <= |ys| && xs == ys[..|xs|] && AllSound(xs, lo) && AllSound(ys, |xs|)
    ensures AllSound(ys, lo)
  {
    forall j: nat | lo <= j < |ys| ensures Sound(ys[j], |ys|) {
      if j < |xs| {
        assert Sound(xs[j], |xs|) && xs[j] == ys[j];
      }
    }
  }

  /** An edge of two forests one behind the other is an edge of one of them. */
  lemma JoinedEdge(xs: seq<InodeInfo>, ys: seq<InodeInfo>, lo: nat, j: nat, i: nat)
    requires lo <= |xs| <= |ys| && xs == ys[..|xs|] && Forest(xs, lo) && Forest(ys, |xs|)
    requires lo <= j < |ys| && i in Dirs(ys[j])
    ensures j < i < |ys| && ys[i].data.Directory?
    ensures j < |xs| <==> i < |xs|
    ensures j < |xs| ==> i in Dirs(xs[j])
  {
    if j < |xs| {
      assert xs[j] == ys[j];
      assert xs[i] == ys[i];
    }
  }

  /** Two forests one behind the other are a forest. */
  lemma ForestJoin(xs: seq<InodeInfo>, ys: seq<InodeInfo>, lo: nat)
    requires lo <= |xs| <= |ys| && xs == ys[..|xs|] && Forest(xs, lo) && Forest(ys, |xs|)
    ensures Forest(ys, lo)
  {
    SoundJoin(xs, ys, lo);
    forall j: nat, i: nat {:trigger i in Dirs(ys[j])} | lo <= j < |ys| && i in Dirs(ys[j])
      ensures j < i < |ys| && ys[i].data.Directory?
    {
      JoinedEdge(xs, ys, lo, j, i);
    }
    forall i: nat, j: nat, l: nat {:trigger i in Dirs(ys[j]), i in Dirs(ys[l])} |
      lo <= j < |ys| && lo <= l < |ys| && i in Dirs(ys[j]) && i in Dirs(ys[l])
      ensures j == l
    {
      JoinedEdge(xs, ys, lo, j, i);
      JoinedEdge(xs, ys, lo, l, i);
    }
  }

  lemma DirsInMore(es: seq<DirEntry>, e: DirEntry)
    ensures DirsIn(es + [e]) == DirsIn(es) + if e.fileType == EROFS_FT_DIR then {e.inodeIdx} else {}
  {
    assert (es + [e])[..|es|] == es;
  }

  /** An inode that is no directory is a subtree by itself. */
  lemma LeafSubtree(xs: seq<InodeInfo>, x: InodeInfo)
    requires !x.data.Directory? && Sound(x, |xs| + 1)
    ensures Subtree(xs + [x], |xs|)
  {
  }

  /** The subtree of one more child. */
  lemma ChildAdded(xs: seq<InodeInfo>, ys: seq<InodeInfo>, lo: nat, es: seq<DirEntry>, e: DirEntry)
    requires Children(xs, lo, es) && |xs| <= |ys| && ys[..|xs|] == xs && Subtree(ys, |xs|)
    requires e.inodeIdx == |xs| && (e.fileType == EROFS_FT_DIR <==> ys[|xs|].data.Directory?)
    ensures Children(ys, lo, es + [e])
  {
    ForestJoin(xs, ys, lo);
    DirsInMore(es, e);
    forall i: nat | lo <= i < |ys| && ys[i].data.Directory? ensures ListedFrom(ys, lo, i) || i in DirsIn(es + [e]) {
      if i < |xs| {
        assert xs[i] == ys[i];
        if ListedFrom(xs, lo, i) {
          var j: nat :| lo <= j < |xs| && i in Dirs(xs[j]);
          assert ys[j] == xs[j];
        }
      } else if i > |xs| {
        var j: nat :| |xs| <= j < |ys| && i in Dirs(ys[j]);
      }
    }
    forall i: nat | i in DirsIn(es + [e]) ensures lo <= i < |ys| && ys[i].data.Directory? && !ListedFrom(ys, lo, i) {
      assert i < |xs| ==> xs[i] == ys[i];
      if ListedFrom(ys, lo, i) {
        var j: nat :| lo <= j < |ys| && i in Dirs(ys[j]);
        JoinedEdge(xs, ys, lo, j, i);
        assert ListedFrom(xs, lo, i);
      }
    }
  }

  /** One more link to a file that has an inode already. */
  lemma LinkAdded(xs: seq<InodeInfo>, lo: nat, es: seq<DirEntry>, e: DirEntry)
    requires Children(xs, lo, es) && e.fileType != EROFS_FT_DIR
    ensures Children(xs, lo, es + [e])
  {
    DirsInMore(es, e);
  }

  /** A directory that gets its children closes its subtree. */
  lemma DirectoryClosed(xs: seq<InodeInfo>, d: nat, z: InodeInfo)
    requires d < |xs| && z.data.Directory? && Children(xs, d + 1, z.data.children) && Sound(z, |xs|)
    ensures Subtree(xs[d := z], d)
  {
    var ys := xs[d := z];
    forall i: nat | d < i < |ys| && ys[i].data.Directory? ensures ListedFrom(ys, d, i) {
      if ListedFrom(xs, d + 1, i) {
        var j: nat :| d + 1 <= j < |xs| && i in Dirs(xs[j]);
        assert ys[j] == xs[j];
      } else {
        assert i in Dirs(ys[d]);
      }
    }
    ClosedEdges(xs, d, z);
  }

  lemma ClosedEdges(xs: seq<InodeInfo>, d: nat, z: InodeInfo)
    requires d < |xs| && z.data.Directory? && Children(xs, d + 1, z.data.children) && Sound(z, |xs|)
    ensures Forest(xs[d := z], d)
  {
    var ys := xs[d := z];
    forall j: nat | d <= j < |ys| ensures Sound(ys[j], |ys|) {
      assert j != d ==> ys[j] == xs[j];
    }
    forall j: nat, i: nat {:trigger i in Dirs(ys[j])} | d <= j < |ys| && i in Dirs(ys[j])
      ensures j < i < |ys| && ys[i].data.Directory? && (j == d <==> i in DirsIn(z.data.children))
    {
      ClosedEdge(xs, d, z, j, i);
    }
    forall i: nat, j: nat, l: nat {:trigger i in Dirs(ys[j]), i in Dirs(ys[l])} |
      d <= j < |ys| && d <= l < |ys| && i in Dirs(ys[j]) && i in Dirs(ys[l])
      ensures j == l
    {
      ClosedEdge(xs, d, z, j, i);
      ClosedEdge(xs, d, z, l, i);
    }
  }

  lemma ClosedEdge(xs: seq<InodeInfo>, d: nat, z: InodeInfo, j: nat, i: nat)
    requires d <= j < |xs| && z.data.Directory? && Children(xs, d + 1, z.data.children) && i in Dirs(xs[d := z][j])
    ensures j < i < |xs| && xs[i].data.Directory? && (j == d <==> i in DirsIn(z.data.children))
    ensures j != d ==> i in Dirs(xs[j])
  {
    if j != d {
      assert xs[d := z][j] == xs[j];
      assert ListedFrom(xs, d + 1, i);
    }
  }

  // ------------------------------------------------------------------
  // What the next phase relies on
  // ------------------------------------------------------------------

  lemma {:induction false} DirsInAre(es: seq<DirEntry>, i: nat)
    ensures i in DirsIn(es) <==> ListsUpTo(es, i, |es|)
  {
    if es != [] {
      var init, last := es[..|es| - 1], es[|es| - 1];
      DirsInAre(init, i);
      if ListsUpTo(es, i, |es|) {
        var k :| 0 <= k < |es| && es[k].fileType == EROFS_FT_DIR && es[k].inodeIdx == i;
        assert k < |es| - 1 ==> init[k] == es[k];
      }
      if ListsUpTo(init, i, |init|) {
        var k :| 0 <= k < |init| && init[k].fileType == EROFS_FT_DIR && init[k].inodeIdx == i;
        assert es[k] == init[k];
      }
      if last.fileType == EROFS_FT_DIR && last.inodeIdx == i {
        assert es[|es| - 1] == last;
      }
    }
  }

  lemma ListsAreDirs(x: InodeInfo, i: nat)
    ensures Lists(x, i) <==> i in Dirs(x)
  {
    if x.data.Directory? {
      DirsInAre(x.data.children, i);
    }
  }

  /** The inodes of a source tree form a tree with valid names, in which containers come first. */
  lemma SubtreeIsTree(xs: seq<InodeInfo>)
    requires Subtree(xs, 0) && xs[0].data.Directory?
    ensures TreeShaped(xs) && Ordered(xs)
  {
    assert InRange(xs) by {
      assert forall i :: 0 <= i < |xs| ==> Sound(xs[i], |xs|);
    }
    forall j: nat, i: nat {:trigger Lists(xs[j], i)} | j < |xs| ensures Lists(xs[j], i) <==> i in Dirs(xs[j]) {
      ListsAreDirs(xs[j], i);
    }
    forall i: nat | 0 < i < |xs| && xs[i].data.Directory? ensures exists j :: 0 <= j < |xs| && Lists(xs[j], i) {
      assert ListedFrom(xs, 0, i);
      var j: nat :| 0 <= j < |xs| && i in Dirs(xs[j]);
      assert Lists(xs[j], i);
    }
  }

  lemma SubtreeSound(xs: seq<InodeInfo>)
    requires Subtree(xs, 0)
    ensures NamesOk(xs) && InRange(xs) && forall i :: 0 <= i < |xs| ==> InodeBuild.Typed(xs[i])
  {
    assert forall i :: 0 <= i < |xs| ==> Sound(xs[i], |xs|);
  }

  lemma LeafSound(n: Node, ino: nat, data: InodeData, d: Device, count: nat)
    requires StatOk(n) && ino < TWO_32 && LeafData(n, data, d)
    ensures !data.Directory? && Sound(InodeOf(n, ino, data), count)
  {
  }
}
