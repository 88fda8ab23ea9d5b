/** `build_tree` (src/build/inode.rs): the recursion over the source tree, as a function and as the code runs it. */
module TreeBuild {
  import opened Bytes
  import opened Metadata
  import opened Chunks
  import opened InodeBuild
  import opened BlobChunk
  import opened TreeRead
  import opened SourceTree

  // ------------------------------------------------------------------
  // The recursion as a function
  // ------------------------------------------------------------------

  /** The builder's state: the inodes so far, the counter, the inodes of files with several links, the blob. */
  datatype Build = Build(xs: seq<InodeInfo>, ino: nat, links: map<HostKey, nat>, blob: Blob)

  const START := Build([], 0, map[], EMPTY)

  datatype Params = Params(hash: Hash, cs: nat)

  function DeviceOf(s: Build, p: Params): Device {
    Device(s.blob, p.hash, p.cs)
  }

  /** The blob after a file that is no directory. */
  function BlobAfter(n: Node, b: Blob, p: Params): Blob
    requires Readable(n) && p.cs > 0
  {
    if n.body.FileBody? then
      var chunks := ChunksOf(n.body.content[..n.stat.size], p.cs);
      PutAll(b, p.hash, chunks, |chunks|)
    else b
  }

  /** The data of a file that is no directory, once its chunks are in the blob. */
  function DataOf(n: Node, b: Blob, p: Params): InodeData
    requires Readable(n) && p.cs > 0
  {
    match n.body
    case FileBody(content) => RegularFile(IndexesOf(b, p.hash, ChunksOf(content[..n.stat.size], p.cs)))
    case LinkBody(target) => Symlink(target)
    case _ => if IsDevice(n.stat) then SpecialDev(n.stat.rdev) else SpecialNoData
  }

  function LeafBuilt(n: Node, ino: nat, s: Build, p: Params): Build
    requires Readable(n) && p.cs > 0
  {
    var b := BlobAfter(n, s.blob, p);
    Build(s.xs + [InodeOf(n, ino, DataOf(n, b, p))], ino, s.links, b)
  }

  function NextIno(s: Build): nat {
    (s.ino + 1) % TWO_32
  }

  /** A directory whose children are not known yet. */
  function Opened(n: Node, s: Build): Build {
    Build(s.xs + [InodeOf(n, NextIno(s), Directory([], 0, 0, 0))], NextIno(s), s.links, s.blob)
  }

  /** The directory at `idx` gets its children. */
  function Closed(n: Node, ino: nat, idx: nat, t: Build, children: seq<DirEntry>): Build
    requires idx < |t.xs|
  {
    t.(xs := t.xs[idx := InodeOf(n, ino, Directory(children, 0, 0, 0))])
  }

  /** The file `n` and everything below it, built behind what `s` has. */
  function NodeBuilt(n: Node, s: Build, p: Params): (t: Build)
    requires Readable(n) && p.cs > 0
    ensures |s.xs| < |t.xs|
    decreases n, 0, 0
  {
    if !n.body.DirBody? then LeafBuilt(n, NextIno(s), s, p)
    else
      var (t, children) := EntriesBuilt(n, |n.body.entries|, Opened(n, s), p);
      Closed(n, NextIno(s), |s.xs|, t, children)
  }

  /** The first `k` entries of the directory `n`. */
  function EntriesBuilt(n: Node, k: nat, s: Build, p: Params): (r: (Build, seq<DirEntry>))
    requires Readable(n) && p.cs > 0 && n.body.DirBody? && k <= |n.body.entries|
    ensures |s.xs| <= |r.0.xs| && |r.1| == k
    decreases n.body, 1, k
  {
    if k == 0 then (s, []) else
    var (t, children) := EntriesBuilt(n, k - 1, s, p);
    var (u, child) := EntryBuilt(n.body.entries[k - 1], t, p);
    (u, children + [child])
  }

  /** One entry: a further link to a known inode, or a file to descend into. */
  function EntryBuilt(e: NamedNode, s: Build, p: Params): (r: (Build, DirEntry))
    requires Readable(e.node) && p.cs > 0
    ensures |s.xs| <= |r.0.xs|
    decreases e, 0, 0
  {
    var fileType := ModeToFileType(e.node.stat.mode);
    if MaybeShared(e.node) && KeyOf(e.node) in s.links then
      (s, DirEntry(e.name, fileType, s.links[KeyOf(e.node)]))
    else
      var t := NodeBuilt(e.node, s, p);
      (if MaybeShared(e.node) then t.(links := t.links[KeyOf(e.node) := |s.xs|]) else t,
       DirEntry(e.name, fileType, |s.xs|))
  }

  /** What `build_tree` makes of a source directory. */
  function Tree(source: Node, p: Params): Build
    requires Readable(source) && p.cs > 0
  {
    NodeBuilt(source, START, p)
  }

  // ------------------------------------------------------------------
  // What it builds represents the source
  // ------------------------------------------------------------------

  /** Every remembered link leads to an inode that represents the file it was remembered for. */
  ghost predicate LinksRight(host: map<HostKey, Node>, links: map<HostKey, nat>, xs: seq<InodeInfo>, d: Device) {
    forall key :: key in links ==> key in host && MaybeShared(host[key]) && Represents(host[key], links[key], 0, xs, d)
  }

  lemma LinksKept(host: map<HostKey, Node>, links: map<HostKey, nat>, xs: seq<InodeInfo>, ys: seq<InodeInfo>,
                  d: Device, e: Device)
    requires LinksRight(host, links, xs, d) && Framed(xs, ys, |xs|) && DeviceGrows(d, e)
    ensures LinksRight(host, links, ys, e)
  {
    forall key | key in links
      ensures key in host && MaybeShared(host[key]) && Represents(host[key], links[key], 0, ys, e)
    {
      assert Represents(host[key], links[key], |xs|, xs, d);
      RepresentsKept(host[key], links[key], |xs|, 0, xs, ys, d, e);
    }
  }

  lemma DeviceGrowsOn(a: Device, b: Device, c: Device)
    requires DeviceGrows(a, b) && DeviceGrows(b, c)
    ensures DeviceGrows(a, c)
  {
    GrowsTrans(a.blob, b.blob, c.blob);
  }

  /** The first entries of a directory and the children built from them. */
  ghost predicate Built(entries: seq<NamedNode>, children: seq<DirEntry>, lo: nat, xs: seq<InodeInfo>, d: Device) {
    && |children| <= |entries|
    && forall k :: 0 <= k < |children| ==> EntryRepresents(entries[k], children[k], lo, xs, d)
  }

  lemma BuiltKept(entries: seq<NamedNode>, children: seq<DirEntry>, lo: nat, xs: seq<InodeInfo>, ys: seq<InodeInfo>,
                  d: Device, e: Device)
    requires Built(entries, children, lo, xs, d) && Framed(xs, ys, lo) && DeviceGrows(d, e)
    ensures Built(entries, children, lo, ys, e)
  {
    forall k | 0 <= k < |children| ensures EntryRepresents(entries[k], children[k], lo, ys, e) {
      assert EntryRepresents(entries[k], children[k], lo, xs, d);
      RepresentsKept(entries[k].node, children[k].inodeIdx, lo, lo, xs, ys, d, e);
    }
  }

  /** What holds of the state before and after each file. */
  ghost predicate Sane(s: Build, p: Params, host: map<HostKey, Node>) {
    s.ino < TWO_32 && DeviceOk(DeviceOf(s, p)) && LinksRight(host, s.links, s.xs, DeviceOf(s, p))
  }

  /** `t` is `s` with more inodes behind and more in the blob. */
  ghost predicate Grown(s: Build, t: Build, p: Params, host: map<HostKey, Node>) {
    Sane(t, p, host) && s.xs <= t.xs && DeviceGrows(DeviceOf(s, p), DeviceOf(t, p))
  }

  lemma LeafDataBuilt(n: Node, b: Blob, p: Params)
    requires StatOk(n) && Readable(n) && !n.body.DirBody? && DeviceOk(Device(b, p.hash, p.cs))
    ensures var c := BlobAfter(n, b, p);
            && DeviceGrows(Device(b, p.hash, p.cs), Device(c, p.hash, p.cs)) && DeviceOk(Device(c, p.hash, p.cs))
            && LeafData(n, DataOf(n, c, p), Device(c, p.hash, p.cs))
  {
    if n.body.FileBody? {
      var chunks := ChunksOf(n.body.content[..n.stat.size], p.cs);
      PutAllKeeps(b, p.hash, chunks, |chunks|);
      PutIndexed(b, p.hash, chunks);
    }
  }

  /** A file that is no directory. */
  lemma LeafRight(n: Node, s: Build, p: Params, host: map<HostKey, Node>)
    requires StatOk(n) && Readable(n) && !n.body.DirBody? && Sane(s, p, host)
    ensures var t := LeafBuilt(n, NextIno(s), s, p);
            Grown(s, t, p, host) && Subtree(t.xs, |s.xs|) && Represents(n, |s.xs|, |s.xs|, t.xs, DeviceOf(t, p))
  {
    var t := LeafBuilt(n, NextIno(s), s, p);
    LeafDataBuilt(n, s.blob, p);
    LeafSound(n, NextIno(s), t.xs[|s.xs|].data, DeviceOf(t, p), |t.xs|);
    LeafSubtree(s.xs, t.xs[|s.xs|]);
    LinksKept(host, s.links, s.xs, t.xs, DeviceOf(s, p), DeviceOf(t, p));
  }

  /** A directory whose children are all built represents its file. */
  lemma CloseDirectory(n: Node, idx: nat, children: seq<DirEntry>, xs: seq<InodeInfo>, d: Device, z: InodeInfo)
    requires SourceOk(n) && n.body.DirBody? && DeviceOk(d) && idx < |xs| && |children| == |n.body.entries|
    requires xs[idx].data.Directory? && z == InodeOf(n, z.ino, Directory(children, 0, 0, 0)) && z.ino < TWO_32
    requires Children(xs, idx + 1, children) && Built(n.body.entries, children, idx + 1, xs, d)
    ensures Subtree(xs[idx := z], idx) && Represents(n, idx, idx, xs[idx := z], d)
  {
    forall k | 0 <= k < |children| ensures children[k].inodeIdx < |xs| && NameOk(children[k].name) {
      assert EntryRepresents(n.body.entries[k], children[k], idx + 1, xs, d);
      assert Represents(n.body.entries[k].node, children[k].inodeIdx, idx + 1, xs, d);
      assert NameOk(n.body.entries[k].name);
    }
    DirectoryClosed(xs, idx, z);
    BuiltKept(n.body.entries, children, idx + 1, xs, xs[idx := z], d, d);
  }

  /**
   * Building any file leaves what was there alone, keeps every remembered link right, and appends a
   * tree whose root represents the file.
   */
  lemma {:induction false} NodeRight(n: Node, s: Build, p: Params, host: map<HostKey, Node>)
    requires SourceOk(n) && Consistent(n, host) && Readable(n) && Sane(s, p, host)
    ensures var t := NodeBuilt(n, s, p);
            Grown(s, t, p, host) && Subtree(t.xs, |s.xs|) && Represents(n, |s.xs|, |s.xs|, t.xs, DeviceOf(t, p))
    decreases n, 0, 0
  {
    if !n.body.DirBody? {
      LeafRight(n, s, p, host);
    } else {
      var o, idx := Opened(n, s), |s.xs|;
      LinksKept(host, s.links, s.xs, o.xs, DeviceOf(s, p), DeviceOf(o, p));
      EntriesRight(n, |n.body.entries|, o, p, host);
      DirectoryRight(n, s, p, host);
    }
  }

  lemma DirectoryRight(n: Node, s: Build, p: Params, host: map<HostKey, Node>)
    requires SourceOk(n) && Readable(n) && n.body.DirBody? && Sane(s, p, host)
    requires var o, (t, cs) := Opened(n, s), EntriesBuilt(n, |n.body.entries|, Opened(n, s), p);
             Grown(o, t, p, host) && Children(t.xs, |o.xs|, cs)
             && Built(n.body.entries, cs, |o.xs|, t.xs, DeviceOf(t, p))
    ensures var t := NodeBuilt(n, s, p);
            Grown(s, t, p, host) && Subtree(t.xs, |s.xs|) && Represents(n, |s.xs|, |s.xs|, t.xs, DeviceOf(t, p))
  {
    var (t, cs) := EntriesBuilt(n, |n.body.entries|, Opened(n, s), p);
    DirectoryCloses(n, NextIno(s), s, Opened(n, s), t, cs, p, host);
  }

  lemma DirectoryCloses(n: Node, ino: nat, s: Build, o: Build, t: Build, cs: seq<DirEntry>, p: Params,
                        host: map<HostKey, Node>)
    requires SourceOk(n) && n.body.DirBody? && Sane(s, p, host) && ino < TWO_32 && |cs| == |n.body.entries|
    requires o == Build(s.xs + [InodeOf(n, ino, Directory([], 0, 0, 0))], ino, s.links, s.blob)
    requires Grown(o, t, p, host) && Children(t.xs, |o.xs|, cs)
    requires Built(n.body.entries, cs, |o.xs|, t.xs, DeviceOf(t, p))
    ensures var u := Closed(n, ino, |s.xs|, t, cs);
            Grown(s, u, p, host) && Subtree(u.xs, |s.xs|) && Represents(n, |s.xs|, |s.xs|, u.xs, DeviceOf(u, p))
  {
    var idx := |s.xs|;
    var z := InodeOf(n, ino, Directory(cs, 0, 0, 0));
    assert t.xs[idx] == o.xs[idx];
    CloseDirectory(n, idx, cs, t.xs, DeviceOf(t, p), z);
    LinksKept(host, t.links, t.xs, t.xs[idx := z], DeviceOf(t, p), DeviceOf(t, p));
    assert s.xs <= t.xs[idx := z];
  }

  lemma {:induction false} EntriesRight(n: Node, k: nat, s: Build, p: Params, host: map<HostKey, Node>)
    requires SourceOk(n) && Consistent(n, host) && Readable(n) && n.body.DirBody? && k <= |n.body.entries|
    requires Sane(s, p, host)
    ensures var (t, cs) := EntriesBuilt(n, k, s, p);
            Grown(s, t, p, host) && Children(t.xs, |s.xs|, cs)
            && Built(n.body.entries, cs, |s.xs|, t.xs, DeviceOf(t, p))
    decreases n.body, 1, k
  {
    hide EntryBuilt, EntryRepresents, Represents;
    if k > 0 {
      EntriesRight(n, k - 1, s, p, host);
      var (t, cs) := EntriesBuilt(n, k - 1, s, p);
      var e := n.body.entries[k - 1];
      EntryRight(e, t, p, host, cs, |s.xs|);
      var (u, c) := EntryBuilt(e, t, p);
      DeviceGrowsOn(DeviceOf(s, p), DeviceOf(t, p), DeviceOf(u, p));
      BuiltKept(n.body.entries, cs, |s.xs|, t.xs, u.xs, DeviceOf(t, p), DeviceOf(u, p));
    }
  }

  lemma {:induction false} EntryRight(e: NamedNode, s: Build, p: Params, host: map<HostKey, Node>,
                                      children: seq<DirEntry>, lo: nat)
    requires SourceOk(e.node) && Consistent(e.node, host) && Readable(e.node) && Sane(s, p, host)
    requires Children(s.xs, lo, children)
    ensures var (t, c) := EntryBuilt(e, s, p);
            Grown(s, t, p, host) && Children(t.xs, lo, children + [c])
            && EntryRepresents(e, c, lo, t.xs, DeviceOf(t, p))
    decreases e, 0, 0
  {
    hide NodeBuilt;
    var (t, c) := EntryBuilt(e, s, p);
    if MaybeShared(e.node) && KeyOf(e.node) in s.links {
      LinkAdded(s.xs, lo, children, c);
    } else {
      NodeRight(e.node, s, p, host);
      ChildAdded(s.xs, t.xs, lo, children, c);
      RepresentsKept(e.node, |s.xs|, |s.xs|, lo, t.xs, t.xs, DeviceOf(t, p), DeviceOf(t, p));
    }
  }

  /** The inodes of a source directory are a tree that represents it, whatever the links and the digests. */
  lemma TreeRepresents(source: Node, p: Params)
    requires SourceOk(source) && FromOneHost(source) && Readable(source) && p.cs > 0
    ensures var t := Tree(source, p);
            Subtree(t.xs, 0) && Represents(source, 0, 0, t.xs, DeviceOf(t, p)) && DeviceOk(DeviceOf(t, p))
  {
    var host :| Consistent(source, host);
    NodeRight(source, START, p, host);
  }

  // ------------------------------------------------------------------
  // The recursion as the code runs it
  // ------------------------------------------------------------------

  class TreeBuilder {
    var inodes: seq<InodeInfo>
    var inoCounter: nat
    var hardlinks: map<HostKey, nat>
    const blob: BlobWriter

    ghost function State(): Build
      reads this, blob
    {
      Build(inodes, inoCounter, hardlinks, blob.Abs())
    }

    ghost function Par(): (p: Params)
      reads blob
      requires blob.Valid()
      ensures p.cs > 0
    {
      Params(blob.hash, blob.chunksize)
    }

    /** The files behind the remembered links could be read in full. */
    ghost predicate Known(host: map<HostKey, Node>)
      reads this
    {
      forall key :: key in hardlinks ==> key in host && Readable(host[key])
    }

    constructor (blob: BlobWriter)
      requires blob.Valid()
      ensures this.blob == blob && inodes == [] && inoCounter == 0 && hardlinks == map[]
    {
      this.blob := blob;
      inodes, inoCounter, hardlinks := [], 0, map[];
    }

    /** The data of a file that is no directory; regular files go to the blob. */
    method LeafDataOf(n: Node) returns (res: Result<InodeData>)
      requires blob.Valid() && !n.body.DirBody?
      modifies blob
      ensures blob.Valid() && (res.Ok? <==> Readable(n)) && (res.Err? ==> res == Err(UnexpectedEof))
      ensures res.Ok? ==>
              blob.Abs() == BlobAfter(n, old(blob.Abs()), Par()) && res.value == DataOf(n, blob.Abs(), Par())
    {
      match n.body
      case FileBody(content) =>
        var indexes := blob.WriteFileChunks(content, n.stat.size);
        if indexes.Err? {
          return Err(indexes.error);
        }
        return Ok(RegularFile(indexes.value));
      case LinkBody(target) =>
        return Ok(Symlink(target));
      case OtherBody =>
        return Ok(if IsDevice(n.stat) then SpecialDev(n.stat.rdev) else SpecialNoData);
    }

    /**
     * `build_tree_recursive`: appends the inodes of a file and of everything below it. It fails exactly when
     * some file is shorter than its recorded size.
     */
    method Recurse(n: Node, ghost host: map<HostKey, Node>) returns (res: Result<nat>)
      requires blob.Valid() && Known(host) && Consistent(n, host)
      modifies this, blob
      ensures blob.Valid() && (res.Ok? <==> Readable(n)) && (res.Err? ==> res == Err(UnexpectedEof))
      ensures res.Ok? ==> Known(host) && res.value == |old(inodes)| && State() == NodeBuilt(n, old(State()), Par())
      decreases n, 0, 0
    {
      hide InodeOf, EntriesBuilt, BlobAfter, DataOf, Readable;
      inoCounter := (inoCounter + 1) % TWO_32;
      var ino := inoCounter;
      var inodeIdx := |inodes|;
      if n.body.DirBody? {
        inodes := inodes + [InodeOf(n, ino, Directory([], 0, 0, 0))];
        var children := AddEntries(n, host);
        if children.Err? {
          return Err(children.error);
        }
        inodes := inodes[inodeIdx := InodeOf(n, ino, Directory(children.value, 0, 0, 0))];
        return Ok(inodeIdx);
      }
      var data := LeafDataOf(n);
      if data.Err? {
        return Err(data.error);
      }
      inodes := inodes + [InodeOf(n, ino, data.value)];
      return Ok(inodeIdx);
    }

    /** One entry of a directory: a further link to a known inode, or a file to descend into. */
    method AddEntry(e: NamedNode, ghost host: map<HostKey, Node>) returns (res: Result<DirEntry>)
      requires blob.Valid() && Known(host) && Consistent(e.node, host)
      modifies this, blob
      ensures blob.Valid() && (res.Ok? <==> Readable(e.node)) && (res.Err? ==> res == Err(UnexpectedEof))
      ensures res.Ok? ==> Known(host) && (State(), res.value) == EntryBuilt(e, old(State()), Par())
      decreases e, 0, 0
    {
      var child, key := e.node, KeyOf(e.node);
      var fileType := ModeToFileType(child.stat.mode);
      if MaybeShared(child) && key in hardlinks {
        return Ok(DirEntry(e.name, fileType, hardlinks[key]));
      }
      var childIdx := Recurse(child, host);
      if childIdx.Err? {
        return Err(childIdx.error);
      }
      if MaybeShared(child) {
        hardlinks := hardlinks[key := childIdx.value];
      }
      return Ok(DirEntry(e.name, fileType, childIdx.value));
    }

    /** The loop over the sorted entries of a directory. */
    method AddEntries(n: Node, ghost host: map<HostKey, Node>) returns (res: Result<seq<DirEntry>>)
      requires blob.Valid() && Known(host) && Consistent(n, host) && n.body.DirBody?
      modifies this, blob
      ensures blob.Valid() && (res.Ok? <==> Readable(n)) && (res.Err? ==> res == Err(UnexpectedEof))
      ensures res.Ok? ==> Known(host) && (State(), res.value) == EntriesBuilt(n, |n.body.entries|, old(State()), Par())
      decreases n.body, 1, 0
    {
      var children := [];
      var entries := n.body.entries;
      for k := 0 to |entries|
        invariant blob.Valid() && Known(host) && forall l :: 0 <= l < k ==> Readable(entries[l].node)
        invariant Readable(n) ==> (State(), children) == EntriesBuilt(n, k, old(State()), Par())
      {
        var entry := AddEntry(entries[k], host);
        if entry.Err? {
          return Err(entry.error);
        }
        children := children + [entry.value];
      }
      return Ok(children);
    }
  }

  /**
   * `build_tree`: the inodes of a source directory and the blob with its chunks. It fails exactly when
   * some file is shorter than its recorded size.
   */
  method BuildTree(source: Node, blob: BlobWriter) returns (res: Result<seq<InodeInfo>>)
    requires blob.Valid() && blob.Abs() == EMPTY && FromOneHost(source)
    modifies blob
    ensures blob.Valid() && (res.Ok? <==> Readable(source)) && (res.Err? ==> res == Err(UnexpectedEof))
    ensures res.Ok? ==> var t := Tree(source, Params(blob.hash, blob.chunksize));
                        res.value == t.xs && blob.Abs() == t.blob
  {
    ghost var host :| Consistent(source, host);
    var b := new TreeBuilder(blob);
    var root := b.Recurse(source, host);
    if root.Err? {
      return Err(root.error);
    }
    return Ok(b.inodes);
  }
}
