/** Parent links of the directories: `set_parent_nids` (src/bin/erofs-mkfs.rs). */
module Wiring {
  import opened Bytes
  import opened Metadata
  import opened InodeBuild

  /** Directory `x` lists inode `i` as a directory. */
  predicate Lists(x: InodeInfo, i: nat) {
    x.data.Directory? && ListsUpTo(x.data.children, i, |x.data.children|)
  }

  predicate ListsUpTo(children: seq<DirEntry>, i: nat, n: nat)
    requires n <= |children|
  {
    exists k :: 0 <= k < n && children[k].fileType == EROFS_FT_DIR && children[k].inodeIdx == i
  }

  /** The last of the first `m` inodes that lists `i` as a directory. */
  function LastContainer(xs: seq<InodeInfo>, i: nat, m: nat): (j: Option<nat>)
    requires m <= |xs|
    ensures j.Some? ==> j.value < m && Lists(xs[j.value], i)
    ensures forall l :: 0 <= l < m && Lists(xs[l], i) ==> j.Some? && l <= j.value
  {
    if m == 0 then None else if Lists(xs[m - 1], i) then Some(m - 1) else LastContainer(xs, i, m - 1)
  }

  function SetParent(x: InodeInfo, p: nat): InodeInfo {
    if x.data.Directory? then x.(data := x.data.(parentNid := p)) else x
  }

  /** The parent that inode `i` has afterwards if it is a directory: its last container, or what it had. */
  function ParentNid(xs: seq<InodeInfo>, i: nat, m: nat): nat
    requires i < |xs| && m <= |xs| && xs[i].data.Directory?
  {
    match LastContainer(xs, i, m)
    case Some(j) => xs[j].nid
    case None => if i == 0 then xs[0].nid else xs[i].data.parentNid
  }

  /** Only parent links change. */
  function Wired(xs: seq<InodeInfo>): (r: seq<InodeInfo>)
    ensures |r| == |xs|
    ensures forall i :: 0 <= i < |xs| ==>
              r[i] == if xs[i].data.Directory? then SetParent(xs[i], ParentNid(xs, i, |xs|)) else xs[i]
  {
    seq(|xs|, i requires 0 <= i < |xs| =>
      if xs[i].data.Directory? then SetParent(xs[i], ParentNid(xs, i, |xs|)) else xs[i])
  }

  predicate InRange(xs: seq<InodeInfo>) {
    forall i, k :: 0 <= i < |xs| && xs[i].data.Directory? && 0 <= k < |xs[i].data.children| ==>
      xs[i].data.children[k].inodeIdx < |xs|
  }

  /** A directory and the directories it lists, as the first pass collects them. */
  datatype ParentInfo = ParentInfo(nid: nat, childIdxs: seq<nat>)

  /** What assigning the first `m` infos in order leaves inode `i` with. */
  function Assigned(infos: seq<ParentInfo>, i: nat, m: nat): Option<nat>
    requires m <= |infos|
  {
    if m == 0 then None else if i in infos[m - 1].childIdxs then Some(infos[m - 1].nid) else Assigned(infos, i, m - 1)
  }

  function NidOf(xs: seq<InodeInfo>, j: Option<nat>): Option<nat>
    requires j.Some? ==> j.value < |xs|
  {
    if j.None? then None else Some(xs[j.value].nid)
  }

  /** The filter and map over the children of one directory. */
  method ChildDirs(children: seq<DirEntry>, ghost n: nat) returns (idxs: seq<nat>)
    requires forall k :: 0 <= k < |children| ==> children[k].inodeIdx < n
    ensures forall i :: i in idxs <==> ListsUpTo(children, i, |children|)
    ensures forall i :: i in idxs ==> i < n
  {
    idxs := [];
    for k := 0 to |children|
      invariant forall i :: i in idxs <==> ListsUpTo(children, i, k)
      invariant forall i :: i in idxs ==> i < n
    {
      ListsMore(children, k);
      if children[k].fileType == EROFS_FT_DIR {
        idxs := idxs + [children[k].inodeIdx];
      }
    }
  }

  lemma ListsMore(children: seq<DirEntry>, k: nat)
    requires k < |children|
    ensures forall i :: ListsUpTo(children, i, k + 1) <==>
              ListsUpTo(children, i, k) || (children[k].fileType == EROFS_FT_DIR && children[k].inodeIdx == i)
  {
    forall i ensures ListsUpTo(children, i, k + 1) <==>
              ListsUpTo(children, i, k) || (children[k].fileType == EROFS_FT_DIR && children[k].inodeIdx == i) {
      if ListsUpTo(children, i, k + 1) {
        var l :| 0 <= l < k + 1 && children[l].fileType == EROFS_FT_DIR && children[l].inodeIdx == i;
        assert l < k ==> ListsUpTo(children, i, k);
      }
      if ListsUpTo(children, i, k) {
        var l :| 0 <= l < k && children[l].fileType == EROFS_FT_DIR && children[l].inodeIdx == i;
      }
    }
  }

  /** The first pass: every directory that lists directories, in order. */
  method GatherParents(inodes: array<InodeInfo>) returns (infos: seq<ParentInfo>)
    requires InRange(inodes[..])
    ensures forall i :: Assigned(infos, i, |infos|) == NidOf(inodes[..], LastContainer(inodes[..], i, inodes.Length))
    ensures forall m, i :: 0 <= m < |infos| && i in infos[m].childIdxs ==> i < inodes.Length
  {
    ghost var xs := inodes[..];
    infos := [];
    for m := 0 to inodes.Length
      invariant forall i :: Assigned(infos, i, |infos|) == NidOf(xs, LastContainer(xs, i, m))
      invariant forall m, i :: 0 <= m < |infos| && i in infos[m].childIdxs ==> i < inodes.Length
    {
      var x := inodes[m];
      assert x == xs[m];
      if x.data.Directory? {
        var childIdxs := ChildDirs(x.data.children, inodes.Length);
        if childIdxs != [] {
          AssignedGrows(infos, ParentInfo(x.nid, childIdxs));
          infos := infos + [ParentInfo(x.nid, childIdxs)];
        }
      }
    }
  }

  lemma AssignedGrows(infos: seq<ParentInfo>, p: ParentInfo)
    ensures forall i :: Assigned(infos + [p], i, |infos| + 1) ==
              if i in p.childIdxs then Some(p.nid) else Assigned(infos, i, |infos|)
  {
    forall i ensures Assigned(infos + [p], i, |infos| + 1) ==
              if i in p.childIdxs then Some(p.nid) else Assigned(infos, i, |infos|) {
      AssignedPrefix(infos, p, i, |infos|);
    }
  }

  lemma {:induction false} AssignedPrefix(infos: seq<ParentInfo>, p: ParentInfo, i: nat, m: nat)
    requires m <= |infos|
    ensures Assigned(infos + [p], i, m) == Assigned(infos, i, m)
  {
    if m > 0 {
      AssignedPrefix(infos, p, i, m - 1);
    }
  }

  /** The inner loop of the second pass. */
  method AssignChildren(inodes: array<InodeInfo>, parentNid: nat, childIdxs: seq<nat>)
    requires forall i :: i in childIdxs ==> i < inodes.Length
    modifies inodes
    ensures forall i :: 0 <= i < inodes.Length ==>
              inodes[i] == if i in childIdxs then SetParent(old(inodes[i]), parentNid) else old(inodes[i])
  {
    for k := 0 to |childIdxs|
      invariant forall i :: 0 <= i < inodes.Length ==>
                  inodes[i] == if i in childIdxs[..k] then SetParent(old(inodes[i]), parentNid) else old(inodes[i])
    {
      var childIdx := childIdxs[k];
      assert childIdx in childIdxs;
      assert childIdxs[..k + 1] == childIdxs[..k] + [childIdx];
      var x := inodes[childIdx];
      if x.data.Directory? {
        inodes[childIdx] := x.(data := x.data.(parentNid := parentNid));
      }
    }
    assert childIdxs[..|childIdxs|] == childIdxs;
  }

  /** What an inode looks like once some of the assignments are done. */
  function After(x: InodeInfo, p: Option<nat>): InodeInfo {
    if p.None? then x else SetParent(x, p.value)
  }

  /** `set_parent_nids`: links the root to itself, gathers the parents, assigns them. */
  method SetParentNids(inodes: array<InodeInfo>)
    requires inodes.Length > 0 && InRange(inodes[..])
    modifies inodes
    ensures inodes[..] == Wired(old(inodes[..]))
  {
    ghost var xs := inodes[..];
    var rootNid := inodes[0].nid;
    if inodes[0].data.Directory? {
      inodes[0] := inodes[0].(data := inodes[0].data.(parentNid := rootNid));
    }
    ghost var ys := inodes[..];
    SameContainers(xs, ys);
    var infos := GatherParents(inodes);
    for k := 0 to |infos|
      invariant forall i :: 0 <= i < inodes.Length ==> inodes[i] == After(ys[i], Assigned(infos, i, k))
    {
      AssignChildren(inodes, infos[k].nid, infos[k].childIdxs);
    }
    assert forall i :: 0 <= i < inodes.Length ==> inodes[i] == After(ys[i], NidOf(ys, LastContainer(ys, i, |ys|)));
    LinksAreWired(xs, ys, inodes[..]);
  }

  /** Linking the root to itself does not change who lists whom. */
  lemma SameContainers(xs: seq<InodeInfo>, ys: seq<InodeInfo>)
    requires |xs| > 0 && ys == xs[0 := SetParent(xs[0], xs[0].nid)] && InRange(xs)
    ensures InRange(ys) && forall i :: LastContainer(ys, i, |ys|) == LastContainer(xs, i, |xs|)
  {
    forall i ensures LastContainer(ys, i, |ys|) == LastContainer(xs, i, |xs|) {
      SameLast(xs, ys, i, |xs|);
    }
  }

  lemma {:induction false} SameLast(xs: seq<InodeInfo>, ys: seq<InodeInfo>, i: nat, m: nat)
    requires |xs| > 0 && ys == xs[0 := SetParent(xs[0], xs[0].nid)] && m <= |xs|
    ensures LastContainer(ys, i, m) == LastContainer(xs, i, m)
  {
    if m > 0 {
      assert Lists(ys[m - 1], i) == Lists(xs[m - 1], i);
      SameLast(xs, ys, i, m - 1);
    }
  }

  lemma LinksAreWired(xs: seq<InodeInfo>, ys: seq<InodeInfo>, zs: seq<InodeInfo>)
    requires |xs| > 0 && ys == xs[0 := SetParent(xs[0], xs[0].nid)] && |zs| == |xs|
    requires forall i :: LastContainer(ys, i, |ys|) == LastContainer(xs, i, |xs|)
    requires forall i :: 0 <= i < |ys| ==> zs[i] == After(ys[i], NidOf(ys, LastContainer(ys, i, |ys|)))
    ensures zs == Wired(xs)
  {
    forall i | 0 <= i < |xs| ensures zs[i] == Wired(xs)[i] {
      var c := LastContainer(xs, i, |xs|);
      assert zs[i] == After(ys[i], NidOf(ys, c));
      WiredAt(xs, ys, i);
    }
  }

  lemma WiredAt(xs: seq<InodeInfo>, ys: seq<InodeInfo>, i: nat)
    requires |xs| > 0 && ys == xs[0 := SetParent(xs[0], xs[0].nid)] && i < |xs|
    ensures After(ys[i], NidOf(ys, LastContainer(xs, i, |xs|))) == Wired(xs)[i]
  {
    assert NidOf(ys, LastContainer(xs, i, |xs|)) == NidOf(xs, LastContainer(xs, i, |xs|));
  }

  /** The links form a tree: only directories are listed as such, each but the root exactly once. */
  ghost predicate TreeShaped(xs: seq<InodeInfo>) {
    && |xs| > 0 && xs[0].data.Directory? && InRange(xs)
    && (forall j :: 0 <= j < |xs| ==> !Lists(xs[j], 0))
    && (forall i :: 0 < i < |xs| && xs[i].data.Directory? ==> exists j :: 0 <= j < |xs| && Lists(xs[j], i))
    && (forall i, j, l :: 0 <= j < |xs| && 0 <= l < |xs| && Lists(xs[j], i) && Lists(xs[l], i) ==> j == l)
  }

  /** In a tree every directory ends up with the nid of the one directory that lists it, the root with its own. */
  lemma TreeParents(xs: seq<InodeInfo>, i: nat, j: nat)
    requires TreeShaped(xs) && i < |xs| && j < |xs| && xs[i].data.Directory?
    requires (if i == 0 then j == 0 else Lists(xs[j], i))
    ensures Wired(xs)[i].data.Directory? && Wired(xs)[i].data.parentNid == xs[j].nid
  {
    var c := LastContainer(xs, i, |xs|);
    assert c.Some? ==> Lists(xs[c.value], i);
  }
}
