/** Where the files of a source tree end up in the inode list: hard links and order (src/build/inode.rs). */
module Paths {
  import opened Bytes
  import opened Metadata
  import opened InodeBuild
  import opened BlobChunk
  import opened Wiring
  import opened DirBlocks
  import opened TreeRead
  import opened SourceTree
  import opened TreeBuild

  // ------------------------------------------------------------------
  // Paths of the source tree
  // ------------------------------------------------------------------

  datatype Looked = Found(node: Node) | NoEntry | NoDirectory

  function EntryNamed(es: seq<NamedNode>, name: seq<byte>): (k: Option<nat>)
    ensures k.Some? ==> k.value < |es| && es[k.value].name == name
  {
    if es == [] then None
    else if es[0].name == name then Some(0)
    else
      var k := EntryNamed(es[1..], name);
      if k.None? then None else Some(k.value + 1)
  }

  /** What a path of plain names leads to in the source tree. */
  function NodeAt(n: Node, path: seq<seq<byte>>): Looked
    decreases |path|
  {
    if path == [] then Found(n)
    else if !n.body.DirBody? then NoDirectory
    else
      var k := EntryNamed(n.body.entries, path[0]);
      if k.None? then NoEntry else NodeAt(n.body.entries[k.value].node, path[1..])
  }

  /** The file behind which a path cannot go on, because it is no directory. */
  function Blocker(n: Node, path: seq<seq<byte>>): (b: Node)
    requires NodeAt(n, path).NoDirectory?
    ensures !b.body.DirBody?
    decreases |path|
  {
    if !n.body.DirBody? then n
    else Blocker(n.body.entries[EntryNamed(n.body.entries, path[0]).value].node, path[1..])
  }

  predicate Plain(path: seq<seq<byte>>) {
    forall k :: 0 <= k < |path| ==> path[k] != DOT && path[k] != DOTDOT
  }

  lemma {:induction false} SameChild(es: seq<NamedNode>, cs: seq<DirEntry>, name: seq<byte>)
    requires |cs| == |es| && forall k :: 0 <= k < |es| ==> cs[k].name == es[k].name
    ensures EntryNamed(es, name).None? <==> ChildNamed(cs, name).None?
    ensures EntryNamed(es, name).Some? ==> ChildNamed(cs, name) == Some(cs[EntryNamed(es, name).value].inodeIdx)
  {
    if es != [] {
      SameChild(es[1..], cs[1..], name);
    }
  }

  // ------------------------------------------------------------------
  // Remembered links
  // ------------------------------------------------------------------

  /** Different keys are remembered with different inodes, all of them there. */
  ghost predicate LinksDistinct(s: Build) {
    && (forall key :: key in s.links ==> s.links[key] < |s.xs|)
    && forall key, other :: key in s.links && other in s.links && s.links[key] == s.links[other] ==> key == other
  }

  /**
   * `t` comes after `s`: inodes from `lo` on are still there, remembered links are kept, and new ones
   * lead to inodes from `min` on.
   */
  ghost predicate After(s: Build, t: Build, lo: nat, min: nat) {
    && |s.xs| <= |t.xs| && (forall i :: lo <= i < |s.xs| ==> t.xs[i] == s.xs[i])
    && (forall key :: key in s.links ==> key in t.links && t.links[key] == s.links[key])
    && (forall key :: key in t.links && key !in s.links ==> t.links[key] >= min)
  }

  lemma AfterAfter(s: Build, t: Build, u: Build, lo: nat, min: nat)
    requires After(s, t, lo, min) && After(t, u, lo, min)
    ensures After(s, u, lo, min)
  {
  }

  /** Building a file: what is there stays, and no new link leads to a directory's own inode. */
  lemma {:induction false} NodeAfter(n: Node, s: Build, p: Params)
    requires Readable(n) && p.cs > 0 && LinksDistinct(s)
    ensures LinksDistinct(NodeBuilt(n, s, p)) && After(s, NodeBuilt(n, s, p), 0, |s.xs| + 1)
    decreases n, 0, 0
  {
    if n.body.DirBody? {
      EntriesAfter(n, |n.body.entries|, Opened(n, s), p);
    }
  }

  lemma {:induction false} EntriesAfter(n: Node, k: nat, s: Build, p: Params)
    requires Readable(n) && p.cs > 0 && n.body.DirBody? && k <= |n.body.entries| && LinksDistinct(s)
    ensures LinksDistinct(EntriesBuilt(n, k, s, p).0) && After(s, EntriesBuilt(n, k, s, p).0, 0, |s.xs|)
    decreases n.body, 1, k
  {
    if k > 0 {
      EntriesAfter(n, k - 1, s, p);
      EntryAfter(n.body.entries[k - 1], EntriesBuilt(n, k - 1, s, p).0, p);
    }
  }

  lemma {:induction false} EntryAfter(e: NamedNode, s: Build, p: Params)
    requires Readable(e.node) && p.cs > 0 && LinksDistinct(s)
    ensures LinksDistinct(EntryBuilt(e, s, p).0) && After(s, EntryBuilt(e, s, p).0, 0, |s.xs|)
    decreases e, 0, 0
  {
    if !(MaybeShared(e.node) && KeyOf(e.node) in s.links) {
      NodeAfter(e.node, s, p);
    }
  }

  /** One step of the loop over the entries. */
  lemma OneEntry(n: Node, k: nat, s: Build, p: Params, t: Build, cs: seq<DirEntry>, u: Build, ds: seq<DirEntry>)
    requires Readable(n) && p.cs > 0 && n.body.DirBody? && k < |n.body.entries| && LinksDistinct(s)
    requires (t, cs) == EntriesBuilt(n, k, s, p) && (u, ds) == EntriesBuilt(n, k + 1, s, p)
    ensures (u, ds[k]) == EntryBuilt(n.body.entries[k], t, p) && |cs| == k && ds[..k] == cs
    ensures LinksDistinct(t) && LinksDistinct(u) && After(t, u, 0, |t.xs|)
  {
    EntriesAfter(n, k, s, p);
    EntryAfter(n.body.entries[k], t, p);
  }

  /** Later entries leave alone what an entry was built to, and its place in the list. */
  lemma {:induction false} LaterEntries(n: Node, k: nat, m: nat, s: Build, p: Params, u: Build, ds: seq<DirEntry>,
                                        v: Build, es: seq<DirEntry>)
    requires Readable(n) && p.cs > 0 && n.body.DirBody? && k < m <= |n.body.entries| && LinksDistinct(s)
    requires (u, ds) == EntriesBuilt(n, k + 1, s, p) && (v, es) == EntriesBuilt(n, m, s, p)
    ensures After(u, v, 0, |u.xs|) && |ds| == k + 1 <= |es| && es[k] == ds[k]
    decreases m
  {
    if k + 1 < m {
      var (t, cs) := EntriesBuilt(n, m - 1, s, p);
      LaterEntries(n, k, m - 1, s, p, u, ds, t, cs);
      OneEntry(n, m - 1, s, p, t, cs, v, es);
      assert es[..m - 1][k] == es[k];
    }
  }

  /** The first entries come before the later ones, and each child is the one its own step made. */
  lemma EntryOfList(n: Node, k: nat, m: nat, s: Build, p: Params)
    requires Readable(n) && p.cs > 0 && n.body.DirBody? && k < m <= |n.body.entries| && LinksDistinct(s)
    ensures var (t, u) := (EntriesBuilt(n, k, s, p).0, EntriesBuilt(n, k + 1, s, p).0);
            && LinksDistinct(t) && LinksDistinct(u) && After(u, EntriesBuilt(n, m, s, p).0, 0, |u.xs|)
            && u == EntryBuilt(n.body.entries[k], t, p).0 && |t.xs| <= |u.xs|
            && EntriesBuilt(n, m, s, p).1[k] == EntryBuilt(n.body.entries[k], t, p).1
  {
    var (t, cs) := EntriesBuilt(n, k, s, p);
    var (u, ds) := EntriesBuilt(n, k + 1, s, p);
    var (v, es) := EntriesBuilt(n, m, s, p);
    OneEntry(n, k, s, p, t, cs, u, ds);
    LaterEntries(n, k, m, s, p, u, ds, v, es);
  }

  // ------------------------------------------------------------------
  // Where a path lands
  // ------------------------------------------------------------------

  /** The state before entry `k` of directory `n` is built, when `n` is built from `s`. */
  function Before(n: Node, k: nat, s: Build, p: Params): (t: Build)
    requires Readable(n) && p.cs > 0 && n.body.DirBody? && k <= |n.body.entries|
    ensures |s.xs| < |t.xs|
  {
    EntriesBuilt(n, k, Opened(n, s), p).0
  }

  /** Entry `k` of a directory, seen from the final state `t`. */
  lemma EntrySeen(n: Node, k: nat, s: Build, p: Params, t: Build)
    requires Readable(n) && p.cs > 0 && n.body.DirBody? && k < |n.body.entries| && LinksDistinct(s)
    requires After(NodeBuilt(n, s, p), t, |s.xs|, |NodeBuilt(n, s, p).xs|)
    ensures var b, a, e := Before(n, k, s, p), Before(n, k + 1, s, p), n.body.entries[k];
            && LinksDistinct(b) && a == EntryBuilt(e, b, p).0 && After(a, t, |s.xs| + 1, |a.xs|)
            && |s.xs| < |t.xs| && t.xs[|s.xs|].data.Directory?
            && |t.xs[|s.xs|].data.children| == |n.body.entries|
            && t.xs[|s.xs|].data.children[k] == EntryBuilt(e, b, p).1
  {
    hide EntryBuilt;
    var m, o := |n.body.entries|, Opened(n, s);
    EntryOfList(n, k, m, o, p);
    EntriesAfter(n, m, o, p);
    var (end, children) := EntriesBuilt(n, m, o, p);
    ClosedAfter(n, NextIno(s), |s.xs|, Before(n, k + 1, s, p), end, children, NodeBuilt(n, s, p), t);
  }

  /** Closing the directory `idx` changes its own inode only. */
  lemma ClosedAfter(n: Node, ino: nat, idx: nat, a: Build, end: Build, children: seq<DirEntry>, u: Build, t: Build)
    requires idx < |a.xs| <= |end.xs| && After(a, end, 0, |a.xs|) && u == Closed(n, ino, idx, end, children)
    requires After(u, t, idx, |u.xs|)
    ensures After(a, t, idx + 1, |a.xs|) && idx < |t.xs| && t.xs[idx] == InodeOf(n, ino, Directory(children, 0, 0, 0))
  {
    assert forall i :: idx + 1 <= i < |end.xs| ==> u.xs[i] == end.xs[i];
    AfterAfter(a, u, t, idx + 1, |a.xs|);
  }

  lemma {:induction false} ChildName(n: Node, k: nat, m: nat, s: Build, p: Params)
    requires Readable(n) && p.cs > 0 && n.body.DirBody? && k < m <= |n.body.entries|
    ensures EntriesBuilt(n, m, s, p).1[k].name == n.body.entries[k].name
    decreases m
  {
    if k < m - 1 {
      ChildName(n, k, m - 1, s, p);
    }
  }

  /** One step of a path from a directory. */
  lemma StepSeen(n: Node, s: Build, p: Params, t: Build, name: seq<byte>)
    requires Readable(n) && p.cs > 0 && n.body.DirBody? && LinksDistinct(s)
    requires After(NodeBuilt(n, s, p), t, |s.xs|, |NodeBuilt(n, s, p).xs|)
    requires InRange(t.xs) && name != DOT && name != DOTDOT
    ensures |s.xs| < |t.xs| && t.xs[|s.xs|].data.Directory?
    ensures var k := EntryNamed(n.body.entries, name);
            TreeStep(t.xs, |s.xs|, name) ==
              if k.None? then None
              else Some(EntryBuilt(n.body.entries[k.value], Before(n, k.value, s, p), p).1.inodeIdx)
  {
    var es, m := n.body.entries, |n.body.entries|;
    var cs := EntriesBuilt(n, m, Opened(n, s), p).1;
    assert t.xs[|s.xs|] == NodeBuilt(n, s, p).xs[|s.xs|];
    forall k | 0 <= k < m ensures cs[k].name == es[k].name {
      ChildName(n, k, m, Opened(n, s), p);
    }
    SameChild(es, cs, name);
    var k := EntryNamed(es, name);
    if k.Some? {
      EntrySeen(n, k.value, s, p, t);
    }
  }

  /** What is known about where the file `m` below entry `k` has landed. */
  ghost predicate LandsIn(m: Node, i: nat, lo: nat, hi: nat, t: Build) {
    if MaybeShared(m) then KeyOf(m) in t.links && i == t.links[KeyOf(m)]
    else lo <= i < hi && forall key :: key in t.links ==> t.links[key] != i
  }

  /**
   * A file with several links is at the one inode remembered for it; any other file is at an inode of its
   * own, among those that were appended for the entry it is under.
   */
  lemma {:induction false} PathLands(n: Node, s: Build, p: Params, t: Build, path: seq<seq<byte>>)
    requires Readable(n) && p.cs > 0 && LinksDistinct(s) && InRange(t.xs) && Plain(path)
    requires After(NodeBuilt(n, s, p), t, |s.xs|, |NodeBuilt(n, s, p).xs|)
    requires NodeAt(n, path).Found?
    ensures Walk(t.xs, |s.xs|, path).Reached?
    ensures path == [] ==> Walk(t.xs, |s.xs|, path) == Reached(|s.xs|)
    ensures path != [] ==>
              var k := EntryNamed(n.body.entries, path[0]).value;
              LandsIn(NodeAt(n, path).node, Walk(t.xs, |s.xs|, path).idx,
                      |Before(n, k, s, p).xs|, |Before(n, k + 1, s, p).xs|, t)
    decreases |path|, 1
  {
    if path != [] {
      var k := EntryNamed(n.body.entries, path[0]).value;
      StepSeen(n, s, p, t, path[0]);
      EntrySeen(n, k, s, p, t);
      EntryPathLands(n.body.entries[k], Before(n, k, s, p), p, t, |s.xs| + 1, path[1..]);
    }
  }

  /** The rest of the path, from the entry on. */
  lemma {:induction false} EntryPathLands(e: NamedNode, b: Build, p: Params, t: Build, lo: nat, path: seq<seq<byte>>)
    requires Readable(e.node) && p.cs > 0 && LinksDistinct(b) && InRange(t.xs) && Plain(path) && lo <= |b.xs|
    requires After(EntryBuilt(e, b, p).0, t, lo, |EntryBuilt(e, b, p).0.xs|)
    requires NodeAt(e.node, path).Found?
    ensures var i, a := EntryBuilt(e, b, p).1.inodeIdx, EntryBuilt(e, b, p).0;
            && i < |t.xs| && Walk(t.xs, i, path).Reached?
            && LandsIn(NodeAt(e.node, path).node, Walk(t.xs, i, path).idx, |b.xs|, |a.xs|, t)
    decreases |path|, 2
  {
    EntryLands(e, b, p, t, lo);
    if path != [] {
      PathLands(e.node, b, p, t, path);
      BeforeInside(e.node, EntryNamed(e.node.body.entries, path[0]).value, b, p);
    }
  }

  /** The inodes of one entry are among those of its directory. */
  lemma BeforeInside(n: Node, k: nat, s: Build, p: Params)
    requires Readable(n) && p.cs > 0 && n.body.DirBody? && k < |n.body.entries| && LinksDistinct(s)
    ensures |s.xs| < |Before(n, k, s, p).xs| <= |Before(n, k + 1, s, p).xs| <= |NodeBuilt(n, s, p).xs|
  {
    EntryOfList(n, k, |n.body.entries|, Opened(n, s), p);
  }

  lemma EntryLands(e: NamedNode, b: Build, p: Params, t: Build, lo: nat)
    requires Readable(e.node) && p.cs > 0 && LinksDistinct(b)
    requires After(EntryBuilt(e, b, p).0, t, lo, |EntryBuilt(e, b, p).0.xs|)
    ensures EntryBuilt(e, b, p).1.inodeIdx < |t.xs|
    ensures LandsIn(e.node, EntryBuilt(e, b, p).1.inodeIdx, |b.xs|, |EntryBuilt(e, b, p).0.xs|, t)
  {
    if !(MaybeShared(e.node) && KeyOf(e.node) in b.links) {
      NodeAfter(e.node, b, p);
    }
  }

  // ------------------------------------------------------------------
  // Two paths
  // ------------------------------------------------------------------

  /** Two names of one file with several links. */
  predicate SameFile(m: Node, o: Node) {
    MaybeShared(m) && MaybeShared(o) && KeyOf(m) == KeyOf(o)
  }

  /** `path` comes before `other` when the tree is listed depth first, each directory before its entries. */
  predicate Earlier(n: Node, path: seq<seq<byte>>, other: seq<seq<byte>>)
    decreases |path|
  {
    if other == [] || !n.body.DirBody? then false
    else if path == [] then true
    else
      var k, l := EntryNamed(n.body.entries, path[0]), EntryNamed(n.body.entries, other[0]);
      if k.None? || l.None? then false
      else if k == l then Earlier(n.body.entries[k.value].node, path[1..], other[1..])
      else k.value < l.value
  }

  /** What two different paths below `n` say about the inodes they reach, `i` and `j`. */
  ghost predicate Told(n: Node, path: seq<seq<byte>>, other: seq<seq<byte>>, m: Node, o: Node, i: nat, j: nat) {
    && (i == j <==> SameFile(m, o))
    && (!MaybeShared(m) && !MaybeShared(o) ==> (i < j <==> Earlier(n, path, other)))
  }

  lemma BeforeOrdered(n: Node, k: nat, l: nat, s: Build, p: Params)
    requires Readable(n) && p.cs > 0 && n.body.DirBody? && k < l <= |n.body.entries| && LinksDistinct(s)
    ensures |Before(n, k + 1, s, p).xs| <= |Before(n, l, s, p).xs|
  {
    EntryOfList(n, k, l, Opened(n, s), p);
  }

  lemma RootTold(n: Node, s: Build, p: Params, t: Build, other: seq<seq<byte>>)
    requires Readable(n) && p.cs > 0 && LinksDistinct(s) && LinksDistinct(t) && InRange(t.xs) && Plain(other)
    requires After(NodeBuilt(n, s, p), t, |s.xs|, |NodeBuilt(n, s, p).xs|)
    requires other != [] && NodeAt(n, other).Found?
    ensures Walk(t.xs, |s.xs|, other).Reached? && |s.xs| != Walk(t.xs, |s.xs|, other).idx
    ensures !MaybeShared(NodeAt(n, other).node) ==> |s.xs| < Walk(t.xs, |s.xs|, other).idx
  {
    PathLands(n, s, p, t, other);
    NodeAfter(n, s, p);
    BeforeInside(n, EntryNamed(n.body.entries, other[0]).value, s, p);
  }

  lemma ApartTold(n: Node, s: Build, p: Params, t: Build, path: seq<seq<byte>>, other: seq<seq<byte>>)
    requires Readable(n) && p.cs > 0 && LinksDistinct(s) && LinksDistinct(t) && InRange(t.xs) && Plain(path)
    requires Plain(other)
    requires After(NodeBuilt(n, s, p), t, |s.xs|, |NodeBuilt(n, s, p).xs|)
    requires path != [] && other != [] && NodeAt(n, path).Found? && NodeAt(n, other).Found?
    requires EntryNamed(n.body.entries, path[0]).value < EntryNamed(n.body.entries, other[0]).value
    ensures Walk(t.xs, |s.xs|, path).Reached? && Walk(t.xs, |s.xs|, other).Reached?
    ensures var m, o := NodeAt(n, path).node, NodeAt(n, other).node;
            var i, j := Walk(t.xs, |s.xs|, path).idx, Walk(t.xs, |s.xs|, other).idx;
            (i == j <==> SameFile(m, o)) && (!MaybeShared(m) && !MaybeShared(o) ==> i < j)
  {
    PathLands(n, s, p, t, path);
    PathLands(n, s, p, t, other);
    BeforeOrdered(n, EntryNamed(n.body.entries, path[0]).value, EntryNamed(n.body.entries, other[0]).value, s, p);
  }

  lemma SameFirst(es: seq<NamedNode>, name: seq<byte>, other: seq<byte>)
    requires EntryNamed(es, name).Some? && EntryNamed(es, name) == EntryNamed(es, other)
    ensures name == other
  {
  }

  lemma WalkFrom(n: Node, s: Build, p: Params, t: Build, path: seq<seq<byte>>)
    requires Readable(n) && p.cs > 0 && LinksDistinct(s) && InRange(t.xs) && Plain(path)
    requires After(NodeBuilt(n, s, p), t, |s.xs|, |NodeBuilt(n, s, p).xs|)
    requires path != [] && NodeAt(n, path).Found?
    ensures var k := EntryNamed(n.body.entries, path[0]).value;
            var i := EntryBuilt(n.body.entries[k], Before(n, k, s, p), p).1.inodeIdx;
            i < |t.xs| && |s.xs| < |t.xs| && Walk(t.xs, |s.xs|, path) == Walk(t.xs, i, path[1..])
  {
    StepSeen(n, s, p, t, path[0]);
  }

  /**
   * Two different paths of plain names lead to one inode exactly when they name one file with several
   * links; and files with a single link lie in the order in which a depth-first walk meets them.
   */
  lemma {:induction false} TwoPaths(n: Node, s: Build, p: Params, t: Build, path: seq<seq<byte>>, other: seq<seq<byte>>)
    requires Readable(n) && p.cs > 0 && LinksDistinct(s) && LinksDistinct(t) && InRange(t.xs) && Plain(path)
    requires Plain(other)
    requires After(NodeBuilt(n, s, p), t, |s.xs|, |NodeBuilt(n, s, p).xs|)
    requires path != other && NodeAt(n, path).Found? && NodeAt(n, other).Found?
    ensures Walk(t.xs, |s.xs|, path).Reached? && Walk(t.xs, |s.xs|, other).Reached?
    ensures Told(n, path, other, NodeAt(n, path).node, NodeAt(n, other).node,
                 Walk(t.xs, |s.xs|, path).idx, Walk(t.xs, |s.xs|, other).idx)
    decreases |path|, 1
  {
    if path == [] {
      RootTold(n, s, p, t, other);
    } else if other == [] {
      RootTold(n, s, p, t, path);
    } else {
      var k, l := EntryNamed(n.body.entries, path[0]).value, EntryNamed(n.body.entries, other[0]).value;
      if k < l {
        ApartTold(n, s, p, t, path, other);
      } else if l < k {
        ApartTold(n, s, p, t, other, path);
      } else {
        DeeperTold(n, k, s, p, t, path, other);
      }
    }
  }

  /** Two paths that start alike are two paths below the entry they start with. */
  lemma {:induction false} DeeperTold(n: Node, k: nat, s: Build, p: Params, t: Build, path: seq<seq<byte>>,
                                      other: seq<seq<byte>>)
    requires Readable(n) && p.cs > 0 && LinksDistinct(s) && LinksDistinct(t) && InRange(t.xs) && Plain(path)
    requires Plain(other)
    requires After(NodeBuilt(n, s, p), t, |s.xs|, |NodeBuilt(n, s, p).xs|)
    requires path != other && path != [] && other != [] && NodeAt(n, path).Found? && NodeAt(n, other).Found?
    requires EntryNamed(n.body.entries, path[0]) == EntryNamed(n.body.entries, other[0]) == Some(k)
    ensures Walk(t.xs, |s.xs|, path).Reached? && Walk(t.xs, |s.xs|, other).Reached?
    ensures Told(n, path, other, NodeAt(n, path).node, NodeAt(n, other).node,
                 Walk(t.xs, |s.xs|, path).idx, Walk(t.xs, |s.xs|, other).idx)
    decreases |path|, 0
  {
    hide SameFile;
    WalkFrom(n, s, p, t, path);
    WalkFrom(n, s, p, t, other);
    EntrySeen(n, k, s, p, t);
    TwoRests(n, path, other);
    TwoPaths(n.body.entries[k].node, Before(n, k, s, p), p, t, path[1..], other[1..]);
  }

  /** Two paths that start alike go on differently, so they start in a directory. */
  lemma TwoRests(n: Node, path: seq<seq<byte>>, other: seq<seq<byte>>)
    requires path != other && path != [] && other != [] && NodeAt(n, path).Found? && NodeAt(n, other).Found?
    requires EntryNamed(n.body.entries, path[0]) == EntryNamed(n.body.entries, other[0])
    ensures path[1..] != other[1..] && n.body.entries[EntryNamed(n.body.entries, path[0]).value].node.body.DirBody?
  {
    hide NodeAt, EntryNamed;
    Descends(n, path);
    Descends(n, other);
    SameFirst(n.body.entries, path[0], other[0]);
    assert path == [path[0]] + path[1..] && other == [other[0]] + other[1..];
    var child := n.body.entries[EntryNamed(n.body.entries, path[0]).value].node;
    if path[1..] != [] {
      Descends(child, path[1..]);
    } else {
      Descends(child, other[1..]);
    }
  }

  lemma Descends(n: Node, path: seq<seq<byte>>)
    requires path != [] && NodeAt(n, path).Found?
    ensures n.body.DirBody? && EntryNamed(n.body.entries, path[0]).Some?
    ensures NodeAt(n.body.entries[EntryNamed(n.body.entries, path[0]).value].node, path[1..]).Found?
  {
  }

  /** The same for the inodes of a whole source tree. */
  lemma TreePaths(source: Node, p: Params, path: seq<seq<byte>>, other: seq<seq<byte>>)
    requires SourceOk(source) && FromOneHost(source) && Readable(source) && p.cs > 0
    requires Plain(path) && Plain(other) && path != other && NodeAt(source, path).Found? && NodeAt(source, other).Found?
    ensures var xs := Tree(source, p).xs;
            && InRange(xs) && |xs| > 0 && Walk(xs, 0, path).Reached? && Walk(xs, 0, other).Reached?
            && Told(source, path, other, NodeAt(source, path).node, NodeAt(source, other).node,
                    Walk(xs, 0, path).idx, Walk(xs, 0, other).idx)
  {
    TreeRepresents(source, p);
    SubtreeSound(Tree(source, p).xs);
    NodeAfter(source, START, p);
    TwoPaths(source, START, p, Tree(source, p), path, other);
  }
}
