/** Directory data: packing into blocks (src/build/dir.rs) and parsing (src/fs/meta.rs). */
module DirBlocks {
  import opened Bytes
  import opened Metadata
  import opened Dirents

  // ------------------------------------------------------------------
  // One block
  // ------------------------------------------------------------------

  /** Total length of the first `n` names. */
  function NamesLen(es: seq<Entry>, n: nat): nat
    requires n <= |es|
  {
    if n == 0 then 0 else NamesLen(es, n - 1) + |es[n - 1].name|
  }

  function NameArea(es: seq<Entry>, n: nat): (r: seq<byte>)
    requires n <= |es|
    ensures |r| == NamesLen(es, n)
  {
    if n == 0 then [] else NameArea(es, n - 1) + es[n - 1].name
  }

  /** The first `n` dirents; name `i` starts `NamesLen(es, i)` bytes after `base`. */
  function DirentArea(es: seq<Entry>, n: nat, base: nat): (r: seq<byte>)
    requires n <= |es|
    ensures |r| == n * EROFS_DIRENT_SIZE
  {
    if n == 0 then [] else DirentArea(es, n - 1, base) + EntryDirent(es, n - 1, base)
  }

  function EntryDirent(es: seq<Entry>, i: nat, base: nat): (r: seq<byte>)
    requires i < |es|
    ensures |r| == EROFS_DIRENT_SIZE
  {
    DirentBytes(es[i].nid, base + NamesLen(es, i), es[i].fileType)
  }

  predicate FitsBlock(es: seq<Entry>) {
    |es| * EROFS_DIRENT_SIZE + NamesLen(es, |es|) <= EROFS_BLOCK_SIZE
  }

  function NamesStart(es: seq<Entry>): nat {
    |es| * EROFS_DIRENT_SIZE
  }

  /** A self-contained directory block: the dirents, the names, zero padding. */
  function Block(es: seq<Entry>): (r: seq<byte>)
    requires FitsBlock(es)
    ensures |r| == EROFS_BLOCK_SIZE
  {
    DirentArea(es, |es|, NamesStart(es)) + NameArea(es, |es|)
    + Zeros(EROFS_BLOCK_SIZE - NamesStart(es) - NamesLen(es, |es|))
  }

  /** The block while it is being filled: the first `i` dirents and names are in place. */
  ghost function PartialBlock(es: seq<Entry>, i: nat): (r: seq<byte>)
    requires i <= |es| && FitsBlock(es)
    ensures |r| == EROFS_BLOCK_SIZE
  {
    NamesLenMonotone(es, i, |es|);
    Filled(DirentArea(es, i, NamesStart(es)), (|es| - i) * EROFS_DIRENT_SIZE, NameArea(es, i),
           EROFS_BLOCK_SIZE - NamesStart(es) - NamesLen(es, i))
  }

  ghost function Filled(ds: seq<byte>, gap: nat, ns: seq<byte>, rest: nat): (r: seq<byte>)
    ensures |r| == |ds| + gap + |ns| + rest
  {
    ds + Zeros(gap) + ns + Zeros(rest)
  }

  lemma {:induction false} NamesLenMonotone(es: seq<Entry>, i: nat, n: nat)
    requires i <= n <= |es|
    ensures NamesLen(es, i) <= NamesLen(es, n)
    ensures i < n ==> NamesLen(es, i) + |es[i].name| <= NamesLen(es, n)
  {
    if i + 1 < n {
      NamesLenMonotone(es, i, n - 1);
    }
  }

  /** Writing dirent `i` and name `i` takes the partial block one step further. */
  lemma FillStep(es: seq<Entry>, i: nat, block: seq<byte>, de: seq<byte>, deOffset: nat, nameOffset: nat)
    requires i < |es| && FitsBlock(es) && block == PartialBlock(es, i) && de == EntryDirent(es, i, NamesStart(es))
    requires deOffset == i * EROFS_DIRENT_SIZE && nameOffset == NamesStart(es) + NamesLen(es, i)
    ensures deOffset + |de| <= |block| && nameOffset + |es[i].name| <= |block|
    ensures Splice(Splice(block, deOffset, de), nameOffset, es[i].name) == PartialBlock(es, i + 1)
  {
    NamesLenMonotone(es, i, |es|);
    var base := NamesStart(es);
    var gap, rest: nat := (|es| - i - 1) * EROFS_DIRENT_SIZE, EROFS_BLOCK_SIZE - base - NamesLen(es, i);
    var ds, ns := DirentArea(es, i, base), NameArea(es, i);
    PartialIs(es, i, 12 + gap, rest);
    PartialIs(es, i + 1, gap, rest - |es[i].name|);
    assert DirentArea(es, i + 1, base) == ds + de && NameArea(es, i + 1) == ns + es[i].name;
    assert deOffset == |ds| && nameOffset == |ds| + 12 + gap + |ns|;
    FillInto(block, ds, de, gap, ns, es[i].name, rest, deOffset, nameOffset);
  }

  lemma FillInto(block: seq<byte>, ds: seq<byte>, e: seq<byte>, gap: nat, ns: seq<byte>, name: seq<byte>, rest: nat,
                 deOffset: nat, nameOffset: nat)
    requires |e| == 12 && |name| <= rest && block == Filled(ds, 12 + gap, ns, rest)
    requires deOffset == |ds| && nameOffset == |ds| + 12 + gap + |ns|
    ensures deOffset + |e| <= |block| && nameOffset + |name| <= |block|
    ensures Splice(Splice(block, deOffset, e), nameOffset, name) == Filled(ds + e, gap, ns + name, rest - |name|)
  {
    FillBoth(ds, e, gap, ns, name, rest);
  }

  lemma PartialIs(es: seq<Entry>, i: nat, gap: nat, rest: nat)
    requires i <= |es| && FitsBlock(es) && gap == (|es| - i) * EROFS_DIRENT_SIZE
    requires rest + NamesStart(es) + NamesLen(es, i) == EROFS_BLOCK_SIZE
    ensures PartialBlock(es, i) == Filled(DirentArea(es, i, NamesStart(es)), gap, NameArea(es, i), rest)
  {
  }

  lemma FillBoth(ds: seq<byte>, e: seq<byte>, gap: nat, ns: seq<byte>, name: seq<byte>, rest: nat)
    requires |e| == 12 && |name| <= rest
    ensures Splice(Splice(Filled(ds, 12 + gap, ns, rest), |ds|, e), |ds| + 12 + gap + |ns|, name)
            == Filled(ds + e, gap, ns + name, rest - |name|)
  {
    FillDirent(ds, e, Zeros(gap), ns, rest);
    FillZeros(ds + e + Zeros(gap) + ns, name, rest);
    AppendAssoc(ds + e + Zeros(gap), ns, name);
  }

  lemma FillDirent(ds: seq<byte>, e: seq<byte>, gap: seq<byte>, ns: seq<byte>, rest: nat)
    requires |e| == 12 && gap == Zeros(|gap|)
    ensures Splice(ds + Zeros(12 + |gap|) + ns + Zeros(rest), |ds|, e) == ds + e + gap + ns + Zeros(rest)
  {
    var b := ds + Zeros(12 + |gap|) + ns + Zeros(rest);
    assert b[|ds| + 12..] == gap + ns + Zeros(rest);
    assert b[..|ds|] == ds;
  }

  // ------------------------------------------------------------------
  // Greedy packing
  // ------------------------------------------------------------------

  /** How many entries from `n` on fit into a block that already holds `n` entries and `names` name bytes. */
  function GreedyCount(es: seq<Entry>, n: nat, names: nat): nat
    requires n <= |es|
    decreases |es| - n
  {
    if n < |es| && (n + 1) * EROFS_DIRENT_SIZE + names + |es[n].name| <= EROFS_BLOCK_SIZE
    then GreedyCount(es, n + 1, names + |es[n].name|)
    else n
  }

  lemma {:induction false} GreedyFits(es: seq<Entry>, n: nat, names: nat)
    requires n <= |es| && names == NamesLen(es, n) && n * EROFS_DIRENT_SIZE + names <= EROFS_BLOCK_SIZE
    ensures var m := GreedyCount(es, n, names);
            && n <= m <= |es| && m * EROFS_DIRENT_SIZE + NamesLen(es, m) <= EROFS_BLOCK_SIZE
            && (m < |es| ==> (m + 1) * EROFS_DIRENT_SIZE + NamesLen(es, m + 1) > EROFS_BLOCK_SIZE)
    decreases |es| - n
  {
    if n < |es| && (n + 1) * EROFS_DIRENT_SIZE + names + |es[n].name| <= EROFS_BLOCK_SIZE {
      GreedyFits(es, n + 1, names + |es[n].name|);
    }
  }

  lemma {:induction false} NamesLenPrefix(es: seq<Entry>, n: nat, i: nat)
    requires i <= n <= |es|
    ensures NamesLen(es[..n], i) == NamesLen(es, i)
  {
    if i > 0 {
      NamesLenPrefix(es, n, i - 1);
    }
  }

  /** The number of entries of the next block. */
  function NextCount(es: seq<Entry>): (n: nat)
    ensures n <= |es| && FitsBlock(es[..n])
  {
    GreedyFits(es, 0, 0);
    NamesLenPrefix(es, GreedyCount(es, 0, 0), GreedyCount(es, 0, 0));
    GreedyCount(es, 0, 0)
  }

  /** All blocks; packing panics when an entry does not fit into an empty block. */
  function Pack(es: seq<Entry>): (r: Result<seq<byte>>)
    decreases |es|
  {
    if es == [] then Ok([]) else
    var n := NextCount(es);
    if n == 0 then Err(Panic) else
    var rest :- Pack(es[n..]);
    Ok(Block(es[..n]) + rest)
  }

  /** The longest name a block can hold. */
  const MAX_NAME := 4084

  /** Packing succeeds exactly when every name is at most 4084 bytes, and then yields whole blocks. */
  lemma {:induction false} PackExact(es: seq<Entry>)
    ensures Pack(es).Ok? <==> forall e :: e in es ==> |e.name| <= MAX_NAME
    decreases |es|
  {
    if es != [] {
      var n := NextCount(es);
      GreedyFits(es, 0, 0);
      if n == 0 {
        assert NamesLen(es, 1) == |es[0].name|;
        assert es[0] in es;
      } else {
        PackExact(es[n..]);
        forall i | 0 <= i < n ensures |es[i].name| <= MAX_NAME {
          NamesLenMonotone(es, i, n);
        }
        SplitShort(es, n);
      }
    }
  }

  /** A name of 4085 times the letter "a". */
  lemma LongNamePanics()
    ensures Pack([Entry(0, 1, seq(MAX_NAME + 1, _ => 97))]).Err?
  {
    var e := Entry(0, 1, seq(MAX_NAME + 1, _ => 97));
    assert e in [e];
    PackExact([e]);
  }

  lemma {:induction false} PackSize(es: seq<Entry>)
    requires Pack(es).Ok?
    ensures |Pack(es).value| % 4096 == 0 && (es != [] ==> |Pack(es).value| > 0)
    decreases |es|
  {
    if es != [] {
      var n := NextCount(es);
      var rest := Pack(es[n..]).value;
      PackSize(es[n..]);
      assert |Pack(es).value| == |Block(es[..n]) + rest|;
      ModUnique(4096 + |rest|, 4096, 1 + |rest| / 4096, 0);
    }
  }

  /** Packing takes at most one block per entry. */
  lemma {:induction false} PackBound(es: seq<Entry>)
    requires Pack(es).Ok?
    ensures |Pack(es).value| <= 4096 * |es|
    decreases |es|
  {
    if es != [] {
      var n := NextCount(es);
      PackBound(es[n..]);
      assert |Pack(es).value| == |Block(es[..n]) + Pack(es[n..]).value|;
    }
  }

  lemma SplitShort(es: seq<Entry>, n: nat)
    requires n <= |es| && forall i :: 0 <= i < n ==> |es[i].name| <= MAX_NAME
    ensures (forall e :: e in es ==> |e.name| <= MAX_NAME) <==> (forall e :: e in es[n..] ==> |e.name| <= MAX_NAME)
  {
    if forall e :: e in es[n..] ==> |e.name| <= MAX_NAME {
      forall e | e in es ensures |e.name| <= MAX_NAME {
        var i :| 0 <= i < |es| && es[i] == e;
        assert i >= n ==> es[n..][i - n] == e;
      }
    }
  }

  datatype DirChild = DirChild(name: seq<byte>, nid: nat, fileType: byte)

  const DOT: seq<byte> := [0x2E]
  const DOTDOT: seq<byte> := [0x2E, 0x2E]

  function ChildEntries(cs: seq<DirChild>): (r: seq<Entry>)
    ensures |r| == |cs| && forall i :: 0 <= i < |cs| ==> r[i] == Entry(cs[i].nid, cs[i].fileType, cs[i].name)
  {
    seq(|cs|, i requires 0 <= i < |cs| => Entry(cs[i].nid, cs[i].fileType, cs[i].name))
  }

  /** The entries of a directory: itself, its parent, its children. */
  function DirEntries(cs: seq<DirChild>, selfNid: nat, parentNid: nat): seq<Entry> {
    [Entry(selfNid, EROFS_FT_DIR, DOT), Entry(parentNid, EROFS_FT_DIR, DOTDOT)] + ChildEntries(cs)
  }

  /** `serialize_directory`: collects the entries and packs them. */
  method SerializeDirectory(children: seq<DirChild>, selfNid: nat, parentNid: nat) returns (r: Result<seq<byte>>)
    ensures r == Pack(DirEntries(children, selfNid, parentNid))
  {
    var entries := CollectEntries(children, selfNid, parentNid);
    r := PackEntries(entries);
  }

  method CollectEntries(children: seq<DirChild>, selfNid: nat, parentNid: nat) returns (entries: seq<Entry>)
    ensures entries == DirEntries(children, selfNid, parentNid)
  {
    entries := [Entry(selfNid, EROFS_FT_DIR, DOT), Entry(parentNid, EROFS_FT_DIR, DOTDOT)];
    for k := 0 to |children|
      invariant entries == DirEntries(children[..k], selfNid, parentNid)
    {
      EntriesMore(children, k);
      entries := entries + [Entry(children[k].nid, children[k].fileType, children[k].name)];
    }
    assert children[..|children|] == children;
  }

  lemma EntriesMore(cs: seq<DirChild>, k: nat)
    requires k < |cs|
    ensures ChildEntries(cs[..k + 1]) == ChildEntries(cs[..k]) + [Entry(cs[k].nid, cs[k].fileType, cs[k].name)]
  {
  }

  /** The outer loop of `serialize_directory`: block after block. */
  method PackEntries(entries: seq<Entry>) returns (r: Result<seq<byte>>)
    ensures r == Pack(entries)
  {
    var result := [];
    var idx := 0;
    ghost var all := Pack(entries);
    assert entries[0..] == entries;
    JoinedNothing(all);
    while idx < |entries|
      invariant idx <= |entries|
      invariant all == Joined(result, Pack(entries[idx..]))
    {
      var more, next := PackNext(entries, idx, result, all);
      if next == idx {
        return Err(Panic);
      }
      result := more;
      idx := next;
    }
    PackEnds(entries[idx..], result);
    return Ok(result);
  }

  /** The body of that loop; it gets no further when the next entry does not fit into an empty block. */
  method PackNext(entries: seq<Entry>, idx: nat, result: seq<byte>, ghost all: Result<seq<byte>>)
    returns (more: seq<byte>, next: nat)
    requires idx < |entries| && all == Joined(result, Pack(entries[idx..]))
    ensures idx <= next <= |entries|
    ensures if next == idx then all == Err(Panic) else all == Joined(more, Pack(entries[next..]))
  {
    ghost var todo := entries[idx..];
    var block, count := NextBlock(entries, idx);
    next := idx + count;
    if count == 0 {
      PackEnds(todo, result);
      return result, next;
    }
    assert todo[count..] == entries[next..];
    PackStep(todo, result);
    more := result + block;
  }

  lemma PackEnds(todo: seq<Entry>, result: seq<byte>)
    ensures todo == [] ==> Joined(result, Pack(todo)) == Ok(result)
    ensures todo != [] && NextCount(todo) == 0 ==> Joined(result, Pack(todo)) == Err(Panic)
  {
    assert result + [] == result;
  }

  method NextBlock(entries: seq<Entry>, idx: nat) returns (block: seq<byte>, count: nat)
    requires idx < |entries|
    ensures count == NextCount(entries[idx..])
    ensures count > 0 ==> block == Block(entries[idx..][..count])
  {
    count := CountEntries(entries, idx);
    var filled := FillBlock(entries[idx..][..count]);
    block := filled[..];
  }

  lemma JoinedNothing(r: Result<seq<byte>>)
    ensures Joined([], r) == r
  {
    assert r.Ok? ==> [] + r.value == r.value;
  }

  /** Blocks that are finished, in front of what is still to come. */
  function Joined(done: seq<byte>, rest: Result<seq<byte>>): Result<seq<byte>> {
    match rest
    case Ok(d) => Ok(done + d)
    case Err(e) => Err(e)
  }

  lemma PackStep(es: seq<Entry>, done: seq<byte>)
    requires es != [] && NextCount(es) > 0
    ensures Joined(done, Pack(es)) == Joined(done + Block(es[..NextCount(es)]), Pack(es[NextCount(es)..]))
  {
    var rest := Pack(es[NextCount(es)..]);
    if rest.Ok? {
      AppendAssoc(done, Block(es[..NextCount(es)]), rest.value);
    }
  }

  /** The inner counting loop of `serialize_directory`. */
  method CountEntries(entries: seq<Entry>, blockStart: nat) returns (count: nat)
    requires blockStart < |entries|
    ensures count == NextCount(entries[blockStart..])
  {
    ghost var es := entries[blockStart..];
    var idx := blockStart;
    var nameArea: nat := 0;
    while idx < |entries|
      invariant blockStart <= idx <= |entries|
      invariant GreedyCount(es, idx - blockStart, nameArea) == GreedyCount(es, 0, 0)
    {
      assert es[idx - blockStart] == entries[idx];
      var newDirentArea := (idx - blockStart + 1) * EROFS_DIRENT_SIZE;
      var newNameArea := nameArea + |entries[idx].name|;
      if newDirentArea + newNameArea > EROFS_BLOCK_SIZE {
        break;
      }
      nameArea := newNameArea;
      idx := idx + 1;
    }
    count := idx - blockStart;
  }

  /** The inner filling loop of `serialize_directory`. */
  method FillBlock(es: seq<Entry>) returns (block: array<byte>)
    requires FitsBlock(es)
    ensures fresh(block) && block[..] == Block(es)
  {
    var count := |es|;
    block := ZeroBuffer(EROFS_BLOCK_SIZE);
    var namesStart := NamesStart(es);
    var nameOffset := namesStart;
    EmptyPartial(es);
    for i := 0 to count
      invariant nameOffset == namesStart + NamesLen(es, i)
      invariant block[..] == PartialBlock(es, i)
    {
      FillEntry(es, i, nameOffset, block);
      nameOffset := nameOffset + |es[i].name|;
    }
    FullPartial(es);
  }

  /** One dirent and one name. */
  method FillEntry(es: seq<Entry>, i: nat, nameOffset: nat, block: array<byte>)
    requires i < |es| && FitsBlock(es) && block[..] == PartialBlock(es, i)
    requires nameOffset == NamesStart(es) + NamesLen(es, i)
    modifies block
    ensures block[..] == PartialBlock(es, i + 1)
  {
    var de := DirentBytes(es[i].nid, nameOffset, es[i].fileType);
    var deOffset := i * EROFS_DIRENT_SIZE;
    assert de == EntryDirent(es, i, NamesStart(es));
    FillStep(es, i, block[..], de, deOffset, nameOffset);
    CopyFromSlice(block, deOffset, de);
    CopyFromSlice(block, nameOffset, es[i].name);
  }

  lemma EmptyPartial(es: seq<Entry>)
    requires FitsBlock(es)
    ensures PartialBlock(es, 0) == Zeros(EROFS_BLOCK_SIZE)
  {
  }

  lemma FullPartial(es: seq<Entry>)
    requires FitsBlock(es)
    ensures PartialBlock(es, |es|) == Block(es)
  {
  }

  // ------------------------------------------------------------------
  // The order of the entries
  // ------------------------------------------------------------------

  /** Lexicographic order on name bytes. */
  predicate Before(a: seq<byte>, b: seq<byte>) {
    b != [] && (a == [] || a[0] < b[0] || (a[0] == b[0] && Before(a[1..], b[1..])))
  }

  predicate StrictlySorted(es: seq<Entry>) {
    forall i :: 0 < i < |es| ==> Before(es[i - 1].name, es[i].name)
  }

  /**
   * The format document wants the entries in strict lexicographic order; "." and ".." are put
   * first unsorted, so the order holds exactly when the children are sorted and come after "..".
   */
  lemma SortedExact(cs: seq<DirChild>, selfNid: nat, parentNid: nat)
    ensures StrictlySorted(DirEntries(cs, selfNid, parentNid)) <==>
            StrictlySorted(ChildEntries(cs)) && (cs != [] ==> Before(DOTDOT, cs[0].name))
  {
    DotBeforeDotDot();
    SortedFront(Entry(selfNid, EROFS_FT_DIR, DOT), Entry(parentNid, EROFS_FT_DIR, DOTDOT), ChildEntries(cs));
  }

  lemma DotBeforeDotDot()
    ensures Before(DOT, DOTDOT)
  {
    assert DOT[1..] == [] && DOTDOT[1..] == [0x2E];
  }

  lemma SortedFront(a: Entry, b: Entry, ch: seq<Entry>)
    ensures StrictlySorted([a, b] + ch) <==>
            && Before(a.name, b.name) && (ch != [] ==> Before(b.name, ch[0].name)) && StrictlySorted(ch)
  {
    var es := [a, b] + ch;
    if StrictlySorted(es) {
      assert Before(es[0].name, es[1].name);
      forall i | 0 < i < |ch| ensures Before(ch[i - 1].name, ch[i].name) {
        assert Before(es[i + 1].name, es[i + 2].name);
      }
      if ch != [] {
        assert Before(es[1].name, es[2].name);
      }
    } else {
      var i :| 0 < i < |es| && !Before(es[i - 1].name, es[i].name);
      assert i > 2 ==> es[i - 1] == ch[i - 3] && es[i] == ch[i - 2];
    }
  }

  /** A directory whose only child is called "-" is stored out of order. */
  lemma HyphenSortsBeforeDots(nid: nat, selfNid: nat, parentNid: nat, ft: byte)
    ensures !StrictlySorted(DirEntries([DirChild([0x2D], nid, ft)], selfNid, parentNid))
  {
    var cs := [DirChild([0x2D], nid, ft)];
    SortedExact(cs, selfNid, parentNid);
  }
}
