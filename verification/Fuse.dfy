/** The FUSE operations on directories (src/fs/fuse.rs). */
module Fuse {
  import opened Bytes
  import opened Metadata
  import opened Inodes
  import opened Dirents
  import opened DirScan
  import opened Reader
  import opened DirReader
  import Handles

  const FUSE_ROOT_ID := 1
  const S_IFDIR := 4

  /** `mode & S_IFMT`, as the four-bit file type. */
  function FileTypeBits(v: ErofsInode): nat {
    v.h.mode / 4096
  }

  function ToNid(r: ErofsReader, ino: nat): nat
    requires ino < TWO_64
  {
    if ino == FUSE_ROOT_ID then RootNid(r) else Wrap64(ino + TWO_64 - FUSE_ROOT_ID)
  }

  function ToIno(r: ErofsReader, nid: nat): (ino: nat)
    ensures ino < TWO_64
  {
    if nid == RootNid(r) then FUSE_ROOT_ID else Wrap64(nid + FUSE_ROOT_ID)
  }

  /**
   * Inode numbers identify nids exactly when the root has nid 0 (as every image of the builder has)
   * or the nid is not 0: with another root, nid 0 and the root share the number 1.
   */
  lemma InoNidExact(r: ErofsReader, nid: nat)
    requires nid < TWO_64
    ensures ToNid(r, ToIno(r, nid)) == nid <==> nid != 0 || RootNid(r) == 0
  {
    if nid != RootNid(r) {
      assert nid + 1 < TWO_64 ==> Wrap64(nid + 1) == nid + 1 && Wrap64(nid + 1 + TWO_64 - 1) == nid;
      assert nid + 1 == TWO_64 ==> Wrap64(nid + 1) == 0 && Wrap64(TWO_64 - 1) == TWO_64 - 1;
    }
  }

  /** The other way round: every inode number but the one that the root's nid would have otherwise. */
  lemma NidInoExact(r: ErofsReader, ino: nat)
    requires ino < TWO_64
    ensures ToIno(r, ToNid(r, ino)) == ino <==> ino != RootNid(r) + FUSE_ROOT_ID || RootNid(r) == 0
  {
    if ino != FUSE_ROOT_ID {
      assert ino >= 1 ==> Wrap64(ino + TWO_64 - 1) == ino - 1 && Wrap64(ino - 1 + 1) == ino;
      assert ino == 0 ==> Wrap64(TWO_64 - 1) == TWO_64 - 1 && Wrap64(TWO_64) == 0;
    }
  }

  /** One of the smallest mappings that a reader accepts: nothing but the magic number and root nid 5. */
  const ROOT_AT_FIVE: ErofsReader :=
    ReaderData(Zeros(EROFS_SUPER_OFFSET) + PutU32(EROFS_SUPER_MAGIC_V1) + Zeros(10) + [5, 0] + Zeros(112), None)

  /** With another root, nid 0 is shown under the number of the root. */
  lemma NidZeroIsLost()
    ensures Open(ROOT_AT_FIVE.mmap, None) == Ok(ROOT_AT_FIVE)
    ensures ToIno(ROOT_AT_FIVE, 0) == ToIno(ROOT_AT_FIVE, 5) && ToNid(ROOT_AT_FIVE, ToIno(ROOT_AT_FIVE, 0)) == 5
  {
    var front, magic := Zeros(EROFS_SUPER_OFFSET), PutU32(EROFS_SUPER_MAGIC_V1);
    assert front + magic <= ROOT_AT_FIVE.mmap;
    U32At(front, EROFS_SUPER_MAGIC_V1, ROOT_AT_FIVE.mmap);
    assert RootNid(ROOT_AT_FIVE) == 5;
    assert Wrap64(1) == 1;
  }

  /** The answer to a lookup: the inode number and the inode itself. */
  datatype LookupReply = LookupReply(ino: nat, nid: nat, inode: ErofsInode)

  /** What a lookup of `name` in a directory with the given listing must answer. */
  ghost function LookupSpec(r: ErofsReader, es: seq<Entry>, name: seq<byte>): Result<LookupReply> {
    match FirstNamed(es, name)
    case None => Err(Enoent)
    case Some(e) =>
      match ReadInode(r, e.nid)
      case Err(x) => Err(x)
      case Ok(v) => Ok(LookupReply(ToIno(r, e.nid), e.nid, v))
  }

  /** What a lookup answers in any directory, in terms of the scan that stops at the first entry of that name. */
  function LookupScan(r: ErofsReader, nid: nat, name: seq<byte>): Result<LookupReply> {
    var v :- ReadInode(r, nid);
    var out :- DirScanOf(r, nid, v, Wanted(name));
    match FoundIn(out, name)
    case None => Err(Enoent)
    case Some(e) =>
      var child :- ReadInode(r, e.nid);
      Ok(LookupReply(ToIno(r, e.nid), e.nid, child))
  }

  /** What a lookup must answer in terms of a full scan of the directory, error cases included. */
  function LookupFull(r: ErofsReader, nid: nat, name: seq<byte>): Result<LookupReply> {
    var v :- ReadInode(r, nid);
    match Sought(FullScan(r, nid, v), name)
    case Err(x) => Err(x)
    case Ok(None) => Err(Enoent)
    case Ok(Some(e)) => ReplyFor(r, e.nid)
  }

  /** `make_entry` for an inode that can be read. */
  function ReplyFor(r: ErofsReader, nid: nat): Result<LookupReply> {
    var child :- ReadInode(r, nid);
    Ok(LookupReply(ToIno(r, nid), nid, child))
  }

  /**
   * On any image, whatever its directories contain: the stopped scan answers what a full scan says, with the
   * same error when the directory cannot be read; and in a directory that lists, what the listing says.
   */
  lemma ScanAnswersListing(r: ErofsReader, nid: nat, name: seq<byte>)
    ensures LookupScan(r, nid, name) == LookupFull(r, nid, name)
    ensures ReadInode(r, nid).Ok? && Listing(r, nid, ReadInode(r, nid).value).Ok? ==>
              LookupScan(r, nid, name) == LookupSpec(r, Listing(r, nid, ReadInode(r, nid).value).value, name)
  {
    if ReadInode(r, nid).Ok? {
      ScanFindsFirst(r, nid, ReadInode(r, nid).value, name);
      if Listing(r, nid, ReadInode(r, nid).value).Ok? {
        ScanAgreesWithListing(r, nid, ReadInode(r, nid).value, name);
      }
    }
  }

  /** `erofs_ft_to_dt`. */
  function FtToDt(ft: byte): nat {
    if ft == 1 then 8 else if ft == EROFS_FT_DIR then 4 else if ft == 3 then 2 else if ft == 4 then 6
    else if ft == 5 then 1 else if ft == 6 then 12 else if ft == 7 then 10 else 0
  }

  datatype DirRecord = DirRecord(ino: nat, offset: nat, dtype: nat, name: seq<byte>)

  function Record(r: ErofsReader, es: seq<Entry>, idx: nat): DirRecord
    requires idx < |es|
  {
    DirRecord(ToIno(r, es[idx].nid), idx + 1, FtToDt(es[idx].fileType), es[idx].name)
  }

  function Records(r: ErofsReader, es: seq<Entry>): (rs: seq<DirRecord>)
    ensures |rs| == |es| && forall i :: 0 <= i < |es| ==> rs[i] == Record(r, es, i)
  {
    seq(|es|, i requires 0 <= i < |es| => Record(r, es, i))
  }

  /** What the reply buffer of the kernel says to a record: taken, no room left, or an error. */
  datatype Reply = Took | Full | Failed(error: Error)

  /**
   * The `add_entry` callbacks: `reply(k)` is the answer to the `k`-th record that is offered. `readdirplus`
   * offers the child's entry together with its record.
   */
  class DirSink {
    var accepted: seq<DirRecord>
    var entries: seq<LookupReply>
    var calls: nat
    const reply: nat -> Reply

    constructor (reply: nat -> Reply)
      ensures this.reply == reply && accepted == [] && entries == [] && calls == 0
    {
      this.reply := reply;
      accepted, entries, calls := [], [], 0;
    }

    method AddEntry(d: DirRecord) returns (a: Reply)
      modifies this`accepted, this`calls
      ensures a == reply(old(calls)) && calls == old(calls) + 1
      ensures accepted == if a == Took then old(accepted) + [d] else old(accepted)
    {
      a := reply(calls);
      calls := calls + 1;
      if a == Took {
        accepted := accepted + [d];
      }
    }

    method AddEntryPlus(d: DirRecord, e: LookupReply) returns (a: Reply)
      modifies this
      ensures a == reply(old(calls)) && calls == old(calls) + 1
      ensures accepted == if a == Took then old(accepted) + [d] else old(accepted)
      ensures entries == if a == Took then old(entries) + [e] else old(entries)
    {
      a := AddEntry(d);
      if a == Took {
        entries := entries + [e];
      }
    }
  }

  /** How many of the next `n` records a sink takes before it first refuses one. */
  function TakenCount(reply: nat -> Reply, calls: nat, n: nat): (k: nat)
    ensures k <= n
    ensures forall i :: calls <= i < calls + k ==> reply(i) == Took
    ensures k < n ==> reply(calls + k) != Took
    decreases n
  {
    if n == 0 || reply(calls) != Took then 0 else 1 + TakenCount(reply, calls + 1, n - 1)
  }

  lemma SliceGrows<T>(was: seq<T>, rs: seq<T>, a: nat, b: nat)
    requires a <= b < |rs|
    ensures was + rs[a..b + 1] == (was + rs[a..b]) + [rs[b]]
  {
  }

  lemma SlicesJoin<T>(rs: seq<T>, a: nat, b: nat)
    requires a <= b <= |rs|
    ensures rs[..a] + rs[a..b] == rs[..b]
    ensures b > a ==> rs[a..b][b - a - 1] == rs[b - 1]
  {
  }

  /** The listing of the inode that `nid` leads to, whatever its type. */
  function ListingOf(r: ErofsReader, nid: nat): Result<seq<Entry>> {
    var v :- ReadInode(r, nid);
    Listing(r, nid, v)
  }

  /** The same for directories only. */
  function DirectoryListing(r: ErofsReader, nid: nat): Result<seq<Entry>> {
    var v :- ReadInode(r, nid);
    if FileTypeBits(v) != S_IFDIR then Err(Enotdir) else Listing(r, nid, v)
  }

  /** A handle that is the counter's old value has been added with the listing, or nothing has changed. */
  ghost predicate Opened(res: Result<nat>, listing: Result<seq<Entry>>, next: nat, table: map<nat, seq<Entry>>,
                         nextNow: nat, tableNow: map<nat, seq<Entry>>)
  {
    if res.Err? then nextNow == next && tableNow == table
    else listing.Ok? && res.value == next && nextNow == Wrap64(next + 1) && tableNow == table[next := listing.value]
  }

  class ErofsFs {
    const reader: ErofsReader
    var dirHandles: map<nat, seq<Entry>>
    var nextDirHandle: nat

    constructor (reader: ErofsReader)
      ensures this.reader == reader && dirHandles == map[] && nextDirHandle == 1
    {
      this.reader := reader;
      dirHandles, nextDirHandle := map[], 1;
    }

    /**
     * `lookup`. In a directory that lists, it finds the first entry of that name, or answers ENOENT
     * exactly when the listing has none.
     */
    method Lookup(parent: nat, name: seq<byte>) returns (res: Result<LookupReply>)
      requires parent < TWO_64
      ensures var nid := ToNid(reader, parent);
              && res == LookupScan(reader, nid, name) == LookupFull(reader, nid, name)
              && (ReadInode(reader, nid).Ok? && Listing(reader, nid, ReadInode(reader, nid).value).Ok? ==>
                    res == LookupSpec(reader, Listing(reader, nid, ReadInode(reader, nid).value).value, name))
      ensures res.Ok? ==> res.value.ino == ToIno(reader, res.value.nid)
    {
      var nid := ToNid(reader, parent);
      ScanAnswersListing(reader, nid, name);
      var vi := ReadInode(reader, nid);
      if vi.Err? {
        return Err(vi.error);
      }
      var out := ForEachDirEntry(reader, nid, vi.value, Wanted(name));
      if out.Err? {
        return Err(out.error);
      }
      match FoundIn(out.value, name)
      case None =>
        return Err(Enoent);
      case Some(e) =>
        var child := ReadInode(reader, e.nid);
        if child.Err? {
          return Err(child.error);
        }
        return Ok(LookupReply(ToIno(reader, e.nid), e.nid, child.value));
    }

    /** `create_dir_handle`: a fresh number from the counter, and the listing of this moment under it. */
    method CreateDirHandle(inode: nat) returns (res: Result<nat>)
      requires inode < TWO_64
      modifies this
      ensures var listing := ListingOf(reader, ToNid(reader, inode));
              && (res.Ok? <==> listing.Ok?) && (listing.Err? ==> res == Err(listing.error))
              && Opened(res, listing, old(nextDirHandle), old(dirHandles), nextDirHandle, dirHandles)
    {
      var nid := ToNid(reader, inode);
      var vi := ReadInode(reader, nid);
      if vi.Err? {
        return Err(vi.error);
      }
      var entries := ForEachDirEntry(reader, nid, vi.value, Never);
      if entries.Err? {
        return Err(entries.error);
      }
      var handle := nextDirHandle;
      nextDirHandle := Wrap64(nextDirHandle + 1);
      dirHandles := dirHandles[handle := entries.value];
      return Ok(handle);
    }

    /** `opendir`: a handle for directories only, which fails with the first error met and then changes nothing. */
    method OpenDir(inode: nat) returns (res: Result<nat>)
      requires inode < TWO_64
      modifies this
      ensures var listing := DirectoryListing(reader, ToNid(reader, inode));
              && (res.Ok? <==> listing.Ok?) && (listing.Err? ==> res == Err(listing.error))
              && Opened(res, listing, old(nextDirHandle), old(dirHandles), nextDirHandle, dirHandles)
    {
      var vi := ReadInode(reader, ToNid(reader, inode));
      if vi.Err? {
        return Err(vi.error);
      }
      if FileTypeBits(vi.value) != S_IFDIR {
        return Err(Enotdir);
      }
      res := CreateDirHandle(inode);
    }

    /** `get_dir_handle`. */
    function GetDirHandle(handle: nat): (res: Result<seq<Entry>>)
      reads this
      ensures res.Ok? <==> handle in dirHandles
      ensures res.Ok? ==> res.value == dirHandles[handle]
    {
      if handle in dirHandles then Ok(dirHandles[handle]) else Err(Ebadf)
    }

    /** `releasedir`. */
    method ReleaseDir(handle: nat)
      modifies this
      ensures dirHandles == old(dirHandles) - {handle} && nextDirHandle == old(nextDirHandle)
      ensures GetDirHandle(handle) == Err(Ebadf)
    {
      dirHandles := dirHandles - {handle};
    }

    /**
     * `readdir`: offers the records from `offset` on until the sink refuses one. The sink ends up with
     * exactly the longest run it was willing to take.
     */
    method ReadDir(handle: nat, offset: nat, sink: DirSink) returns (res: Result<()>)
      modifies sink`accepted, sink`calls
      ensures handle !in dirHandles ==> res == Err(Ebadf) && sink.accepted == old(sink.accepted)
      ensures handle in dirHandles ==>
                Offered(old(sink.accepted), sink.accepted, Records(reader, dirHandles[handle]),
                        Min(offset, |dirHandles[handle]|), sink.reply, old(sink.calls), res)
    {
      var got := GetDirHandle(handle);
      if got.Err? {
        return Err(got.error);
      }
      res := OfferFrom(Records(reader, got.value), Min(offset, |got.value|), sink);
    }

    /**
     * `readdirplus`: the same, but reads every child inode before its record is offered and fails at the
     * first one it cannot read.
     */
    method ReadDirPlus(handle: nat, offset: nat, sink: DirSink) returns (res: Result<()>)
      modifies sink
      ensures handle !in dirHandles ==>
                res == Err(Ebadf) && sink.accepted == old(sink.accepted) && sink.entries == old(sink.entries)
      ensures handle in dirHandles ==>
                OfferedReadable(old(sink.accepted), sink.accepted, Records(reader, dirHandles[handle]),
                                Children(reader, dirHandles[handle]), Min(offset, |dirHandles[handle]|),
                                sink.reply, old(sink.calls), res)
      ensures handle in dirHandles ==>
                && |old(sink.accepted)| <= |sink.accepted|
                && Accompanied(old(sink.entries), sink.entries, Children(reader, dirHandles[handle]),
                               Min(offset, |dirHandles[handle]|), |sink.accepted| - |old(sink.accepted)|)
    {
      var got := GetDirHandle(handle);
      if got.Err? {
        return Err(got.error);
      }
      res := OfferPlusFrom(Children(reader, got.value), Records(reader, got.value), Min(offset, |got.value|), sink);
    }
  }

  /** The children of a listing, as `readdirplus` reads them one by one. */
  function Children(r: ErofsReader, es: seq<Entry>): (vs: seq<Result<LookupReply>>)
    ensures |vs| == |es| && forall i :: 0 <= i < |es| ==> vs[i] == ReplyFor(r, es[i].nid)
  {
    seq(|es|, i requires 0 <= i < |es| => ReplyFor(r, es[i].nid))
  }

  /** The last `n` of the entries are those of the children from `start` on. */
  ghost predicate Accompanied(was: seq<LookupReply>, now: seq<LookupReply>, children: seq<Result<LookupReply>>,
                              start: nat, n: nat)
  {
    && was <= now && |now| == |was| + n && start + n <= |children|
    && forall i :: |was| <= i < |now| ==> children[start + (i - |was|)] == Ok(now[i])
  }

  lemma AccompaniedMore(was: seq<LookupReply>, now: seq<LookupReply>, children: seq<Result<LookupReply>>,
                        start: nat, n: nat)
    requires Accompanied(was, now, children, start, n) && start + n < |children| && children[start + n].Ok?
    ensures Accompanied(was, now + [children[start + n].value], children, start, n + 1)
  {
  }

  /** Every child inode of a listing can be read. */
  predicate AllReadable(r: ErofsReader, es: seq<Entry>) {
    forall i :: 0 <= i < |es| ==> ReadInode(r, es[i].nid).Ok?
  }

  /**
   * A call offered the records `rs` from `offset` on: the sink took the longest run it was willing to
   * take, and the call failed exactly when the sink then answered with an error.
   */
  ghost predicate Offered(was: seq<DirRecord>, now: seq<DirRecord>, rs: seq<DirRecord>, start: nat,
                          reply: nat -> Reply, calls: nat, res: Result<()>)
    requires start <= |rs|
  {
    var k := TakenCount(reply, calls, |rs| - start);
    && now == was + rs[start..start + k]
    && (res.Err? <==> start + k < |rs| && reply(calls + k).Failed?)
  }

  /** The first index from `start` on whose child inode cannot be read; the length of the list if there is none. */
  function FirstUnreadable(children: seq<Result<LookupReply>>, start: nat): (k: nat)
    requires start <= |children|
    ensures start <= k <= |children| && (k < |children| ==> children[k].Err?)
    ensures forall i :: start <= i < k ==> children[i].Ok?
    decreases |children| - start
  {
    if start == |children| || children[start].Err? then start else FirstUnreadable(children, start + 1)
  }

  /**
   * The same for a call that reads the children: what is behind the first unreadable one is never offered,
   * and the call fails when it gets there or when the sink answers with an error.
   */
  ghost predicate OfferedReadable(was: seq<DirRecord>, now: seq<DirRecord>, rs: seq<DirRecord>,
                                  children: seq<Result<LookupReply>>, start: nat,
                                  reply: nat -> Reply, calls: nat, res: Result<()>)
    requires start <= |rs| == |children|
  {
    var end := FirstUnreadable(children, start);
    OfferedUpTo(was, now, rs, start, end, TakenCount(reply, calls, end - start), reply, calls, res)
  }

  /** The sink took `k` records from `start` on, of those before `end`. */
  ghost predicate OfferedUpTo(was: seq<DirRecord>, now: seq<DirRecord>, rs: seq<DirRecord>, start: nat, end: nat,
                              k: nat,
                              reply: nat -> Reply, calls: nat, res: Result<()>)
    requires start + k <= end <= |rs|
  {
    && now == was + rs[start..start + k]
    && (res.Err? <==> if start + k < end then reply(calls + k).Failed? else end < |rs|)
  }

  lemma ReadableOffered(was: seq<DirRecord>, now: seq<DirRecord>, rs: seq<DirRecord>,
                        children: seq<Result<LookupReply>>, start: nat, reply: nat -> Reply,
                        calls: nat, res: Result<()>)
    requires start <= |rs| == |children| && forall i :: 0 <= i < |children| ==> children[i].Ok?
    requires OfferedReadable(was, now, rs, children, start, reply, calls, res)
    ensures Offered(was, now, rs, start, reply, calls, res)
  {
    assert FirstUnreadable(children, start) == |rs|;
  }

  /** The loop stopped at `idx`: at the end of the list or at the first refusal. */
  lemma OfferEnds(was: seq<DirRecord>, now: seq<DirRecord>, rs: seq<DirRecord>, start: nat, idx: nat,
                  reply: nat -> Reply, calls: nat, res: Result<()>)
    requires start <= idx <= |rs| && now == was + rs[start..idx]
    requires idx - start <= TakenCount(reply, calls, |rs| - start)
    requires if idx == |rs| then res.Ok?
             else reply(calls + (idx - start)) != Took && (res.Err? <==> reply(calls + (idx - start)).Failed?)
    ensures Offered(was, now, rs, start, reply, calls, res)
  {
  }

  /** The loop of `readdir`. */
  method OfferFrom(rs: seq<DirRecord>, start: nat, sink: DirSink) returns (res: Result<()>)
    requires start <= |rs|
    modifies sink`accepted, sink`calls
    ensures Offered(old(sink.accepted), sink.accepted, rs, start, sink.reply, old(sink.calls), res)
  {
    hide Offered;
    ghost var was, calls0 := sink.accepted, sink.calls;
    ghost var k := TakenCount(sink.reply, calls0, |rs| - start);
    var idx: nat := start;
    while idx < |rs|
      invariant start <= idx <= start + k && sink.calls == calls0 + (idx - start)
      invariant sink.accepted == was + rs[start..idx]
    {
      var a := sink.AddEntry(rs[idx]);
      match a
      case Full =>
        OfferEnds(was, sink.accepted, rs, start, idx, sink.reply, calls0, Ok(()));
        return Ok(());
      case Failed(e) =>
        OfferEnds(was, sink.accepted, rs, start, idx, sink.reply, calls0, Err(e));
        return Err(e);
      case Took =>
        SliceGrows(was, rs, start, idx);
        idx := idx + 1;
    }
    OfferEnds(was, sink.accepted, rs, start, idx, sink.reply, calls0, Ok(()));
    return Ok(());
  }

  /** The loop of `readdirplus`. */
  method OfferPlusFrom(children: seq<Result<LookupReply>>, rs: seq<DirRecord>, start: nat, sink: DirSink)
    returns (res: Result<()>)
    requires start <= |rs| == |children|
    modifies sink
    ensures OfferedReadable(old(sink.accepted), sink.accepted, rs, children, start, sink.reply, old(sink.calls), res)
    ensures && |old(sink.accepted)| <= |sink.accepted|
            && Accompanied(old(sink.entries), sink.entries, children, start, |sink.accepted| - |old(sink.accepted)|)
  {
    ghost var was, wasEntries, calls0 := sink.accepted, sink.entries, sink.calls;
    var idx: nat := start;
    res := Ok(());
    while idx < |rs|
      invariant start <= idx <= |rs| && res.Ok?
      invariant AllTaken(children, start, idx, sink.reply, calls0) && sink.calls == calls0 + (idx - start)
      invariant sink.accepted == was + rs[start..idx]
      invariant Accompanied(wasEntries, sink.entries, children, start, idx - start)
    {
      var more;
      more, res := OfferChild(children, rs, start, idx, sink, was, wasEntries, calls0);
      if !more {
        return res;
      }
      idx := idx + 1;
    }
    StoppedAt(was, rs, children, start, idx, sink.reply, calls0, Ok(()));
  }

  /** One round of that loop; `more` says whether it goes on. */
  method OfferChild(children: seq<Result<LookupReply>>, rs: seq<DirRecord>, start: nat, idx: nat, sink: DirSink,
                    ghost was: seq<DirRecord>, ghost wasEntries: seq<LookupReply>, ghost calls0: nat)
    returns (more: bool, res: Result<()>)
    requires start <= idx < |rs| == |children| && sink.accepted == was + rs[start..idx]
    requires AllTaken(children, start, idx, sink.reply, calls0) && sink.calls == calls0 + (idx - start)
    requires Accompanied(wasEntries, sink.entries, children, start, idx - start)
    modifies sink
    ensures more ==> && AllTaken(children, start, idx + 1, sink.reply, calls0) && res.Ok?
                     && sink.calls == calls0 + (idx + 1 - start) && sink.accepted == was + rs[start..idx + 1]
                     && Accompanied(wasEntries, sink.entries, children, start, idx + 1 - start)
    ensures !more ==> && OfferedReadable(was, sink.accepted, rs, children, start, sink.reply, calls0, res)
                      && sink.accepted == was + rs[start..idx]
                      && Accompanied(wasEntries, sink.entries, children, start, idx - start)
  {
    hide OfferedReadable, Accompanied, AllTaken;
    if children[idx].Err? {
      StoppedAt(was, rs, children, start, idx, sink.reply, calls0, Err(children[idx].error));
      return false, Err(children[idx].error);
    }
    AccompaniedMore(wasEntries, sink.entries, children, start, idx - start);
    SliceGrows(was, rs, start, idx);
    var a := sink.AddEntryPlus(rs[idx], children[idx].value);
    if a == Took {
      TakenMore(children, start, idx, sink.reply, calls0);
      return true, Ok(());
    }
    res := if a.Full? then Ok(()) else Err(a.error);
    StoppedAt(was, rs, children, start, idx, sink.reply, calls0, res);
    return false, res;
  }

  /** The children from `start` to `idx` could be read and the sink took all of them. */
  ghost predicate AllTaken(children: seq<Result<LookupReply>>, start: nat, idx: nat, reply: nat -> Reply, calls: nat) {
    && start <= idx <= |children| && (forall i :: start <= i < idx ==> children[i].Ok?)
    && forall i :: calls <= i < calls + (idx - start) ==> reply(i) == Took
  }

  lemma TakenMore(children: seq<Result<LookupReply>>, start: nat, idx: nat, reply: nat -> Reply, calls: nat)
    requires AllTaken(children, start, idx, reply, calls) && idx < |children| && children[idx].Ok?
    requires reply(calls + (idx - start)) == Took
    ensures AllTaken(children, start, idx + 1, reply, calls)
  {
  }

  lemma {:induction false} TakenAtLeast(reply: nat -> Reply, calls: nat, n: nat, k: nat)
    requires k <= n && forall i :: calls <= i < calls + k ==> reply(i) == Took
    ensures k <= TakenCount(reply, calls, n)
    decreases n
  {
    if k > 0 {
      TakenAtLeast(reply, calls + 1, n - 1, k - 1);
    }
  }

  lemma {:induction false} ReadableAtLeast(children: seq<Result<LookupReply>>, start: nat, idx: nat)
    requires start <= idx <= |children| && forall i :: start <= i < idx ==> children[i].Ok?
    ensures idx <= FirstUnreadable(children, start)
    decreases idx - start
  {
    if start < idx {
      ReadableAtLeast(children, start + 1, idx);
    }
  }

  /** The loop stopped at `idx`: at the end, at an unreadable child or at the first refusal. */
  lemma StoppedAt(was: seq<DirRecord>, rs: seq<DirRecord>, children: seq<Result<LookupReply>>, start: nat, idx: nat,
                  reply: nat -> Reply, calls: nat, res: Result<()>)
    requires start <= idx <= |rs| == |children| && AllTaken(children, start, idx, reply, calls)
    requires if idx == |rs| then res.Ok?
             else if children[idx].Err? then res.Err?
             else reply(calls + (idx - start)) != Took && (res.Err? <==> reply(calls + (idx - start)).Failed?)
    ensures OfferedReadable(was, was + rs[start..idx], rs, children, start, reply, calls, res)
  {
    hide FirstUnreadable, TakenCount, OfferedUpTo;
    var end := FirstUnreadable(children, start);
    ReadableAtLeast(children, start, idx);
    TakenAtLeast(reply, calls, end - start, idx - start);
    StoppedWith(was, rs, children, start, idx, end, TakenCount(reply, calls, end - start), reply, calls, res);
  }

  lemma StoppedWith(was: seq<DirRecord>, rs: seq<DirRecord>, children: seq<Result<LookupReply>>, start: nat, idx: nat,
                    end: nat, k: nat, reply: nat -> Reply, calls: nat, res: Result<()>)
    requires start <= idx <= |rs| == |children| && idx <= start + k <= end <= |rs|
    requires (end < |rs| ==> children[end].Err?) && forall i :: start <= i < end ==> children[i].Ok?
    requires start + k < end ==> reply(calls + k) != Took
    requires forall i :: calls <= i < calls + k ==> reply(i) == Took
    requires if idx == |rs| then res.Ok?
             else if children[idx].Err? then res.Err?
             else reply(calls + (idx - start)) != Took && (res.Err? <==> reply(calls + (idx - start)).Failed?)
    ensures OfferedUpTo(was, was + rs[start..idx], rs, start, end, k, reply, calls, res)
  {
    assert start + k == idx;
  }

  // ------------------------------------------------------------------
  // The object and the state machine of its handles
  // ------------------------------------------------------------------

  /** Between two calls, the fields of the object are those of the state. */
  ghost predicate Mirrors(fs: ErofsFs, s: Handles.State)
    reads fs
  {
    fs.nextDirHandle == s.next && fs.dirHandles == s.table && s.pending == map[]
  }

  /** Creating a handle is what a thread does that draws a number and inserts its listing. */
  method CreateTraced(fs: ErofsFs, inode: nat, ghost s: Handles.State, ghost thread: nat)
    returns (res: Result<nat>, ghost es: seq<Handles.Event>)
    requires inode < TWO_64 && Mirrors(fs, s)
    modifies fs
    ensures Handles.CanRun(s, es) && Mirrors(fs, Handles.Run(s, es))
    ensures res.Err? ==> es == []
    ensures res.Ok? ==> && res.value == s.next && res.value in fs.dirHandles
                        && es == Handles.OpenSteps(thread, fs.dirHandles[res.value])
  {
    hide Listing, ReadInode, ToNid;
    res := fs.CreateDirHandle(inode);
    if res.Err? {
      return res, [];
    }
    es := Handles.OpenSteps(thread, fs.dirHandles[res.value]);
    Handles.OpenRuns(s, thread, fs.dirHandles[res.value], es);
  }

  datatype Request = Create(inode: nat) | Release(handle: nat)

  /**
   * Any sequence of calls that create and release handles takes the object through a run of the state
   * machine, so what holds in every interleaving holds of the object.
   */
  method Serve(fs: ErofsFs, requests: seq<Request>) returns (ghost es: seq<Handles.Event>)
    requires Mirrors(fs, Handles.INIT)
    requires forall k :: 0 <= k < |requests| && requests[k].Create? ==> requests[k].inode < TWO_64
    modifies fs
    ensures Handles.CanRun(Handles.INIT, es) && Mirrors(fs, Handles.Run(Handles.INIT, es))
  {
    es := [];
    for k := 0 to |requests|
      invariant Handles.CanRun(Handles.INIT, es) && Mirrors(fs, Handles.Run(Handles.INIT, es))
    {
      ghost var s := Handles.Run(Handles.INIT, es);
      ghost var more;
      match requests[k] {
        case Create(inode) =>
          var res;
          res, more := CreateTraced(fs, inode, s, 0);
        case Release(handle) =>
          fs.ReleaseDir(handle);
          Handles.ReleaseRuns(s, handle);
          more := [Handles.Release(handle)];
      }
      Handles.RunAppend(Handles.INIT, es, more);
      es := es + more;
    }
  }

  // ------------------------------------------------------------------
  // Paged listing
  // ------------------------------------------------------------------

  /** A reply buffer with room for `cap` records. */
  function WithRoom(cap: nat): nat -> Reply {
    (k: nat) => if k < cap then Took else Full
  }

  lemma {:induction false} RoomTaken(cap: nat, calls: nat, n: nat)
    requires calls <= cap
    ensures TakenCount(WithRoom(cap), calls, n) == Min(cap - calls, n)
    decreases n
  {
    if n > 0 && calls < cap {
      RoomTaken(cap, calls + 1, n - 1);
    }
  }

  /** One call of a lister: `readdir` or `readdirplus`, with a reply buffer for `room` records. */
  datatype Call = Call(plus: bool, room: nat)

  /**
   * A client that lists a directory page by page, by any mix of the two calls and with any positive
   * room in each, always resuming at the offset of the last record it got, until a page comes back
   * empty. It terminates with every record exactly once and in order.
   */
  method ListAll(fs: ErofsFs, handle: nat, plan: nat -> Call) returns (all: seq<DirRecord>)
    requires handle in fs.dirHandles
    requires AllReadable(fs.reader, fs.dirHandles[handle]) || forall i :: !plan(i).plus
    requires forall i :: plan(i).room > 0
    ensures all == Records(fs.reader, fs.dirHandles[handle])
  {
    hide Records, AllReadable;
    ghost var rs := Records(fs.reader, fs.dirHandles[handle]);
    all := [];
    var offset: nat := 0;
    var turn: nat := 0;
    while true
      invariant offset == |all| <= |rs| && all == rs[..offset]
      decreases |rs| - |all|
    {
      var page := OnePage(fs, handle, offset, plan(turn));
      if page == [] {
        return;
      }
      SlicesJoin(rs, offset, offset + |page|);
      all := all + page;
      offset := page[|page| - 1].offset;
      turn := turn + 1;
    }
  }

  /** One call of the client: a fresh reply buffer, filled from `offset` on. */
  method OnePage(fs: ErofsFs, handle: nat, offset: nat, call: Call) returns (page: seq<DirRecord>)
    requires handle in fs.dirHandles && (AllReadable(fs.reader, fs.dirHandles[handle]) || !call.plus)
    requires offset <= |fs.dirHandles[handle]| && call.room > 0
    ensures var rs := Records(fs.reader, fs.dirHandles[handle]);
            var n := Min(call.room, |rs| - offset);
            |page| == n && page == rs[offset..offset + n] && (n > 0 ==> page[n - 1].offset == offset + n)
  {
    var sink := new DirSink(WithRoom(call.room));
    var res := FillPage(fs, handle, offset, call.plus, sink);
    page := sink.accepted;
    RoomFilled(page, Records(fs.reader, fs.dirHandles[handle]), offset, call.room, res);
    LastOffset(fs.reader, fs.dirHandles[handle], offset, page);
  }

  method FillPage(fs: ErofsFs, handle: nat, offset: nat, plus: bool, sink: DirSink) returns (res: Result<()>)
    requires handle in fs.dirHandles && (AllReadable(fs.reader, fs.dirHandles[handle]) || !plus)
    requires offset <= |fs.dirHandles[handle]|
    modifies sink
    ensures Offered(old(sink.accepted), sink.accepted, Records(fs.reader, fs.dirHandles[handle]), offset,
                    sink.reply, old(sink.calls), res)
  {
    if plus {
      res := fs.ReadDirPlus(handle, offset, sink);
      ReadableOffered(old(sink.accepted), sink.accepted, Records(fs.reader, fs.dirHandles[handle]),
                      Children(fs.reader, fs.dirHandles[handle]), offset, sink.reply, old(sink.calls), res);
    } else {
      res := fs.ReadDir(handle, offset, sink);
    }
  }

  lemma LastOffset(r: ErofsReader, es: seq<Entry>, offset: nat, page: seq<DirRecord>)
    requires offset + |page| <= |es| && page == Records(r, es)[offset..offset + |page|]
    ensures page != [] ==> page[|page| - 1].offset == offset + |page|
  {
  }

  lemma RoomFilled(page: seq<DirRecord>, rs: seq<DirRecord>, offset: nat, room: nat, res: Result<()>)
    requires offset <= |rs| && Offered([], page, rs, offset, WithRoom(room), 0, res)
    ensures var n := Min(room, |rs| - offset); |page| == n && page == rs[offset..offset + n]
  {
    RoomTaken(room, 0, |rs| - offset);
  }
}
