/** Directories and xattrs of an image (src/fs/meta.rs). */
module DirReader {
  import opened Bytes
  import opened Metadata
  import opened Inodes
  import opened Xattrs
  import opened Dirents
  import opened DirScan
  import opened Reader

  /** The bytes of a directory: one slice when possible, else put together. */
  function DirData(r: ErofsReader, nid: nat, v: ErofsInode): Result<seq<byte>> {
    match ReadFlatData(r, nid, v, 0, Size(v))
    case Ok(data) => Ok(data)
    case Err(_) => ReadFlatDataVec(r, nid, v, 0, Size(v))
  }

  /** The entries that a callback which stops at `stop` is given. */
  function DirScanOf(r: ErofsReader, nid: nat, v: ErofsInode, stop: Entry -> bool): Result<seq<Entry>> {
    if Size(v) == 0 then Ok([]) else
    var data :- DirData(r, nid, v);
    var s := ScanBlocks(data, 0, stop);
    if s.end == Panicked then Err(Panic) else Ok(s.out)
  }

  /** `for_each_dir_entry`. */
  method ForEachDirEntry(r: ErofsReader, nid: nat, v: ErofsInode, stop: Entry -> bool) returns (res: Result<seq<Entry>>)
    ensures res == DirScanOf(r, nid, v, stop)
  {
    var dirSize := Size(v);
    if dirSize == 0 {
      return Ok([]);
    }
    var data := ReadFlatData(r, nid, v, 0, dirSize);
    if data.Err? {
      data := ReadFlatDataVec(r, nid, v, 0, dirSize);
      if data.Err? {
        return Err(data.error);
      }
    }
    var out, end := ParseDirEntries(data.value, stop);
    return if end == Panicked then Err(Panic) else Ok(out);
  }

  /** `read_dir_cached`: the whole list. */
  function Listing(r: ErofsReader, nid: nat, v: ErofsInode): Result<seq<Entry>> {
    DirScanOf(r, nid, v, Never)
  }

  /** The first entry of a list with the given name. */
  function FirstNamed(es: seq<Entry>, name: seq<byte>): (e: Option<Entry>)
    ensures e.Some? ==> e.value in es && e.value.name == name
    ensures e.None? <==> forall x :: x in es ==> x.name != name
  {
    if es == [] then None
    else if es[0].name == name then Some(es[0])
    else FirstNamed(es[1..], name)
  }

  function Wanted(name: seq<byte>): Entry -> bool {
    (e: Entry) => e.name == name
  }

  /** What `lookup` keeps of a stopped scan: the entry that stopped it. */
  function FoundIn(out: seq<Entry>, name: seq<byte>): Option<Entry> {
    if out != [] && out[|out| - 1].name == name then Some(out[|out| - 1]) else None
  }

  lemma {:induction false} DeliveredIsFirst(es: seq<Entry>, name: seq<byte>)
    ensures FoundIn(Deliver(es, Wanted(name)).out, name) == FirstNamed(es, name)
  {
    if es != [] && es[0].name != name {
      DeliveredIsFirst(es[1..], name);
      var rest := Deliver(es[1..], Wanted(name)).out;
      assert Deliver(es, Wanted(name)).out == [es[0]] + rest;
      assert rest != [] ==> ([es[0]] + rest)[|rest|] == rest[|rest| - 1];
    }
  }

  /** What a callback that never stops is given, and whether the parser panicked at the end. */
  function FullScan(r: ErofsReader, nid: nat, v: ErofsInode): Result<Scan> {
    if Size(v) == 0 then Ok(Scan([], Finished)) else
    var data :- DirData(r, nid, v);
    Ok(ScanBlocks(data, 0, Never))
  }

  /** A directory of an image fails to list with a panic exactly when its data say so. */
  lemma ListingPanicsExact(r: ErofsReader, nid: nat, v: ErofsInode)
    ensures Listing(r, nid, v) == Err(Panic) <==>
              Size(v) != 0 && DirData(r, nid, v).Ok? && PanicsFrom(DirData(r, nid, v).value, 0)
  {
    if DirData(r, nid, v).Ok? {
      PanicsExact(DirData(r, nid, v).value, 0);
    }
  }

  /** What the scan for a name must find, given all that a full scan delivers. */
  function Sought(s: Result<Scan>, name: seq<byte>): Result<Option<Entry>> {
    match s
    case Err(x) => Err(x)
    case Ok(s) =>
      if FirstNamed(s.out, name).None? && s.end == Panicked then Err(Panic) else Ok(FirstNamed(s.out, name))
  }

  /**
   * On any image: the early-stopping scan finds exactly the first entry of that name among those that a
   * full scan delivers, and nothing when there is none; it fails when the directory cannot be read, or when
   * a full scan panics without having come across the name.
   */
  lemma ScanFindsFirst(r: ErofsReader, nid: nat, v: ErofsInode, name: seq<byte>)
    ensures Sought(FullScan(r, nid, v), name) == match DirScanOf(r, nid, v, Wanted(name))
                                                 case Err(x) => Err(x)
                                                 case Ok(out) => Ok(FoundIn(out, name))
  {
    if Size(v) != 0 && DirData(r, nid, v).Ok? {
      var data := DirData(r, nid, v).value;
      var all := ScanBlocks(data, 0, Never).out;
      StopIsDeliver(data, 0, Wanted(name));
      DeliverEnds(all, Wanted(name));
      DeliveredIsFirst(all, name);
      StopsExact(all, Wanted(name));
    }
  }

  /**
   * On any image: whenever a directory lists, the early-stopping scan finds exactly the first entry
   * of that name in the list, and nothing when the list has none.
   */
  lemma ScanAgreesWithListing(r: ErofsReader, nid: nat, v: ErofsInode, name: seq<byte>)
    requires Listing(r, nid, v).Ok?
    ensures DirScanOf(r, nid, v, Wanted(name)).Ok?
    ensures FoundIn(DirScanOf(r, nid, v, Wanted(name)).value, name) == FirstNamed(Listing(r, nid, v).value, name)
  {
    ScanFindsFirst(r, nid, v, name);
  }

  /** The xattr body that the stored count of an inode covers. */
  function IbodyOf(r: ErofsReader, nid: nat, v: ErofsInode): Result<seq<byte>> {
    MmapSlice(r, Wrap64(InodeOffset(r, nid) + HeaderSize(v)), XattrSize(v))
  }

  /** The full names and values that the visible body parses to. */
  function XattrsOf(r: ErofsReader, nid: nat, v: ErofsInode): Result<seq<NamedValue>> {
    if XattrSize(v) == 0 then Ok([]) else
    var d :- IbodyOf(r, nid, v);
    Ok(Named(XattrPrefix, ParseIbody(d)))
  }

  /** `read_xattrs`. */
  method ReadXattrs(r: ErofsReader, nid: nat, v: ErofsInode) returns (res: Result<seq<NamedValue>>)
    ensures res == XattrsOf(r, nid, v)
  {
    if XattrSize(v) == 0 {
      return Ok([]);
    }
    var data := IbodyOf(r, nid, v);
    if data.Err? {
      return Err(data.error);
    }
    var list := ReadIbody(XattrPrefix, data.value);
    return Ok(list);
  }
}
