/** The 12-byte directory entry (src/metadata/dir.rs). */
module Dirents {
  import opened Bytes
  import opened Metadata

  /** An entry as the reader delivers it: `CachedDirEntry`. */
  datatype Entry = Entry(nid: nat, fileType: byte, name: seq<byte>)

  /** `ErofsDirent::new`. */
  function DirentBytes(nid: nat, nameoff: nat, fileType: byte): (r: seq<byte>)
    ensures |r| == EROFS_DIRENT_SIZE
  {
    PutU64(nid) + PutU16(nameoff) + [fileType, 0]
  }

  function DirentNid(d: seq<byte>, off: nat): nat
    requires off + EROFS_DIRENT_SIZE <= |d|
  {
    GetU64(d, off)
  }

  function DirentNameoff(d: seq<byte>, off: nat): nat
    requires off + EROFS_DIRENT_SIZE <= |d|
  {
    GetU16(d, off + 8)
  }

  function DirentFileType(d: seq<byte>, off: nat): byte
    requires off + EROFS_DIRENT_SIZE <= |d|
  {
    d[off + 10]
  }

  lemma DirentRoundTrip(pre: seq<byte>, nid: nat, nameoff: nat, fileType: byte, d: seq<byte>)
    requires nid < TWO_64 && nameoff < TWO_16 && pre + DirentBytes(nid, nameoff, fileType) <= d
    ensures DirentNid(d, |pre|) == nid && DirentNameoff(d, |pre|) == nameoff && DirentFileType(d, |pre|) == fileType
  {
    var p1 := pre + PutU64(nid);
    var p2 := p1 + PutU16(nameoff);
    assert pre + DirentBytes(nid, nameoff, fileType) == p2 + [fileType, 0];
    U64At(pre, nid, d);
    U16At(p1, nameoff, d);
    assert d[|p2|] == (p2 + [fileType, 0])[|p2|];
  }
}
