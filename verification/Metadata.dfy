/** Format constants and the helpers shared by the builder and the reader (src/metadata/mod.rs). */
module Metadata {
  import opened Bytes

  const EROFS_SUPER_MAGIC_V1 := 0xE0F5_E1E2
  const EROFS_SUPER_OFFSET := 1024
  const EROFS_BLOCK_SIZE := 4096
  const EROFS_BLKSZBITS := 12
  const EROFS_SLOTSIZE := 32

  const EROFS_INODE_FLAT_PLAIN := 0
  const EROFS_INODE_FLAT_INLINE := 2
  const EROFS_INODE_CHUNK_BASED := 4
  const EROFS_CHUNK_FORMAT_INDEXES := 0x20

  const EROFS_FT_DIR: byte := 2
  const EROFS_NULL_ADDR := 0xFFFF_FFFF_FFFF_FFFF

  const EROFS_SB_BASE_SIZE := 128
  const EROFS_INODE_COMPACT_SIZE := 32
  const EROFS_INODE_EXTENDED_SIZE := 64
  const EROFS_CHUNK_INDEX_SIZE := 8
  const EROFS_DIRENT_SIZE := 12

  const EROFS_XATTR_INDEX_USER: byte := 1
  const EROFS_XATTR_INDEX_POSIX_ACL_ACCESS: byte := 2
  const EROFS_XATTR_INDEX_POSIX_ACL_DEFAULT: byte := 3
  const EROFS_XATTR_INDEX_TRUSTED: byte := 4
  const EROFS_XATTR_INDEX_LUSTRE: byte := 5
  const EROFS_XATTR_INDEX_SECURITY: byte := 6
  const EROFS_XATTR_IBODY_HEADER_SIZE := 12
  const EROFS_XATTR_ENTRY_HEADER_SIZE := 4

  /** The errors the modelled code can return, and its panics. */
  datatype Error =
    | UnexpectedEof | InvalidInput | InvalidData | NotFound | WriteFailed
    | Enoent | Ebadf | Enotdir | Panic

  datatype Result<+T> = Ok(value: T) | Err(error: Error) {
    predicate IsFailure() {
      Err?
    }
    function PropagateFailure<U>(): Result<U>
      requires Err?
    {
      Err(error)
    }
    function Extract(): T
      requires Ok?
    {
      value
    }
  }

  // `round_up` and `round_up_usize` at the three alignments they are called with.

  function RoundUp4(val: nat): (r: nat)
    ensures val <= r < val + 4
  {
    (val + 3) / 4 * 4
  }

  function RoundUpSlot(val: nat): (r: nat)
    ensures val <= r < val + EROFS_SLOTSIZE
  {
    (val + 31) / 32 * 32
  }

  function RoundUpBlock(val: nat): (r: nat)
    ensures val <= r < val + EROFS_BLOCK_SIZE
  {
    (val + 4095) / 4096 * 4096
  }

  // The namespace prefixes as ASCII bytes.
  const USER_PREFIX: seq<byte> := [117, 115, 101, 114, 46] // "user."
  // "system.posix_acl_access"
  const ACL_ACCESS_PREFIX: seq<byte> :=
    [115, 121, 115, 116, 101, 109, 46, 112, 111, 115, 105, 120, 95, 97, 99, 108, 95, 97, 99, 99, 101, 115, 115]
  // "system.posix_acl_default"
  const ACL_DEFAULT_PREFIX: seq<byte> :=
    [115, 121, 115, 116, 101, 109, 46, 112, 111, 115, 105, 120, 95, 97, 99, 108, 95, 100, 101, 102, 97, 117, 108, 116]
  const TRUSTED_PREFIX: seq<byte> := [116, 114, 117, 115, 116, 101, 100, 46] // "trusted."
  const LUSTRE_PREFIX: seq<byte> := [108, 117, 115, 116, 114, 101, 46] // "lustre."
  const SECURITY_PREFIX: seq<byte> := [115, 101, 99, 117, 114, 105, 116, 121, 46] // "security."

  /** The byte prefix of an xattr name index. */
  function XattrPrefix(index: byte): Option<seq<byte>> {
    if index == EROFS_XATTR_INDEX_USER then Some(USER_PREFIX)
    else if index == EROFS_XATTR_INDEX_POSIX_ACL_ACCESS then Some(ACL_ACCESS_PREFIX)
    else if index == EROFS_XATTR_INDEX_POSIX_ACL_DEFAULT then Some(ACL_DEFAULT_PREFIX)
    else if index == EROFS_XATTR_INDEX_TRUSTED then Some(TRUSTED_PREFIX)
    else if index == EROFS_XATTR_INDEX_LUSTRE then Some(LUSTRE_PREFIX)
    else if index == EROFS_XATTR_INDEX_SECURITY then Some(SECURITY_PREFIX)
    else None
  }

  function StripPrefix(name: seq<byte>, prefix: seq<byte>): (r: Option<seq<byte>>)
    ensures r.Some? <==> prefix <= name
    ensures r.Some? ==> prefix + r.value == name
  {
    if prefix <= name then Some(name[|prefix|..]) else None
  }

  /** Split a full xattr name into index and suffix, testing the prefixes in the order of the source. */
  function XattrNameSplit(name: seq<byte>): Option<(byte, seq<byte>)> {
    var security := StripPrefix(name, SECURITY_PREFIX);
    if security.Some? then Some((EROFS_XATTR_INDEX_SECURITY, security.value)) else
    var trusted := StripPrefix(name, TRUSTED_PREFIX);
    if trusted.Some? then Some((EROFS_XATTR_INDEX_TRUSTED, trusted.value)) else
    var user := StripPrefix(name, USER_PREFIX);
    if user.Some? then Some((EROFS_XATTR_INDEX_USER, user.value)) else
    var access := StripPrefix(name, ACL_ACCESS_PREFIX);
    if access.Some? then Some((EROFS_XATTR_INDEX_POSIX_ACL_ACCESS, access.value)) else
    var default := StripPrefix(name, ACL_DEFAULT_PREFIX);
    if default.Some? then Some((EROFS_XATTR_INDEX_POSIX_ACL_DEFAULT, default.value)) else
    var lustre := StripPrefix(name, LUSTRE_PREFIX);
    if lustre.Some? then Some((EROFS_XATTR_INDEX_LUSTRE, lustre.value)) else
    None
  }

  /** No name starts with two of the prefixes, so the order of the tests cannot matter. */
  lemma XattrPrefixFree(i: byte, j: byte, name: seq<byte>)
    requires XattrPrefix(i).Some? && XattrPrefix(j).Some?
    requires XattrPrefix(i).value <= name && XattrPrefix(j).value <= name
    ensures i == j
  {
    var p, q := XattrPrefix(i).value, XattrPrefix(j).value;
    assert p[0] == name[0] == q[0];
    assert p[1] == name[1] == q[1];
    if |p| > 17 && |q| > 17 {
      assert p[17] == name[17] == q[17];
    }
  }

  /** A split name is the prefix of its index followed by its suffix. */
  lemma XattrSplitSound(name: seq<byte>)
    ensures XattrNameSplit(name).Some? ==>
              var (i, s) := XattrNameSplit(name).value;
              XattrPrefix(i).Some? && XattrPrefix(i).value <= name && XattrPrefix(i).value + s == name
  {
  }

  /** A name that does not split starts with none of the prefixes. */
  lemma XattrSplitComplete(name: seq<byte>, i: byte)
    requires XattrPrefix(i).Some? && XattrPrefix(i).value <= name
    ensures XattrNameSplit(name).Some?
  {
  }

  /** Splitting undoes prefixing, for every index and every suffix. */
  lemma XattrSplitInverse(index: byte, suffix: seq<byte>)
    requires XattrPrefix(index).Some?
    ensures XattrNameSplit(XattrPrefix(index).value + suffix) == Some((index, suffix))
  {
    var p := XattrPrefix(index).value;
    var full := p + suffix;
    XattrSplitComplete(full, index);
    XattrSplitSound(full);
    var (i, s) := XattrNameSplit(full).value;
    XattrPrefixFree(i, index, full);
    assert full[|p|..] == suffix && full[|p|..] == s;
  }

  datatype Xattr = Xattr(index: byte, suffix: seq<byte>, value: seq<byte>)

  function XattrEntrySize(x: Xattr): (r: nat)
    ensures r >= 4 + |x.suffix| + |x.value|
  {
    RoundUp4(EROFS_XATTR_ENTRY_HEADER_SIZE + |x.suffix| + |x.value|)
  }

  function XattrEntriesSize(xs: seq<Xattr>): (r: nat)
    ensures xs != [] ==> r >= 4
  {
    if xs == [] then 0 else XattrEntrySize(xs[0]) + XattrEntriesSize(xs[1..])
  }

  /** The size of an inline xattr body: a 12-byte header and the 4-aligned entries. */
  function IbodySize(xs: seq<Xattr>): (r: nat)
    ensures xs != [] ==> r >= 16
  {
    if xs == [] then 0 else EROFS_XATTR_IBODY_HEADER_SIZE + XattrEntriesSize(xs)
  }

  lemma RoundUp4Aligned(val: nat)
    ensures RoundUp4(val) % 4 == 0
  {
  }

  lemma {:induction false} EntriesSizeAligned(xs: seq<Xattr>)
    ensures XattrEntriesSize(xs) % 4 == 0
  {
    if xs != [] {
      RoundUp4Aligned(EROFS_XATTR_ENTRY_HEADER_SIZE + |xs[0].suffix| + |xs[0].value|);
      EntriesSizeAligned(xs[1..]);
    }
  }

  /** `xattr_ibody_size`. */
  method XattrIbodySize(xs: seq<Xattr>) returns (size: nat)
    ensures size == IbodySize(xs)
  {
    if |xs| == 0 {
      return 0;
    }
    size := EROFS_XATTR_IBODY_HEADER_SIZE;
    for i := 0 to |xs|
      invariant size + XattrEntriesSize(xs[i..]) == IbodySize(xs)
    {
      assert xs[i..][1..] == xs[i + 1..];
      var entrySize := EROFS_XATTR_ENTRY_HEADER_SIZE + |xs[i].suffix| + |xs[i].value|;
      size := size + RoundUp4(entrySize);
    }
  }

  /** `xattr_icount`: what the inode stores for a body of the given size, truncated to 16 bits. */
  function XattrIcount(ibodySize: nat): (r: nat)
    requires ibodySize == 0 || ibodySize > 4
    ensures r < TWO_16
  {
    if ibodySize == 0 then 0 else ((RoundUp4(ibodySize) - 8) / 4) % TWO_16
  }

  /** `ErofsInode::xattr_size`: the body size that a stored count stands for. */
  function XattrSizeOf(icount: nat): nat {
    if icount == 0 then 0 else icount * 4 + 8
  }

  /** The largest body size whose count fits the 16-bit field. */
  const MAX_IBODY_SIZE := 262148

  /** The stored count never claims more than the body, and recovers its size exactly up to the field's limit. */
  lemma IcountRecoversSize(xs: seq<Xattr>)
    ensures XattrSizeOf(XattrIcount(IbodySize(xs))) <= IbodySize(xs)
    ensures XattrSizeOf(XattrIcount(IbodySize(xs))) == IbodySize(xs) <==> IbodySize(xs) <= MAX_IBODY_SIZE
    ensures IbodySize(xs) > MAX_IBODY_SIZE ==> XattrSizeOf(XattrIcount(IbodySize(xs))) + 262144 <= IbodySize(xs)
  {
    var size := IbodySize(xs);
    if xs != [] {
      var n := (size - 8) / 4;
      EntriesSizeAligned(xs);
      assert RoundUp4(size) == size && size == 4 * n + 8;
      assert n % TWO_16 <= n && (n < TWO_16 ==> n % TWO_16 == n) && (n >= TWO_16 ==> n % TWO_16 + TWO_16 <= n);
    }
  }
}
