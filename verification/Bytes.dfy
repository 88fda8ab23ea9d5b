/** Bytes, little-endian fields, fixed-width wrap-around and in-place copies. */
module Bytes {

  type byte = x: int | 0 <= x < 256

  const TWO_16 := 0x1_0000
  const TWO_32 := 0x1_0000_0000
  const TWO_48 := 0x1_0000_0000_0000
  const TWO_64 := 0x1_0000_0000_0000_0000

  datatype Option<+T> = None | Some(value: T)

  /** A run of `n` zero bytes. */
  function Zeros(n: nat): (r: seq<byte>)
    ensures |r| == n && forall i :: 0 <= i < n ==> r[i] == 0
  {
    seq(n, _ => 0)
  }

  /** The `n` bytes of `s` from `off` on are zero. */
  ghost predicate IsZero(s: seq<byte>, off: nat, n: nat) {
    off + n <= |s| && s[off..off + n] == Zeros(n)
  }

  /** `copy_from_slice` on values: `data` replaces the bytes of `s` that start at `off`. */
  function Splice(s: seq<byte>, off: nat, data: seq<byte>): (r: seq<byte>)
    requires off + |data| <= |s|
    ensures |r| == |s|
    ensures r[off..off + |data|] == data
  {
    s[..off] + data + s[off + |data|..]
  }

  /** A zeroed buffer, `vec![0u8; n]`. */
  method ZeroBuffer(n: nat) returns (buf: array<byte>)
    ensures fresh(buf) && buf[..] == Zeros(n)
  {
    buf := new byte[n](_ => 0);
  }

  /** `buf[off..off + data.len()].copy_from_slice(data)`. */
  method CopyFromSlice(buf: array<byte>, off: nat, data: seq<byte>)
    requires off + |data| <= buf.Length
    modifies buf
    ensures buf[..] == Splice(old(buf[..]), off, data)
  {
    forall i | 0 <= i < |data| {
      buf[off + i] := data[i];
    }
  }

  /** Two ranges that do not overlap: writing the one leaves the other as it was. */
  lemma SpliceElsewhere(s: seq<byte>, off: nat, data: seq<byte>, lo: nat, hi: nat)
    requires off + |data| <= |s| && lo <= hi <= |s|
    requires hi <= off || off + |data| <= lo
    ensures Splice(s, off, data)[lo..hi] == s[lo..hi]
  {
    var r := Splice(s, off, data);
    forall i | 0 <= i < hi - lo ensures r[lo..hi][i] == s[lo..hi][i] {
      assert r[lo + i] == s[lo + i];
    }
  }

  /** Copying into the zeros that follow a filled part extends the filled part. */
  lemma FillZeros(pre: seq<byte>, data: seq<byte>, rest: nat)
    requires |data| <= rest
    ensures Splice(pre + Zeros(rest), |pre|, data) == pre + data + Zeros(rest - |data|)
  {
    var b := pre + Zeros(rest);
    assert b[|pre| + |data|..] == Zeros(rest - |data|);
    assert b[..|pre|] == pre;
  }

  lemma TailIsZero(pre: seq<byte>, rest: nat, n: nat)
    requires n <= rest
    ensures IsZero(pre + Zeros(rest), |pre|, n)
  {
  }

  /** A copy that stays inside the first part leaves the second part alone. */
  lemma SpliceFirst(a: seq<byte>, b: seq<byte>, off: nat, data: seq<byte>)
    requires off + |data| <= |a|
    ensures Splice(a + b, off, data) == Splice(a, off, data) + b
  {
    assert (a + b)[off + |data|..] == a[off + |data|..] + b;
    assert (a + b)[..off] == a[..off];
  }

  /** A slice of a slice. */
  lemma SubSlice<T>(s: seq<T>, lo: nat, hi: nat, a: nat, b: nat)
    requires lo <= hi <= |s| && a <= b <= hi - lo
    ensures s[lo..hi][a..b] == s[lo + a..lo + b]
  {
    forall i | 0 <= i < b - a ensures s[lo..hi][a..b][i] == s[lo + a..lo + b][i] {
      assert s[lo..hi][a + i] == s[lo + a + i];
    }
  }

  lemma AppendAssoc<T>(a: seq<T>, b: seq<T>, c: seq<T>)
    ensures a + (b + c) == (a + b) + c
  {
  }

  lemma DropSlice<T>(s: seq<T>, c: nat, a: nat, b: nat)
    requires c <= a <= b <= |s|
    ensures s[c..][a - c..b - c] == s[a..b]
  {
    assert s[c..] == s[c..|s|];
    SubSlice(s, c, |s|, a - c, b - c);
  }

  // ------------------------------------------------------------------
  // Little-endian fields
  // ------------------------------------------------------------------

  /** `get_u16`, `get_u32`, `get_u64` on the bytes of `s` that start at `off`. */
  function GetU16(s: seq<byte>, off: nat): (r: nat)
    requires off + 2 <= |s|
    ensures r < TWO_16
  {
    var lo: nat, hi: nat := s[off], s[off + 1];
    lo + 256 * hi
  }

  function GetU32(s: seq<byte>, off: nat): (r: nat)
    requires off + 4 <= |s|
    ensures r < TWO_32
  {
    GetU16(s, off) + TWO_16 * GetU16(s, off + 2)
  }

  function GetU64(s: seq<byte>, off: nat): (r: nat)
    requires off + 8 <= |s|
    ensures r < TWO_64
  {
    GetU32(s, off) + TWO_32 * GetU32(s, off + 4)
  }

  /** `(v as uN).to_le_bytes()`: the low bytes of `v`, least significant first. */
  function PutU16(v: nat): (r: seq<byte>)
    ensures |r| == 2
  {
    [v % 256, v / 256 % 256]
  }

  function PutU32(v: nat): (r: seq<byte>)
    ensures |r| == 4
  {
    PutU16(v) + PutU16(v / TWO_16)
  }

  function PutU64(v: nat): (r: seq<byte>)
    ensures |r| == 8
  {
    PutU32(v) + PutU32(v / TWO_32)
  }

  lemma ModUnique(v: nat, m: nat, q: nat, r: nat)
    requires m > 0 && r < m && v == q * m + r
    ensures v % m == r && v / m == q
  {
    var k := q - v / m;
    assert k * m == v % m - r by {
      assert v == (v / m) * m + v % m;
    }
    assert k >= 1 ==> k * m >= m;
    assert k <= -1 ==> k * m + m <= 0;
  }

  lemma SmallMod(r: nat, v: nat, m: nat)
    requires v < m && r == v % m
    ensures r == v
  {
  }

  /** The bytes of `v` stand at `off`, as the field setters leave them. */
  predicate HasU16(s: seq<byte>, off: nat, v: nat) {
    off + 2 <= |s| && s[off] == v % 256 && s[off + 1] == v / 256 % 256
  }

  predicate HasU32(s: seq<byte>, off: nat, v: nat) {
    HasU16(s, off, v) && HasU16(s, off + 2, v / TWO_16)
  }

  predicate HasU64(s: seq<byte>, off: nat, v: nat) {
    HasU32(s, off, v) && HasU32(s, off + 4, v / TWO_32)
  }

  /** A stored field reads back as the value modulo the width of the field. */
  lemma FieldU16(s: seq<byte>, off: nat, v: nat)
    requires HasU16(s, off, v)
    ensures GetU16(s, off) == v % TWO_16
  {
    var q, hi, lo := v / 256 / 256, v / 256 % 256, v % 256;
    ModUnique(v, TWO_16, q, lo + 256 * hi);
  }

  lemma FieldU32(s: seq<byte>, off: nat, v: nat)
    requires HasU32(s, off, v)
    ensures GetU32(s, off) == v % TWO_32
  {
    FieldU16(s, off, v);
    FieldU16(s, off + 2, v / TWO_16);
    var q, hi, lo := v / TWO_16 / TWO_16, v / TWO_16 % TWO_16, v % TWO_16;
    ModUnique(v, TWO_32, q, lo + TWO_16 * hi);
  }

  lemma FieldU64(s: seq<byte>, off: nat, v: nat)
    requires HasU64(s, off, v)
    ensures GetU64(s, off) == v % TWO_64
  {
    FieldU32(s, off, v);
    FieldU32(s, off + 4, v / TWO_32);
    var q, hi, lo := v / TWO_32 / TWO_32, v / TWO_32 % TWO_32, v % TWO_32;
    ModUnique(v, TWO_64, q, lo + TWO_32 * hi);
  }

  // The same for a field that follows a prefix `pre` of the bytes `d`.

  lemma LowU16At(pre: seq<byte>, v: nat, d: seq<byte>)
    requires pre + PutU16(v) <= d
    ensures GetU16(d, |pre|) == v % TWO_16
  {
    var n, e := |pre|, pre + PutU16(v);
    assert d[n] == e[n] && d[n + 1] == e[n + 1];
    FieldU16(d, n, v);
  }

  lemma LowU32At(pre: seq<byte>, v: nat, d: seq<byte>)
    requires pre + PutU32(v) <= d
    ensures GetU32(d, |pre|) == v % TWO_32
  {
    var n, e := |pre|, pre + PutU32(v);
    assert d[n] == e[n] && d[n + 1] == e[n + 1] && d[n + 2] == e[n + 2] && d[n + 3] == e[n + 3];
    FieldU32(d, n, v);
  }

  lemma LowU64At(pre: seq<byte>, v: nat, d: seq<byte>)
    requires pre + PutU64(v) <= d
    ensures GetU64(d, |pre|) == v % TWO_64
  {
    var n, e, p := |pre|, pre + PutU64(v), PutU64(v);
    forall i | 0 <= i < 8 ensures d[n + i] == p[i] {
      assert d[n + i] == e[n + i];
    }
    FieldU64(d, n, v);
  }

  lemma U16At(pre: seq<byte>, v: nat, d: seq<byte>)
    requires pre + PutU16(v) <= d && v < TWO_16
    ensures GetU16(d, |pre|) == v
  {
    LowU16At(pre, v, d);
  }

  lemma U32At(pre: seq<byte>, v: nat, d: seq<byte>)
    requires pre + PutU32(v) <= d && v < TWO_32
    ensures GetU32(d, |pre|) == v
  {
    LowU32At(pre, v, d);
  }

  lemma U64At(pre: seq<byte>, v: nat, d: seq<byte>)
    requires pre + PutU64(v) <= d && v < TWO_64
    ensures GetU64(d, |pre|) == v
  {
    LowU64At(pre, v, d);
    SmallMod(GetU64(d, |pre|), v, TWO_64);
  }

  // ------------------------------------------------------------------
  // Arithmetic
  // ------------------------------------------------------------------

  function Min(a: int, b: int): int {
    if a <= b then a else b
  }

  function DivCeil(a: nat, b: nat): nat
    requires b > 0
  {
    (a + b - 1) / b
  }

  /** 64-bit `+` and `*` as a release build computes them: wrapping. */
  function Wrap64(x: nat): (r: nat)
    ensures r < TWO_64
    ensures x < TWO_64 ==> r == x
  {
    x % TWO_64
  }
}
