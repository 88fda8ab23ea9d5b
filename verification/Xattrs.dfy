/** The inline xattr body: its encoding (src/build/inode.rs) and its parser (src/fs/meta.rs). */
module Xattrs {
  import opened Bytes
  import opened Metadata

  /** A full name and its value, as the reader reports them. */
  type NamedValue = (seq<byte>, seq<byte>)

  /** The prefix of each name index; the reader uses `Metadata.XattrPrefix`. */
  type PrefixTable = byte -> Option<seq<byte>>

  function FullName(t: PrefixTable, index: byte, suffix: seq<byte>): seq<byte> {
    match t(index)
    case Some(prefix) => prefix + suffix
    case None => suffix
  }

  /** What a reader should see of a list of xattrs. */
  function Named(t: PrefixTable, xs: seq<Xattr>): (r: seq<NamedValue>)
    ensures |r| == |xs|
    ensures forall i :: 0 <= i < |xs| ==> r[i] == (FullName(t, xs[i].index, xs[i].suffix), xs[i].value)
  {
    seq(|xs|, i requires 0 <= i < |xs| => (FullName(t, xs[i].index, xs[i].suffix), xs[i].value))
  }

  // ------------------------------------------------------------------
  // Encoding
  // ------------------------------------------------------------------

  function EntryHeader(x: Xattr): (r: seq<byte>)
    ensures |r| == EROFS_XATTR_ENTRY_HEADER_SIZE
  {
    [|x.suffix| % 256, x.index] + PutU16(|x.value|)
  }

  function EntryPad(x: Xattr): nat {
    XattrEntrySize(x) - EROFS_XATTR_ENTRY_HEADER_SIZE - |x.suffix| - |x.value|
  }

  function EntryBytes(x: Xattr): (r: seq<byte>)
    ensures |r| == XattrEntrySize(x)
  {
    EntryHeader(x) + x.suffix + x.value + Zeros(EntryPad(x))
  }

  function EncodeEntries(xs: seq<Xattr>): (r: seq<byte>)
    ensures |r| == XattrEntriesSize(xs)
  {
    if xs == [] then [] else EntryBytes(xs[0]) + EncodeEntries(xs[1..])
  }

  /** The whole body: nothing for no xattrs, else a zero header (no shared xattrs) and the entries. */
  function Ibody(xs: seq<Xattr>): (r: seq<byte>)
    ensures |r| == IbodySize(xs)
  {
    if xs == [] then [] else Zeros(EROFS_XATTR_IBODY_HEADER_SIZE) + EncodeEntries(xs)
  }

  /** `serialize_xattrs`: fills the body into a zeroed part of the inode buffer, entry by entry. */
  method SerializeXattrs(buf: array<byte>, offset: nat, xs: seq<Xattr>) returns (written: nat)
    requires IsZero(buf[..], offset, IbodySize(xs))
    modifies buf
    ensures written == IbodySize(xs)
    ensures buf[..] == Splice(old(buf[..]), offset, Ibody(xs))
  {
    if |xs| == 0 {
      return 0;
    }
    var totalSize := IbodySize(xs);
    ZeroHeaderInPlace(buf[..], offset, totalSize);
    PrefixEnds(xs);
    WriteEntries(buf, offset, xs);
    return totalSize;
  }

  /** The loop over the entries, behind the header that is zero already. */
  method WriteEntries(buf: array<byte>, offset: nat, xs: seq<Xattr>)
    requires xs != [] && IsZero(buf[..], offset, IbodySize(xs))
    requires buf[..] == Splice(buf[..], offset, IbodyPrefix(xs, 0))
    modifies buf
    ensures buf[..] == Splice(old(buf[..]), offset, IbodyPrefix(xs, |xs|))
  {
    ghost var was := buf[..];
    PrefixEnds(xs);
    var pos := offset + EROFS_XATTR_IBODY_HEADER_SIZE;
    for i := 0 to |xs|
      invariant pos == offset + |IbodyPrefix(xs, i)|
      invariant buf[..] == Splice(was, offset, IbodyPrefix(xs, i))
    {
      pos := WriteEntryAt(buf, offset, xs, i, pos, was);
    }
  }

  method WriteEntryAt(buf: array<byte>, offset: nat, xs: seq<Xattr>, i: nat, pos: nat, ghost was: seq<byte>)
    returns (next: nat)
    requires i < |xs| && IsZero(was, offset, IbodySize(xs)) && pos == offset + |IbodyPrefix(xs, i)|
    requires buf[..] == Splice(was, offset, IbodyPrefix(xs, i))
    modifies buf
    ensures next == offset + |IbodyPrefix(xs, i + 1)| && buf[..] == Splice(was, offset, IbodyPrefix(xs, i + 1))
  {
    PrefixInPlace(was, offset, xs, i);
    SerializeEntry(buf, pos, xs[i]);
    next := pos + XattrEntrySize(xs[i]);
  }

  lemma PrefixEnds(xs: seq<Xattr>)
    requires xs != []
    ensures IbodyPrefix(xs, 0) == Zeros(EROFS_XATTR_IBODY_HEADER_SIZE) && IbodyPrefix(xs, |xs|) == Ibody(xs)
  {
    assert xs[..|xs|] == xs && xs[..0] == [];
  }

  /** The body of that loop: header, name suffix and value of one entry, copied over zeros. */
  method SerializeEntry(buf: array<byte>, pos: nat, x: Xattr)
    requires IsZero(buf[..], pos, XattrEntrySize(x))
    modifies buf
    ensures buf[..] == Splice(old(buf[..]), pos, EntryBytes(x))
  {
    ghost var was := buf[..];
    CopyFromSlice(buf, pos, EntryHeader(x));
    var nameStart := pos + EROFS_XATTR_ENTRY_HEADER_SIZE;
    CopyFromSlice(buf, nameStart, x.suffix);
    var valueStart := nameStart + |x.suffix|;
    CopyFromSlice(buf, valueStart, x.value);
    EntryInPlace(was, buf[..], pos, x);
  }

  /** The body after its first `i` entries. */
  ghost function IbodyPrefix(xs: seq<Xattr>, i: nat): (r: seq<byte>)
    requires xs != [] && i <= |xs|
    ensures |r| <= IbodySize(xs)
  {
    SizeSplit(xs, i);
    Zeros(EROFS_XATTR_IBODY_HEADER_SIZE) + EncodeEntries(xs[..i])
  }

  lemma {:induction false} SizeSplit(xs: seq<Xattr>, i: nat)
    requires i <= |xs|
    ensures XattrEntriesSize(xs) == XattrEntriesSize(xs[..i]) + XattrEntriesSize(xs[i..])
    ensures EncodeEntries(xs) == EncodeEntries(xs[..i]) + EncodeEntries(xs[i..])
  {
    if i > 0 {
      SizeSplit(xs[1..], i - 1);
      assert xs[..i][1..] == xs[1..][..i - 1] && xs[i..] == xs[1..][i - 1..];
    } else {
      assert xs[0..] == xs;
    }
  }

  lemma PrefixGrows(xs: seq<Xattr>, i: nat)
    requires i < |xs|
    ensures IbodyPrefix(xs, i + 1) == IbodyPrefix(xs, i) + EntryBytes(xs[i])
    ensures |IbodyPrefix(xs, i + 1)| == |IbodyPrefix(xs, i)| + XattrEntrySize(xs[i])
  {
    hide EntryBytes;
    SizeSplit(xs[..i + 1], i);
    assert xs[..i + 1][..i] == xs[..i];
    var last := xs[..i + 1][i..];
    assert last == [xs[i]];
    assert EncodeEntries(last) == EntryBytes(xs[i]);
  }

  /** One step of the loop: the next entry still meets zeros, and extends the written prefix. */
  lemma PrefixInPlace(was: seq<byte>, offset: nat, xs: seq<Xattr>, i: nat)
    requires i < |xs| && IsZero(was, offset, IbodySize(xs))
    ensures var now, pos := Splice(was, offset, IbodyPrefix(xs, i)), offset + |IbodyPrefix(xs, i)|;
            && IsZero(now, pos, XattrEntrySize(xs[i]))
            && Splice(now, pos, EntryBytes(xs[i])) == Splice(was, offset, IbodyPrefix(xs, i + 1))
            && pos + XattrEntrySize(xs[i]) == offset + |IbodyPrefix(xs, i + 1)|
  {
    PrefixGrows(xs, i);
    StillZero(was, offset, IbodyPrefix(xs, i), IbodySize(xs), XattrEntrySize(xs[i]));
    SpliceTwice(was, offset, IbodyPrefix(xs, i), EntryBytes(xs[i]));
  }

  lemma ZeroHeaderInPlace(was: seq<byte>, offset: nat, total: nat)
    requires EROFS_XATTR_IBODY_HEADER_SIZE <= total && IsZero(was, offset, total)
    ensures Splice(was, offset, Zeros(EROFS_XATTR_IBODY_HEADER_SIZE)) == was
  {
    var n := EROFS_XATTR_IBODY_HEADER_SIZE;
    SubSlice(was, offset, offset + total, 0, n);
    assert was[offset..offset + n] == Zeros(n);
    assert was == was[..offset] + was[offset..offset + n] + was[offset + n..];
  }

  /** What has not been written yet is still zero. */
  lemma StillZero(was: seq<byte>, offset: nat, done: seq<byte>, total: nat, n: nat)
    requires IsZero(was, offset, total) && |done| + n <= total
    ensures IsZero(Splice(was, offset, done), offset + |done|, n)
  {
    var pos := offset + |done|;
    SpliceElsewhere(was, offset, done, pos, pos + n);
    SubSlice(was, offset, offset + total, |done|, |done| + n);
    assert Zeros(total)[|done|..|done| + n] == Zeros(n);
  }

  /** Two adjacent copies are one copy of the concatenation. */
  lemma SpliceTwice(was: seq<byte>, offset: nat, a: seq<byte>, b: seq<byte>)
    requires offset + |a| + |b| <= |was|
    ensures Splice(Splice(was, offset, a), offset + |a|, b) == Splice(was, offset, a + b)
  {
  }

  /** Over zeros, trailing zeros need not be written. */
  lemma SpliceZeros(was: seq<byte>, pos: nat, d: seq<byte>, pad: nat)
    requires IsZero(was, pos, |d| + pad)
    ensures Splice(was, pos, d + Zeros(pad)) == Splice(was, pos, d)
  {
    var n := |d| + pad;
    SubSlice(was, pos, pos + n, |d|, n);
    assert Zeros(n)[|d|..n] == Zeros(pad);
    assert was[pos + |d|..] == was[pos + |d|..pos + n] + was[pos + n..];
  }

  /** Header, suffix and value written over zeros are the padded entry. */
  lemma EntryInPlace(was: seq<byte>, now: seq<byte>, pos: nat, x: Xattr)
    requires IsZero(was, pos, XattrEntrySize(x))
    requires now == Splice(Splice(Splice(was, pos, EntryHeader(x)), pos + 4, x.suffix), pos + 4 + |x.suffix|, x.value)
    ensures now == Splice(was, pos, EntryBytes(x))
  {
    var front := EntryHeader(x) + x.suffix;
    SpliceTwice(was, pos, EntryHeader(x), x.suffix);
    SpliceTwice(was, pos, front, x.value);
    SpliceZeros(was, pos, front + x.value, EntryPad(x));
  }

  // ------------------------------------------------------------------
  // Parsing
  // ------------------------------------------------------------------

  /**
   * The body of the reader's loop: the entry at `pos` and the position after it, unless the header or the entry
   * runs past the end.
   */
  function ParseStep(d: seq<byte>, pos: nat): (r: Option<(Xattr, nat)>)
    ensures r.Some? ==> r.value.1 >= pos + 4
  {
    if pos + EROFS_XATTR_ENTRY_HEADER_SIZE > |d| then None else
    var nameStart: nat := pos + EROFS_XATTR_ENTRY_HEADER_SIZE;
    var nameEnd: nat := nameStart + d[pos];
    var valueEnd := nameEnd + GetU16(d, pos + 2);
    if valueEnd > |d| then None else
    Some((Xattr(d[pos + 1], d[nameStart..nameEnd], d[nameEnd..valueEnd]), RoundUp4(valueEnd)))
  }

  /** The entries the reader's loop collects from `pos` on. */
  function ParseEntries(d: seq<byte>, pos: nat): seq<Xattr>
    decreases |d| - pos
  {
    match ParseStep(d, pos)
    case None => []
    case Some((x, next)) => [x] + ParseEntries(d, next)
  }

  function ParseIbody(d: seq<byte>): seq<Xattr> {
    if |d| < EROFS_XATTR_IBODY_HEADER_SIZE then [] else
    var sharedCount: nat := d[4];
    var start := EROFS_XATTR_IBODY_HEADER_SIZE + sharedCount * 4;
    if start >= |d| then [] else ParseEntries(d, start)
  }

  /** The loop of `read_xattrs` over the bytes of the body. */
  method ReadIbody(t: PrefixTable, d: seq<byte>) returns (result: seq<NamedValue>)
    ensures result == Named(t, ParseIbody(d))
  {
    hide ParseEntries, ParseStep;
    if |d| < EROFS_XATTR_IBODY_HEADER_SIZE {
      return [];
    }
    var sharedCount: nat := d[4];
    var entriesStart := EROFS_XATTR_IBODY_HEADER_SIZE + sharedCount * 4;
    if entriesStart >= |d| {
      return [];
    }
    result := ReadEntries(t, d, entriesStart);
  }

  method ReadEntries(t: PrefixTable, d: seq<byte>, start: nat) returns (result: seq<NamedValue>)
    ensures result == Named(t, ParseEntries(d, start))
  {
    result := [];
    var pos: nat := start;
    ghost var all := ParseEntries(d, pos);
    ghost var done := [];
    while pos + EROFS_XATTR_ENTRY_HEADER_SIZE <= |d|
      invariant done + ParseEntries(d, pos) == all && result == Named(t, done)
      decreases |d| - pos
    {
      match ParseStep(d, pos)
      case None =>
        break;
      case Some((x, next)) =>
        result := result + [(FullName(t, x.index, x.suffix), x.value)];
        StepParsed(t, done, x, ParseEntries(d, next));
        done := done + [x];
        pos := next;
    }
    assert done == all;
  }

  lemma StepParsed(t: PrefixTable, done: seq<Xattr>, x: Xattr, rest: seq<Xattr>)
    ensures done + ([x] + rest) == (done + [x]) + rest
    ensures Named(t, done + [x]) == Named(t, done) + [(FullName(t, x.index, x.suffix), x.value)]
  {
  }

  // ------------------------------------------------------------------
  // The round trip, and exactly when it holds
  // ------------------------------------------------------------------

  /** The widths of the length fields in an entry header: `e_name_len: u8`, `e_value_size: u16`. */
  predicate EntryFits(x: Xattr) {
    |x.suffix| < 256 && |x.value| < TWO_16
  }

  predicate AllFit(xs: seq<Xattr>) {
    forall x :: x in xs ==> EntryFits(x)
  }

  /** Where the parts of the first entry lie in the encoding. */
  lemma EntryParts(x: Xattr, tail: seq<byte>)
    ensures var e := EntryBytes(x) + tail;
            var n := 4 + |x.suffix|;
            && e[0] == |x.suffix| % 256 && e[1] == x.index && GetU16(e, 2) == |x.value| % TWO_16
            && e[4..n] == x.suffix && e[n..n + |x.value|] == x.value
            && e[XattrEntrySize(x)..] == tail
  {
    var e := EntryBytes(x) + tail;
    var n := 4 + |x.suffix|;
    assert e == EntryHeader(x) + x.suffix + x.value + (Zeros(EntryPad(x)) + tail);
    FieldU16(e, 2, |x.value|);
    assert e[4..n] == x.suffix;
    assert e[n..n + |x.value|] == x.value;
  }

  lemma StepShift(d: seq<byte>, c: nat, pos: nat)
    requires c <= |d| && c <= pos && c % 4 == 0
    ensures ParseStep(d, pos) == match ParseStep(d[c..], pos - c)
                                 case None => None
                                 case Some((x, next)) => Some((x, c + next))
  {
    if pos + EROFS_XATTR_ENTRY_HEADER_SIZE <= |d| {
      var e := d[c..];
      var nameStart: nat := pos + EROFS_XATTR_ENTRY_HEADER_SIZE;
      var nameEnd: nat := nameStart + d[pos];
      var valueEnd := nameEnd + GetU16(d, pos + 2);
      assert e[pos - c] == d[pos] && GetU16(e, pos - c + 2) == GetU16(d, pos + 2);
      if valueEnd <= |d| {
        DropSlice(d, c, nameStart, nameEnd);
        DropSlice(d, c, nameEnd, valueEnd);
        AlignedStep(c, valueEnd - c);
      }
    }
  }

  /** Parsing does not depend on what comes before a 4-aligned position. */
  lemma {:induction false} ParseShift(d: seq<byte>, c: nat, pos: nat)
    requires c <= |d| && c <= pos && c % 4 == 0
    ensures ParseEntries(d, pos) == ParseEntries(d[c..], pos - c)
    decreases |d| - pos
  {
    var p, q := ParseStep(d, pos), ParseStep(d[c..], pos - c);
    assert q == (if p.None? then None else Some((p.value.0, p.value.1 - c))) by {
      StepShift(d, c, pos);
    }
    if p.Some? {
      var (x, next) := p.value;
      ParseShift(d, c, next);
      assert ParseEntries(d, pos) == [x] + ParseEntries(d, next);
      assert ParseEntries(d[c..], pos - c) == [x] + ParseEntries(d[c..], next - c);
    }
  }

  lemma AlignedStep(pos: nat, n: nat)
    requires pos % 4 == 0
    ensures RoundUp4(pos + n) == pos + RoundUp4(n)
  {
  }

  /** One step of the round trip. */
  lemma StepFirst(e: seq<byte>, x: Xattr)
    requires EntryFits(x) && |e| >= XattrEntrySize(x)
    requires e[0] == |x.suffix| && e[1] == x.index && GetU16(e, 2) == |x.value|
    requires e[4..4 + |x.suffix|] == x.suffix && e[4 + |x.suffix|..4 + |x.suffix| + |x.value|] == x.value
    ensures ParseStep(e, 0) == Some((x, XattrEntrySize(x)))
  {
  }

  /** Entries within the field widths parse back one for one. */
  lemma {:induction false} EntriesRoundTrip(xs: seq<Xattr>)
    requires AllFit(xs)
    ensures ParseEntries(EncodeEntries(xs), 0) == xs
  {
    if xs != [] {
      hide EntryBytes, ParseStep;
      var x, e := xs[0], EncodeEntries(xs);
      assert EntryFits(x);
      EntryParts(x, EncodeEntries(xs[1..]));
      StepFirst(e, x);
      var next := XattrEntrySize(x);
      RoundUp4Aligned(4 + |x.suffix| + |x.value|);
      ParseShift(e, next, next);
      EntriesRoundTrip(xs[1..]);
      assert ParseEntries(e, 0) == [x] + ParseEntries(e, next);
      assert xs == [x] + xs[1..];
    }
  }

  /**
   * The converse, over a window that may cut the encoding short: when the parser reports the
   * right names and values, every length fitted its field and at most the last padding was cut off.
   */
  lemma {:induction false} EntriesParsedImpliesFit(t: PrefixTable, d: seq<byte>, xs: seq<Xattr>)
    requires d <= EncodeEntries(xs) && Named(t, ParseEntries(d, 0)) == Named(t, xs)
    ensures AllFit(xs) && |d| + 3 >= XattrEntriesSize(xs)
    decreases |xs|
  {
    if xs != [] {
      var e := EncodeEntries(xs);
      EntryParts(xs[0], EncodeEntries(xs[1..]));
      var next := FirstEntryFits(t, d, e, xs);
      if xs[1..] != [] {
        ParseShift(d, next, next);
        assert d[next..] <= e[next..];
        EntriesParsedImpliesFit(t, d[next..], xs[1..]);
      }
    }
  }

  /** One step of the converse: the first entry was read with its true lengths. */
  lemma FirstEntryFits(t: PrefixTable, d: seq<byte>, e: seq<byte>, xs: seq<Xattr>) returns (next: nat)
    requires xs != [] && d <= e && |e| >= XattrEntrySize(xs[0])
    requires e[0] == |xs[0].suffix| % 256 && e[1] == xs[0].index && GetU16(e, 2) == |xs[0].value| % TWO_16
    requires Named(t, ParseEntries(d, 0)) == Named(t, xs)
    ensures EntryFits(xs[0]) && 4 + |xs[0].suffix| + |xs[0].value| <= |d|
    ensures next == XattrEntrySize(xs[0]) && next % 4 == 0
    ensures Named(t, ParseEntries(d, next)) == Named(t, xs[1..])
    ensures xs[1..] != [] ==> next <= |d|
  {
    var x := xs[0];
    assert |ParseEntries(d, 0)| == |xs|;
    var p := ParseStep(d, 0).value.0;
    next := ParseStep(d, 0).value.1;
    NamedSplit(t, p, ParseEntries(d, next), xs);
    FirstLengths(t, d, e, x, p, next);
    assert xs[1..] != [] ==> |ParseEntries(d, next)| > 0;
  }

  lemma FirstLengths(t: PrefixTable, d: seq<byte>, e: seq<byte>, x: Xattr, p: Xattr, next: nat)
    requires d <= e && ParseStep(d, 0) == Some((p, next))
    requires e[0] == |x.suffix| % 256 && e[1] == x.index && GetU16(e, 2) == |x.value| % TWO_16
    requires FullName(t, p.index, p.suffix) == FullName(t, x.index, x.suffix) && p.value == x.value
    ensures EntryFits(x) && 4 + |x.suffix| + |x.value| <= |d|
    ensures next == XattrEntrySize(x) && next % 4 == 0
  {
    StepLengths(d, e, p, next);
    FullNameLength(t, x.index, p.suffix, x.suffix);
    RoundUp4Aligned(4 + |x.suffix| + |x.value|);
    assert 4 + |p.suffix| + |p.value| == EROFS_XATTR_ENTRY_HEADER_SIZE + |x.suffix| + |x.value|;
  }

  lemma StepLengths(d: seq<byte>, e: seq<byte>, p: Xattr, next: nat)
    requires d <= e && ParseStep(d, 0) == Some((p, next))
    ensures p.index == e[1] && |p.suffix| == e[0] && |p.value| == GetU16(e, 2)
    ensures 4 + |p.suffix| + |p.value| <= |d| && next == RoundUp4(4 + |p.suffix| + |p.value|)
  {
  }

  lemma NamedSplit(t: PrefixTable, p: Xattr, rest: seq<Xattr>, xs: seq<Xattr>)
    requires xs != [] && Named(t, [p] + rest) == Named(t, xs)
    ensures FullName(t, p.index, p.suffix) == FullName(t, xs[0].index, xs[0].suffix) && p.value == xs[0].value
    ensures Named(t, rest) == Named(t, xs[1..])
  {
    var all := [p] + rest;
    assert Named(t, all)[0] == Named(t, xs)[0];
    assert |rest| == |xs| - 1;
    forall i | 0 <= i < |rest| ensures Named(t, rest)[i] == Named(t, xs[1..])[i] {
      assert Named(t, all)[i + 1] == Named(t, xs)[i + 1];
    }
  }

  lemma FullNameLength(t: PrefixTable, index: byte, a: seq<byte>, b: seq<byte>)
    requires FullName(t, index, a) == FullName(t, index, b)
    ensures |a| == |b|
  {
  }

  /** The bytes of the body that the stored count lets the reader see. */
  function VisibleIbody(xs: seq<Xattr>): seq<byte> {
    IcountRecoversSize(xs);
    Ibody(xs)[..XattrSizeOf(XattrIcount(IbodySize(xs)))]
  }

  /** What the reader parses: as much of the encoded entries as it sees behind the header. */
  lemma VisibleEntries(xs: seq<Xattr>, d: seq<byte>)
    requires xs != [] && d == VisibleIbody(xs) && |d| > EROFS_XATTR_IBODY_HEADER_SIZE
    ensures var e := d[EROFS_XATTR_IBODY_HEADER_SIZE..];
            && e <= EncodeEntries(xs) && ParseIbody(d) == ParseEntries(e, 0)
            && (IbodySize(xs) <= MAX_IBODY_SIZE ==> e == EncodeEntries(xs))
  {
    IcountRecoversSize(xs);
    BehindHeader(EncodeEntries(xs), d);
  }

  lemma BehindHeader(entries: seq<byte>, d: seq<byte>)
    requires d <= Zeros(EROFS_XATTR_IBODY_HEADER_SIZE) + entries && |d| > EROFS_XATTR_IBODY_HEADER_SIZE
    ensures var e := d[EROFS_XATTR_IBODY_HEADER_SIZE..];
            && e <= entries && ParseIbody(d) == ParseEntries(e, 0)
            && (|d| == EROFS_XATTR_IBODY_HEADER_SIZE + |entries| ==> e == entries)
  {
    var start := EROFS_XATTR_IBODY_HEADER_SIZE;
    assert d[4] == 0;
    assert (Zeros(start) + entries)[start..] == entries;
    ParseShift(d, start, start);
  }

  lemma FittingComeBack(xs: seq<Xattr>)
    requires AllFit(xs) && IbodySize(xs) <= MAX_IBODY_SIZE
    ensures ParseIbody(VisibleIbody(xs)) == xs
  {
    IcountRecoversSize(xs);
    if xs != [] {
      VisibleEntries(xs, VisibleIbody(xs));
      EntriesRoundTrip(xs);
    }
  }

  lemma OnlyFittingComeBack(t: PrefixTable, xs: seq<Xattr>)
    requires Named(t, ParseIbody(VisibleIbody(xs))) == Named(t, xs)
    ensures AllFit(xs) && IbodySize(xs) <= MAX_IBODY_SIZE
  {
    IcountRecoversSize(xs);
    var d := VisibleIbody(xs);
    if xs != [] {
      assert ParseIbody(d) != [];
      VisibleEntries(xs, d);
      EntriesParsedImpliesFit(t, d[EROFS_XATTR_IBODY_HEADER_SIZE..], xs);
    }
  }

  /**
   * Main result: a list of xattrs survives the encoding and the parser exactly when every suffix is
   * at most 255 bytes, every value at most 65535 bytes and the whole body at most 262148 bytes.
   */
  lemma IbodyRoundTripExact(t: PrefixTable, xs: seq<Xattr>)
    ensures Named(t, ParseIbody(VisibleIbody(xs))) == Named(t, xs) <==> AllFit(xs) && IbodySize(xs) <= MAX_IBODY_SIZE
    ensures AllFit(xs) && IbodySize(xs) <= MAX_IBODY_SIZE ==> ParseIbody(VisibleIbody(xs)) == xs
  {
    if AllFit(xs) && IbodySize(xs) <= MAX_IBODY_SIZE {
      FittingComeBack(xs);
    }
    if Named(t, ParseIbody(VisibleIbody(xs))) == Named(t, xs) {
      OnlyFittingComeBack(t, xs);
    }
  }

  /** An xattr whose suffix is 256 times the letter "a" does not come back under its name. */
  lemma LongSuffixIsLost(t: PrefixTable)
    ensures var xs := [Xattr(1, seq(256, _ => 97), [])];
            Named(t, ParseIbody(VisibleIbody(xs))) != Named(t, xs)
  {
    var x := Xattr(1, seq(256, _ => 97), []);
    assert x in [x] && !EntryFits(x);
    IbodyRoundTripExact(t, [x]);
  }
}
