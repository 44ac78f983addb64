/** Bytes, 32-bit words and the big-endian cells that every libfdt structure is made of. */
module Bytes {
  const TWO31 := 0x8000_0000
  const TWO32 := 0x1_0000_0000

  type byte = x: int | 0 <= x < 0x100
  type u32 = x: int | 0 <= x < 0x1_0000_0000
  type bytes = seq<byte>

  /** The bytes of a string literal. */
  function Ascii(s: string): (b: bytes)
    ensures |b| == |s| && forall i | 0 <= i < |s| :: b[i] == s[i] as int % 0x100
  {
    seq(|s|, i requires 0 <= i < |s| => s[i] as int % 0x100)
  }

  function Word(a: int, b: int, c: int, d: int): int {
    a * 0x100_0000 + b * 0x1_0000 + c * 0x100 + d
  }

  /** The cell stored at s[o..o+4], most significant byte first. */
  function Be32(s: bytes, o: nat): (v: u32)
    requires o + 4 <= |s|
  {
    Word(s[o], s[o + 1], s[o + 2], s[o + 3])
  }

  lemma FourBytes(v: u32)
    ensures v / 0x100_0000 < 0x100
    ensures Word(v / 0x100_0000, v / 0x1_0000 % 0x100, v / 0x100 % 0x100, v % 0x100) == v
  {
    var x := v / 0x100;
    var y := x / 0x100;
    assert v == x * 0x100 + v % 0x100;
    assert x == y * 0x100 + x % 0x100;
    assert y == v / 0x1_0000 && y / 0x100 == v / 0x100_0000;
  }

  /** The four bytes that store v. */
  function Cell(v: u32): (c: bytes)
    ensures |c| == 4
    ensures Be32(c, 0) == v
  {
    FourBytes(v);
    [v / 0x100_0000, v / 0x1_0000 % 0x100, v / 0x100 % 0x100, v % 0x100]
  }

  lemma CellOfBe32(s: bytes, o: nat)
    requires o + 4 <= |s|
    ensures Cell(Be32(s, o)) == s[o..o + 4]
  {
    var a: int, b: int, c: int, d: int := s[o], s[o + 1], s[o + 2], s[o + 3];
    var v := Word(a, b, c, d);
    assert v / 0x100_0000 == a;
    assert v / 0x1_0000 == a * 0x100 + b;
    assert v / 0x100 == a * 0x1_0000 + b * 0x100 + c;
  }

  /** Reading a cell looks at its four bytes only. */
  lemma Be32At(s: bytes, o: nat, v: u32)
    requires o + 4 <= |s|
    requires s[o..o + 4] == Cell(v)
    ensures Be32(s, o) == v
  {
    var t := s[o..o + 4];
    assert t[0] == s[o] && t[1] == s[o + 1] && t[2] == s[o + 2] && t[3] == s[o + 3];
  }

  lemma SliceSlice(s: bytes, lo: nat, hi: nat, a: nat, b: nat)
    requires lo <= hi <= |s| && a <= b <= hi - lo
    ensures s[lo..hi][a..b] == s[lo + a..lo + b]
  {
    var x, y := s[lo..hi][a..b], s[lo + a..lo + b];
    assert |x| == |y| && forall i :: 0 <= i < |x| ==> x[i] == y[i];
  }

  /** FDT_TAGALIGN for a non-negative argument: the next multiple of the tag size. */
  function Align4(x: nat): (y: nat)
    ensures x <= y < x + 4 && y % 4 == 0
  {
    (x + 3) / 4 * 4
  }

  /** s with the bytes from offset o on overwritten by d. */
  function Patch(s: bytes, o: nat, d: bytes): (t: bytes)
    requires o + |d| <= |s|
    ensures |t| == |s|
  {
    s[..o] + d + s[o + |d|..]
  }

  /** s with the len bytes at offset o replaced by d, whatever its length. */
  function Splice(s: bytes, o: nat, len: nat, d: bytes): (t: bytes)
    requires o + len <= |s|
    ensures |t| == |s| - len + |d|
  {
    s[..o] + d + s[o + len..]
  }

  lemma PatchAt(s: bytes, o: nat, d: bytes)
    requires o + |d| <= |s|
    ensures Patch(s, o, d)[..o] == s[..o]
    ensures Patch(s, o, d)[o..o + |d|] == d
    ensures Patch(s, o, d)[o + |d|..] == s[o + |d|..]
  {
  }

  /** Two patches side by side are one. */
  lemma PatchMore(s: bytes, o: nat, d: bytes, e: bytes)
    requires o + |d| + |e| <= |s|
    ensures Patch(Patch(s, o, d), o + |d|, e) == Patch(s, o, d + e)
  {
    var t := Patch(s, o, d);
    assert t[..o + |d|] == s[..o] + d;
  }

  /** A patch leaves every slice it does not touch alone. */
  lemma PatchOutside(s: bytes, o: nat, d: bytes, lo: nat, hi: nat)
    requires o + |d| <= |s|
    requires lo <= hi <= |s|
    requires hi <= o || o + |d| <= lo
    ensures Patch(s, o, d)[lo..hi] == s[lo..hi]
  {
  }

  /** A patch inside a slice patches the slice. */
  lemma PatchInside(s: bytes, o: nat, d: bytes, lo: nat, hi: nat)
    requires lo <= o && o + |d| <= hi <= |s|
    ensures Patch(s, o, d)[lo..hi] == Patch(s[lo..hi], o - lo, d)
  {
  }

  /** Splicing the middle part of a concatenation. */
  lemma SpliceMiddle(pre: bytes, mid: bytes, post: bytes, o: nat, len: nat, d: bytes)
    requires o + len <= |mid|
    ensures Splice(pre + mid + post, |pre| + o, len, d) == pre + Splice(mid, o, len, d) + post
  {
  }

  /** Splicing the last part of a concatenation. */
  lemma SpliceLast(pre: bytes, mid: bytes, o: nat, len: nat, d: bytes)
    requires o + len <= |mid|
    ensures Splice(pre + mid, |pre| + o, len, d) == pre + Splice(mid, o, len, d)
  {
  }

  /** s after the bytes p+oldlen..end moved to p+newlen, the rest of the buffer untouched. */
  function Shift(s: bytes, p: nat, oldlen: nat, newlen: nat, end: nat): (t: bytes)
    requires p + oldlen <= end <= |s| && end - oldlen + newlen <= |s|
    ensures |t| == |s|
  {
    Patch(s, p + newlen, s[p + oldlen..end])
  }

  /** What lies behind the splice point keeps its contents at the moved place. */
  lemma ShiftBehind(s: bytes, p: nat, oldlen: nat, newlen: nat, end: nat, lo: nat, hi: nat)
    requires p + oldlen <= end <= |s| && end - oldlen + newlen <= |s|
    requires p + oldlen <= lo <= hi <= end
    ensures Shift(s, p, oldlen, newlen, end)[lo - oldlen + newlen..hi - oldlen + newlen] == s[lo..hi]
  {
    var t, q, d := Shift(s, p, oldlen, newlen, end), p + newlen, s[p + oldlen..end];
    PatchAt(s, q, d);
    SliceSlice(t, q, q + |d|, lo - p - oldlen, hi - p - oldlen);
    SliceSlice(s, p + oldlen, end, lo - p - oldlen, hi - p - oldlen);
  }

  /** A slice around the splice point becomes the spliced slice. */
  lemma ShiftAround(s: bytes, p: nat, oldlen: nat, newlen: nat, end: nat, lo: nat, hi: nat)
    requires p + oldlen <= end <= |s| && end - oldlen + newlen <= |s|
    requires lo <= p && p + oldlen <= hi <= end
    ensures Shift(s, p, oldlen, newlen, end)[lo..hi - oldlen + newlen] ==
            Splice(s[lo..hi], p - lo, oldlen, s[p..p + newlen])
  {
    var t := Shift(s, p, oldlen, newlen, end);
    assert t[lo..p] == s[lo..hi][..p - lo];
    assert t[p..p + newlen] == s[p..p + newlen];
    ShiftBehind(s, p, oldlen, newlen, end, p + oldlen, hi);
    assert s[lo..hi][p - lo + oldlen..] == s[p + oldlen..hi];
    assert t[lo..hi - oldlen + newlen] == t[lo..p] + t[p..p + newlen] + t[p + newlen..hi - oldlen + newlen];
  }

  lemma ShiftBefore(s: bytes, p: nat, oldlen: nat, newlen: nat, end: nat, lo: nat, hi: nat)
    requires p + oldlen <= end <= |s| && end - oldlen + newlen <= |s|
    requires lo <= hi <= p
    ensures Shift(s, p, oldlen, newlen, end)[lo..hi] == s[lo..hi]
  {
  }
}
