/** Moving the blocks of a blob together: _fdt_packblocks, fdt_pack and fdt_open_into of lib/libfdt/fdt_rw.c
    and fdt_move of lib/libfdt/fdt.c. Source and destination are two addresses in one memory. */
module Packing {
  import opened Bytes
  import opened Memory
  import opened Blob
  import opened Structure
  import opened Trees
  import opened Rw
  import opened Reserve

  /** A patch leaves every slice beside it alone. */
  lemma Untouched(m: bytes, o: nat, d: bytes)
    requires o + |d| <= |m|
    ensures forall lo, hi | 0 <= lo <= hi <= |m| && (hi <= o || o + |d| <= lo) :: Patch(m, o, d)[lo..hi] == m[lo..hi]
  {
    forall lo, hi | 0 <= lo <= hi <= |m| && (hi <= o || o + |d| <= lo)
      ensures Patch(m, o, d)[lo..hi] == m[lo..hi]
    {
      PatchOutside(m, o, d, lo, hi);
    }
  }

  /** A header field is the cell at its place. */
  lemma FieldCell(m: bytes, base: nat, f: Field)
    requires base + HEADER_SIZE <= |m|
    ensures m[base + FieldOffset(f)..base + FieldOffset(f) + 4] == Cell(Get(Hdr(m[base..]), f))
  {
    hide Hdr, Cell;
    HdrField(m[base..], f);
    CellOfBe32(m[base..], FieldOffset(f));
    SliceSlice(m, base, |m|, FieldOffset(f), FieldOffset(f) + 4);
    assert m[base..|m|] == m[base..];
  }

  lemma CellField(m: bytes, base: nat, f: Field, v: u32)
    requires base + HEADER_SIZE <= |m|
    requires m[base + FieldOffset(f)..base + FieldOffset(f) + 4] == Cell(v)
    ensures Get(Hdr(m[base..]), f) == v
  {
    hide Hdr, Cell, Be32;
    HdrField(m[base..], f);
    SliceSlice(m, base, |m|, FieldOffset(f), FieldOffset(f) + 4);
    assert m[base..|m|] == m[base..];
    Be32At(m[base..], FieldOffset(f), v);
  }

  lemma KeptField(m0: bytes, m: bytes, base: nat, f: Field)
    requires base + HEADER_SIZE <= |m0| == |m|
    requires var o := base + FieldOffset(f); m[o..o + 4] == m0[o..o + 4]
    ensures Get(Hdr(m[base..]), f) == Get(Hdr(m0[base..]), f)
  {
    hide Hdr, Cell, FieldOffset;
    FieldCell(m0, base, f);
    CellField(m, base, f, Get(Hdr(m0[base..]), f));
  }

  method SetAt(mem: array<byte>, base: nat, f: Field, v: u32)
    requires base + HEADER_SIZE <= mem.Length
    modifies mem
    ensures mem[..] == Patch(old(mem[..]), base + FieldOffset(f), Cell(v))
  {
    hide Cell, Patch;
    Put32(mem, base + FieldOffset(f), v);
  }

  /** Size of a blob of which nothing but the blocks is left. */
  function PackedSize(h: Header, rs: nat, ss: nat): nat {
    HEADER_SIZE + rs + ss + h.sizeStrings
  }

  /** The blob with header h at src has its blocks inside its first ext bytes, with a reserve block of rs and a
      structure block of ss bytes, and they can be packed to dst: in place if they are in order already, or
      beside the source. */
  ghost predicate Packable(size: nat, src: nat, dst: nat, ext: nat, h: Header, rs: nat, ss: nat) {
    && HEADER_SIZE <= ext && src + ext <= size && dst + PackedSize(h, rs, ss) <= size && PackedSize(h, rs, ss) < TWO31
    && h.offRsv + rs <= ext && h.offStruct + ss <= ext && h.offStrings + h.sizeStrings <= ext
    && if dst == src then HEADER_SIZE <= h.offRsv && h.offRsv + rs <= h.offStruct && h.offStruct + ss <= h.offStrings
       else dst + PackedSize(h, rs, ss) <= src || src + ext <= dst
  }

  /** The three blocks of the blob at src. */
  datatype Cargo = Cargo(rsv: bytes, stru: bytes, strs: bytes)

  function Load(m: bytes, src: nat, h: Header, rs: nat, ss: nat): (c: Cargo)
    requires src + h.offRsv + rs <= |m| && src + h.offStruct + ss <= |m| && src + h.offStrings + h.sizeStrings <= |m|
    ensures |c.rsv| == rs && |c.stru| == ss && |c.strs| == h.sizeStrings
  {
    Cargo(m[src + h.offRsv..src + h.offRsv + rs], m[src + h.offStruct..src + h.offStruct + ss],
          m[src + h.offStrings..src + h.offStrings + h.sizeStrings])
  }

  /** m is m0 with the cargo packed behind a header at dst, and nothing else changed. */
  ghost predicate PackedAt(m0: bytes, m: bytes, dst: nat, c: Cargo) {
    var a, b := HEADER_SIZE + |c.rsv|, HEADER_SIZE + |c.rsv| + |c.stru|;
    var n := b + |c.strs|;
    && n < TWO32 && |m| == |m0| && dst + n <= |m|
    && m[..dst + 8] == m0[..dst + 8] && m[dst + 20..dst + 32] == m0[dst + 20..dst + 32] && m[dst + n..] == m0[dst + n..]
    && m[dst + 8..dst + 12] == Cell(a) && m[dst + 12..dst + 16] == Cell(b) && m[dst + 16..dst + 20] == Cell(HEADER_SIZE)
    && m[dst + 32..dst + 36] == Cell(|c.strs|) && m[dst + 36..dst + 40] == Cell(|c.stru|)
    && m[dst + HEADER_SIZE..dst + a] == c.rsv && m[dst + a..dst + b] == c.stru && m[dst + b..dst + n] == c.strs
  }

  /** Memory after the reserve block and its offset are stored. */
  function Pack1(m: bytes, dst: nat, c: Cargo): (t: bytes)
    requires dst + HEADER_SIZE + |c.rsv| <= |m|
    ensures |t| == |m|
  {
    Patch(Patch(m, dst + HEADER_SIZE, c.rsv), dst + 16, Cell(HEADER_SIZE))
  }

  /** And after the structure block, its offset and its size are. */
  function Pack2(m: bytes, dst: nat, c: Cargo): (t: bytes)
    requires dst + HEADER_SIZE + |c.rsv| + |c.stru| <= |m| && HEADER_SIZE + |c.rsv| + |c.stru| < TWO32
    ensures |t| == |m|
  {
    var a := HEADER_SIZE + |c.rsv|;
    Patch(Patch(Patch(Pack1(m, dst, c), dst + a, c.stru), dst + 8, Cell(a)), dst + 36, Cell(|c.stru|))
  }

  function Pack3(m: bytes, dst: nat, c: Cargo): (t: bytes)
    requires dst + HEADER_SIZE + |c.rsv| + |c.stru| + |c.strs| <= |m| && HEADER_SIZE + |c.rsv| + |c.stru| + |c.strs| < TWO32
    ensures |t| == |m|
  {
    var b := HEADER_SIZE + |c.rsv| + |c.stru|;
    Patch(Patch(Patch(Pack2(m, dst, c), dst + b, c.strs), dst + 12, Cell(b)), dst + 32, Cell(|c.strs|))
  }

  lemma Pack1Keeps(m: bytes, dst: nat, c: Cargo, lo: nat, hi: nat)
    requires dst + HEADER_SIZE + |c.rsv| <= |m| && lo <= hi <= |m|
    requires hi <= dst + 16 || (dst + 20 <= lo && hi <= dst + HEADER_SIZE) || dst + HEADER_SIZE + |c.rsv| <= lo
    ensures Pack1(m, dst, c)[lo..hi] == m[lo..hi]
  {
    hide Patch, Cell;
    Untouched(m, dst + HEADER_SIZE, c.rsv);
    Untouched(Patch(m, dst + HEADER_SIZE, c.rsv), dst + 16, Cell(HEADER_SIZE));
  }

  lemma Pack2Keeps(m: bytes, dst: nat, c: Cargo, lo: nat, hi: nat)
    requires dst + HEADER_SIZE + |c.rsv| + |c.stru| <= |m| && HEADER_SIZE + |c.rsv| + |c.stru| < TWO32 && lo <= hi <= |m|
    requires hi <= dst + 8 || (dst + 12 <= lo && hi <= dst + 16) || (dst + 20 <= lo && hi <= dst + 36)
             || dst + HEADER_SIZE + |c.rsv| + |c.stru| <= lo
    ensures Pack2(m, dst, c)[lo..hi] == m[lo..hi]
  {
    hide Patch, Cell, Pack1;
    var a := HEADER_SIZE + |c.rsv|;
    var m1 := Pack1(m, dst, c);
    Pack1Keeps(m, dst, c, lo, hi);
    Untouched(m1, dst + a, c.stru);
    Untouched(Patch(m1, dst + a, c.stru), dst + 8, Cell(a));
    Untouched(Patch(Patch(m1, dst + a, c.stru), dst + 8, Cell(a)), dst + 36, Cell(|c.stru|));
  }

  lemma Pack1Is(m: bytes, dst: nat, c: Cargo)
    requires dst + HEADER_SIZE + |c.rsv| <= |m|
    ensures var t := Pack1(m, dst, c);
      t[dst + 16..dst + 20] == Cell(HEADER_SIZE) && t[dst + HEADER_SIZE..dst + HEADER_SIZE + |c.rsv|] == c.rsv
  {
    hide Patch, Cell;
    var m1 := Patch(m, dst + HEADER_SIZE, c.rsv);
    PatchAt(m, dst + HEADER_SIZE, c.rsv);
    PatchAt(m1, dst + 16, Cell(HEADER_SIZE));
    PatchOutside(m1, dst + 16, Cell(HEADER_SIZE), dst + HEADER_SIZE, dst + HEADER_SIZE + |c.rsv|);
  }

  /** Three patches on top of one another, apart from each other. */
  lemma ThreePatches(m: bytes, o1: nat, d1: bytes, o2: nat, d2: bytes, o3: nat, d3: bytes)
    requires o1 + |d1| <= |m| && o2 + |d2| <= |m| && o3 + |d3| <= |m|
    requires (o2 + |d2| <= o1 || o1 + |d1| <= o2) && (o3 + |d3| <= o1 || o1 + |d1| <= o3) && (o3 + |d3| <= o2 || o2 + |d2| <= o3)
    ensures var t := Patch(Patch(Patch(m, o1, d1), o2, d2), o3, d3);
      t[o1..o1 + |d1|] == d1 && t[o2..o2 + |d2|] == d2 && t[o3..o3 + |d3|] == d3
  {
    hide Patch;
    var t1 := Patch(m, o1, d1);
    var t2 := Patch(t1, o2, d2);
    PatchAt(m, o1, d1);
    PatchAt(t1, o2, d2);
    PatchAt(t2, o3, d3);
    PatchOutside(t1, o2, d2, o1, o1 + |d1|);
    PatchOutside(t2, o3, d3, o1, o1 + |d1|);
    PatchOutside(t2, o3, d3, o2, o2 + |d2|);
  }

  lemma Pack3Keeps(m: bytes, dst: nat, c: Cargo)
    requires dst + HEADER_SIZE + |c.rsv| + |c.stru| + |c.strs| <= |m| && HEADER_SIZE + |c.rsv| + |c.stru| + |c.strs| < TWO32
    ensures var b := HEADER_SIZE + |c.rsv| + |c.stru|;
      forall lo, hi | 0 <= lo <= hi <= |m|
                      && (hi <= dst + 12 || (dst + 16 <= lo && hi <= dst + 32) || (dst + 36 <= lo && hi <= dst + b) || dst + b + |c.strs| <= lo) ::
        Pack3(m, dst, c)[lo..hi] == Pack2(m, dst, c)[lo..hi]
  {
    hide Patch, Cell, Pack2;
    var b := HEADER_SIZE + |c.rsv| + |c.stru|;
    var m2 := Pack2(m, dst, c);
    Untouched(m2, dst + b, c.strs);
    Untouched(Patch(m2, dst + b, c.strs), dst + 12, Cell(b));
    Untouched(Patch(Patch(m2, dst + b, c.strs), dst + 12, Cell(b)), dst + 32, Cell(|c.strs|));
  }

  lemma Pack2Keeps1(m: bytes, dst: nat, c: Cargo)
    requires dst + HEADER_SIZE + |c.rsv| + |c.stru| <= |m| && HEADER_SIZE + |c.rsv| + |c.stru| < TWO32
    ensures var a := HEADER_SIZE + |c.rsv|;
      forall lo, hi | 0 <= lo <= hi <= |m|
                      && (hi <= dst + 8 || (dst + 12 <= lo && hi <= dst + 36) || (dst + 40 <= lo && hi <= dst + a) || dst + a + |c.stru| <= lo) ::
        Pack2(m, dst, c)[lo..hi] == Pack1(m, dst, c)[lo..hi]
  {
    hide Patch, Cell, Pack1;
    var a := HEADER_SIZE + |c.rsv|;
    var m1 := Pack1(m, dst, c);
    Untouched(m1, dst + a, c.stru);
    Untouched(Patch(m1, dst + a, c.stru), dst + 8, Cell(a));
    Untouched(Patch(Patch(m1, dst + a, c.stru), dst + 8, Cell(a)), dst + 36, Cell(|c.stru|));
  }

  lemma Pack2Is(m: bytes, dst: nat, c: Cargo)
    requires dst + HEADER_SIZE + |c.rsv| + |c.stru| <= |m| && HEADER_SIZE + |c.rsv| + |c.stru| < TWO32
    ensures var a, t := HEADER_SIZE + |c.rsv|, Pack2(m, dst, c);
      && t[dst + 16..dst + 20] == Cell(HEADER_SIZE) && t[dst + HEADER_SIZE..dst + a] == c.rsv
      && t[dst + 8..dst + 12] == Cell(a) && t[dst + 36..dst + 40] == Cell(|c.stru|) && t[dst + a..dst + a + |c.stru|] == c.stru
  {
    hide Patch, Cell, Pack1;
    var a := HEADER_SIZE + |c.rsv|;
    Pack1Is(m, dst, c);
    Pack2Keeps1(m, dst, c);
    ThreePatches(Pack1(m, dst, c), dst + a, c.stru, dst + 8, Cell(a), dst + 36, Cell(|c.stru|));
  }

  lemma Pack3Is(m: bytes, dst: nat, c: Cargo)
    requires dst + HEADER_SIZE + |c.rsv| + |c.stru| + |c.strs| <= |m| && HEADER_SIZE + |c.rsv| + |c.stru| + |c.strs| < TWO32
    ensures PackedAt(m, Pack3(m, dst, c), dst, c)
  {
    hide Patch, Cell, Pack2, Pack1;
    var b := HEADER_SIZE + |c.rsv| + |c.stru|;
    Pack2Is(m, dst, c);
    Pack3Keeps(m, dst, c);
    ThreePatches(Pack2(m, dst, c), dst + b, c.strs, dst + 12, Cell(b), dst + 32, Cell(|c.strs|));
    var t, n := Pack3(m, dst, c), dst + b + |c.strs|;
    Pack2Keeps(m, dst, c, 0, dst + 8);
    Pack2Keeps(m, dst, c, dst + 20, dst + 32);
    Pack2Keeps(m, dst, c, n, |m|);
    assert t[0..dst + 8] == t[..dst + 8] && m[0..dst + 8] == m[..dst + 8];
    assert t[n..|m|] == t[n..] && m[n..|m|] == m[n..];
  }

  /** What is still to be read is not overwritten: after the first stage, ... */
  lemma Unread1(m: bytes, src: nat, dst: nat, ext: nat, h: Header, rs: nat, ss: nat)
    requires Packable(|m|, src, dst, ext, h, rs, ss) && h == Hdr(m[src..])
    ensures var c := Load(m, src, h, rs, ss);
      var t := Pack1(m, dst, c);
      && Get(Hdr(t[src..]), OffStruct) == h.offStruct
      && t[src + h.offStruct..src + h.offStruct + ss] == c.stru
  {
    hide Hdr, Cell, Patch, Pack1;
    var c := Load(m, src, h, rs, ss);
    Pack1Keeps(m, dst, c, src + 8, src + 12);
    KeptField(m, Pack1(m, dst, c), src, OffStruct);
    Pack1Keeps(m, dst, c, src + h.offStruct, src + h.offStruct + ss);
  }

  /** ... after the second, ... */
  lemma Unread2(m: bytes, src: nat, dst: nat, ext: nat, h: Header, rs: nat, ss: nat)
    requires Packable(|m|, src, dst, ext, h, rs, ss) && h == Hdr(m[src..])
    ensures var c := Load(m, src, h, rs, ss);
      var t := Pack2(m, dst, c);
      && Get(Hdr(t[src..]), OffStrings) == h.offStrings && Get(Hdr(t[src..]), SizeStrings) == h.sizeStrings
      && t[src + h.offStrings..src + h.offStrings + h.sizeStrings] == c.strs
  {
    hide Hdr, Cell, Patch, Pack2;
    var c := Load(m, src, h, rs, ss);
    var t := Pack2(m, dst, c);
    Pack2Keeps(m, dst, c, src + 12, src + 16);
    Pack2Keeps(m, dst, c, src + 32, src + 36);
    KeptField(m, t, src, OffStrings);
    KeptField(m, t, src, SizeStrings);
    Pack2Keeps(m, dst, c, src + h.offStrings, src + h.offStrings + h.sizeStrings);
  }

  /** ... and when only the size of the strings block is left to store. */
  lemma Unread3(m: bytes, src: nat, dst: nat, ext: nat, h: Header, rs: nat, ss: nat)
    requires Packable(|m|, src, dst, ext, h, rs, ss) && h == Hdr(m[src..])
    ensures var c := Load(m, src, h, rs, ss);
      var b := HEADER_SIZE + rs + ss;
      Get(Hdr(Patch(Patch(Pack2(m, dst, c), dst + b, c.strs), dst + 12, Cell(b))[src..]), SizeStrings) == h.sizeStrings
  {
    hide Hdr, Cell, Patch, Pack2;
    var c := Load(m, src, h, rs, ss);
    var b := HEADER_SIZE + rs + ss;
    var m2 := Pack2(m, dst, c);
    FieldCell(m, src, SizeStrings);
    Pack2Keeps(m, dst, c, src + 32, src + 36);
    PatchOutside(m2, dst + b, c.strs, src + 32, src + 36);
    PatchOutside(Patch(m2, dst + b, c.strs), dst + 12, Cell(b), src + 32, src + 36);
    CellField(Patch(Patch(m2, dst + b, c.strs), dst + 12, Cell(b)), src, SizeStrings, h.sizeStrings);
  }

  /** The first statements of _fdt_packblocks: the reserve block and its offset, ... */
  method PackRsv(mem: array<byte>, src: nat, dst: nat, rs: nat, ss: nat, ghost ext: nat, ghost h: Header)
    requires Packable(mem.Length, src, dst, ext, h, rs, ss) && h == Hdr(mem[src..])
    modifies mem
    ensures mem[..] == Pack1(old(mem[..]), dst, Load(old(mem[..]), src, h, rs, ss))
  {
    hide Hdr, Cell, Patch;
    assert mem[src..] == mem[..][src..];
    MemMove(mem, dst + HEADER_SIZE, src + GetAt(mem, src, OffRsv), rs);
    SetAt(mem, dst, OffRsv, HEADER_SIZE);
  }

  /** ... the structure block, its offset and its size, ... */
  method PackStru(mem: array<byte>, src: nat, dst: nat, rs: nat, ss: nat, ghost m: bytes, ghost ext: nat, ghost h: Header)
    requires Packable(|m|, src, dst, ext, h, rs, ss) && h == Hdr(m[src..]) && |m| == mem.Length
    requires mem[..] == Pack1(m, dst, Load(m, src, h, rs, ss))
    modifies mem
    ensures mem[..] == Pack2(m, dst, Load(m, src, h, rs, ss))
  {
    hide Hdr, Cell, Patch, Pack1;
    Unread1(m, src, dst, ext, h, rs, ss);
    assert mem[src..] == mem[..][src..];
    var structOff := HEADER_SIZE + rs;
    MemMove(mem, dst + structOff, src + GetAt(mem, src, OffStruct), ss);
    SetAt(mem, dst, OffStruct, structOff);
    SetAt(mem, dst, SizeStruct, ss);
  }

  /** ... and the strings block, its offset and its size. */
  method PackStrs(mem: array<byte>, src: nat, dst: nat, rs: nat, ss: nat, ghost m: bytes, ghost ext: nat, ghost h: Header)
    requires Packable(|m|, src, dst, ext, h, rs, ss) && h == Hdr(m[src..]) && |m| == mem.Length
    requires mem[..] == Pack2(m, dst, Load(m, src, h, rs, ss))
    modifies mem
    ensures mem[..] == Pack3(m, dst, Load(m, src, h, rs, ss))
  {
    hide Hdr, Cell, Patch, Pack2;
    Unread2(m, src, dst, ext, h, rs, ss);
    assert mem[src..] == mem[..][src..];
    var stringsOff := HEADER_SIZE + rs + ss;
    MemMove(mem, dst + stringsOff, src + GetAt(mem, src, OffStrings), GetAt(mem, src, SizeStrings));
    SetAt(mem, dst, OffStrings, stringsOff);
    Unread3(m, src, dst, ext, h, rs, ss);
    assert mem[src..] == mem[..][src..];
    SetAt(mem, dst, SizeStrings, GetAt(mem, src, SizeStrings));
  }

  /** _fdt_packblocks. */
  method PackBlocks(mem: array<byte>, src: nat, dst: nat, rs: nat, ss: nat, ghost ext: nat, ghost h: Header)
    requires Packable(mem.Length, src, dst, ext, h, rs, ss) && h == Hdr(mem[src..])
    modifies mem
    ensures PackedAt(old(mem[..]), mem[..], dst, Load(old(mem[..]), src, h, rs, ss))
  {
    hide Hdr, PackedAt, Pack1, Pack2, Pack3;
    ghost var m := mem[..];
    assert mem[src..] == m[src..];
    PackRsv(mem, src, dst, rs, ss, ext, h);
    PackStru(mem, src, dst, rs, ss, m, ext, h);
    PackStrs(mem, src, dst, rs, ss, m, ext, h);
    Pack3Is(m, dst, Load(m, src, h, rs, ss));
  }

  // ---------------------------------------------------------------------------
  // fdt_pack
  // ---------------------------------------------------------------------------

  /** Cutting the reserve block behind its terminator. */
  function Trim(rsv: bytes): (t: bytes)
    requires Ended(rsv)
    ensures |t| == RSV_SIZE * |Entries(rsv)| + RSV_SIZE
  {
    rsv[..RSV_SIZE * |Entries(rsv)| + RSV_SIZE]
  }

  lemma {:induction false} TrimEntries(rsv: bytes)
    requires Ended(rsv)
    ensures Ended(Trim(rsv)) && Entries(Trim(rsv)) == Entries(rsv)
    ensures Trim(Trim(rsv)) == Trim(rsv)
    decreases |rsv|
  {
    hide First;
    var t := Trim(rsv);
    assert t[..RSV_SIZE] == rsv[..RSV_SIZE];
    FirstKept(rsv, t);
    if First(rsv).size != 0 {
      TrimEntries(rsv[RSV_SIZE..]);
      assert t[RSV_SIZE..] == Trim(rsv[RSV_SIZE..]);
    }
  }

  /** The contents of a packed blob. */
  function PackView(v: Parts): (p: Parts)
    requires Ended(v.rsv) && HEADER_SIZE + |v.rsv| + |v.stru| + |v.strs| < TWO32
  {
    var rsv := Trim(v.rsv);
    var a := HEADER_SIZE + |rsv|;
    var b := a + |v.stru|;
    Parts(v.hdr.(offRsv := HEADER_SIZE, offStruct := a, offStrings := b, totalsize := b + |v.strs|), rsv, v.stru, v.strs)
  }

  /** Packing a packed blob changes nothing. */
  lemma PackViewTwice(v: Parts)
    requires Ended(v.rsv) && HEADER_SIZE + |v.rsv| + |v.stru| + |v.strs| < TWO32
    ensures var p := PackView(v);
      && Ended(p.rsv) && Entries(p.rsv) == Entries(v.rsv) && p.stru == v.stru && p.strs == v.strs
      && p.hdr.totalsize == HEADER_SIZE + |p.rsv| + |p.stru| + |p.strs|
      && PackView(p) == p
  {
    TrimEntries(v.rsv);
  }

  /** The header of a packed blob. */
  lemma PackHeader(v: Parts)
    requires Ended(v.rsv) && HEADER_SIZE + |v.rsv| + |v.stru| + |v.strs| < TWO32
    requires v.hdr.sizeStruct == |v.stru| && v.hdr.sizeStrings == |v.strs|
    ensures var h, n := PackView(v).hdr, 16 * |Entries(v.rsv)| + 16;
      Adjacent(h, 40, n, |v.stru|, |v.strs|) && h.totalsize == 40 + n + |v.stru| + |v.strs|
  {
    hide Entries, Ended;
  }

  lemma KeptPart(m0: bytes, m: bytes, lo: nat, hi: nat, a: nat, b: nat)
    requires lo <= a <= b <= hi <= |m0| == |m| && m[lo..hi] == m0[lo..hi]
    ensures m[a..b] == m0[a..b]
  {
    SliceSlice(m, lo, hi, a - lo, b - lo);
    SliceSlice(m0, lo, hi, a - lo, b - lo);
  }

  /** The header after packing in place. */
  lemma PackedHdr(m0: bytes, m: bytes, c: Cargo)
    requires |m0| >= HEADER_SIZE && PackedAt(m0, m, 0, c)
    ensures var a, b := HEADER_SIZE + |c.rsv|, HEADER_SIZE + |c.rsv| + |c.stru|;
      Hdr(m) == Hdr(m0).(offRsv := HEADER_SIZE, offStruct := a, offStrings := b, sizeStrings := |c.strs|, sizeStruct := |c.stru|)
  {
    hide Hdr, Cell;
    assert m[0..] == m && m0[0..] == m0;
    KeptPart(m0, m, 0, 8, 0, 4);
    KeptPart(m0, m, 0, 8, 4, 8);
    KeptPart(m0, m, 20, 32, 20, 24);
    KeptPart(m0, m, 20, 32, 24, 28);
    KeptPart(m0, m, 20, 32, 28, 32);
    KeptField(m0, m, 0, Magic);
    KeptField(m0, m, 0, TotalSize);
    KeptField(m0, m, 0, Version);
    KeptField(m0, m, 0, LastComp);
    KeptField(m0, m, 0, BootCpu);
    CellField(m, 0, OffStruct, HEADER_SIZE + |c.rsv|);
    CellField(m, 0, OffStrings, HEADER_SIZE + |c.rsv| + |c.stru|);
    CellField(m, 0, OffRsv, HEADER_SIZE);
    CellField(m, 0, SizeStrings, |c.strs|);
    CellField(m, 0, SizeStruct, |c.stru|);
  }

  lemma OrderedFits(h: Header, size: nat, rs: nat)
    requires Ordered(h, size) && rs <= h.offStruct - h.offRsv
    ensures Packable(size, 0, 0, h.totalsize, h, rs, h.sizeStruct)
    ensures HEADER_SIZE + (h.offStruct - h.offRsv) + h.sizeStruct + h.sizeStrings < TWO31
  {
  }

  /** What fdt_pack loads from a blob whose layout is in order. */
  lemma LoadView(s: bytes)
    requires Layout(s) && Ended(View(s).rsv)
    ensures var v := View(s);
      var rs := RSV_SIZE * |Entries(v.rsv)| + RSV_SIZE;
      && Packable(|s|, 0, 0, v.hdr.totalsize, v.hdr, rs, v.hdr.sizeStruct)
      && Load(s, 0, v.hdr, rs, v.hdr.sizeStruct) == Cargo(Trim(v.rsv), v.stru, v.strs)
      && HEADER_SIZE + |v.rsv| + |v.stru| + |v.strs| < TWO31
  {
    hide Hdr, Entries, Ended;
    var h := Hdr(s);
    var rs := RSV_SIZE * |Entries(View(s).rsv)| + RSV_SIZE;
    OrderedFits(h, |s|, rs);
    SliceSlice(s, h.offRsv, h.offStruct, 0, rs);
  }

  lemma PackedLayout(s: bytes, m: bytes, t: bytes)
    requires Layout(s) && Ended(View(s).rsv)
    requires PackedAt(s, m, 0, Cargo(Trim(View(s).rsv), View(s).stru, View(s).strs))
    requires HEADER_SIZE + |View(s).rsv| + |View(s).stru| + |View(s).strs| < TWO31
    requires t == Patch(m, FieldOffset(TotalSize), Cell(PackView(View(s)).hdr.totalsize))
    ensures Layout(t) && View(t) == PackView(View(s))
  {
    hide Hdr, Cell, Patch, Entries, Ended, Trim;
    var c := Cargo(Trim(View(s).rsv), View(s).stru, View(s).strs);
    var hh := PackView(View(s)).hdr;
    PackedHdr(s, m, c);
    HdrPatch(m, TotalSize, hh.totalsize);
    BlocksKept(m, TotalSize, hh.totalsize, hh);
    TrimSize(View(s).rsv);
  }

  lemma TrimSize(rsv: bytes)
    requires Ended(rsv)
    ensures RSV_SIZE <= |Trim(rsv)| <= |rsv|
  {
  }

  lemma {:induction false} PackedEncodes(s: bytes, t: bytes, top: Body)
    requires Encodes(s, top) && Ended(View(s).rsv)
    requires HEADER_SIZE + |View(s).rsv| + |View(s).stru| + |View(s).strs| < TWO31
    requires Layout(t) && View(t) == PackView(View(s))
    ensures Encodes(t, top)
  {
    hide Hdr, Flat, Wf, Named, Entries, Ended, Trim;
    TrimSize(View(s).rsv);
  }

  lemma SliceEq(a: bytes, b: bytes, lo: nat, hi: nat)
    requires lo <= hi <= |a| == |b| && a[lo..hi] == b[lo..hi]
    ensures forall i | lo <= i < hi :: a[i] == b[i]
  {
    forall i | lo <= i < hi
      ensures a[i] == b[i]
    {
      assert a[lo..hi][i - lo] == b[lo..hi][i - lo];
    }
  }

  lemma SameField(s: bytes, m: bytes, f: Field)
    requires |s| >= HEADER_SIZE && |m| == |s|
    requires var o := FieldOffset(f); m[o..o + 4] == Cell(Get(Hdr(s), f))
    ensures var o := FieldOffset(f); forall i | o <= i < o + 4 :: m[i] == s[i]
  {
    hide Hdr, Cell, FieldOffset;
    assert s[0..] == s;
    FieldCell(s, 0, f);
    SliceEq(m, s, FieldOffset(f), FieldOffset(f) + 4);
  }

  /** A blob that is packed already stays as it is, byte for byte. */
  lemma PackedSame(s: bytes, m: bytes)
    requires Layout(s) && Ended(View(s).rsv)
    requires HEADER_SIZE + |View(s).rsv| + |View(s).stru| + |View(s).strs| < TWO31
    requires PackView(View(s)) == View(s)
    requires PackedAt(s, m, 0, Cargo(Trim(View(s).rsv), View(s).stru, View(s).strs))
    ensures m == s
  {
    hide Hdr, Cell, Entries, Ended, Trim, Be32;
    var h := Hdr(s);
    SameField(s, m, OffStruct);
    SameField(s, m, OffStrings);
    SameField(s, m, OffRsv);
    SameField(s, m, SizeStrings);
    SameField(s, m, SizeStruct);
    assert m[0..8] == m[..8] && s[0..8] == s[..8];
    SliceEq(m, s, 0, 8);
    SliceEq(m, s, 20, 32);
    SliceEq(m, s, h.offRsv, h.offStruct);
    SliceEq(m, s, h.offStruct, h.offStrings);
    SliceEq(m, s, h.offStrings, h.totalsize);
    assert m[h.totalsize..|m|] == m[h.totalsize..] && s[h.totalsize..|s|] == s[h.totalsize..];
    SliceEq(m, s, h.totalsize, |s|);
  }

  lemma PatchSame(s: bytes, f: Field)
    requires |s| >= HEADER_SIZE
    ensures Patch(s, FieldOffset(f), Cell(Get(Hdr(s), f))) == s
  {
    hide Hdr, Cell;
    assert s[0..] == s;
    FieldCell(s, 0, f);
  }

  /** The moves of fdt_pack and the new total size. */
  method PackInPlace(fdt: array<byte>)
    requires Layout(fdt[..]) && Ended(View(fdt[..]).rsv)
    modifies fdt
    ensures var v := old(View(fdt[..]));
      && HEADER_SIZE + |v.rsv| + |v.stru| + |v.strs| < TWO31
      && Layout(fdt[..]) && View(fdt[..]) == PackView(v)
      && (PackView(v) == v ==> fdt[..] == old(fdt[..]))
  {
    hide Hdr, View, Ordered, PackedAt, Trim, Entries, Ended, Load, Cell, Patch, Packable;
    ghost var s := fdt[..];
    RsvOfView(s);
    LoadView(s);
    var n := NumMemRsv(fdt, 0, View(s).rsv);
    assert fdt[0..] == fdt[..];
    PackBlocks(fdt, 0, 0, (n + 1) * RSV_SIZE, GetHdr(fdt, SizeStruct), Hdr(s).totalsize, Hdr(s));
    ghost var m := fdt[..];
    PackedHdr(s, m, Cargo(Trim(View(s).rsv), View(s).stru, View(s).strs));
    SetHdr(fdt, TotalSize, GetHdr(fdt, OffStrings) + GetHdr(fdt, SizeStrings));
    PackedLayout(s, m, fdt[..]);
    if PackView(View(s)) == View(s) {
      PackedSame(s, m);
      PatchSame(s, TotalSize);
    }
  }

  /** fdt_pack: the same tree and reserve map in a blob of exactly the size of its contents; a packed blob of
      version 17 is not changed at all. */
  method Pack(fdt: array<byte>, ghost top: Body) returns (err: int)
    requires Editable(fdt[..], top)
    requires RwErr(Hdr(fdt[..])) == 0 ==> Ended(View(fdt[..]).rsv)
    modifies fdt
    ensures RwErr(old(Hdr(fdt[..]))) != 0 ==> err == RwErr(old(Hdr(fdt[..]))) && fdt[..] == old(fdt[..])
    ensures RwErr(old(Hdr(fdt[..]))) == 0 ==>
              var v := old(View(fdt[..]));
              && HEADER_SIZE + |v.rsv| + |v.stru| + |v.strs| < TWO32
              && err == 0 && Encodes(fdt[..], top) && View(fdt[..]) == PackView(v.(hdr := V17(v.hdr)))
              && (v.hdr.version == 17 && PackView(v) == v ==> fdt[..] == old(fdt[..]))
              && var n := 16 * |Entries(v.rsv)| + 16;
                Adjacent(Hdr(fdt[..]), 40, n, |v.stru|, |v.strs|) && Hdr(fdt[..]).totalsize == 40 + n + |v.stru| + |v.strs|
  {
    hide Hdr, Encodes, RwErr, View, Ordered, Ended, Flat, Wf, Named;
    err := RwCheckHeader(fdt, top);
    if err != 0 {
      return;
    }
    ghost var s := fdt[..];
    EncodesReady(s, top);
    HeaderKept(old(fdt[..]), s, top);
    LoadView(s);
    PackHeader(View(s));
    PackInPlace(fdt);
    PackedEncodes(s, fdt[..], top);
  }
}
