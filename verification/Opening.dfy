/** fdt_move and fdt_open_into: a blob of any supported version, its blocks in any order, made ready for edits
    in another buffer, which may overlap the blob. */
module Opening {
  import opened Bytes
  import opened Memory
  import opened Blob
  import opened Structure
  import opened Lexer
  import opened Trees
  import opened Rw
  import opened Reserve
  import opened Packing

  // ---------------------------------------------------------------------------
  // The size of the structure block
  // ---------------------------------------------------------------------------

  /** One step of the walk: only the END tag of the block stops it. */
  lemma {:induction false} WalkStep(st: bytes, o: nat, stk: Stack)
    requires On(st, o, stk) && stk.Frame?
    ensures o < TWO31 && TagAt(st, o).tag == HeadTag(stk.b) && TagAt(st, o).next == o + HeadSize(stk.b)
    ensures On(st, o + HeadSize(stk.b), Step(stk)) && SizeS(stk) == HeadSize(stk.b) + SizeS(Step(stk))
    ensures HeadTag(stk.b) == END <==> stk.b.Eof?
    ensures if stk.b.Eof? then SizeS(Step(stk)) == 0 else Step(stk).Frame? && SizeS(Step(stk)) < SizeS(stk)
  {
    hide TagAt, HeadFlat, Flat;
    LexStep(st, o, stk);
  }

  /** The loop of fdt_open_into before version 17: it ends with the true size of the block. */
  method WalkSize(mem: array<byte>, fdt: nat, ghost st: bytes, ghost top: Body) returns (size: int)
    requires fdt <= mem.Length && Readable(mem[fdt..]) && Stru(mem[fdt..]) == st
    requires On(st, 0, Frame(top, Bottom))
    ensures size == Size(top)
  {
    hide Hdr, TagAt, On, Readable, Stru;
    ghost var stk := Frame(top, Bottom);
    size := 0;
    var tag: u32 := NOP;
    while tag != END
      invariant tag != END ==> size >= 0 && stk.Frame? && On(st, size, stk) && size + SizeS(stk) == Size(top)
      invariant tag == END ==> size == Size(top)
      decreases tag != END, SizeS(stk)
    {
      WalkStep(st, size, stk);
      tag, size := NextTag(mem, fdt, size);
      stk := Step(stk);
    }
  }

  // ---------------------------------------------------------------------------
  // The source
  // ---------------------------------------------------------------------------

  /** The blob with header h at address src encodes top, with strings block strs and reserve map rsv: every
      block lies inside its total size, and from version 17 on the size of the structure block is stored. */
  ghost predicate Source(mem: bytes, src: nat, h: Header, top: Body, rsv: bytes, strs: bytes) {
    && src + HEADER_SIZE <= src + h.totalsize <= |mem| < TWO31 && h == Hdr(mem[src..])
    && RsvAt(mem, src, rsv) && Ended(rsv) && h.offRsv + |rsv| <= h.totalsize
    && h.offStruct + Size(top) <= h.totalsize && Wf(top, true)
    && mem[src + h.offStruct..src + h.offStruct + Size(top)] == Flat(top, true)
    && (h.version >= 17 ==> h.sizeStruct == Size(top))
    && h.offStrings + h.sizeStrings <= h.totalsize
    && mem[src + h.offStrings..src + h.offStrings + h.sizeStrings] == strs && Named(top, strs)
  }

  lemma {:induction false} SourceReadable(mem: bytes, src: nat, h: Header, top: Body, rsv: bytes, strs: bytes)
    requires Source(mem, src, h, top, rsv, strs) && h.version < 17
    ensures Readable(mem[src..]) && On(Stru(mem[src..]), 0, Frame(top, Bottom))
  {
    hide Hdr, Flat, Wf, Named, RsvAt, Ended;
    var s, f := mem[src..], Flat(top, true);
    var st := Stru(s);
    assert s == mem[src..|mem|] && st == s[h.offStruct..|s|];
    SliceSlice(mem, src, |mem|, h.offStruct, h.offStruct + |f|);
    SliceSlice(s, h.offStruct, |s|, 0, |f|);
    assert st[0..|f|] == f;
    var stk := Frame(top, Bottom);
    assert WfS(stk.up) && WfS(stk) && FlatS(stk.up) == [] && FlatS(stk) == f + [] == f;
    assert f <= st == st[0..];
  }

  /** Reserve map and structure sizes as fdt_open_into finds them. */
  method Sizes(mem: array<byte>, src: nat, ghost h: Header, ghost top: Body, ghost rsv: bytes, ghost strs: bytes)
    returns (rs: nat, ss: nat)
    requires Source(mem[..], src, h, top, rsv, strs)
    ensures Ended(rsv) && rs == RSV_SIZE * |Entries(rsv)| + RSV_SIZE && ss == Size(top)
  {
    hide Hdr, Flat, Wf, Named, RsvAt, Ended, Entries, On, Readable, Stru;
    assert mem[src..] == mem[..][src..];
    var n := NumMemRsv(mem, src, rsv);
    rs := (n + 1) * RSV_SIZE;
    if GetAt(mem, src, Version) >= 17 {
      ss := GetAt(mem, src, SizeStruct);
    } else {
      SourceReadable(mem[..], src, h, top, rsv, strs);
      ss := WalkSize(mem, src, Stru(mem[src..]), top);
    }
  }

  // ---------------------------------------------------------------------------
  // Finishing the header
  // ---------------------------------------------------------------------------

  /** Storing a header field in a buffer of size bytes at base. hh is the header the buffer will have. */
  method SetField(mem: array<byte>, base: nat, ghost size: nat, f: Field, v: u32, ghost hh: Header)
    requires HEADER_SIZE <= size && base + size <= mem.Length && Ordered(hh, size)
    modifies mem
    ensures var s, t := old(mem[base..base + size]), mem[base..base + size];
      Hdr(t) == With(Hdr(s), f, v) && Blocks(t, hh) == Blocks(s, hh)
    ensures forall lo, hi | 0 <= lo <= hi <= mem.Length && (hi <= base || base + HEADER_SIZE <= lo) :: mem[..][lo..hi] == old(mem[..])[lo..hi]
  {
    hide Hdr, Cell, Patch, Blocks, Ordered;
    ghost var m := mem[..];
    ghost var s := mem[base..base + size];
    SetAt(mem, base, f, v);
    PatchInside(m, base + FieldOffset(f), Cell(v), base, base + size);
    assert mem[base..base + size] == mem[..][base..base + size] && s == m[base..base + size];
    HdrPatch(s, f, v);
    BlocksKept(s, f, v, hh);
    Untouched(m, base + FieldOffset(f), Cell(v));
  }

  // ---------------------------------------------------------------------------
  // fdt_move
  // ---------------------------------------------------------------------------

  /** fdt_move: the blob's bytes at another place; the two may overlap. */
  method Move(mem: array<byte>, src: nat, dst: nat, bufsize: nat) returns (err: int)
    requires src + HEADER_SIZE <= mem.Length && src + Hdr(mem[src..]).totalsize <= mem.Length && dst + bufsize <= mem.Length
    modifies mem
    ensures var m, h := old(mem[..]), Hdr(old(mem[src..]));
      if CheckErr(h) != 0 then err == CheckErr(h) && mem[..] == m
      else if h.totalsize > bufsize then err == NOSPACE && mem[..] == m
      else err == 0 && mem[..] == Patch(m, dst, m[src..src + h.totalsize])
  {
    hide Hdr, CheckErr;
    err := CheckHeaderAt(mem, src);
    if err != 0 {
      return;
    }
    if GetAt(mem, src, TotalSize) > bufsize {
      return NOSPACE;
    }
    MemMove(mem, dst, src, GetAt(mem, src, TotalSize));
  }

  // ---------------------------------------------------------------------------
  // fdt_open_into
  // ---------------------------------------------------------------------------

  /** The header of an opened blob whose blocks stayed where they were. */
  function MovedHeader(h: Header, ss: u32, bufsize: u32): Header {
    h.(version := 17, sizeStruct := ss, totalsize := bufsize)
  }

  /** hh is h with version 17, with the size ss of the structure block and with another total size. */
  predicate Marked(hh: Header, h: Header, ss: nat) {
    hh.version == 17 && hh.sizeStruct == ss && hh == h.(version := hh.version, sizeStruct := hh.sizeStruct, totalsize := hh.totalsize)
  }

  /** The header of an opened blob whose blocks were packed. */
  function BuiltHeader(c: Cargo, bufsize: u32, boot: u32): Header
    requires HEADER_SIZE + |c.rsv| + |c.stru| + |c.strs| < TWO32
  {
    Header(MAGIC, bufsize, HEADER_SIZE + |c.rsv|, HEADER_SIZE + |c.rsv| + |c.stru|, HEADER_SIZE, 17, 16, boot, |c.strs|, |c.stru|)
  }

  /** s is a blob that edits accept, with the given tree, reserve map and strings block. */
  ghost predicate IsOpen(s: bytes, top: Body, rsv: bytes, strs: bytes)
    requires Ended(rsv)
  {
    && Encodes(s, top) && View(s).strs == strs
    && Ended(View(s).rsv) && Entries(View(s).rsv) == Entries(rsv)
    && Hdr(s).totalsize == |s| && Hdr(s).version == 17
  }

  /** Entries depend on the map up to its terminator only. */
  lemma {:induction false} EntriesFront(a: bytes, b: bytes)
    requires Ended(a) && Trim(a) <= b
    ensures Ended(b) && Entries(b) == Entries(a)
    decreases |a|
  {
    hide First;
    var t := Trim(a);
    assert b[..RSV_SIZE] == b[..|t|][..RSV_SIZE] == t[..RSV_SIZE] == a[..RSV_SIZE];
    FirstKept(a, b);
    if First(a).size != 0 {
      assert Trim(a[RSV_SIZE..]) == t[RSV_SIZE..];
      assert b[RSV_SIZE..][..|t| - RSV_SIZE] == b[..|t|][RSV_SIZE..];
      EntriesFront(a[RSV_SIZE..], b[RSV_SIZE..]);
    }
  }

  lemma {:induction false} OpenedIs(s: bytes, top: Body, rsv: bytes, strs: bytes)
    requires Layout(s) && Ended(rsv) && Wf(top, true) && Named(top, strs)
    requires CheckErr(Hdr(s)) == 0 && Hdr(s).version == 17 && Hdr(s).totalsize == |s|
    requires View(s).stru == Flat(top, true) && View(s).strs == strs && Trim(rsv) <= View(s).rsv
    ensures IsOpen(s, top, rsv, strs)
  {
    hide Hdr, Flat, Wf, Named, Ended, Entries, Trim;
    EntriesFront(rsv, View(s).rsv);
  }

  /** A copied header is the same header. */
  lemma HdrCopy(m: bytes, src: nat, s: bytes, n: nat)
    requires HEADER_SIZE <= n <= |s| && src + n <= |m| && s[..n] == m[src..src + n]
    ensures Hdr(s) == Hdr(m[src..])
  {
    hide Word;
    assert forall i | 0 <= i < HEADER_SIZE :: s[i] == s[..n][i] == m[src..src + n][i] == m[src..][i];
  }

  lemma SliceCopy(m: bytes, src: nat, s: bytes, n: nat, lo: nat, hi: nat)
    requires lo <= hi <= n <= |s| && src + n <= |m| && s[..n] == m[src..src + n]
    ensures s[lo..hi] == m[src + lo..src + hi]
  {
    assert s[0..n] == s[..n];
    SliceSlice(s, 0, n, lo, hi);
    SliceSlice(m, src, src + n, lo, hi);
  }

  /** Blocks that are not misordered are in order. */
  lemma OrderedMoved(h: Header, rs: nat, ss: nat, size: nat)
    requires RSV_SIZE <= rs < TWO31 && ss < TWO31 && !Misordered(h, rs, ss)
    requires h.totalsize <= size < TWO31 && h.offRsv + rs <= h.totalsize && h.offStruct + ss <= h.totalsize
    requires h.offStrings + h.sizeStrings <= h.totalsize
    ensures h.offRsv + rs <= h.offStruct && Ordered(MovedHeader(h, ss, size), size)
  {
  }

  lemma FrontSlice(m: bytes, p: nat, r: bytes, n: nat, q: nat)
    requires p + |r| <= |m| && m[p..p + |r|] == r && n <= |r| && p + n <= q <= |m|
    ensures r[..n] <= m[p..q]
  {
    SliceSlice(m, p, p + |r|, 0, n);
    SliceSlice(m, p, q, 0, n);
    assert r[0..n] == r[..n] && m[p..q][0..n] == m[p..q][..n];
  }

  /** The blocks of a copied blob whose header says that they are in order. */
  lemma {:induction false} CopiedBlocks(m: bytes, src: nat, h: Header, top: Body, rsv: bytes, strs: bytes, s: bytes)
    requires Source(m, src, h, top, rsv, strs) && !Misordered(h, |Trim(rsv)|, Size(top))
    requires h.totalsize <= |s| < TWO31 && s[..h.totalsize] == m[src..src + h.totalsize]
    ensures var hh := MovedHeader(h, Size(top), |s|);
      && Hdr(s) == h && Ordered(hh, |s|)
      && Blocks(s, hh).stru == Flat(top, true) && Blocks(s, hh).strs == strs && Trim(rsv) <= Blocks(s, hh).rsv
  {
    hide Hdr, Flat, Wf, Named, Ended, Entries, Misordered, Ordered, Size;
    TrimSize(rsv);
    OrderedMoved(h, |Trim(rsv)|, Size(top), |s|);
    OrderedBounds(MovedHeader(h, Size(top), |s|), |s|);
    HdrCopy(m, src, s, h.totalsize);
    SliceCopy(m, src, s, h.totalsize, h.offRsv, h.offStruct);
    SliceCopy(m, src, s, h.totalsize, h.offStruct, h.offStruct + Size(top));
    SliceCopy(m, src, s, h.totalsize, h.offStrings, h.offStrings + h.sizeStrings);
    FrontSlice(m, src + h.offRsv, rsv, |Trim(rsv)|, src + h.offStruct);
  }

  lemma OrderedBounds(h: Header, size: nat)
    requires Ordered(h, size)
    ensures h.offRsv <= h.offStruct <= h.offStruct + h.sizeStruct <= h.offStrings
    ensures h.offStrings <= h.offStrings + h.sizeStrings <= h.totalsize <= size
  {
  }

  /** The three header fields fdt_open_into then stores. */
  method FinishMoved(mem: array<byte>, dst: nat, bufsize: nat, ss: nat, ghost h: Header)
    requires HEADER_SIZE <= bufsize < TWO31 && dst + bufsize <= mem.Length && ss < TWO31
    requires Hdr(mem[dst..dst + bufsize]) == h && Ordered(MovedHeader(h, ss, bufsize), bufsize)
    modifies mem
    ensures var s, t, hh := old(mem[dst..dst + bufsize]), mem[dst..dst + bufsize], MovedHeader(h, ss, bufsize);
      Hdr(t) == hh && Blocks(t, hh) == Blocks(s, hh)
  {
    hide Hdr, Ordered, Blocks;
    ghost var hh := MovedHeader(h, ss, bufsize);
    SetField(mem, dst, bufsize, Version, 17, hh);
    SetField(mem, dst, bufsize, SizeStruct, ss, hh);
    SetField(mem, dst, bufsize, TotalSize, bufsize, hh);
  }

  /** The branch of fdt_open_into for a blob whose blocks are in order already. */
  method OpenOrdered(mem: array<byte>, src: nat, dst: nat, bufsize: nat, ss: nat, ghost h: Header, ghost top: Body,
                     ghost rsv: bytes, ghost strs: bytes)
    returns (err: int)
    requires Source(mem[..], src, h, top, rsv, strs) && CheckErr(h) == 0 && ss == Size(top)
    requires Ended(rsv) && !Misordered(h, |Trim(rsv)|, ss) && dst + bufsize <= mem.Length
    modifies mem
    ensures if h.totalsize > bufsize then err == NOSPACE && mem[..] == old(mem[..])
            else
              && err == 0 && IsOpen(mem[dst..dst + bufsize], top, rsv, strs)
              && Hdr(mem[dst..dst + bufsize]) == MovedHeader(h, ss, bufsize)
  {
    hide Hdr, Flat, Wf, Named, Ended, Entries, Blocks, Patch, Misordered, View, Trim, Ordered, CheckErr, IsOpen, Source, Size;
    ghost var m := mem[..];
    SourceBounds(m, src, h, top, rsv, strs);
    assert mem[src..] == m[src..];
    err := Move(mem, src, dst, bufsize);
    if err != 0 {
      return;
    }
    ghost var s := mem[dst..dst + bufsize];
    CopyFront(m, src, dst, bufsize, h.totalsize, mem[..]);
    CopiedBlocks(m, src, h, top, rsv, strs, s);
    FinishMoved(mem, dst, bufsize, ss, h);
    MovedOpen(m, src, h, top, rsv, strs, s, mem[dst..dst + bufsize]);
  }

  lemma {:induction false} SourceBounds(mem: bytes, src: nat, h: Header, top: Body, rsv: bytes, strs: bytes)
    requires Source(mem, src, h, top, rsv, strs)
    ensures src + HEADER_SIZE <= src + h.totalsize <= |mem| < TWO31 && h == Hdr(mem[src..])
    ensures h.offStruct + Size(top) <= h.totalsize && h.offStrings + h.sizeStrings <= h.totalsize
    ensures Ended(rsv) && h.offRsv + |Trim(rsv)| <= h.totalsize && RSV_SIZE <= |Trim(rsv)|
  {
    hide Hdr, Flat, Wf, Named, Ended, Entries;
    TrimSize(rsv);
  }

  lemma CopyFront(m: bytes, src: nat, dst: nat, size: nat, n: nat, t: bytes)
    requires src + n <= |m| && n <= size && dst + size <= |m| && t == Patch(m, dst, m[src..src + n])
    ensures t[dst..dst + size][..n] == m[src..src + n]
  {
    PatchAt(m, dst, m[src..src + n]);
    SliceSlice(t, dst, dst + size, 0, n);
    assert t[dst..dst + size][0..n] == t[dst..dst + size][..n];
  }

  lemma {:induction false} MovedOpen(m: bytes, src: nat, h: Header, top: Body, rsv: bytes, strs: bytes, s: bytes, t: bytes)
    requires Source(m, src, h, top, rsv, strs) && !Misordered(h, |Trim(rsv)|, Size(top)) && CheckErr(h) == 0
    requires h.totalsize <= |s| == |t| < TWO31 && s[..h.totalsize] == m[src..src + h.totalsize]
    requires Hdr(t) == MovedHeader(h, Size(top), |t|) && Ordered(Hdr(t), |t|) && Blocks(t, Hdr(t)) == Blocks(s, Hdr(t))
    ensures IsOpen(t, top, rsv, strs)
  {
    hide Hdr, Flat, Wf, Named, Ended, Entries, Blocks, Trim, Ordered, IsOpen, RsvAt;
    CopiedBlocks(m, src, h, top, rsv, strs, s);
    OpenedIs(t, top, rsv, strs);
  }

  /** Two headers place the blocks alike. */
  predicate SamePlaces(a: Header, b: Header) {
    && a.offStruct == b.offStruct && a.offStrings == b.offStrings && a.offRsv == b.offRsv
    && a.sizeStrings == b.sizeStrings && a.sizeStruct == b.sizeStruct
  }

  /** A packed blob copied to the front of a buffer: its header, ... */
  lemma BuiltPlaces(m0: bytes, m: bytes, tmp: nat, c: Cargo, s: bytes)
    requires PackedAt(m0, m, tmp, c)
    requires var n := HEADER_SIZE + |c.rsv| + |c.stru| + |c.strs|;
      n <= |s| < TWO31 && s[..n] == m[tmp..tmp + n]
    ensures SamePlaces(Hdr(s), BuiltHeader(c, |s|, 0))
  {
    hide Hdr, Cell;
    var n := HEADER_SIZE + |c.rsv| + |c.stru| + |c.strs|;
    assert s[0..] == s;
    SliceCopy(m, tmp, s, n, 8, 12);
    SliceCopy(m, tmp, s, n, 12, 16);
    SliceCopy(m, tmp, s, n, 16, 20);
    SliceCopy(m, tmp, s, n, 32, 36);
    SliceCopy(m, tmp, s, n, 36, 40);
    CellField(s, 0, OffStruct, HEADER_SIZE + |c.rsv|);
    CellField(s, 0, OffStrings, HEADER_SIZE + |c.rsv| + |c.stru|);
    CellField(s, 0, OffRsv, HEADER_SIZE);
    CellField(s, 0, SizeStrings, |c.strs|);
    CellField(s, 0, SizeStruct, |c.stru|);
  }

  /** ... and its blocks. */
  lemma BuiltBlocks(m0: bytes, m: bytes, tmp: nat, c: Cargo, s: bytes)
    requires PackedAt(m0, m, tmp, c) && RSV_SIZE <= |c.rsv|
    requires var n := HEADER_SIZE + |c.rsv| + |c.stru| + |c.strs|;
      n <= |s| < TWO31 && s[..n] == m[tmp..tmp + n]
    ensures var hh := BuiltHeader(c, |s|, 0);
      Ordered(hh, |s|) && Blocks(s, hh) == Parts(hh, c.rsv, c.stru, c.strs)
  {
    hide Cell;
    var a, b := HEADER_SIZE + |c.rsv|, HEADER_SIZE + |c.rsv| + |c.stru|;
    var n := b + |c.strs|;
    SliceCopy(m, tmp, s, n, HEADER_SIZE, a);
    SliceCopy(m, tmp, s, n, a, b);
    SliceCopy(m, tmp, s, n, b, n);
  }

  /** The n bytes at dst have none in common with the boot CPU in the header at src. */
  predicate Misses(dst: nat, n: nat, src: nat) {
    dst + n <= src + 28 || src + 32 <= dst
  }

  lemma BootKept(m0: bytes, m: bytes, src: nat)
    requires |m| == |m0| && src + HEADER_SIZE <= |m| && m[src + 28..src + 32] == m0[src + 28..src + 32]
    ensures Hdr(m[src..]).bootCpu == Hdr(m0[src..]).bootCpu
  {
    hide Word;
    assert forall i | 28 <= i < 32 :: m[src..][i] == m[src + 28..src + 32][i - 28] == m0[src + 28..src + 32][i - 28] == m0[src..][i];
  }

  /** The five header fields fdt_open_into then stores; the last is read from the source at that time. */
  method FinishBuilt(mem: array<byte>, src: nat, dst: nat, bufsize: nat, ghost c: Cargo) returns (ghost boot: u32)
    requires HEADER_SIZE <= bufsize < TWO31 && dst + bufsize <= mem.Length && src + HEADER_SIZE <= mem.Length
    requires HEADER_SIZE + |c.rsv| + |c.stru| + |c.strs| < TWO32
    requires Ordered(BuiltHeader(c, bufsize, 0), bufsize)
    requires SamePlaces(Hdr(mem[dst..dst + bufsize]), BuiltHeader(c, bufsize, 0))
    modifies mem
    ensures var s, t, hh := old(mem[dst..dst + bufsize]), mem[dst..dst + bufsize], BuiltHeader(c, bufsize, boot);
      Hdr(t) == hh && Ordered(hh, bufsize) && Blocks(t, hh) == Blocks(s, hh)
    ensures Misses(dst, HEADER_SIZE, src) ==> boot == old(Hdr(mem[src..])).bootCpu
  {
    hide Hdr, Blocks, Ordered;
    ghost var m := mem[..];
    ghost var hh := BuiltHeader(c, bufsize, 0);
    SetField(mem, dst, bufsize, Magic, MAGIC, hh);
    SetField(mem, dst, bufsize, TotalSize, bufsize, hh);
    SetField(mem, dst, bufsize, Version, 17, hh);
    SetField(mem, dst, bufsize, LastComp, 16, hh);
    if Misses(dst, HEADER_SIZE, src) {
      BootKept(m, mem[..], src);
    }
    var cpu := GetAt(mem, src, BootCpu);
    assert mem[src..] == mem[..][src..] && m[src..] == old(mem[src..]);
    SetField(mem, dst, bufsize, BootCpu, cpu, hh);
    boot := cpu;
    BuiltBoot(c, bufsize, cpu, old(mem[dst..dst + bufsize]), mem[dst..dst + bufsize]);
  }

  lemma BuiltBoot(c: Cargo, size: nat, boot: u32, s: bytes, t: bytes)
    requires HEADER_SIZE + |c.rsv| + |c.stru| + |c.strs| < TWO32 && |s| == |t| == size < TWO32
    requires Ordered(BuiltHeader(c, size, 0), size) && Blocks(t, BuiltHeader(c, size, 0)) == Blocks(s, BuiltHeader(c, size, 0))
    ensures Ordered(BuiltHeader(c, size, boot), size) && Blocks(t, BuiltHeader(c, size, boot)) == Blocks(s, BuiltHeader(c, size, boot))
  {
  }

  /** What fdt_open_into packs. */
  lemma {:induction false} SourceCargo(m: bytes, src: nat, h: Header, top: Body, rsv: bytes, strs: bytes)
    requires Source(m, src, h, top, rsv, strs) && Size(top) < TWO31
    ensures Load(m, src, h, |Trim(rsv)|, Size(top)) == Cargo(Trim(rsv), Flat(top, true), strs)
  {
    hide Hdr, Flat, Wf, Named, Ended, Entries;
    TrimSize(rsv);
    var n, p := |Trim(rsv)|, src + h.offRsv;
    SliceSlice(m, p, p + |rsv|, 0, n);
    assert rsv[0..n] == Trim(rsv);
  }

  /** Packing beside the source and copying leave the boot CPU alone where they miss it. */
  lemma BootBeside(m0: bytes, m1: bytes, m2: bytes, src: nat, tmp: nat, dst: nat, c: Cargo, d: bytes)
    requires PackedAt(m0, m1, tmp, c) && src + HEADER_SIZE <= |m0|
    requires var n := HEADER_SIZE + |c.rsv| + |c.stru| + |c.strs|;
      && (src + HEADER_SIZE <= tmp || tmp + n <= src)
      && |d| == n && dst + n <= |m1| && m2 == Patch(m1, dst, d) && Misses(dst, n, src)
    ensures Hdr(m2[src..]).bootCpu == Hdr(m0[src..]).bootCpu
  {
    hide Hdr, Cell, Patch;
    var n := HEADER_SIZE + |c.rsv| + |c.stru| + |c.strs|;
    if src + HEADER_SIZE <= tmp {
      assert m0[0..tmp + 8] == m0[..tmp + 8] && m1[0..tmp + 8] == m1[..tmp + 8];
      KeptPart(m0, m1, 0, tmp + 8, src + 28, src + 32);
    } else {
      TailSlice(m0, tmp + n);
      TailSlice(m1, tmp + n);
      KeptPart(m0, m1, tmp + n, |m0|, src + 28, src + 32);
    }
    PatchBeside(m1, dst, d, src + 28, src + 32);
    BootKept(m0, m2, src);
  }

  lemma TailSlice(m: bytes, lo: nat)
    requires lo <= |m|
    ensures m[lo..|m|] == m[lo..]
  {
  }

  lemma PatchBeside(m: bytes, o: nat, d: bytes, lo: nat, hi: nat)
    requires o + |d| <= |m| && lo <= hi <= |m| && (hi <= o || o + |d| <= lo)
    ensures Patch(m, o, d)[lo..hi] == m[lo..hi]
  {
  }

  /** The moves of the other branch of fdt_open_into: the blob is built at tmp and copied to the buffer. */
  method BuildBlob(mem: array<byte>, src: nat, dst: nat, tmp: nat, bufsize: nat, rs: nat, ss: nat, newsize: nat, ghost h: Header,
                   ghost c: Cargo)
    requires dst + bufsize <= mem.Length && PackedSize(h, rs, ss) == newsize <= bufsize < TWO31 && RSV_SIZE <= rs
    requires tmp != src && Packable(mem.Length, src, tmp, h.totalsize, h, rs, ss)
    requires h == Hdr(mem[src..]) && c == Load(mem[..], src, h, rs, ss)
    modifies mem
    ensures SamePlaces(Hdr(mem[dst..dst + bufsize]), BuiltHeader(c, bufsize, 0))
    ensures var hh := BuiltHeader(c, bufsize, 0);
      Ordered(hh, bufsize) && Blocks(mem[dst..dst + bufsize], hh) == Parts(hh, c.rsv, c.stru, c.strs)
    ensures Misses(dst, newsize, src) ==> Hdr(mem[src..]).bootCpu == h.bootCpu
  {
    hide Hdr, PackedAt, Blocks, Ordered, Patch, Load;
    ghost var m0 := mem[..];
    assert mem[src..] == m0[src..];
    PackBlocks(mem, src, tmp, rs, ss, h.totalsize, h);
    ghost var m := mem[..];
    MemMove(mem, dst, tmp, newsize);
    CopyFront(m, tmp, dst, bufsize, newsize, mem[..]);
    BuiltPlaces(m0, m, tmp, c, mem[dst..dst + bufsize]);
    BuiltBlocks(m0, m, tmp, c, mem[dst..dst + bufsize]);
    if Misses(dst, newsize, src) {
      BootBeside(m0, m, mem[..], src, tmp, dst, c, m[tmp..tmp + newsize]);
      assert mem[src..] == mem[..][src..];
    }
  }

  /** The branch of fdt_open_into for a blob whose blocks are not in order. */
  method OpenBuilt(mem: array<byte>, src: nat, dst: nat, bufsize: nat, rs: nat, ss: nat, ghost h: Header, ghost top: Body,
                   ghost rsv: bytes, ghost strs: bytes)
    returns (err: int)
    requires Source(mem[..], src, h, top, rsv, strs) && ss == Size(top)
    requires Ended(rsv) && rs == |Trim(rsv)| && dst + bufsize <= mem.Length
    modifies mem
    ensures var n := 40 + rs + ss + h.sizeStrings;
      var apart := dst + n <= src || src + h.totalsize <= dst;
      if bufsize < n || (!apart && src + h.totalsize + n > dst + bufsize) then err == NOSPACE && mem[..] == old(mem[..])
      else
        && err == 0 && IsOpen(mem[dst..dst + bufsize], top, rsv, strs)
        && var hh := Hdr(mem[dst..dst + bufsize]);
          && Complete(hh) && Adjacent(hh, 40, rs, ss, h.sizeStrings) && hh.totalsize == bufsize
          && (Misses(dst, n, src) ==> hh.bootCpu == h.bootCpu)
  {
    hide Hdr, Flat, Wf, Named, Ended, Entries, Blocks, Trim, Ordered, IsOpen, Source, Size, Load;
    ghost var m := mem[..];
    SourceBounds(m, src, h, top, rsv, strs);
    SourceCargo(m, src, h, top, rsv, strs);
    assert mem[src..] == m[src..];
    var newsize := HEADER_SIZE + rs + ss + GetAt(mem, src, SizeStrings);
    if bufsize < newsize {
      return NOSPACE;
    }
    var tmp := dst;
    if tmp + newsize > src && tmp < src + GetAt(mem, src, TotalSize) {
      tmp := src + GetAt(mem, src, TotalSize);
      if tmp + newsize > dst + bufsize {
        return NOSPACE;
      }
    }
    ghost var c := Load(m, src, h, rs, ss);
    BuildBlob(mem, src, dst, tmp, bufsize, rs, ss, newsize, h, c);
    ghost var s := mem[dst..dst + bufsize];
    ghost var boot := FinishBuilt(mem, src, dst, bufsize, c);
    BuiltOpen(m, src, h, top, rsv, strs, c, s, mem[dst..dst + bufsize], boot);
    return 0;
  }

  lemma {:induction false} BuiltOpen(m: bytes, src: nat, h: Header, top: Body, rsv: bytes, strs: bytes, c: Cargo, s: bytes, t: bytes,
                                     boot: u32)
    requires Source(m, src, h, top, rsv, strs) && Ended(rsv) && c == Cargo(Trim(rsv), Flat(top, true), strs)
    requires |s| == |t| < TWO31 && HEADER_SIZE + |c.rsv| + |c.stru| + |c.strs| <= |s|
    requires var hh := BuiltHeader(c, |t|, boot);
      && HEADER_SIZE <= |t| && Hdr(t) == hh && Ordered(hh, |t|) && Blocks(t, hh) == Blocks(s, hh)
    requires Ordered(BuiltHeader(c, |t|, 0), |t|) && Blocks(s, BuiltHeader(c, |t|, 0)) == Parts(BuiltHeader(c, |t|, 0), c.rsv, c.stru, c.strs)
    ensures IsOpen(t, top, rsv, strs)
  {
    hide Hdr, Flat, Wf, Named, Ended, Entries, Trim, Ordered, IsOpen, RsvAt;
    OpenedIs(t, top, rsv, strs);
  }

  /** fdt_open_into. The opened blob has the same tree and the same reserve map, whatever the order of the
      blocks and however the buffer overlaps the blob. The boot CPU is carried over unless the blob has to be
      rebuilt over the four bytes that hold it. */
  method OpenInto(mem: array<byte>, src: nat, dst: nat, bufsize: nat, ghost h: Header, ghost top: Body, ghost rsv: bytes, ghost strs: bytes)
    returns (err: int)
    requires src + HEADER_SIZE <= mem.Length && dst + bufsize <= mem.Length && h == Hdr(mem[src..])
    requires CheckErr(h) == 0 ==> Source(mem[..], src, h, top, rsv, strs)
    modifies mem
    ensures CheckErr(h) != 0 ==> err == CheckErr(h) && mem[..] == old(mem[..])
    ensures CheckErr(h) == 0 ==>
      && Ended(rsv) && |Trim(rsv)| < TWO32 && Size(top) < TWO32
      && var n := 40 + |Trim(rsv)| + Size(top) + h.sizeStrings;
      var inOrder := !Misordered(h, |Trim(rsv)|, Size(top));
      var apart := dst + n <= src || src + h.totalsize <= dst;
      var fits := if inOrder then h.totalsize <= bufsize else n <= bufsize && (apart || src + h.totalsize + n <= dst + bufsize);
      if !fits then err == NOSPACE && mem[..] == old(mem[..])
      else
        && err == 0 && IsOpen(mem[dst..dst + bufsize], top, rsv, strs)
        && var hh := Hdr(mem[dst..dst + bufsize]);
          && hh.totalsize == bufsize
          && if inOrder then Marked(hh, h, Size(top))
             else
               && Complete(hh) && Adjacent(hh, 40, |Trim(rsv)|, Size(top), h.sizeStrings)
               && (Misses(dst, n, src) ==> hh.bootCpu == h.bootCpu)
  {
    hide Hdr, Flat, Wf, Named, Ended, Entries, Blocks, Trim, Ordered, IsOpen, Source, Size, CheckErr, Misordered;
    err := CheckHeaderAt(mem, src);
    if err != 0 {
      return;
    }
    assert mem[src..] == mem[..][src..];
    SourceBounds(mem[..], src, h, top, rsv, strs);
    var rs, ss := Sizes(mem, src, h, top, rsv, strs);
    var misordered := BlocksMisordered(mem, src, rs, ss);
    if !misordered {
      err := OpenOrdered(mem, src, dst, bufsize, ss, h, top, rsv, strs);
    } else {
      err := OpenBuilt(mem, src, dst, bufsize, rs, ss, h, top, rsv, strs);
    }
  }
}
