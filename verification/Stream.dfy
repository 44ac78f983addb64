/** The streaming writer of lib/libfdt/fdt_sw.c on a buffer in memory: each call has the effect that module
    Writer describes. */
module Stream {
  import opened Bytes
  import opened Memory
  import opened Blob
  import opened Structure
  import opened Names
  import opened Reserve
  import opened Writer

  /** The header of an unfinished blob. */
  function SwHeader(w: Sw): Header
    requires w.size < TWO31 && Used(w) <= w.size
  {
    Header(SW_MAGIC, w.size, RSV_START + |w.rsv|, w.size, RSV_START, LAST_VERSION, FIRST_VERSION, 0, |w.tab|, |w.stru|)
  }

  /** The buffer s is in state w: its header says so, and reserve entries, structure, zeros and table follow
      one another up to its end. */
  ghost predicate Rep(s: bytes, w: Sw) {
    && Used(w) <= w.size <= |s| && w.size < TWO31 && Hdr(s) == SwHeader(w)
    && var a := RSV_START + |w.rsv|;
    && s[RSV_START..a] == w.rsv && s[a..a + |w.stru|] == w.stru
    && s[a + |w.stru|..w.size - |w.tab|] == ZeroBytes(w.size - Used(w))
    && s[w.size - |w.tab|..w.size] == w.tab
  }

  /** Taking n bytes of the free zeros for the structure. */
  lemma RepGrab(s: bytes, w: Sw, n: nat)
    requires Rep(s, w) && Used(w) + n <= w.size
    ensures Rep(Patch(s, FieldOffset(SizeStruct), Cell(|w.stru| + n)), w.(stru := w.stru + ZeroBytes(n)))
  {
    hide Hdr, Cell, Patch;
    var a, b, e := RSV_START + |w.rsv|, RSV_START + |w.rsv| + |w.stru|, w.size - |w.tab|;
    var d := Cell(|w.stru| + n);
    HdrPatch(s, SizeStruct, |w.stru| + n);
    PatchOutside(s, 36, d, RSV_START, a);
    PatchOutside(s, 36, d, a, b + n);
    PatchOutside(s, 36, d, b + n, e);
    PatchOutside(s, 36, d, e, w.size);
    ZeroSplit(s, b, b + n, e);
    assert s[a..b + n] == s[a..b] + s[b..b + n];
  }

  lemma ZeroSplit(s: bytes, b: nat, m: nat, e: nat)
    requires b <= m <= e <= |s| && s[b..e] == ZeroBytes(e - b)
    ensures s[b..m] == ZeroBytes(m - b) && s[m..e] == ZeroBytes(e - m)
  {
    assert s[b..m] == s[b..e][..m - b] && s[m..e] == s[b..e][m - b..];
  }

  /** Writing inside the structure. */
  lemma RepPatch(s: bytes, w: Sw, o: nat, d: bytes)
    requires Rep(s, w) && o + |d| <= |w.stru|
    ensures RSV_START + |w.rsv| + o + |d| <= |s|
    ensures Rep(Patch(s, RSV_START + |w.rsv| + o, d), w.(stru := Patch(w.stru, o, d)))
  {
    hide Hdr, Patch;
    var a, b, e := RSV_START + |w.rsv|, RSV_START + |w.rsv| + |w.stru|, w.size - |w.tab|;
    HdrKept(s, a + o, d);
    PatchOutside(s, a + o, d, RSV_START, a);
    PatchInside(s, a + o, d, a, b);
    PatchOutside(s, a + o, d, b, e);
    PatchOutside(s, a + o, d, e, w.size);
  }

  /** A string in front of the table. */
  lemma RepTable(s: bytes, w: Sw, d: bytes)
    requires Rep(s, w) && Used(w) + |d| <= w.size
    ensures var t := Patch(s, w.size - |w.tab| - |d|, d);
      Rep(Patch(t, FieldOffset(SizeStrings), Cell(|w.tab| + |d|)), w.(tab := d + w.tab))
  {
    hide Hdr, Cell, Patch;
    var a, b, e := RSV_START + |w.rsv|, RSV_START + |w.rsv| + |w.stru|, w.size - |w.tab|;
    var m := e - |d|;
    var t, c := Patch(s, m, d), Cell(|w.tab| + |d|);
    HdrKept(s, m, d);
    PatchAt(s, m, d);
    PatchOutside(s, m, d, RSV_START, a);
    PatchOutside(s, m, d, a, b);
    PatchOutside(s, m, d, b, m);
    PatchOutside(s, m, d, e, w.size);
    ZeroSplit(s, b, m, e);
    assert t[m..w.size] == t[m..e] + t[e..w.size];
    HdrPatch(t, SizeStrings, |w.tab| + |d|);
    PatchOutside(t, 32, c, RSV_START, a);
    PatchOutside(t, 32, c, a, b);
    PatchOutside(t, 32, c, b, m);
    PatchOutside(t, 32, c, m, w.size);
  }

  /** An entry behind the reserve map, before any structure is written. */
  lemma RepReserve(s: bytes, w: Sw, d: bytes)
    requires Rep(s, w) && w.stru == [] && Used(w) + |d| <= w.size
    ensures var a := RSV_START + |w.rsv|;
      var t := Patch(s, a, d);
      Rep(Patch(t, FieldOffset(OffStruct), Cell(a + |d|)), w.(rsv := w.rsv + d))
  {
    hide Hdr, Cell, Patch;
    var a, e := RSV_START + |w.rsv|, w.size - |w.tab|;
    var m := a + |d|;
    var t, c := Patch(s, a, d), Cell(m);
    HdrKept(s, a, d);
    PatchAt(s, a, d);
    PatchOutside(s, a, d, RSV_START, a);
    PatchOutside(s, a, d, m, e);
    PatchOutside(s, a, d, e, w.size);
    ZeroSplit(s, a, m, e);
    assert t[RSV_START..m] == t[RSV_START..a] + t[a..m];
    HdrPatch(t, OffStruct, m);
    PatchOutside(t, 8, c, RSV_START, m);
    PatchOutside(t, 8, c, m, e);
    PatchOutside(t, 8, c, e, w.size);
  }

  // ---------------------------------------------------------------------------
  // The calls
  // ---------------------------------------------------------------------------

  lemma RepBounds(s: bytes, w: Sw)
    requires Rep(s, w)
    ensures HEADER_SIZE <= Used(w) <= w.size <= |s| && w.size < TWO31 && Hdr(s) == SwHeader(w)
    ensures s[w.size - |w.tab|..w.size] == w.tab
  {
    hide Hdr;
  }

  /** fdt_create. A buffer of 40 to 47 bytes is accepted too, with a reserve map that starts behind its end. */
  method Create(buf: array<byte>, bufsize: nat) returns (err: int)
    requires bufsize < HEADER_SIZE || bufsize <= buf.Length
    requires bufsize < TWO31
    modifies buf
    ensures if bufsize < 40 then err == NOSPACE && buf[..] == old(buf[..])
            else
              && err == 0
              && Hdr(buf[..]) == Header(0x2ff20112, bufsize, 48, bufsize, 48, 17, 16, 0, 0, 0)
              && buf[HEADER_SIZE..bufsize] == ZeroBytes(bufsize - HEADER_SIZE)
              && (RSV_START <= bufsize ==> Rep(buf[..], Sw(bufsize, [], [], [])))
  {
    hide Hdr, Patch, Cell, FieldOffset;
    if bufsize < HEADER_SIZE {
      return NOSPACE;
    }
    MemSet(buf, 0, 0, bufsize);
    ghost var m := buf[..];
    ZeroHdr(old(buf[..]), m, bufsize);
    BehindKept(m, Magic, SW_MAGIC, bufsize);
    SetHdr(buf, Magic, SW_MAGIC);
    BehindKept(buf[..], Version, LAST_VERSION, bufsize);
    SetHdr(buf, Version, LAST_VERSION);
    BehindKept(buf[..], LastComp, FIRST_VERSION, bufsize);
    SetHdr(buf, LastComp, FIRST_VERSION);
    BehindKept(buf[..], TotalSize, bufsize, bufsize);
    SetHdr(buf, TotalSize, bufsize);
    BehindKept(buf[..], OffRsv, RSV_START, bufsize);
    SetHdr(buf, OffRsv, RSV_START);
    BehindKept(buf[..], OffStruct, RSV_START, bufsize);
    SetHdr(buf, OffStruct, GetHdr(buf, OffRsv));
    BehindKept(buf[..], OffStrings, bufsize, bufsize);
    SetHdr(buf, OffStrings, bufsize);
    if RSV_START <= bufsize {
      CreatedRep(buf[..], bufsize);
    }
    return 0;
  }

  lemma BehindKept(s: bytes, f: Field, v: u32, hi: nat)
    requires HEADER_SIZE <= hi <= |s|
    ensures Patch(s, FieldOffset(f), Cell(v))[HEADER_SIZE..hi] == s[HEADER_SIZE..hi]
  {
    hide Patch, Cell;
    PatchOutside(s, FieldOffset(f), Cell(v), HEADER_SIZE, hi);
  }

  lemma ZeroHdr(s: bytes, m: bytes, n: nat)
    requires HEADER_SIZE <= n <= |s| && m == Patch(s, 0, seq(n, _ => 0))
    ensures Hdr(m) == Header(0, 0, 0, 0, 0, 0, 0, 0, 0, 0)
    ensures m[HEADER_SIZE..n] == ZeroBytes(n - HEADER_SIZE)
  {
    hide Patch, Be32;
    PatchAt(s, 0, seq(n, _ => 0));
    assert m[0..n] == ZeroBytes(n);
    ZeroSplit(m, 0, HEADER_SIZE, n);
    ZeroCell(m, 0);
    ZeroCell(m, 4);
    ZeroCell(m, 8);
    ZeroCell(m, 12);
    ZeroCell(m, 16);
    ZeroCell(m, 20);
    ZeroCell(m, 24);
    ZeroCell(m, 28);
    ZeroCell(m, 32);
    ZeroCell(m, 36);
  }

  lemma ZeroCell(m: bytes, o: nat)
    requires HEADER_SIZE <= |m| && m[0..HEADER_SIZE] == ZeroBytes(HEADER_SIZE) && o + 4 <= HEADER_SIZE
    ensures Be32(m, o) == 0
  {
    assert forall i | 0 <= i < HEADER_SIZE :: m[i] == m[0..HEADER_SIZE][i];
  }

  lemma CreatedRep(s: bytes, n: nat)
    requires RSV_START <= n <= |s| && n < TWO31
    requires s[HEADER_SIZE..n] == ZeroBytes(n - HEADER_SIZE)
    requires Hdr(s) == Header(SW_MAGIC, n, RSV_START, n, RSV_START, LAST_VERSION, FIRST_VERSION, 0, 0, 0)
    ensures Rep(s, Sw(n, [], [], []))
  {
    hide Hdr;
    ZeroSplit(s, HEADER_SIZE, RSV_START, n);
  }

  /** fdt_add_reservemap_entry; fdt_finish_reservemap is the entry (0, 0). It does not look at the table of names: when
      that is in the way, 0 is returned too, and the last bytes of the entry stand where names were. */
  method AddReservemapEntry(fdt: array<byte>, address: u64, size: u64, ghost w: Sw) returns (err: int)
    requires HEADER_SIZE <= fdt.Length && (Hdr(fdt[..]).magic == SW_MAGIC ==> Rep(fdt[..], w))
    modifies fdt
    ensures old(Hdr(fdt[..])).magic != SW_MAGIC ==> err == BADMAGIC && fdt[..] == old(fdt[..])
    ensures old(Hdr(fdt[..])).magic == SW_MAGIC ==>
              && Legal(AddReserve(Entry(address, size))) && w.size < TWO31
              && var e := Entry(address, size);
              var o, a := Apply(w, AddReserve(e)), RSV_START + |w.rsv|;
              if o.err != OVERLAP then err == o.err && Rep(fdt[..], o.w)
              else
                && err == 0 && w.size - |w.tab| < a + RSV_SIZE <= w.size <= fdt.Length
                && fdt[..] == Patch(Patch(old(fdt[..]), a, EntryBytes(e)), FieldOffset(OffStruct), Cell(a + RSV_SIZE))
  {
    hide Hdr, Patch, Cell, Rep, Cell64;
    if GetHdr(fdt, Magic) != SW_MAGIC {
      return BADMAGIC;
    }
    RepBounds(fdt[..], w);
    if GetHdr(fdt, SizeStruct) != 0 {
      return BADSTATE;
    }
    var offset := GetHdr(fdt, OffStruct);
    if offset + RSV_SIZE > GetHdr(fdt, TotalSize) {
      return NOSPACE;
    }
    ghost var s := fdt[..];
    ghost var e := Entry(address, size);
    MemCpy(fdt, offset, Cell64(address));
    MemCpy(fdt, offset + 8, Cell64(size));
    PatchMore(s, offset, Cell64(address), Cell64(size));
    if !Collides(w) {
      RepReserve(s, w, EntryBytes(e));
    }
    SetHdr(fdt, OffStruct, offset + RSV_SIZE);
    return 0;
  }

  /** _fdt_grab_space: the structure offset of len free bytes, or -1 for NULL. */
  method GrabSpace(fdt: array<byte>, len: nat, ghost w: Sw) returns (offset: int)
    requires Rep(fdt[..], w)
    modifies fdt
    ensures if Used(w) + len > w.size then offset == -1 && fdt[..] == old(fdt[..])
            else offset == |w.stru| && Rep(fdt[..], w.(stru := w.stru + ZeroBytes(len)))
  {
    hide Hdr, Patch, Cell, Rep;
    RepBounds(fdt[..], w);
    offset := GetHdr(fdt, SizeStruct);
    var spaceleft := GetHdr(fdt, TotalSize) - GetHdr(fdt, OffStruct) - GetHdr(fdt, SizeStrings);
    if offset + len > spaceleft {
      return -1;
    }
    RepGrab(fdt[..], w, len);
    SetHdr(fdt, SizeStruct, offset + len);
  }

  /** Writes bytes of the structure. */
  method Write(fdt: array<byte>, o: nat, d: bytes, ghost w: Sw)
    requires Rep(fdt[..], w) && o + |d| <= |w.stru|
    modifies fdt
    ensures Rep(fdt[..], w.(stru := Patch(w.stru, o, d)))
  {
    hide Hdr, Patch, Rep;
    RepBounds(fdt[..], w);
    RepPatch(fdt[..], w, o, d);
    MemCpy(fdt, GetHdr(fdt, OffStruct) + o, d);
  }

  lemma TailPatch(st: bytes, gap: bytes, at: nat, d: bytes)
    requires at + |d| <= |gap|
    ensures Patch(st + gap, |st| + at, d) == st + Patch(gap, at, d)
  {
  }

  lemma BeginFill(st: bytes, name: bytes)
    ensures var z := ZeroBytes(BeginSize(name));
      && Patch(Patch(st + z, |st|, Cell(BEGIN_NODE)), |st| + 4, name + [0]) == st + FlatBegin(name, NamePad(name))
      && |FlatBegin(name, NamePad(name))| == BeginSize(name)
  {
    hide Cell;
    var z, c := ZeroBytes(BeginSize(name)), Cell(BEGIN_NODE);
    TailPatch(st, z, 0, c);
    TailPatch(st, Patch(z, 0, c), 4, name + [0]);
    assert Patch(Patch(z, 0, c), 4, name + [0]) == FlatBegin(name, NamePad(name));
  }

  /** fdt_begin_node. */
  method BeginNode(fdt: array<byte>, name: bytes, ghost w: Sw) returns (err: int)
    requires HEADER_SIZE <= fdt.Length && (Hdr(fdt[..]).magic == SW_MAGIC ==> Rep(fdt[..], w)) && 0 !in name
    modifies fdt
    ensures old(Hdr(fdt[..])).magic != SW_MAGIC ==> err == BADMAGIC && fdt[..] == old(fdt[..])
    ensures old(Hdr(fdt[..])).magic == SW_MAGIC ==>
              && Legal(Call.BeginNode(name)) && w.size < TWO31
              && var o := Apply(w, Call.BeginNode(name));
              err == o.err && Rep(fdt[..], o.w)
  {
    hide Hdr, Patch, Cell, Rep, FlatBegin, NamePad, ZeroBytes;
    if GetHdr(fdt, Magic) != SW_MAGIC {
      return BADMAGIC;
    }
    RepBounds(fdt[..], w);
    BeginFill(w.stru, name);
    var nh := GrabSpace(fdt, 4 + Align4(|name| + 1), w);
    if nh == -1 {
      return NOSPACE;
    }
    ghost var w1 := w.(stru := w.stru + ZeroBytes(BeginSize(name)));
    Write(fdt, nh, Cell(BEGIN_NODE), w1);
    ghost var w2 := w1.(stru := Patch(w1.stru, nh, Cell(BEGIN_NODE)));
    Write(fdt, nh + 4, name + [0], w2);
    return 0;
  }

  /** fdt_end_node. */
  method EndNode(fdt: array<byte>, ghost w: Sw) returns (err: int)
    requires HEADER_SIZE <= fdt.Length && (Hdr(fdt[..]).magic == SW_MAGIC ==> Rep(fdt[..], w))
    modifies fdt
    ensures old(Hdr(fdt[..])).magic != SW_MAGIC ==> err == BADMAGIC && fdt[..] == old(fdt[..])
    ensures old(Hdr(fdt[..])).magic == SW_MAGIC ==>
              && Legal(Call.EndNode) && w.size < TWO31
              && var o := Apply(w, Call.EndNode);
              err == o.err && Rep(fdt[..], o.w)
  {
    hide Hdr, Patch, Cell, Rep, ZeroBytes;
    if GetHdr(fdt, Magic) != SW_MAGIC {
      return BADMAGIC;
    }
    RepBounds(fdt[..], w);
    var en := GrabSpace(fdt, 4, w);
    if en == -1 {
      return NOSPACE;
    }
    CellFill(w.stru, END_NODE);
    Write(fdt, en, Cell(END_NODE), w.(stru := w.stru + ZeroBytes(4)));
    return 0;
  }

  lemma CellFill(st: bytes, v: u32)
    ensures Patch(st + ZeroBytes(4), |st|, Cell(v)) == st + Cell(v)
  {
    hide Cell;
    TailPatch(st, ZeroBytes(4), 0, Cell(v));
    assert Patch(ZeroBytes(4), 0, Cell(v)) == Cell(v);
  }

  lemma PropFill(st: bytes, nameoff: u32, val: bytes)
    requires |val| < TWO31
    ensures var z, q := ZeroBytes(12 + Align4(|val|)), |st|;
      && Patch(Patch(Patch(Patch(st + z, q, Cell(PROP)), q + 8, Cell(nameoff)), q + 4, Cell(|val|)), q + 12, val) ==
         st + FlatProp(nameoff, val, ValPad(val))
      && |FlatProp(nameoff, val, ValPad(val))| == 12 + Align4(|val|)
  {
    hide Cell, Align4;
    var z := ZeroBytes(12 + Align4(|val|));
    var z1 := Patch(z, 0, Cell(PROP));
    var z2 := Patch(z1, 8, Cell(nameoff));
    var z3 := Patch(z2, 4, Cell(|val|));
    TailPatch(st, z, 0, Cell(PROP));
    TailPatch(st, z1, 8, Cell(nameoff));
    TailPatch(st, z2, 4, Cell(|val|));
    TailPatch(st, z3, 12, val);
    assert z3 == Cell(PROP) + Cell(|val|) + Cell(nameoff) + z[12..];
    assert Patch(z3, 12, val) == FlatProp(nameoff, val, ValPad(val));
  }

  /** _fdt_find_add_string: a negative offset from the end of the buffer, or 0 if there is no room. */
  method FindAddName(fdt: array<byte>, s: bytes, ghost w: Sw) returns (offset: int)
    requires Rep(fdt[..], w) && |Share(w.tab, s).0| <= w.size
    modifies fdt
    ensures var (t, dist) := Share(w.tab, s);
      if Used(w.(tab := t)) > w.size then offset == 0 && fdt[..] == old(fdt[..])
      else offset == 0 - dist && Rep(fdt[..], w.(tab := t))
  {
    hide Hdr, Patch, Cell, Rep, Search, Share, Be32;
    RepBounds(fdt[..], w);
    ShareCases(w.tab, s);
    var strtab := GetHdr(fdt, TotalSize);
    var strtabsize := GetHdr(fdt, SizeStrings);
    offset := FindString(fdt, strtab - strtabsize, strtabsize, s);
    if offset != -1 {
      return offset - strtabsize;
    }
    offset := 0 - strtabsize - (|s| + 1);
    var structTop := GetHdr(fdt, OffStruct) + GetHdr(fdt, SizeStruct);
    Unsigned(strtab + offset);
    if (strtab + offset) % TWO32 < structTop {
      return 0;
    }
    RepTable(fdt[..], w, s + [0]);
    MemCpy(fdt, strtab + offset, s + [0]);
    SetHdr(fdt, SizeStrings, strtabsize + |s| + 1);
  }

  lemma ShareCases(tab: bytes, s: bytes)
    ensures Search(tab, s, 0) == -1 ==> Share(tab, s) == ((s + [0]) + tab, |tab| + |s| + 1)
    ensures Search(tab, s, 0) != -1 ==> Search(tab, s, 0) >= 0 && Share(tab, s) == (tab, |tab| - Search(tab, s, 0))
  {
    hide Search, Occurs;
  }

  lemma Unsigned(x: nat)
    requires x < TWO31
    ensures x % TWO32 == x
  {
  }

  /** fdt_property. */
  method Property(fdt: array<byte>, name: bytes, val: bytes, ghost w: Sw) returns (err: int)
    requires HEADER_SIZE <= fdt.Length && name != [] && 0 !in name && |val| < TWO31
    requires Hdr(fdt[..]).magic == SW_MAGIC ==> Rep(fdt[..], w) && |Share(w.tab, name).0| <= w.size
    modifies fdt
    ensures old(Hdr(fdt[..])).magic != SW_MAGIC ==> err == BADMAGIC && fdt[..] == old(fdt[..])
    ensures old(Hdr(fdt[..])).magic == SW_MAGIC ==>
              && Legal(Call.Property(name, val)) && w.size < TWO31
              && var o := Apply(w, Call.Property(name, val));
              err == o.err && Rep(fdt[..], o.w)
  {
    hide Hdr, Patch, Cell, Rep, FlatProp, ValPad, ZeroBytes, Share, Align4;
    if GetHdr(fdt, Magic) != SW_MAGIC {
      return BADMAGIC;
    }
    RepBounds(fdt[..], w);
    var nameoff := FindAddName(fdt, name, w);
    if nameoff == 0 {
      return NOSPACE;
    }
    ghost var w1 := w.(tab := Share(w.tab, name).0);
    PropFill(w.stru, Negative(Share(w.tab, name).1), val);
    var prop := GrabSpace(fdt, 12 + Align4(|val|), w1);
    if prop == -1 {
      return NOSPACE;
    }
    ghost var w2 := w1.(stru := w1.stru + ZeroBytes(12 + Align4(|val|)));
    Write(fdt, prop, Cell(PROP), w2);
    ghost var w3 := w2.(stru := Patch(w2.stru, prop, Cell(PROP)));
    Write(fdt, prop + 8, Cell(nameoff % TWO32), w3);
    ghost var w4 := w3.(stru := Patch(w3.stru, prop + 8, Cell(nameoff % TWO32)));
    Write(fdt, prop + 4, Cell(|val|), w4);
    ghost var w5 := w4.(stru := Patch(w4.stru, prop + 4, Cell(|val|)));
    Write(fdt, prop + 12, val, w5);
    return 0;
  }
}
