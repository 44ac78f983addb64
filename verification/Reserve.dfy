/** The memory reserve map (section 5.3 of the Devicetree Specification): 16-byte entries up to one of size 0. */
module Reserve {
  import opened Bytes
  import opened Memory
  import opened Blob
  import opened Structure
  import opened Trees
  import opened Rw

  type u64 = x: int | 0 <= x < 0x1_0000_0000_0000_0000

  datatype Entry = Entry(address: u64, size: u64)

  function Be64(s: bytes, o: nat): (v: u64)
    requires o + 8 <= |s|
  {
    var hi: int, lo: int := Be32(s, o), Be32(s, o + 4);
    hi * TWO32 + lo
  }

  function Cell64(v: u64): (c: bytes)
    ensures |c| == 8
  {
    Cell(v / TWO32) + Cell(v % TWO32)
  }

  lemma Be64At(s: bytes, o: nat, v: u64)
    requires o + 8 <= |s| && s[o..o + 8] == Cell64(v)
    ensures Be64(s, o) == v
  {
    hide Be32, Cell;
    assert s[o..o + 4] == s[o..o + 8][..4] == Cell(v / TWO32);
    assert s[o + 4..o + 8] == s[o..o + 8][4..] == Cell(v % TWO32);
    Be32At(s, o, v / TWO32);
    Be32At(s, o + 4, v % TWO32);
  }

  function EntryBytes(e: Entry): (d: bytes)
    ensures |d| == RSV_SIZE
  {
    Cell64(e.address) + Cell64(e.size)
  }

  function First(rsv: bytes): Entry
    requires |rsv| >= RSV_SIZE
  {
    Entry(Be64(rsv, 0), Be64(rsv, 8))
  }

  /** The map ends inside the reserve block. */
  predicate Ended(rsv: bytes) {
    |rsv| >= RSV_SIZE && (First(rsv).size == 0 || Ended(rsv[RSV_SIZE..]))
  }

  function Entries(rsv: bytes): (es: seq<Entry>)
    requires Ended(rsv)
    ensures RSV_SIZE * |es| + RSV_SIZE <= |rsv|
  {
    if First(rsv).size == 0 then [] else [First(rsv)] + Entries(rsv[RSV_SIZE..])
  }

  /** An entry reads back as stored, and reading one looks at its 16 bytes only. */
  lemma FirstIs(e: Entry, rest: bytes)
    ensures First(EntryBytes(e) + rest) == e
  {
    hide Be64, Cell64;
    var s := EntryBytes(e) + rest;
    assert s[0..8] == Cell64(e.address) && s[8..16] == Cell64(e.size);
    Be64At(s, 0, e.address);
    Be64At(s, 8, e.size);
  }

  lemma FirstKept(a: bytes, b: bytes)
    requires |a| >= RSV_SIZE && |b| >= RSV_SIZE && a[..RSV_SIZE] == b[..RSV_SIZE]
    ensures First(a) == First(b)
  {
    hide Word;
    assert forall i | 0 <= i < RSV_SIZE :: a[i] == a[..RSV_SIZE][i] == b[i];
  }

  /** The block with one more entry in front of its terminator. */
  function Added(rsv: bytes, e: Entry): bytes
    requires Ended(rsv)
  {
    Splice(rsv, RSV_SIZE * |Entries(rsv)|, 0, EntryBytes(e))
  }

  /** The block without its n-th entry. */
  function Dropped(rsv: bytes, n: nat): bytes
    requires RSV_SIZE * n + RSV_SIZE <= |rsv|
  {
    Splice(rsv, RSV_SIZE * n, RSV_SIZE, [])
  }

  lemma SpliceBehind(s: bytes, o: nat, len: nat, d: bytes)
    requires RSV_SIZE <= o && o + len <= |s|
    ensures var t := Splice(s, o, len, d);
      |t| >= RSV_SIZE && t[..RSV_SIZE] == s[..RSV_SIZE] && t[RSV_SIZE..] == Splice(s[RSV_SIZE..], o - RSV_SIZE, len, d)
  {
    assert s == [] + s[..RSV_SIZE] + s[RSV_SIZE..];
    SpliceLast(s[..RSV_SIZE], s[RSV_SIZE..], o - RSV_SIZE, len, d);
  }

  /** A new entry is the last; one of size 0 ends the map where it ended before. */
  lemma {:induction false} AddedEntries(rsv: bytes, e: Entry)
    requires Ended(rsv)
    ensures Ended(Added(rsv, e))
    ensures Entries(Added(rsv, e)) == Entries(rsv) + if e.size == 0 then [] else [e]
    decreases |rsv|
  {
    hide First, EntryBytes;
    if First(rsv).size == 0 {
      assert Added(rsv, e) == EntryBytes(e) + rsv;
      FirstIs(e, rsv);
      assert Added(rsv, e)[RSV_SIZE..] == rsv;
    } else {
      AddedEntries(rsv[RSV_SIZE..], e);
      SpliceBehind(rsv, RSV_SIZE * |Entries(rsv)|, 0, EntryBytes(e));
      FirstKept(rsv, Added(rsv, e));
    }
  }

  lemma {:induction false} DroppedEntries(rsv: bytes, n: nat)
    requires Ended(rsv) && n < |Entries(rsv)|
    ensures Ended(Dropped(rsv, n))
    ensures Entries(Dropped(rsv, n)) == Entries(rsv)[..n] + Entries(rsv)[n + 1..]
    decreases |rsv|
  {
    hide First;
    if n == 0 {
      assert Dropped(rsv, 0) == rsv[RSV_SIZE..];
    } else {
      DroppedEntries(rsv[RSV_SIZE..], n - 1);
      SpliceBehind(rsv, RSV_SIZE * n, RSV_SIZE, []);
      FirstKept(rsv, Dropped(rsv, n));
    }
  }

  /** Deleting the entry that was just added restores the block byte for byte. */
  lemma {:induction false} DropAdded(rsv: bytes, e: Entry)
    requires Ended(rsv) && e.size != 0
    ensures Ended(Added(rsv, e)) && |Entries(rsv)| < |Entries(Added(rsv, e))|
    ensures Dropped(Added(rsv, e), |Entries(rsv)|) == rsv
  {
    hide EntryBytes, Splice, Entries, Ended;
    AddedEntries(rsv, e);
    Unsplice(rsv, RSV_SIZE * |Entries(rsv)|, EntryBytes(e));
  }

  lemma Unsplice(s: bytes, o: nat, d: bytes)
    requires o <= |s|
    ensures Splice(Splice(s, o, 0, d), o, |d|, []) == s
  {
    var t := Splice(s, o, 0, d);
    assert t[..o] == s[..o] && t[o + |d|..] == s[o..];
    assert s[..o] + [] + s[o..] == s;
  }

  // ---------------------------------------------------------------------------
  // Reading and editing the map of a blob
  // ---------------------------------------------------------------------------

  function Get64(mem: array<byte>, o: nat): (v: u64)
    requires o + 8 <= mem.Length
    reads mem
    ensures v == Be64(mem[..], o)
  {
    var hi: int, lo: int := Get32(mem, o), Get32(mem, o + 4);
    hi * TWO32 + lo
  }

  /** The reserve block of the blob at address fdt starts with rsv. */
  ghost predicate RsvAt(mem: bytes, fdt: nat, rsv: bytes) {
    && fdt + HEADER_SIZE <= |mem|
    && var p := fdt + Hdr(mem[fdt..]).offRsv; p + |rsv| <= |mem| && mem[p..p + |rsv|] == rsv
  }

  lemma RsvOfView(s: bytes)
    requires Layout(s)
    ensures RsvAt(s, 0, View(s).rsv)
  {
    hide Hdr;
    assert s[0..] == s;
  }

  lemma RsvRead(mem: bytes, fdt: nat, rsv: bytes, o: nat)
    requires RsvAt(mem, fdt, rsv) && o + 8 <= |rsv|
    ensures var p := fdt + Hdr(mem[fdt..]).offRsv + o; p + 8 <= |mem| && Be64(mem, p) == Be64(rsv, o)
  {
    hide Hdr, Word;
  }

  lemma {:induction false} NextEntry(rsv: bytes)
    requires Ended(rsv)
    ensures |rsv| >= RSV_SIZE
    ensures if First(rsv).size == 0 then Entries(rsv) == []
            else Ended(rsv[RSV_SIZE..]) && |Entries(rsv)| == 1 + |Entries(rsv[RSV_SIZE..])|
  {
    hide First;
  }

  /** fdt_num_mem_rsv. */
  method NumMemRsv(mem: array<byte>, fdt: nat, ghost rsv: bytes) returns (n: nat)
    requires RsvAt(mem[..], fdt, rsv) && Ended(rsv)
    ensures n == |Entries(rsv)|
  {
    hide Hdr, Be32, Entries, Ended, Be64, First;
    ghost var rest := rsv;
    n := 0;
    var table := fdt + GetAt(mem, fdt, OffRsv);
    NextEntry(rest);
    SizeAt(mem[..], fdt, table, rsv, 0);
    assert rsv[0..] == rsv;
    while Get64(mem, table + RSV_SIZE * n + 8) != 0
      invariant RSV_SIZE * n + RSV_SIZE <= |rsv| && rest == rsv[RSV_SIZE * n..]
      invariant Ended(rest) && n + |Entries(rest)| == |Entries(rsv)|
      invariant table + RSV_SIZE * n + RSV_SIZE <= mem.Length && Be64(mem[..], table + RSV_SIZE * n + 8) == First(rest).size
      decreases |rest|
    {
      NextEntry(rest);
      assert rest[RSV_SIZE..] == rsv[RSV_SIZE * (n + 1)..];
      rest := rest[RSV_SIZE..];
      n := n + 1;
      NextEntry(rest);
      SizeAt(mem[..], fdt, table, rsv, n);
    }
    NextEntry(rest);
  }

  lemma SizeAt(mem: bytes, fdt: nat, table: nat, rsv: bytes, n: nat)
    requires RsvAt(mem, fdt, rsv) && table == fdt + Hdr(mem[fdt..]).offRsv && RSV_SIZE * n + RSV_SIZE <= |rsv|
    ensures table + RSV_SIZE * n + RSV_SIZE <= |mem|
    ensures Be64(mem, table + RSV_SIZE * n + 8) == First(rsv[RSV_SIZE * n..]).size
  {
    hide Hdr, Be64;
    RsvRead(mem, fdt, rsv, RSV_SIZE * n + 8);
    Be64Slice(rsv, RSV_SIZE * n, 8);
  }

  lemma Be64Slice(s: bytes, from: nat, o: nat)
    requires from + o + 8 <= |s|
    ensures Be64(s[from..], o) == Be64(s, from + o)
  {
    hide Word;
  }

  /** fdt_get_mem_rsv, for an entry of the map. */
  method GetMemRsv(fdt: array<byte>, n: nat) returns (err: int, address: u64, size: u64)
    requires Layout(fdt[..]) && Ended(View(fdt[..]).rsv)
    requires CheckErr(Hdr(fdt[..])) == 0 ==> n < |Entries(View(fdt[..]).rsv)|
    ensures err == CheckErr(Hdr(fdt[..]))
    ensures err == 0 ==> Entry(address, size) == Entries(View(fdt[..]).rsv)[n]
  {
    hide Hdr, View, Ordered, Be32, CheckErr, RsvAt, Ended, Entries, Be64;
    err := CheckHeader(fdt);
    address, size := 0, 0;
    if err == 0 {
      ghost var rsv := View(fdt[..]).rsv;
      EntryIs(rsv, n);
      RsvOfView(fdt[..]);
      assert fdt[0..] == fdt[..];
      RsvRead(fdt[..], 0, rsv, RSV_SIZE * n);
      RsvRead(fdt[..], 0, rsv, RSV_SIZE * n + 8);
      address := Get64(fdt, GetHdr(fdt, OffRsv) + RSV_SIZE * n);
      size := Get64(fdt, GetHdr(fdt, OffRsv) + RSV_SIZE * n + 8);
    }
  }

  lemma {:induction false} EntryIs(rsv: bytes, n: nat)
    requires Ended(rsv) && n < |Entries(rsv)|
    ensures RSV_SIZE * n + RSV_SIZE <= |rsv|
    ensures Entries(rsv)[n] == Entry(Be64(rsv, RSV_SIZE * n), Be64(rsv, RSV_SIZE * n + 8))
    decreases n
  {
    hide Be64;
    if n > 0 {
      EntryIs(rsv[RSV_SIZE..], n - 1);
      Be64Slice(rsv, RSV_SIZE, RSV_SIZE * (n - 1));
      Be64Slice(rsv, RSV_SIZE, RSV_SIZE * (n - 1) + 8);
    }
  }

  /** A blob whose reserve block became rsv, delta bytes longer, with everything else as it was. */
  ghost predicate Reserved(v: Parts, s: bytes, delta: int, top: Body, rsv: bytes) {
    && Encodes(s, top)
    && 0 <= v.hdr.offStruct + delta < TWO32 && 0 <= v.hdr.offStrings + delta < TWO32
    && View(s) == Parts(GrowRsv(V17(v.hdr), delta), rsv, v.stru, v.strs)
  }

  lemma {:induction false} ReservedIs(v: Parts, s0: bytes, s: bytes, delta: int, top: Body, rsv: bytes)
    requires Layout(s0) && Layout(s) && v.hdr.sizeStrings == |v.strs| < TWO32
    requires View(s0) == Checked(v, v.strs) && Encodes(s0, top)
    requires 0 <= v.hdr.offStruct + delta < TWO32 && 0 <= v.hdr.offStrings + delta < TWO32
    requires View(s) == Parts(GrowRsv(V17(v.hdr), delta), rsv, v.stru, v.strs)
    ensures Reserved(v, s, delta, top, rsv)
  {
    hide Hdr, Flat, Wf, Named;
  }

  /** Copies bytes into the reserve block. */
  method StoreRsv(fdt: array<byte>, q: nat, d: bytes)
    requires Layout(fdt[..]) && q + |d| <= |View(fdt[..]).rsv|
    modifies fdt
    ensures Layout(fdt[..])
    ensures View(fdt[..]) == old(View(fdt[..])).(rsv := Patch(old(View(fdt[..])).rsv, q, d))
  {
    hide Hdr, Patch;
    ViewPatchRsv(fdt[..], q, d);
    MemCpy(fdt, GetHdr(fdt, OffRsv) + q, d);
  }

  lemma FillEntry(rsv: bytes, q: nat, gap: bytes, e: Entry)
    requires q <= |rsv| && |gap| == RSV_SIZE
    ensures Patch(Patch(Splice(rsv, q, 0, gap), q, Cell64(e.address)), q + 8, Cell64(e.size)) == Splice(rsv, q, 0, EntryBytes(e))
  {
    hide Cell64;
    var a, z := rsv[..q], rsv[q..];
    assert Patch(Splice(rsv, q, 0, gap), q, Cell64(e.address)) == a + Cell64(e.address) + (gap[8..] + z);
  }

  /** fdt_add_mem_rsv. The tree and every structure offset stay as they are: the same top is encoded. */
  method AddMemRsv(fdt: array<byte>, address: u64, size: u64, ghost top: Body) returns (err: int)
    requires Editable(fdt[..], top)
    requires RwErr(Hdr(fdt[..])) == 0 ==> Ended(View(fdt[..]).rsv)
    modifies fdt
    ensures RwErr(old(Hdr(fdt[..]))) != 0 ==> err == RwErr(old(Hdr(fdt[..]))) && fdt[..] == old(fdt[..])
    ensures RwErr(old(Hdr(fdt[..]))) == 0 ==>
              var v, e := old(View(fdt[..])), Entry(address, size);
              if RSV_SIZE > Slack(v.hdr) then err == NOSPACE && Kept(v, fdt[..], top, top)
              else
                && err == 0 && Reserved(v, fdt[..], RSV_SIZE, top, Added(v.rsv, e))
                && Ended(View(fdt[..]).rsv)
                && Entries(View(fdt[..]).rsv) == Entries(v.rsv) + if size == 0 then [] else [e]
  {
    hide Hdr, Encodes, Flat, Wf, Named, RwErr, Grown, Ordered, View, Entries, Ended, EntryBytes, Cell64, Patch, Splice;
    err := RwCheckHeader(fdt, top);
    if err != 0 {
      return;
    }
    ghost var s := fdt[..];
    EncodesReady(s, top);
    HeaderKept(old(fdt[..]), s, top);
    ghost var v := old(View(fdt[..]));
    RsvOfView(s);
    var n := NumMemRsv(fdt, 0, v.rsv);
    Roomy(s);
    err := SpliceRsv(fdt, RSV_SIZE * n, 0, 1);
    if err != 0 {
      return;
    }
    ghost var gap := s[Hdr(s).offRsv + RSV_SIZE * n..Hdr(s).offRsv + RSV_SIZE * n + RSV_SIZE];
    StoreRsv(fdt, RSV_SIZE * n, Cell64(address));
    StoreRsv(fdt, RSV_SIZE * n + 8, Cell64(size));
    FillEntry(v.rsv, RSV_SIZE * n, gap, Entry(address, size));
    AddedEntries(v.rsv, Entry(address, size));
    ReservedIs(v, s, fdt[..], RSV_SIZE, top, Added(v.rsv, Entry(address, size)));
  }

  /** fdt_del_mem_rsv. */
  method DelMemRsv(fdt: array<byte>, n: nat, ghost top: Body) returns (err: int)
    requires Editable(fdt[..], top)
    requires RwErr(Hdr(fdt[..])) == 0 ==> Ended(View(fdt[..]).rsv)
    modifies fdt
    ensures RwErr(old(Hdr(fdt[..]))) != 0 ==> err == RwErr(old(Hdr(fdt[..]))) && fdt[..] == old(fdt[..])
    ensures RwErr(old(Hdr(fdt[..]))) == 0 ==>
              var v := old(View(fdt[..]));
              var es := Entries(v.rsv);
              if n >= |es| then err == NOTFOUND && Kept(v, fdt[..], top, top)
              else
                && err == 0 && Reserved(v, fdt[..], 0 - RSV_SIZE, top, Dropped(v.rsv, n))
                && Ended(View(fdt[..]).rsv)
                && Entries(View(fdt[..]).rsv) == es[..n] + es[n + 1..]
  {
    hide Hdr, Encodes, Flat, Wf, Named, RwErr, Grown, Ordered, View, Entries, Ended, Patch, Splice;
    err := RwCheckHeader(fdt, top);
    if err != 0 {
      return;
    }
    ghost var s := fdt[..];
    EncodesReady(s, top);
    HeaderKept(old(fdt[..]), s, top);
    ghost var v := old(View(fdt[..]));
    RsvOfView(s);
    var num := NumMemRsv(fdt, 0, v.rsv);
    if n >= num {
      return NOTFOUND;
    }
    Roomy(s);
    err := SpliceRsv(fdt, RSV_SIZE * n, 1, 0);
    assert s[Hdr(s).offRsv + RSV_SIZE * n..Hdr(s).offRsv + RSV_SIZE * n + 0] == [];
    DroppedEntries(v.rsv, n);
    ReservedIs(v, s, fdt[..], 0 - RSV_SIZE, top, Dropped(v.rsv, n));
  }
}
