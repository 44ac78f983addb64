/** The header and the three blocks of a device tree blob (sections 5.2 to 5.5 of the
    Devicetree Specification), and the splices that move the blocks about in place. */
module Blob {
  import opened Bytes
  import opened Memory

  const NOTFOUND := -1
  const EXISTS := -2
  const NOSPACE := -3
  const BADOFFSET := -4
  const BADPATH := -5
  const BADPHANDLE := -6
  const BADSTATE := -7
  const TRUNCATED := -8
  const BADMAGIC := -9
  const BADVERSION := -10
  const BADSTRUCTURE := -11
  const BADLAYOUT := -12
  const INTERNAL := -13

  const MAGIC: u32 := 0xd00d_feed
  const SW_MAGIC: u32 := 0x2ff2_0112
  const FIRST_VERSION: u32 := 0x10
  const LAST_VERSION: u32 := 0x11

  const HEADER_SIZE := 40
  const RSV_SIZE := 16

  datatype Header = Header(magic: u32, totalsize: u32, offStruct: u32, offStrings: u32, offRsv: u32,
                           version: u32, lastComp: u32, bootCpu: u32, sizeStrings: u32, sizeStruct: u32)

  datatype Field = Magic | TotalSize | OffStruct | OffStrings | OffRsv
                 | Version | LastComp | BootCpu | SizeStrings | SizeStruct

  function FieldOffset(f: Field): (o: nat)
    ensures o % 4 == 0 && o + 4 <= HEADER_SIZE
  {
    match f
    case Magic => 0
    case TotalSize => 4
    case OffStruct => 8
    case OffStrings => 12
    case OffRsv => 16
    case Version => 20
    case LastComp => 24
    case BootCpu => 28
    case SizeStrings => 32
    case SizeStruct => 36
  }

  function Get(h: Header, f: Field): u32 {
    match f
    case Magic => h.magic
    case TotalSize => h.totalsize
    case OffStruct => h.offStruct
    case OffStrings => h.offStrings
    case OffRsv => h.offRsv
    case Version => h.version
    case LastComp => h.lastComp
    case BootCpu => h.bootCpu
    case SizeStrings => h.sizeStrings
    case SizeStruct => h.sizeStruct
  }

  function With(h: Header, f: Field, v: u32): Header {
    match f
    case Magic => h.(magic := v)
    case TotalSize => h.(totalsize := v)
    case OffStruct => h.(offStruct := v)
    case OffStrings => h.(offStrings := v)
    case OffRsv => h.(offRsv := v)
    case Version => h.(version := v)
    case LastComp => h.(lastComp := v)
    case BootCpu => h.(bootCpu := v)
    case SizeStrings => h.(sizeStrings := v)
    case SizeStruct => h.(sizeStruct := v)
  }

  /** The header stored in the first 40 bytes. */
  function Hdr(s: bytes): Header
    requires |s| >= HEADER_SIZE
  {
    Header(Be32(s, 0), Be32(s, 4), Be32(s, 8), Be32(s, 12), Be32(s, 16),
           Be32(s, 20), Be32(s, 24), Be32(s, 28), Be32(s, 32), Be32(s, 36))
  }

  lemma HdrField(s: bytes, f: Field)
    requires |s| >= HEADER_SIZE
    ensures Be32(s, FieldOffset(f)) == Get(Hdr(s), f)
  {
  }

  lemma Be32Patch(s: bytes, o: nat, v: u32, at: nat)
    requires o + 4 <= |s| && at + 4 <= |s|
    requires at == o || at + 4 <= o || o + 4 <= at
    ensures Be32(Patch(s, o, Cell(v)), at) == if at == o then v else Be32(s, at)
  {
    hide Cell, Word;
    var t := Patch(s, o, Cell(v));
    if at == o {
      PatchAt(s, o, Cell(v));
      Be32At(t, o, v);
    } else {
      assert t[at] == s[at] && t[at + 1] == s[at + 1] && t[at + 2] == s[at + 2] && t[at + 3] == s[at + 3];
    }
  }

  /** Storing a header field changes that field of the header and no other. */
  lemma HdrPatch(s: bytes, f: Field, v: u32)
    requires |s| >= HEADER_SIZE
    ensures Hdr(Patch(s, FieldOffset(f), Cell(v))) == With(Hdr(s), f, v)
  {
    var o := FieldOffset(f);
    forall at | at in {0, 4, 8, 12, 16, 20, 24, 28, 32, 36}
      ensures Be32(Patch(s, o, Cell(v)), at) == if at == o then v else Be32(s, at)
    {
      Be32Patch(s, o, v, at);
    }
  }

  /** A patch beyond the header leaves it alone. */
  lemma HdrKept(s: bytes, o: nat, d: bytes)
    requires HEADER_SIZE <= o && o + |d| <= |s|
    ensures Hdr(Patch(s, o, d)) == Hdr(s)
  {
    var t := Patch(s, o, d);
    assert forall i :: 0 <= i < HEADER_SIZE ==> t[i] == s[i];
  }

  method SetHdr(fdt: array<byte>, f: Field, v: u32)
    requires fdt.Length >= HEADER_SIZE
    modifies fdt
    ensures fdt[..] == Patch(old(fdt[..]), FieldOffset(f), Cell(v))
    ensures Hdr(fdt[..]) == With(old(Hdr(fdt[..])), f, v)
  {
    HdrPatch(fdt[..], f, v);
    Put32(fdt, FieldOffset(f), v);
  }

  function GetHdr(fdt: array<byte>, f: Field): (v: u32)
    requires fdt.Length >= HEADER_SIZE
    reads fdt
    ensures v == Get(Hdr(fdt[..]), f)
  {
    HdrField(fdt[..], f);
    Get32(fdt, FieldOffset(f))
  }

  /** fdt_check_header: magic and version of a complete tree, or an unfinished one that has contents. */
  function CheckErr(h: Header): int {
    if h.magic == MAGIC then (if h.version < FIRST_VERSION || h.lastComp > LAST_VERSION then BADVERSION else 0)
    else if h.magic == SW_MAGIC then (if h.sizeStruct == 0 then BADSTATE else 0)
    else BADMAGIC
  }

  /** Header field of the blob at address fdt. */
  function GetAt(mem: array<byte>, fdt: nat, f: Field): (v: u32)
    requires fdt + HEADER_SIZE <= mem.Length
    reads mem
    ensures v == Get(Hdr(mem[fdt..]), f)
  {
    HdrField(mem[fdt..], f);
    Get32(mem, fdt + FieldOffset(f))
  }

  method CheckHeaderAt(mem: array<byte>, fdt: nat) returns (err: int)
    requires fdt + HEADER_SIZE <= mem.Length
    ensures err == CheckErr(Hdr(mem[fdt..]))
    ensures var h := Hdr(mem[fdt..]);
      err == 0 <==>
      (h.magic == 0xd00dfeed && 16 <= h.version && h.lastComp <= 17) || (h.magic == 0x2ff20112 && h.sizeStruct != 0)
  {
    hide Hdr;
    if GetAt(mem, fdt, Magic) == MAGIC {
      if GetAt(mem, fdt, Version) < FIRST_VERSION {
        return BADVERSION;
      }
      if GetAt(mem, fdt, LastComp) > LAST_VERSION {
        return BADVERSION;
      }
    } else if GetAt(mem, fdt, Magic) == SW_MAGIC {
      if GetAt(mem, fdt, SizeStruct) == 0 {
        return BADSTATE;
      }
    } else {
      return BADMAGIC;
    }
    return 0;
  }

  method CheckHeader(fdt: array<byte>) returns (err: int)
    requires fdt.Length >= HEADER_SIZE
    ensures err == CheckErr(Hdr(fdt[..]))
  {
    assert fdt[0..] == fdt[..];
    err := CheckHeaderAt(fdt, 0);
  }

  // ---------------------------------------------------------------------------
  // Layout
  // ---------------------------------------------------------------------------

  /** Header, reserve map, structure block and strings block, in that order and inside size bytes. */
  predicate Ordered(h: Header, size: nat) {
    && HEADER_SIZE <= h.offRsv
    && h.offRsv + RSV_SIZE <= h.offStruct
    && h.offStruct + h.sizeStruct <= h.offStrings
    && h.offStrings + h.sizeStrings <= h.totalsize <= size
    && h.totalsize < TWO31
  }

  predicate Layout(s: bytes) {
    |s| >= HEADER_SIZE && Ordered(Hdr(s), |s|)
  }

  /** What a blob holds: its header and its blocks. The reserve block runs up to the structure block. */
  datatype Parts = Parts(hdr: Header, rsv: bytes, stru: bytes, strs: bytes)

  function Blocks(s: bytes, h: Header): (p: Parts)
    requires Ordered(h, |s|)
  {
    Parts(h, s[h.offRsv..h.offStruct], s[h.offStruct..h.offStruct + h.sizeStruct],
          s[h.offStrings..h.offStrings + h.sizeStrings])
  }

  function View(s: bytes): (p: Parts)
    requires Layout(s)
    ensures p.hdr == Hdr(s)
    ensures |p.rsv| == p.hdr.offStruct - p.hdr.offRsv
    ensures |p.stru| == p.hdr.sizeStruct && |p.strs| == p.hdr.sizeStrings
  {
    Blocks(s, Hdr(s))
  }

  /** The three blocks, of r, z and t bytes, stand one behind the other from offset o on. */
  predicate Adjacent(h: Header, o: nat, r: nat, z: nat, t: nat) {
    h.offRsv == o && h.offStruct == o + r && h.offStrings == o + r + z && h.sizeStruct == z && h.sizeStrings == t
  }

  /** What the header of a complete blob says besides. */
  predicate Complete(h: Header) {
    h.magic == 0xd00dfeed && h.version == 17 && h.lastComp == 16
  }

  /** End of the strings block, the last byte in use. */
  function DataSize(h: Header): int {
    h.offStrings + h.sizeStrings
  }

  /** Free bytes behind the strings block. */
  function Slack(h: Header): int {
    h.totalsize - DataSize(h)
  }

  /** Storing a header field changes no block. */
  lemma BlocksKept(s: bytes, f: Field, v: u32, h: Header)
    requires Ordered(h, |s|)
    ensures Blocks(Patch(s, FieldOffset(f), Cell(v)), h) == Blocks(s, h)
  {
    hide Hdr;
    var o, d := FieldOffset(f), Cell(v);
    PatchOutside(s, o, d, h.offRsv, h.offStruct);
    PatchOutside(s, o, d, h.offStruct, h.offStruct + h.sizeStruct);
    PatchOutside(s, o, d, h.offStrings, h.offStrings + h.sizeStrings);
  }

  /** Writing inside the structure block patches it and nothing else. */
  lemma ViewPatchStruct(s: bytes, q: nat, d: bytes)
    requires Layout(s) && q + |d| <= Hdr(s).sizeStruct
    ensures var t := Patch(s, Hdr(s).offStruct + q, d);
      Layout(t) && View(t) == View(s).(stru := Patch(View(s).stru, q, d))
  {
    hide Hdr;
    var h := Hdr(s);
    var o := h.offStruct + q;
    HdrKept(s, o, d);
    PatchOutside(s, o, d, h.offRsv, h.offStruct);
    PatchInside(s, o, d, h.offStruct, h.offStruct + h.sizeStruct);
    PatchOutside(s, o, d, h.offStrings, h.offStrings + h.sizeStrings);
  }

  /** Writing inside the strings block patches it and nothing else. */
  lemma ViewPatchStrings(s: bytes, q: nat, d: bytes)
    requires Layout(s) && q + |d| <= Hdr(s).sizeStrings
    ensures var t := Patch(s, Hdr(s).offStrings + q, d);
      Layout(t) && View(t) == View(s).(strs := Patch(View(s).strs, q, d))
  {
    hide Hdr;
    var h := Hdr(s);
    var o := h.offStrings + q;
    HdrKept(s, o, d);
    PatchOutside(s, o, d, h.offRsv, h.offStruct);
    PatchOutside(s, o, d, h.offStruct, h.offStruct + h.sizeStruct);
    PatchInside(s, o, d, h.offStrings, h.offStrings + h.sizeStrings);
  }

  /** Writing inside the reserve block patches it and nothing else. */
  lemma ViewPatchRsv(s: bytes, q: nat, d: bytes)
    requires Layout(s) && q + |d| <= Hdr(s).offStruct - Hdr(s).offRsv
    ensures var t := Patch(s, Hdr(s).offRsv + q, d);
      Layout(t) && View(t) == View(s).(rsv := Patch(View(s).rsv, q, d))
  {
    hide Hdr;
    var h := Hdr(s);
    var o := h.offRsv + q;
    HdrKept(s, o, d);
    PatchInside(s, o, d, h.offRsv, h.offStruct);
    PatchOutside(s, o, d, h.offStruct, h.offStruct + h.sizeStruct);
    PatchOutside(s, o, d, h.offStrings, h.offStrings + h.sizeStrings);
  }

  // ---------------------------------------------------------------------------
  // Splices
  // ---------------------------------------------------------------------------

  /** Opens or closes a gap at p: everything from p + oldlen to the end of the data moves to p + newlen. */
  method SpliceRaw(fdt: array<byte>, p: nat, oldlen: nat, newlen: nat) returns (err: int)
    requires Layout(fdt[..])
    requires HEADER_SIZE <= p
    modifies fdt
    ensures var s, h := old(fdt[..]), Hdr(old(fdt[..]));
      if p + oldlen > DataSize(h) then err == BADOFFSET && fdt[..] == s
      else if newlen - oldlen > Slack(h) then err == NOSPACE && fdt[..] == s
      else err == 0 && fdt[..] == Shift(s, p, oldlen, newlen, DataSize(h))
  {
    hide Hdr, Be32;
    var end := GetHdr(fdt, OffStrings) + GetHdr(fdt, SizeStrings);
    if p + oldlen > end {
      return BADOFFSET;
    }
    if end - oldlen + newlen > GetHdr(fdt, TotalSize) {
      return NOSPACE;
    }
    MemMove(fdt, p + newlen, p + oldlen, end - p - oldlen);
    return 0;
  }

  /** Header after the structure block grew by delta. */
  function GrowStruct(h: Header, delta: int): Header
    requires 0 <= h.sizeStruct + delta < TWO32 && 0 <= h.offStrings + delta < TWO32
  {
    h.(sizeStruct := h.sizeStruct + delta, offStrings := h.offStrings + delta)
  }

  function GrowRsv(h: Header, delta: int): Header
    requires 0 <= h.offStruct + delta < TWO32 && 0 <= h.offStrings + delta < TWO32
  {
    h.(offStruct := h.offStruct + delta, offStrings := h.offStrings + delta)
  }

  /** Storing two header fields turns the blocks a header describes into the view of the blob. */
  lemma Relabelled(s: bytes, f: Field, v: u32, g: Field, w: u32)
    requires |s| >= HEADER_SIZE
    requires Ordered(With(With(Hdr(s), f, v), g, w), |s|)
    ensures var t := Patch(Patch(s, FieldOffset(f), Cell(v)), FieldOffset(g), Cell(w));
      Layout(t) && View(t) == Blocks(s, With(With(Hdr(s), f, v), g, w))
  {
    hide Hdr;
    var h := With(With(Hdr(s), f, v), g, w);
    var s1 := Patch(s, FieldOffset(f), Cell(v));
    HdrPatch(s, f, v);
    HdrPatch(s1, g, w);
    BlocksKept(s, f, v, h);
    BlocksKept(s1, g, w, h);
  }

  /** Adjusts two header fields after a move. */
  method Relabel(fdt: array<byte>, f: Field, v: u32, g: Field, w: u32)
    requires fdt.Length >= HEADER_SIZE
    requires Ordered(With(With(Hdr(fdt[..]), f, v), g, w), fdt.Length)
    modifies fdt
    ensures Layout(fdt[..])
    ensures View(fdt[..]) == Blocks(old(fdt[..]), With(With(old(Hdr(fdt[..])), f, v), g, w))
  {
    hide Hdr, Blocks, Patch, Ordered;
    Relabelled(fdt[..], f, v, g, w);
    SetHdr(fdt, f, v);
    SetHdr(fdt, g, w);
  }

  lemma ShiftKeepsHdr(s: bytes, p: nat, oldlen: nat, newlen: nat, end: nat)
    requires p + oldlen <= end <= |s| && end - oldlen + newlen <= |s|
    requires HEADER_SIZE <= p
    ensures Hdr(Shift(s, p, oldlen, newlen, end)) == Hdr(s)
  {
    hide Hdr;
    HdrKept(s, p + newlen, s[p + oldlen..end]);
  }

  lemma MoveStruct(s: bytes, q: nat, oldlen: nat, newlen: nat)
    requires Layout(s)
    requires q + oldlen <= Hdr(s).sizeStruct
    requires newlen - oldlen <= Slack(Hdr(s))
    ensures var h := Hdr(s);
      var p := h.offStruct + q;
      var h' := GrowStruct(h, newlen - oldlen);
      var t := Shift(s, p, oldlen, newlen, DataSize(h));
      && Hdr(t) == h
      && Ordered(h', |t|)
      && Blocks(t, h') == Parts(h', View(s).rsv, Splice(View(s).stru, q, oldlen, s[p..p + newlen]), View(s).strs)
  {
    hide Hdr, Shift, Splice, Patch;
    var h := Hdr(s);
    var p := h.offStruct + q;
    var end := DataSize(h);
    ShiftKeepsHdr(s, p, oldlen, newlen, end);
    ShiftBefore(s, p, oldlen, newlen, end, h.offRsv, h.offStruct);
    ShiftAround(s, p, oldlen, newlen, end, h.offStruct, h.offStruct + h.sizeStruct);
    ShiftBehind(s, p, oldlen, newlen, end, h.offStrings, end);
  }

  /** The structure block with oldlen bytes at q replaced by a gap of newlen bytes (whose contents are
      the bytes that were there); fails exactly when the growth exceeds the slack. */
  method SpliceStruct(fdt: array<byte>, q: nat, oldlen: nat, newlen: nat) returns (err: int)
    requires Layout(fdt[..])
    requires q + oldlen <= Hdr(fdt[..]).sizeStruct
    modifies fdt
    ensures var s, h := old(fdt[..]), Hdr(old(fdt[..]));
      if newlen - oldlen > Slack(h) then err == NOSPACE && fdt[..] == s
      else
        && err == 0
        && Layout(fdt[..])
        && View(fdt[..]) == Parts(GrowStruct(h, newlen - oldlen), View(s).rsv,
                                  Splice(View(s).stru, q, oldlen, s[h.offStruct + q..h.offStruct + q + newlen]), View(s).strs)
  {
    hide Hdr, Blocks, Patch, Splice, Shift;
    ghost var s := fdt[..];
    var delta := newlen - oldlen;
    err := SpliceRaw(fdt, GetHdr(fdt, OffStruct) + q, oldlen, newlen);
    if err != 0 {
      return;
    }
    MoveStruct(s, q, oldlen, newlen);
    Relabel(fdt, SizeStruct, GetHdr(fdt, SizeStruct) + delta, OffStrings, GetHdr(fdt, OffStrings) + delta);
  }

  lemma MoveRsv(s: bytes, q: nat, oldlen: nat, newlen: nat)
    requires Layout(s)
    requires q + oldlen <= Hdr(s).offStruct - Hdr(s).offRsv
    requires newlen - oldlen <= Slack(Hdr(s))
    requires Hdr(s).offStruct - Hdr(s).offRsv + newlen - oldlen >= RSV_SIZE
    ensures var h := Hdr(s);
      var p := h.offRsv + q;
      var h' := GrowRsv(h, newlen - oldlen);
      var t := Shift(s, p, oldlen, newlen, DataSize(h));
      && Hdr(t) == h
      && Ordered(h', |t|)
      && Blocks(t, h') == Parts(h', Splice(View(s).rsv, q, oldlen, s[p..p + newlen]), View(s).stru, View(s).strs)
  {
    hide Hdr, Shift, Splice, Patch;
    var h := Hdr(s);
    var p := h.offRsv + q;
    var end := DataSize(h);
    ShiftKeepsHdr(s, p, oldlen, newlen, end);
    ShiftAround(s, p, oldlen, newlen, end, h.offRsv, h.offStruct);
    ShiftBehind(s, p, oldlen, newlen, end, h.offStruct, h.offStruct + h.sizeStruct);
    ShiftBehind(s, p, oldlen, newlen, end, h.offStrings, end);
  }

  /** The same for the reserve block, where lengths count entries of 16 bytes. */
  method SpliceRsv(fdt: array<byte>, q: nat, oldn: nat, newn: nat) returns (err: int)
    requires Layout(fdt[..])
    requires q + 16 * oldn <= Hdr(fdt[..]).offStruct - Hdr(fdt[..]).offRsv
    requires Hdr(fdt[..]).offStruct - Hdr(fdt[..]).offRsv + 16 * newn - 16 * oldn >= RSV_SIZE
    modifies fdt
    ensures var s, h, delta := old(fdt[..]), Hdr(old(fdt[..])), 16 * newn - 16 * oldn;
      if delta > Slack(h) then err == NOSPACE && fdt[..] == s
      else
        && err == 0
        && Layout(fdt[..])
        && View(fdt[..]) == Parts(GrowRsv(h, delta),
                                  Splice(View(s).rsv, q, 16 * oldn, s[h.offRsv + q..h.offRsv + q + 16 * newn]),
                                  View(s).stru, View(s).strs)
  {
    hide Hdr, Blocks, Patch, Splice, Shift, Be32;
    ghost var s := fdt[..];
    var delta := 16 * newn - 16 * oldn;
    err := SpliceRaw(fdt, GetHdr(fdt, OffRsv) + q, 16 * oldn, 16 * newn);
    if err != 0 {
      return;
    }
    MoveRsv(s, q, 16 * oldn, 16 * newn);
    Relabel(fdt, OffStruct, GetHdr(fdt, OffStruct) + delta, OffStrings, GetHdr(fdt, OffStrings) + delta);
  }

  lemma MoveString(s: bytes, newlen: nat)
    requires Layout(s)
    requires newlen <= Slack(Hdr(s))
    ensures var h := Hdr(s);
      var h' := h.(sizeStrings := h.sizeStrings + newlen);
      var t := Shift(s, DataSize(h), 0, newlen, DataSize(h));
      && t == s
      && Ordered(h', |s|)
      && Blocks(s, h') == View(s).(hdr := h', strs := View(s).strs + s[DataSize(h)..DataSize(h) + newlen])
  {
    hide Hdr;
  }

  /** Opens a gap of newlen bytes behind the last string. */
  method SpliceString(fdt: array<byte>, newlen: nat) returns (err: int)
    requires Layout(fdt[..])
    modifies fdt
    ensures var s, h := old(fdt[..]), Hdr(old(fdt[..]));
      if newlen > Slack(h) then err == NOSPACE && fdt[..] == s
      else
        && err == 0
        && Layout(fdt[..])
        && View(fdt[..]) == View(s).(hdr := h.(sizeStrings := h.sizeStrings + newlen),
                                     strs := View(s).strs + s[DataSize(h)..DataSize(h) + newlen])
  {
    hide Hdr, Blocks, Patch, Splice, Shift;
    ghost var s := fdt[..];
    err := SpliceRaw(fdt, GetHdr(fdt, OffStrings) + GetHdr(fdt, SizeStrings), 0, newlen);
    if err != 0 {
      return;
    }
    MoveString(s, newlen);
    HdrPatch(s, SizeStrings, Hdr(s).sizeStrings + newlen);
    BlocksKept(s, SizeStrings, Hdr(s).sizeStrings + newlen, Hdr(s).(sizeStrings := Hdr(s).sizeStrings + newlen));
    SetHdr(fdt, SizeStrings, GetHdr(fdt, SizeStrings) + newlen);
  }
}
