/** The format with its numbers written out (sections 5.2 to 5.5 of the Devicetree Specification): which headers are
    accepted, how tags and reserve entries are read, and one whole blob, byte for byte. */
module Formats {
  import opened Bytes
  import opened Blob
  import opened Structure
  import opened Trees
  import opened Rw
  import opened Reserve
  import opened Packing
  import opened Opening

  /** Four bytes as a number, the first one most significant. */
  function Number(s: bytes, o: nat): int
    requires o + 4 <= |s|
  {
    var a: int, b: int, c: int, d: int := s[o], s[o + 1], s[o + 2], s[o + 3];
    16777216 * a + 65536 * b + 256 * c + d
  }

  lemma Be32Number(s: bytes, o: nat)
    requires o + 4 <= |s|
    ensures Be32(s, o) == Number(s, o)
  {
  }

  /** The error codes of libfdt.h, negated. */
  lemma ErrorNumbers()
    ensures NOTFOUND == -1 && EXISTS == -2 && NOSPACE == -3 && BADOFFSET == -4 && BADPATH == -5 && BADPHANDLE == -6
    ensures BADSTATE == -7 && TRUNCATED == -8 && BADMAGIC == -9 && BADVERSION == -10 && BADSTRUCTURE == -11
    ensures BADLAYOUT == -12 && INTERNAL == -13
  {
  }

  // ---------------------------------------------------------------------------
  // Headers
  // ---------------------------------------------------------------------------

  /** Where the header fields stand. */
  lemma HeaderBytes(s: bytes)
    requires |s| >= 40
    ensures Hdr(s) == Header(Number(s, 0), Number(s, 4), Number(s, 8), Number(s, 12), Number(s, 16),
                             Number(s, 20), Number(s, 24), Number(s, 28), Number(s, 32), Number(s, 36))
  {
    hide Number, Be32;
    Be32Number(s, 0);
    Be32Number(s, 4);
    Be32Number(s, 8);
    Be32Number(s, 12);
    Be32Number(s, 16);
    Be32Number(s, 20);
    Be32Number(s, 24);
    Be32Number(s, 28);
    Be32Number(s, 32);
    Be32Number(s, 36);
  }

  /** The headers that fdt_check_header accepts, and the errors for the others. */
  lemma HeaderAccepted(h: Header)
    ensures CheckErr(h) == 0 <==>
      (h.magic == 0xd00dfeed && 16 <= h.version && h.lastComp <= 17) || (h.magic == 0x2ff20112 && h.sizeStruct != 0)
    ensures CheckErr(h) == -10 <==> h.magic == 0xd00dfeed && (h.version < 16 || 17 < h.lastComp)
    ensures CheckErr(h) == -7 <==> h.magic == 0x2ff20112 && h.sizeStruct == 0
    ensures CheckErr(h) == -9 <==> h.magic != 0xd00dfeed && h.magic != 0x2ff20112
  {
  }

  /** The headers that edits accept: version 17, and the blocks in order by sums of 32 bits. */
  lemma EditsAccepted(h: Header)
    ensures CheckErr(h) != 0 ==> RwErr(h) == CheckErr(h)
    ensures CheckErr(h) == 0 ==>
      && (RwErr(h) == 0 <==>
            && 17 <= h.version && 40 <= h.offRsv
            && (h.offRsv + 16) % 0x100000000 <= h.offStruct
            && (h.offStruct + h.sizeStruct) % 0x100000000 <= h.offStrings
            && (h.offStrings + h.sizeStrings) % 0x100000000 <= h.totalsize)
      && (RwErr(h) == -10 <==> h.version < 17) && (RwErr(h) == 0 || RwErr(h) == -10 || RwErr(h) == -12)
  {
  }

  // ---------------------------------------------------------------------------
  // Tags
  // ---------------------------------------------------------------------------

  lemma TagWord(st: bytes, o: nat, t: byte)
    requires o + 4 <= |st| && st[o..o + 4] == [0, 0, 0, t]
    ensures Be32(st, o) == t
  {
    var d := st[o..o + 4];
    assert st[o] == d[0] && st[o + 1] == d[1] && st[o + 2] == d[2] && st[o + 3] == d[3];
  }

  /** 0, 0, 0, 1 and a string: a node begins. */
  lemma NodeTag(st: bytes, o: nat, name: bytes)
    requires |st| < 0x80000000 && o + 4 + |name| + 1 <= |st| && 0 !in name
    requires st[o..o + 4] == [0, 0, 0, 1] && st[o + 4..o + 4 + |name|] == name && st[o + 4 + |name|] == 0
    ensures TagAt(st, o) == Lexed(1, (o + 4 + |name| + 1 + 3) / 4 * 4)
  {
    hide Be32, NulFrom;
    TagWord(st, o, 1);
    NulAt(st, o + 4, name);
  }

  /** 0, 0, 0, 3 and a length: a property with a value of that length behind its 12 bytes of header. */
  lemma PropertyTag(st: bytes, o: nat, len: nat)
    requires |st| < 0x80000000 && o + 12 + len <= |st|
    requires st[o..o + 4] == [0, 0, 0, 3] && Number(st, o + 4) == len
    ensures TagAt(st, o) == Lexed(3, (o + 12 + len + 3) / 4 * 4)
  {
    hide Be32, NulFrom, Number;
    TagWord(st, o, 3);
    Be32Number(st, o + 4);
  }

  /** 2 ends a node, 4 is to be skipped, 9 ends the block. */
  lemma PlainTag(st: bytes, o: nat, t: byte)
    requires o + 4 <= |st| && st[o..o + 4] == [0, 0, 0, t] && (t == 2 || t == 4 || t == 9)
    ensures TagAt(st, o) == Lexed(t, (o + 4 + 3) / 4 * 4)
  {
    hide Be32, NulFrom;
    TagWord(st, o, t);
  }

  /** Anything else is an error, and so is the end of the block. */
  lemma NoTag(st: bytes, o: nat)
    requires o + 4 <= |st| ==> Number(st, o) !in {1, 2, 3, 4, 9}
    ensures TagAt(st, o) == Lexed(9, if o + 4 <= |st| then -11 else -8)
  {
    hide Be32, NulFrom, Number;
    if o + 4 <= |st| {
      Be32Number(st, o);
    }
  }

  lemma {:induction false} NoNul(st: bytes, o: nat)
    requires o <= |st| && 0 !in st[o..]
    ensures NulFrom(st, o) == |st|
    decreases |st| - o
  {
    if o < |st| {
      assert st[o..][0] == st[o] && st[o + 1..] == st[o..][1..];
      NoNul(st, o + 1);
    }
  }

  /** A node without the NUL of its name, and a property whose length is not there or whose value leaves the block. */
  lemma CutTag(st: bytes, o: nat)
    requires |st| < 0x80000000 && o + 4 <= |st|
    requires || (Number(st, o) == 1 && 0 !in st[o + 4..])
             || (Number(st, o) == 3 && (o + 8 > |st| || |st| < o + 12 + Number(st, o + 4) < 0x100000000))
    ensures TagAt(st, o) == Lexed(9, -11)
  {
    hide Be32, NulFrom, Number;
    Be32Number(st, o);
    if Number(st, o) == 1 {
      NoNul(st, o + 4);
    } else if o + 8 <= |st| {
      Be32Number(st, o + 4);
    }
  }

  // ---------------------------------------------------------------------------
  // Reserve entries
  // ---------------------------------------------------------------------------

  /** Address and size of an entry, the first byte most significant. */
  lemma EntryNumbers(s: bytes)
    requires |s| >= 16
    ensures First(s).address == Number(s, 0) * 0x100000000 + Number(s, 4)
    ensures First(s).size == Number(s, 8) * 0x100000000 + Number(s, 12)
  {
    hide Be32, Number;
    Be32Number(s, 0);
    Be32Number(s, 4);
    Be32Number(s, 8);
    Be32Number(s, 12);
  }

  // ---------------------------------------------------------------------------
  // A whole blob
  // ---------------------------------------------------------------------------

  /** Its header, for a version. */
  function SmallHead(version: byte): (s: bytes)
    ensures |s| == 40
  {
    [0xd0, 0x0d, 0xfe, 0xed, 0, 0, 0, 150, 0, 0, 0, 72, 0, 0, 0, 136, 0, 0, 0, 40,
     0, 0, 0, version, 0, 0, 0, 16, 0, 0, 0, 0, 0, 0, 0, 14, 0, 0, 0, 64]
  }

  /** Its reserve map: 0x1000 bytes at 0x140000000. */
  const SMALL_RSV: bytes := [0, 0, 0, 1, 0x40, 0, 0, 0, 0, 0, 0, 0, 0, 0, 0x10, 0, 0, 0, 0, 0, 0, 0, 0, 0, 0, 0, 0, 0, 0, 0, 0, 0]

  /** Its structure block, tag by tag: the root, a property and a NOP, the node "s@1" with a property, and the ends. */
  const SMALL_ROOT: bytes := [0, 0, 0, 1, 0, 0, 0, 0]
  const SMALL_CELL: bytes := [0, 0, 0, 3, 0, 0, 0, 4, 0, 0, 0, 0, 0, 0, 0, 5]
  const SMALL_NOP: bytes := [0, 0, 0, 4]
  const SMALL_NODE: bytes := [0, 0, 0, 1, 115, 64, 49, 0]
  const SMALL_TEXT: bytes := [0, 0, 0, 3, 0, 0, 0, 3, 0, 0, 0, 12, 111, 107, 0, 0]
  const SMALL_CLOSE: bytes := [0, 0, 0, 2]
  const SMALL_END: bytes := [0, 0, 0, 9]

  function SmallStru(): (s: bytes)
    ensures |s| == 64
  {
    SMALL_ROOT + (SMALL_CELL + (SMALL_NOP + (SMALL_NODE + (SMALL_TEXT + SMALL_CLOSE) + SMALL_CLOSE))) + SMALL_END
  }

  /** Its strings block, "linux,phandle". */
  const SMALL_STRS: bytes := [108, 105, 110, 117, 120, 44, 112, 104, 97, 110, 100, 108, 101, 0]

  function Small(version: byte): (s: bytes)
    ensures |s| == 150
  {
    SmallHead(version) + SMALL_RSV + SmallStru() + SMALL_STRS
  }

  /** What it says: the root with linux,phandle = <5>, and below it s@1 with e = "ok". */
  function SmallTree(): Forest {
    Tree([], [PropVal([108, 105, 110, 117, 120, 44, 112, 104, 97, 110, 100, 108, 101], [0, 0, 0, 5])],
         Tree([115, 64, 49], [PropVal([101], [111, 107, 0])], Nil, Nil), Nil)
  }

  function SmallInner(): Body {
    Sub([115, 64, 49], [], Prop(12, [111, 107, 0], [0], Close), Close)
  }

  function SmallTop(): Body {
    Sub([], [0, 0, 0], Prop(0, [0, 0, 0, 5], [], Nop(SmallInner())), Eof)
  }

  lemma SmallCell(v: byte)
    ensures Cell(v) == [0, 0, 0, v]
  {
    hide Cell;
    var s: bytes := [0, 0, 0, v];
    CellOfBe32(s, 0);
    assert Be32(s, 0) == v && s[0..4] == s;
  }

  /** How a node begins, ... */
  lemma NodeBytes(name: bytes, pad: bytes)
    ensures FlatBegin(name, pad) == [0, 0, 0, 1] + name + [0] + pad
  {
    hide Cell;
    SmallCell(1);
  }

  /** ... how a property with a short value is stored, ... */
  lemma PropBytes(nameoff: byte, val: bytes, pad: bytes)
    requires |val| < 0x100
    ensures FlatProp(nameoff, val, pad) == [0, 0, 0, 3, 0, 0, 0, |val|, 0, 0, 0, nameoff] + val + pad
  {
    hide Cell;
    SmallCell(3);
    SmallCell(|val|);
    SmallCell(nameoff);
  }

  /** ... and the tags that stand alone. */
  lemma PlainBytes(r: Body, top: bool)
    requires Wf(r, top)
    ensures Flat(Close, false) == [0, 0, 0, 2] && Flat(Eof, true) == [0, 0, 0, 9] && Flat(Nop(r), top) == [0, 0, 0, 4] + Flat(r, top)
  {
    hide Cell;
    SmallCell(2);
    SmallCell(9);
    SmallCell(4);
  }

  lemma SmallInnerFlat()
    ensures var b := SmallInner(); Wf(b, false) && Flat(b, false) == SMALL_NODE + (SMALL_TEXT + SMALL_CLOSE) + SMALL_CLOSE && NoProps(b)
  {
    hide Cell, FlatBegin, FlatProp;
    var text := Prop(12, [111, 107, 0], [0], Close);
    PlainBytes(Close, false);
    PropBytes(12, [111, 107, 0], [0]);
    NodeBytes([115, 64, 49], []);
    assert Align4(3) == 4 && Align4(4) == 4;
    assert Flat(text, false) == FlatProp(12, [111, 107, 0], [0]) + Flat(Close, false) == SMALL_TEXT + SMALL_CLOSE;
  }

  lemma SmallCellFlat()
    ensures var b := Prop(0, [0, 0, 0, 5], [], Nop(SmallInner()));
      Wf(b, false) && Flat(b, false) == SMALL_CELL + (SMALL_NOP + (SMALL_NODE + (SMALL_TEXT + SMALL_CLOSE) + SMALL_CLOSE))
  {
    hide Cell, FlatBegin, FlatProp, SmallInner;
    SmallInnerFlat();
    PlainBytes(SmallInner(), false);
    PropBytes(0, [0, 0, 0, 5], []);
    assert Align4(4) == 4;
    assert FlatProp(0, [0, 0, 0, 5], []) == SMALL_CELL;
  }

  lemma SmallFlat()
    ensures var top := SmallTop(); Wf(top, true) && Flat(top, true) == SmallStru() && Size(top) == 64
  {
    hide Cell, FlatBegin, FlatProp, SmallInner;
    var cell := Prop(0, [0, 0, 0, 5], [], Nop(SmallInner()));
    SmallCellFlat();
    PlainBytes(Close, false);
    NodeBytes([], [0, 0, 0]);
    assert Align4(1) == 4 && FlatBegin([], [0, 0, 0]) == SMALL_ROOT;
    SubFlat([], [0, 0, 0], cell);
  }

  lemma SubFlat(name: bytes, pad: bytes, body: Body)
    requires Wf(Sub(name, pad, body, Eof), true)
    ensures Flat(Sub(name, pad, body, Eof), true) == FlatBegin(name, pad) + Flat(body, false) + Flat(Eof, true)
    ensures |Flat(Sub(name, pad, body, Eof), true)| == Size(Sub(name, pad, body, Eof))
  {
  }

  lemma SmallNames()
    ensures Named(SmallTop(), SMALL_STRS) && Erase(SmallTop(), SMALL_STRS) == SmallTree()
  {
    hide NulFrom;
    var name: bytes := [108, 105, 110, 117, 120, 44, 112, 104, 97, 110, 100, 108, 101];
    assert SMALL_STRS[0..13] == name && SMALL_STRS[13] == 0;
    NulAt(SMALL_STRS, 0, name);
    assert SMALL_STRS[12..13] == [101];
    NulAt(SMALL_STRS, 12, [101]);
    SmallErased(SMALL_STRS);
  }

  lemma SmallErased(strs: bytes)
    requires StrAt(strs, 0) == [108, 105, 110, 117, 120, 44, 112, 104, 97, 110, 100, 108, 101] && StrAt(strs, 12) == [101]
    requires NameAt(strs, 0) && NameAt(strs, 12)
    ensures Named(SmallTop(), strs) && Erase(SmallTop(), strs) == SmallTree()
  {
    hide StrAt, NameAt;
    var text := Prop(12, [111, 107, 0], [0], Close);
    assert Props(text, strs) == [PropVal([101], [111, 107, 0])] && Erase(text, strs) == Nil && Named(text, strs);
    var inner := SmallInner();
    assert Props(inner, strs) == [] && Erase(inner, strs) == Tree([115, 64, 49], Props(text, strs), Nil, Nil) && Named(inner, strs);
    var cell := Prop(0, [0, 0, 0, 5], [], Nop(inner));
    assert Props(Nop(inner), strs) == Props(inner, strs) && Erase(Nop(inner), strs) == Erase(inner, strs);
    assert Props(cell, strs) == [PropVal(StrAt(strs, 0), [0, 0, 0, 5])];
    assert Erase(cell, strs) == Erase(inner, strs) && Named(cell, strs);
    assert Erase(Eof, strs) == Nil && Named(Eof, strs);
  }

  lemma SmallMap(rsv: bytes)
    requires rsv == SMALL_RSV
    ensures Ended(rsv) && Entries(rsv) == [Entry(0x140000000, 0x1000)]
  {
    hide First, Be64;
    var rest := rsv[16..];
    EntryNumbers(rsv);
    EntryNumbers(rest);
    assert First(rsv) == Entry(0x140000000, 0x1000);
    assert rest == [0, 0, 0, 0, 0, 0, 0, 0, 0, 0, 0, 0, 0, 0, 0, 0];
    assert First(rest).size == 0;
    assert Ended(rest) && Entries(rest) == [];
  }

  lemma SlicePrefix(s: bytes, n: nat, lo: nat, hi: nat)
    requires lo <= hi <= n <= |s|
    ensures s[lo..hi] == s[..n][lo..hi]
  {
  }

  lemma NumberIs(s: bytes, o: nat, a: byte, b: byte, c: byte, d: byte)
    requires o + 4 <= |s| && s[o] == a && s[o + 1] == b && s[o + 2] == c && s[o + 3] == d
    ensures Number(s, o) == 16777216 * (a as int) + 65536 * (b as int) + 256 * (c as int) + d
  {
  }

  lemma MagicNumber(s: bytes)
    requires |s| >= 4 && s[0] == 0xd0 && s[1] == 0x0d && s[2] == 0xfe && s[3] == 0xed
    ensures Number(s, 0) == 0xd00dfeed
  {
  }

  lemma HeadFront(version: byte)
    ensures var h := SmallHead(version);
      Number(h, 0) == 0xd00dfeed && Number(h, 4) == 150 && Number(h, 8) == 72 && Number(h, 12) == 136 && Number(h, 16) == 40
  {
    hide Number;
    var h := SmallHead(version);
    MagicNumber(h);
    NumberIs(h, 4, 0, 0, 0, 150);
    NumberIs(h, 8, 0, 0, 0, 72);
    NumberIs(h, 12, 0, 0, 0, 136);
    NumberIs(h, 16, 0, 0, 0, 40);
  }

  lemma HeadBack(version: byte)
    ensures var h := SmallHead(version);
      && Number(h, 20) == version && Number(h, 24) == 16 && Number(h, 28) == 0 && Number(h, 32) == 14 && Number(h, 36) == 64
  {
    hide Number;
    var h := SmallHead(version);
    NumberIs(h, 20, 0, 0, 0, version);
    NumberIs(h, 24, 0, 0, 0, 16);
    NumberIs(h, 28, 0, 0, 0, 0);
    NumberIs(h, 32, 0, 0, 0, 14);
    NumberIs(h, 36, 0, 0, 0, 64);
  }

  lemma HeaderFront(s: bytes)
    requires |s| >= 40
    ensures Hdr(s) == Hdr(s[..40])
  {
    hide Word;
    assert forall i | 0 <= i < 40 :: s[i] == s[..40][i];
  }

  lemma SmallHeader(s: bytes, version: byte)
    requires 40 <= |s| && s[..40] == SmallHead(version)
    ensures Hdr(s) == Header(0xd00dfeed, 150, 72, 136, 40, version, 16, 0, 14, 64)
  {
    hide Number, Be32, Hdr, SmallHead;
    HeaderFront(s);
    HeaderBytes(SmallHead(version));
    HeadFront(version);
    HeadBack(version);
  }

  lemma SmallParts(s: bytes, version: byte)
    requires 150 <= |s| && s[..150] == Small(version)
    ensures s[..40] == SmallHead(version)
    ensures s[40..72] == SMALL_RSV && s[72..136] == SmallStru() && s[136..150] == SMALL_STRS
  {
    hide SmallHead, SmallStru;
    SlicePrefix(s, 150, 0, 40);
    assert s[0..40] == s[..40];
    SlicePrefix(s, 150, 40, 72);
    SlicePrefix(s, 150, 72, 136);
    SlicePrefix(s, 150, 136, 150);
  }

  /** Those 150 bytes are a blob that edits accept, and it says just that. */
  lemma SmallBlob(s: bytes)
    requires s == Small(17)
    ensures Encodes(s, SmallTop()) && TreeOf(s, SmallTop()) == SmallTree()
    ensures Ended(View(s).rsv) && Entries(View(s).rsv) == [Entry(0x140000000, 0x1000)]
  {
    hide Hdr, Flat, Wf, Named, Erase, SmallTop, SmallTree, SmallStru, SmallHead, Small, Ended, Entries;
    assert s[..150] == s;
    SmallParts(s, 17);
    SmallHeader(s, 17);
    SmallFlat();
    SmallNames();
    SmallMap(s[40..72]);
  }

  lemma SmallTrim()
    ensures Ended(SMALL_RSV) && |Trim(SMALL_RSV)| == 32
  {
    hide Entries, Ended;
    SmallMap(SMALL_RSV);
  }

  lemma SmallSource(m: bytes, src: nat, version: byte)
    requires src + 150 <= |m| < 0x80000000 && m[src..src + 150] == Small(version) && (version == 16 || version == 17)
    ensures Hdr(m[src..]) == Header(0xd00dfeed, 150, 72, 136, 40, version, 16, 0, 14, 64)
    ensures Source(m, src, Hdr(m[src..]), SmallTop(), SMALL_RSV, SMALL_STRS)
  {
    hide Hdr, Flat, Wf, Named, Erase, SmallTop, SmallTree, SmallStru, SmallHead, Small, Ended, Entries;
    var s := m[src..];
    assert s[..150] == m[src..src + 150];
    SmallParts(s, version);
    SmallHeader(s, version);
    SmallFlat();
    SmallNames();
    SmallMap(SMALL_RSV);
    assert m[src + 40..src + 72] == s[40..72];
    assert m[src + 72..src + 136] == s[72..136];
    assert m[src + 136..src + 150] == s[136..150];
  }

  /** fdt_open_into takes those bytes, with version 16 or 17 in them, and makes them ready for edits. */
  method OpenSmall(mem: array<byte>, src: nat, dst: nat, bufsize: nat, ghost version: byte) returns (err: int)
    requires src + 150 <= mem.Length < 0x80000000 && dst + bufsize <= mem.Length && 150 <= bufsize
    requires mem[src..src + 150] == Small(version) && (version == 16 || version == 17)
    modifies mem
    ensures err == 0
    ensures var s := mem[dst..dst + bufsize];
      && Encodes(s, SmallTop()) && TreeOf(s, SmallTop()) == SmallTree()
      && Ended(View(s).rsv) && Entries(View(s).rsv) == [Entry(0x140000000, 0x1000)]
      && Hdr(s) == Header(0xd00dfeed, bufsize, 72, 136, 40, 17, 16, 0, 14, 64)
  {
    hide Hdr, Flat, Wf, Named, Erase, SmallTop, SmallTree, SmallStru, Small, Ended, Entries, Source, Trim, Size, Encodes, View;
    assert mem[src..src + 150] == mem[..][src..src + 150] && mem[src..] == mem[..][src..];
    SmallSource(mem[..], src, version);
    SmallMap(SMALL_RSV);
    SmallTrim();
    SmallFlat();
    SmallNames();
    err := OpenInto(mem, src, dst, bufsize, Hdr(mem[src..]), SmallTop(), SMALL_RSV, SMALL_STRS);
  }
}
