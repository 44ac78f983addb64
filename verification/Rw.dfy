/** The read-write functions of lib/libfdt/fdt_rw.c on a blob in place. */
module Rw {
  import opened Bytes
  import opened Memory
  import opened Blob
  import opened Structure
  import opened Lexer
  import opened Nodes
  import opened Trees
  import opened Attrs
  import opened Walk
  import opened Lookup
  import opened Names
  import opened Edits

  /** _fdt_blocks_misordered, in unsigned 32-bit arithmetic. */
  predicate Misordered(h: Header, rsvSize: u32, structSize: u32) {
    h.offRsv < 40 || Overlap(h.offRsv, rsvSize, h.offStruct) || Overlap(h.offStruct, structSize, h.offStrings)
    || Overlap(h.offStrings, h.sizeStrings, h.totalsize)
  }

  predicate Overlap(off: u32, size: u32, next: u32) {
    next < (off + size) % TWO32
  }

  /** The verdict of _fdt_rw_check_header. */
  function RwErr(h: Header): int {
    if CheckErr(h) != 0 then CheckErr(h)
    else if h.version < 17 then BADVERSION
    else if Misordered(h, RSV_SIZE, h.sizeStruct) then BADLAYOUT
    else 0
  }

  /** s is a complete blob in the layout that edits need, its structure block encodes top, and every
      property of it has a name in the strings block. */
  ghost predicate Encodes(s: bytes, top: Body) {
    && Layout(s) && RwErr(Hdr(s)) == 0
    && Wf(top, true) && View(s).stru == Flat(top, true)
    && Named(top, View(s).strs)
  }

  /** The device tree a blob stands for. */
  function TreeOf(s: bytes, top: Body): Forest
    requires Layout(s)
  {
    Erase(top, View(s).strs)
  }

  lemma {:induction false} EncodesReady(s: bytes, top: Body)
    requires Encodes(s, top)
    ensures Layout(s) && Hdr(s).version >= 17 && CheckErr(Hdr(s)) == 0
    ensures Wf(top, true) && Named(top, View(s).strs) && View(s).stru == Flat(top, true)
    ensures Ready(s, View(s).stru) && Strings(s, View(s).strs)
    ensures On(View(s).stru, 0, Frame(top, Bottom))
    ensures Size(top) == Hdr(s).sizeStruct < TWO31
  {
    hide Hdr, Flat;
    StruOfView(s);
    TopOn(View(s).stru, top);
  }

  lemma {:induction false} TopOn(st: bytes, top: Body)
    requires Wf(top, true) && st == Flat(top, true) && |st| < TWO31
    ensures On(st, 0, Frame(top, Bottom))
  {
    hide Flat;
    var stk := Frame(top, Bottom);
    assert stk.up.Bottom? && WfS(stk.up) && WfS(stk);
    assert FlatS(stk) == Flat(top, true) + FlatS(stk.up) == st;
    assert st[0..] == st;
  }

  /** A blob that either is refused by the header check or can be edited. */
  ghost predicate Editable(s: bytes, top: Body) {
    |s| >= HEADER_SIZE && (RwErr(Hdr(s)) == 0 ==> Encodes(s, top))
  }

  function V17(h: Header): Header {
    h.(version := 17)
  }

  lemma {:induction false} SetV17(s: bytes, top: Body)
    requires Encodes(s, top)
    ensures var t := Patch(s, FieldOffset(Version), Cell(17));
      Encodes(t, top) && View(t) == View(s).(hdr := V17(Hdr(s)))
  {
    hide Hdr, Flat, Patch, Cell, Named, Wf, Erase;
    HdrPatch(s, Version, 17);
    BlocksKept(s, Version, 17, V17(Hdr(s)));
  }

  method RwCheckHeader(fdt: array<byte>, ghost top: Body) returns (err: int)
    requires Editable(fdt[..], top)
    modifies fdt
    ensures err == RwErr(old(Hdr(fdt[..])))
    ensures err != 0 || old(Hdr(fdt[..])).version == 17 ==> fdt[..] == old(fdt[..])
    ensures err == 0 ==>
              && Encodes(old(fdt[..]), top) && Encodes(fdt[..], top)
              && View(fdt[..]) == old(View(fdt[..])).(hdr := V17(old(Hdr(fdt[..]))))
  {
    hide Hdr, Encodes, CheckErr, Misordered, View, Blocks, Patch, Cell;
    err := CheckHeader(fdt);
    if err != 0 {
      return;
    }
    var version := GetHdr(fdt, Version);
    if version < 17 {
      return BADVERSION;
    }
    assert fdt[0..] == fdt[..];
    var misordered := BlocksMisordered(fdt, 0, RSV_SIZE, GetHdr(fdt, SizeStruct));
    if misordered {
      return BADLAYOUT;
    }
    ViewHdr(fdt[..], top);
    SetV17(fdt[..], top);
    if version > 17 {
      SetHdr(fdt, Version, 17);
    }
  }

  lemma ViewHdr(s: bytes, top: Body)
    requires Encodes(s, top)
    ensures Layout(s) && View(s).hdr == Hdr(s)
    ensures Hdr(s).version == 17 ==> View(s).(hdr := V17(Hdr(s))) == View(s)
  {
    hide Hdr;
  }

  method BlocksMisordered(mem: array<byte>, fdt: nat, rsvSize: u32, structSize: u32) returns (b: bool)
    requires fdt + HEADER_SIZE <= mem.Length
    ensures b == Misordered(Hdr(mem[fdt..]), rsvSize, structSize)
  {
    hide Hdr, Overlap;
    return GetAt(mem, fdt, OffRsv) < 40
           || Overlap(GetAt(mem, fdt, OffRsv), rsvSize, GetAt(mem, fdt, OffStruct))
           || Overlap(GetAt(mem, fdt, OffStruct), structSize, GetAt(mem, fdt, OffStrings))
           || Overlap(GetAt(mem, fdt, OffStrings), GetAt(mem, fdt, SizeStrings), GetAt(mem, fdt, TotalSize));
  }

  /** Stores a cell of the structure block. */
  method StoreCell(fdt: array<byte>, q: nat, v: u32)
    requires Layout(fdt[..]) && q + 4 <= Hdr(fdt[..]).sizeStruct
    modifies fdt
    ensures Layout(fdt[..])
    ensures View(fdt[..]) == old(View(fdt[..])).(stru := Patch(old(View(fdt[..])).stru, q, Cell(v)))
  {
    hide Hdr, Cell, Patch;
    ViewPatchStruct(fdt[..], q, Cell(v));
    Put32(fdt, GetHdr(fdt, OffStruct) + q, v);
  }

  /** Copies bytes into the structure block. */
  method StoreBytes(fdt: array<byte>, q: nat, d: bytes)
    requires Layout(fdt[..]) && q + |d| <= Hdr(fdt[..]).sizeStruct
    modifies fdt
    ensures Layout(fdt[..])
    ensures View(fdt[..]) == old(View(fdt[..])).(stru := Patch(old(View(fdt[..])).stru, q, d))
  {
    hide Hdr, Patch;
    ViewPatchStruct(fdt[..], q, d);
    MemCpy(fdt, GetHdr(fdt, OffStruct) + q, d);
  }

  /** A strings block of n bytes more. */
  function GrowStrings(h: Header, n: nat): Header
    requires h.sizeStrings + n < TWO32
  {
    h.(sizeStrings := h.sizeStrings + n)
  }

  /** _fdt_find_add_string: the offset of a name in the strings block, appending it when it is missing. */
  method FindAddString(fdt: array<byte>, s: bytes) returns (r: int)
    requires Layout(fdt[..])
    modifies fdt
    ensures var v := old(View(fdt[..]));
      var (t, p) := Intern(v.strs, s);
      if |t| - |v.strs| > Slack(v.hdr) then r == NOSPACE && fdt[..] == old(fdt[..])
      else
        && r == p && Layout(fdt[..])
        && View(fdt[..]) == v.(hdr := GrowStrings(v.hdr, |t| - |v.strs|), strs := t)
  {
    hide Hdr, Patch, Search, View, Ordered;
    ghost var v := View(fdt[..]);
    TabSlice(fdt[..]);
    Roomy(fdt[..]);
    var tab, size := GetHdr(fdt, OffStrings), GetHdr(fdt, SizeStrings);
    r := FindString(fdt, tab, size, s);
    if r >= 0 {
      return;
    }
    var err := SpliceString(fdt, |s| + 1);
    if err != 0 {
      return err;
    }
    ViewPatchStrings(fdt[..], size, s + [0]);
    PatchTail(v.strs, View(fdt[..]).strs, s + [0]);
    MemCpy(fdt, tab + size, s + [0]);
    return size;
  }

  lemma TabSlice(s: bytes)
    requires Layout(s)
    ensures Hdr(s).offStrings + Hdr(s).sizeStrings <= |s|
    ensures s[Hdr(s).offStrings..Hdr(s).offStrings + Hdr(s).sizeStrings] == View(s).strs
  {
    hide Hdr;
  }

  lemma PatchTail(a: bytes, b: bytes, d: bytes)
    requires a <= b && |b| == |a| + |d|
    ensures Patch(b, |a|, d) == a + d
  {
    assert b[..|a|] == a;
    assert b[|a| + |d|..] == [];
  }

  // ---------------------------------------------------------------------------
  // Edits of properties
  // ---------------------------------------------------------------------------

  /** The caller's node: the k-th one, or (k negative) an offset that is refused. */
  ghost predicate Target(st: bytes, top: Body, offset: int, k: int) {
    offset < TWO31 && if k < 0 then BadNode(st, offset) else k < Count(top) && Off(top, k) == offset
  }

  lemma {:induction false} NodeIsTarget(st: bytes, top: Body, offset: int, j: nat)
    requires On(st, 0, Frame(top, Bottom)) && j < Count(top) && offset == Off(top, j)
    ensures Target(st, top, offset, j)
  {
    hide TagAt, On;
    HereOn(st, 0, top, Bottom, j);
    NodeIsGood(st, offset, Here(top, Bottom, j));
  }

  lemma {:induction false} TargetRef(st: bytes, top: Body, offset: int, k: int)
    requires On(st, 0, Frame(top, Bottom)) && Wf(top, true) && Target(st, top, offset, k)
    ensures k < 0 ==> BadNode(st, offset) && NodeRef(st, offset, Bottom)
    ensures k >= 0 ==>
              var stk := Here(top, Bottom, k);
              && stk.Frame? && stk.b == NodeAt(top, k)
              && NodeRef(st, offset, stk) && !BadNode(st, offset) && Wf(stk.b.body, false)
              && AtNode(st, offset, stk)
  {
    hide On, TagAt;
    if k >= 0 {
      HereOn(st, 0, top, Bottom, k);
      NodeIsRef(st, offset, Here(top, Bottom, k));
      WfNode(top, true, k);
    }
  }

  function StackFor(top: Body, k: int): Stack
    requires k < Count(top)
  {
    if k < 0 then Bottom else Here(top, Bottom, k)
  }

  /** A blob whose structure block grew by delta bytes to encode top, with strings block strs. */
  ghost predicate Grown(v: Parts, s: bytes, delta: int, top: Body, strs: bytes) {
    && Encodes(s, top) && View(s).strs == strs && View(s).rsv == v.rsv
    && v.hdr.sizeStrings <= |strs| < TWO31 && 0 <= v.hdr.sizeStruct + delta < TWO31 && 0 <= v.hdr.offStrings + delta < TWO31
    && View(s).hdr == GrowStruct(GrowStrings(V17(v.hdr), |strs| - v.hdr.sizeStrings), delta)
  }

  lemma {:induction false} GrownIs(v: Parts, s: bytes, delta: int, top: Body, strs: bytes)
    requires Layout(s) && RwErr(v.hdr) == 0 && v.hdr.sizeStrings <= |strs|
    requires 0 <= v.hdr.sizeStruct + delta < TWO32 && 0 <= v.hdr.offStrings + delta < TWO32 && |strs| < TWO32
    requires Wf(top, true) && Named(top, strs)
    requires View(s) == Parts(GrowStruct(GrowStrings(V17(v.hdr), |strs| - v.hdr.sizeStrings), delta), v.rsv, Flat(top, true), strs)
    ensures Grown(v, s, delta, top, strs)
  {
    hide Hdr, Flat, Wf, Named;
  }

  /** Bounds that the splice of an edit relies on. */
  lemma {:induction false} EditFits(s: bytes, top: Body, top': Body, k: nat, po: nat, len: nat, d: bytes)
    requires Encodes(s, top) && PropEdit(top, top', k, View(s).strs, po, len, d)
    ensures BodyOff(top, k) + po + len <= Hdr(s).sizeStruct <= Hdr(s).offStrings && 0 <= Slack(Hdr(s))
  {
    hide Hdr, Flat, Wf, Named, MovedBy, Splice, BodyOff;
  }

  /** v after the header check and after its strings block became strs. */
  function Checked(v: Parts, strs: bytes): Parts
    requires v.hdr.sizeStrings <= |strs| < TWO32
  {
    v.(hdr := GrowStrings(V17(v.hdr), |strs| - v.hdr.sizeStrings), strs := strs)
  }

  /** v1 is v with a splice of the structure block. */
  ghost predicate Spliced(v: Parts, v1: Parts, q: nat, len: nat, d: bytes) {
    && q + len <= |v.stru|
    && 0 <= v.hdr.sizeStruct + |d| - len < TWO32 && 0 <= v.hdr.offStrings + |d| - len < TWO32
    && v1 == Parts(GrowStruct(v.hdr, |d| - len), v.rsv, Splice(v.stru, q, len, d), v.strs)
  }

  /** What an edit of the structure block leaves behind once the bytes are in place. */
  lemma {:induction false} Commit(v: Parts, strs: bytes, t: bytes, top: Body, top': Body, k: nat, po: nat, len: nat, d: bytes)
    requires RwErr(v.hdr) == 0 && v.hdr.sizeStrings <= |strs| < TWO31
    requires Wf(top, true) && v.stru == Flat(top, true)
    requires PropEdit(top, top', k, strs, po, len, d)
    requires Layout(t) && Spliced(Checked(v, strs), View(t), BodyOff(top, k) + po, len, d)
    ensures Grown(v, t, |d| - len, top', strs) && MovedBy(top, top', k, |d| - len)
  {
    hide Hdr, Flat, Wf, Named, MovedBy, Splice, BodyOff;
    GrownIs(v, t, |d| - len, top', strs);
  }

  /** The tree is as it was; at most a name has been added to the strings block. */
  ghost predicate Kept(v: Parts, s: bytes, top: Body, top': Body) {
    top' == top && Grown(v, s, 0, top, v.strs)
  }

  /** The properties of the k-th node of the tree. */
  function PropsOf(f: Forest, k: nat): seq<PropVal>
    requires k < Total(f)
  {
    NodeOf(f, k).props
  }

  /** The bytes of the property p stand at offset o. */
  ghost predicate PropBytes(st: bytes, o: nat, p: Body) {
    && p.Prop? && |p.val| < TWO31 && |p.pad| == Align4(|p.val|) - |p.val|
    && o + PropSize(p.val) <= |st|
    && st[o..o + 12] == PropHead(p.nameoff, |p.val|)
    && st[o + 12..o + PropSize(p.val)] == p.val + p.pad
  }

  lemma {:induction false} InNodeBytes(st: bytes, o: int, p: Body, up: Stack)
    requires InNode(st, o, p, up) && p.Prop?
    ensures o >= 0 && PropBytes(st, o, p)
  {
    hide FlatProp, PropHead, Flat, TagAt, FlatS, Align4;
    LexStep(st, o, Frame(p, up));
    var f := FlatProp(p.nameoff, p.val, p.pad);
    HeadData(p.nameoff, p.val, p.pad);
    PrefixSlice(st, o, f, 0, 12);
    PrefixSlice(st, o, f, 12, |f|);
  }

  /** fdt_get_property_w: the offset of the property or -1, its length or the error; and where it stands. */
  method GetPropertyW(fdt: array<byte>, nodeoffset: int, name: bytes, ghost top: Body, ghost k: int)
    returns (prop: int, len: int, ghost c: Body, ghost po: nat, ghost p: Body)
    requires Encodes(fdt[..], top) && name != [] && Target(View(fdt[..]).stru, top, nodeoffset, k)
    ensures k < 0 ==> prop == -1 && len == BADOFFSET
    ensures k >= 0 ==>
      var f := TreeOf(fdt[..], top);
      && k < Total(f)
      && var i := IndexOf(PropsOf(f, k), name);
      if i == |PropsOf(f, k)| then
        && prop == -1 && len == NOTFOUND
        && k < Count(top) && FindProp(NodeAt(top, k).body, View(fdt[..]).strs, name) == Absent
      else
        && PropHere(top, k, View(fdt[..]).strs, name, c, po, p) && p.Prop?
        && prop == BodyOff(top, k) + po && len == |p.val| && p.val == PropsOf(f, k)[i].val
        && PropBytes(View(fdt[..]).stru, prop, p)
  {
    hide Hdr, Ready, Strings, On, TagAt, Flat, Wf, Named, Erase, IndexOf, Encodes, Mark, From, FindProp, InNode;
    c, po, p := Close, 0, Close;
    EncodesReady(fdt[..], top);
    ghost var st, strs := View(fdt[..]).stru, View(fdt[..]).strs;
    TargetRef(st, top, nodeoffset, k);
    if k >= 0 {
      FoundProp(top, k, strs, name);
      c := NodeAt(top, k).body;
      po := match FindProp(c, strs, name) case At(q) => q case Absent => 0;
      if FindProp(c, strs, name).At? {
        p := From(c, po);
      }
    }
    prop, len := GetProperty(fdt, nodeoffset, name, st, strs, StackFor(top, k));
    if prop != -1 {
      InNodeBytes(st, prop, p, Frame(NodeAt(top, k).rest, StackFor(top, k).up));
    }
  }

  /** The k-th node has lost the property called name, or had none. */
  ghost predicate PropGone(v: Parts, s: bytes, top: Body, top': Body, k: nat, name: bytes, err: int)
    requires k < Total(Erase(top, v.strs))
  {
    var f := Erase(top, v.strs);
    var ps := PropsOf(f, k);
    var i := IndexOf(ps, name);
    if i == |ps| then err == NOTFOUND && Kept(v, s, top, top')
    else
      && err == 0
      && Grown(v, s, 0 - PropSize(ps[i].val), top', v.strs)
      && Erase(top', v.strs) == Trees.DelProp(f, k, name)
      && MovedBy(top, top', k, 0 - PropSize(ps[i].val))
  }

  /** fdt_delprop. */
  method DelProp(fdt: array<byte>, nodeoffset: int, name: bytes, ghost top: Body, ghost k: int)
    returns (err: int, ghost top': Body)
    requires Editable(fdt[..], top) && name != []
    requires RwErr(Hdr(fdt[..])) == 0 ==> Target(View(fdt[..]).stru, top, nodeoffset, k)
    modifies fdt
    ensures RwErr(old(Hdr(fdt[..]))) != 0 ==> err == RwErr(old(Hdr(fdt[..]))) && fdt[..] == old(fdt[..])
    ensures RwErr(old(Hdr(fdt[..]))) == 0 && k < 0 ==> err == BADOFFSET && Kept(old(View(fdt[..])), fdt[..], top, top')
    ensures RwErr(old(Hdr(fdt[..]))) == 0 && k >= 0 ==>
              && k < Total(Erase(top, old(View(fdt[..])).strs))
              && PropGone(old(View(fdt[..])), fdt[..], top, top', k, name, err)
  {
    hide Hdr, Flat, Wf, Named, MovedBy, Erase, IndexOf, Encodes, Splice, BodyOff, PropHere, PropEdit, Target, RwErr, Grown,
      View, Ordered, PropBytes, Off, Count, NodeAt, Size, Trees.DelProp, IndexOf, Kept;
    top' := top;
    err := RwCheckHeader(fdt, top);
    if err != 0 {
      return;
    }
    ghost var s := fdt[..];
    EncodesReady(s, top);
    HeaderKept(old(fdt[..]), s, top);
    var prop, len;
    ghost var c, po, p;
    prop, len, c, po, p := GetPropertyW(fdt, nodeoffset, name, top, k);
    if prop == -1 {
      return len, top;
    }
    top' := DelPlan(top, k, View(s).strs, name, c, po, p);
    EditFits(s, top, top', k, po, PropSize(p.val), []);
    assert s[Hdr(s).offStruct + prop..Hdr(s).offStruct + prop + 0] == [];
    err := SpliceStruct(fdt, prop, 12 + Align4(len), 0);
    Commit(old(View(fdt[..])), View(s).strs, fdt[..], top, top', k, po, PropSize(p.val), []);
  }

  /** The header check leaves the blob as an edit by nothing. */
  lemma {:induction false} HeaderKept(s0: bytes, s: bytes, top: Body)
    requires Encodes(s0, top) && Encodes(s, top) && View(s) == View(s0).(hdr := V17(Hdr(s0)))
    ensures Layout(s0) && RwErr(View(s0).hdr) == 0 && |View(s0).strs| == View(s0).hdr.sizeStrings < TWO31
    ensures View(s) == Checked(View(s0), View(s0).strs)
    ensures Wf(top, true) && View(s0).stru == Flat(top, true)
    ensures Kept(View(s0), s, top, top)
  {
    hide Hdr, Flat, Wf, Named;
  }

  /** Bytes of a blob at a structure offset. */
  lemma StruBytes(s: bytes, lo: nat, hi: nat)
    requires Layout(s) && lo <= hi <= Hdr(s).sizeStruct
    ensures s[Hdr(s).offStruct + lo..Hdr(s).offStruct + hi] == View(s).stru[lo..hi]
  {
    hide Hdr;
    SliceSlice(s, Hdr(s).offStruct, Hdr(s).offStruct + Hdr(s).sizeStruct, lo, hi);
  }

  /** A property of len bytes, its value still open, was spliced in. */
  ghost predicate Opened(v: Parts, w: Parts, q: nat, m: nat, nameoff: u32, len: nat, gap: bytes) {
    len < TWO31 && |gap| == Align4(len) && Spliced(v, w, q, m, PropHead(nameoff, len) + gap)
  }

  /** Resizes the value of a property in place and stores its new length (the common part of
      _fdt_resize_property and fdt_appendprop). gap is what then stands in the value's place. */
  method Reshape(fdt: array<byte>, prop: nat, oldlen: nat, newlen: nat, ghost p: Body)
    returns (err: int, ghost gap: bytes)
    requires Layout(fdt[..]) && PropBytes(View(fdt[..]).stru, prop, p)
    requires oldlen == |p.val| && newlen < TWO31
    modifies fdt
    ensures var s, h := old(fdt[..]), old(View(fdt[..])).hdr;
      var delta := Align4(newlen) - Align4(oldlen);
      if delta > Slack(h) then err == NOSPACE && fdt[..] == s
      else
        && err == 0 && Layout(fdt[..]) && (newlen >= oldlen ==> p.val <= gap)
        && Opened(View(s), View(fdt[..]), prop, PropSize(p.val), p.nameoff, newlen, gap)
  {
    hide Hdr, Flat, Splice, View, Blocks, PropHead, Patch, Ordered, Align4;
    ghost var s := fdt[..];
    gap := [];
    Roomy(s);
    err := SpliceStruct(fdt, prop + 12, Align4(oldlen), Align4(newlen));
    if err != 0 {
      return;
    }
    gap := GapOf(s, prop + 12, newlen, p);
    StoreCell(fdt, prop + 4, newlen);
    ResizeBytes(View(s).stru, prop, p.nameoff, p.val + p.pad, oldlen, gap, newlen);
  }

  /** The gap that a splice opens is made of the bytes that stood there. */
  lemma GapOf(s: bytes, q: nat, newlen: nat, p: Body) returns (gap: bytes)
    requires Layout(s) && q >= 12 && PropBytes(View(s).stru, q - 12, p)
    requires Align4(newlen) - Align4(|p.val|) <= Slack(Hdr(s))
    ensures Hdr(s).offStruct + q + Align4(newlen) <= |s|
    ensures gap == s[Hdr(s).offStruct + q..Hdr(s).offStruct + q + Align4(newlen)]
    ensures newlen >= |p.val| ==> p.val <= gap
  {
    hide Hdr, PropHead;
    var o := Hdr(s).offStruct + q;
    gap := s[o..o + Align4(newlen)];
    StruBytes(s, q, q + Align4(|p.val|));
    if newlen >= |p.val| {
      assert Align4(newlen) >= Align4(|p.val|);
      FrontOf(s, o, p.val, p.pad, Align4(newlen));
    }
  }

  lemma FrontOf(s: bytes, o: nat, a: bytes, b: bytes, n: nat)
    requires |a| <= n && o + n <= |s| && o + |a| + |b| <= |s| && s[o..o + |a| + |b|] == a + b
    ensures a <= s[o..o + n]
  {
    SliceSlice(s, o, o + |a| + |b|, 0, |a|);
    SliceSlice(s, o, o + n, 0, |a|);
    assert (a + b)[0..|a|] == a;
  }

  lemma Roomy(s: bytes)
    requires Layout(s)
    ensures var h := Hdr(s);
      && 0 <= Slack(h) && h.sizeStruct <= h.offStrings && h.offStrings + h.sizeStrings + Slack(h) < TWO31
      && h.offStruct + h.sizeStruct <= h.offStrings && h.totalsize <= |s|
  {
    hide Hdr;
  }

  /** _fdt_resize_property; c, po and p say where the property stands. */
  method ResizeProperty(fdt: array<byte>, nodeoffset: int, name: bytes, len: nat, ghost top: Body, ghost k: int)
    returns (err: int, prop: int, ghost gap: bytes, ghost c: Body, ghost po: nat, ghost p: Body)
    requires Encodes(fdt[..], top) && name != [] && Target(View(fdt[..]).stru, top, nodeoffset, k) && len < TWO31
    modifies fdt
    ensures k < 0 ==> err == BADOFFSET && fdt[..] == old(fdt[..])
    ensures k >= 0 ==>
      var v, f := old(View(fdt[..])), TreeOf(old(fdt[..]), top);
      && k < Total(f)
      && var i := IndexOf(PropsOf(f, k), name);
      if i == |PropsOf(f, k)| then
        && err == NOTFOUND && fdt[..] == old(fdt[..])
        && k < Count(top) && FindProp(NodeAt(top, k).body, v.strs, name) == Absent
      else
        && PropHere(top, k, v.strs, name, c, po, p) && p.Prop? && p.val == PropsOf(f, k)[i].val
        && if Align4(len) - Align4(|p.val|) > Slack(v.hdr) then err == NOSPACE && fdt[..] == old(fdt[..])
           else
             && err == 0 && prop == BodyOff(top, k) + po && Layout(fdt[..])
             && Opened(v, View(fdt[..]), prop, PropSize(p.val), p.nameoff, len, gap)
  {
    hide Hdr, Flat, Wf, Named, Erase, IndexOf, Encodes, Splice, BodyOff, PropHere, Target, View, Ordered, PropHead,
      FindProp, Align4;
    var oldlen;
    gap := [];
    prop, oldlen, c, po, p := GetPropertyW(fdt, nodeoffset, name, top, k);
    if prop == -1 {
      err := oldlen;
      return;
    }
    EncodesReady(fdt[..], top);
    err, gap := Reshape(fdt, prop, oldlen, len, p);
  }

  /** Three cells in a fresh gap make a property header. */
  lemma ThreeCells(g: bytes, nameoff: u32, len: u32)
    requires |g| >= 12
    ensures Patch(Patch(Patch(g, 0, Cell(PROP)), 8, Cell(nameoff)), 4, Cell(len)) == PropHead(nameoff, len) + g[12..]
  {
    hide Cell;
  }

  /** _fdt_add_property. */
  method AddProperty(fdt: array<byte>, nodeoffset: int, name: bytes, len: nat, ghost top: Body, ghost k: int)
    returns (err: int, prop: int, ghost gap: bytes)
    requires Encodes(fdt[..], top) && Target(View(fdt[..]).stru, top, nodeoffset, k) && len < TWO31
    modifies fdt
    ensures k < 0 ==> err == BADOFFSET && fdt[..] == old(fdt[..])
    ensures k >= 0 ==>
      var v := old(View(fdt[..]));
      var (t, nameoff) := Intern(v.strs, name);
      if |t| - |v.strs| > Slack(v.hdr) then err == NOSPACE && fdt[..] == old(fdt[..])
      else
        && Layout(fdt[..]) && nameoff < TWO32 && v.hdr.sizeStrings + |t| - |v.strs| < TWO32
        && var w := v.(hdr := GrowStrings(v.hdr, |t| - |v.strs|), strs := t);
        if 12 + Align4(len) > Slack(w.hdr) then err == NOSPACE && View(fdt[..]) == w
        else err == 0 && k < Count(top) && prop == BodyOff(top, k) && Opened(w, View(fdt[..]), prop, 0, nameoff, len, gap)
  {
    hide Hdr, Flat, Wf, Named, Encodes, Splice, View, Ordered, Align4, Intern, On, TagAt, Ready, Opened;
    prop, gap := 0, [];
    EncodesReady(fdt[..], top);
    ghost var st := View(fdt[..]).stru;
    TargetRef(st, top, nodeoffset, k);
    if k >= 0 {
      NodeIsGood(st, nodeoffset, StackFor(top, k));
    }
    var next := CheckNodeOffset(fdt, nodeoffset, st);
    if next < 0 {
      err := next;
      return;
    }
    Roomy(fdt[..]);
    InternBounds(fdt[..], name);
    BodyInside(top, k);
    var namestroff := FindAddString(fdt, name);
    if namestroff < 0 {
      err := namestroff;
      return;
    }
    prop := next;
    err, gap := OpenProperty(fdt, prop, namestroff, len);
  }

  /** The splice and the three header cells of _fdt_add_property. */
  method OpenProperty(fdt: array<byte>, q: nat, nameoff: u32, len: nat) returns (err: int, ghost gap: bytes)
    requires Layout(fdt[..]) && q <= Hdr(fdt[..]).sizeStruct && len < TWO31
    modifies fdt
    ensures if 12 + Align4(len) > Slack(old(Hdr(fdt[..]))) then err == NOSPACE && fdt[..] == old(fdt[..])
            else err == 0 && Layout(fdt[..]) && Opened(old(View(fdt[..])), View(fdt[..]), q, 0, nameoff, len, gap)
  {
    hide Hdr, Splice, View, Ordered, PropHead, Align4, Patch, Cell;
    ghost var s := fdt[..];
    gap := [];
    Roomy(s);
    err := SpliceStruct(fdt, q, 0, 12 + Align4(len));
    if err != 0 {
      return;
    }
    ghost var g := s[Hdr(s).offStruct + q..Hdr(s).offStruct + q + 12 + Align4(len)];
    StoreCell(fdt, q, PROP);
    StoreCell(fdt, q + 8, nameoff);
    StoreCell(fdt, q + 4, len);
    gap := g[12..];
    FillHead(View(s).stru, q, g, nameoff, len);
  }

  lemma FillHead(st: bytes, q: nat, g: bytes, nameoff: u32, len: u32)
    requires q <= |st| && |g| >= 12
    ensures Patch(Patch(Patch(Splice(st, q, 0, g), q, Cell(PROP)), q + 8, Cell(nameoff)), q + 4, Cell(len)) ==
            Splice(st, q, 0, PropHead(nameoff, len) + g[12..])
  {
    hide Cell, Patch, Splice, PropHead;
    var g1 := Patch(g, 0, Cell(PROP));
    var g2 := Patch(g1, 8, Cell(nameoff));
    assert [] + g == g && [] + g1 == g1 && [] + g2 == g2 && [] + Patch(g2, 4, Cell(len)) == Patch(g2, 4, Cell(len));
    FillBytes(st, q, 0, [], g, 0, Cell(PROP));
    FillBytes(st, q, 0, [], g1, 8, Cell(nameoff));
    FillBytes(st, q, 0, [], g2, 4, Cell(len));
    ThreeCells(g, nameoff, len);
  }

  lemma InternBounds(s: bytes, name: bytes)
    requires Layout(s)
    ensures var (t, p) := Intern(View(s).strs, name); |View(s).strs| <= |t| && 0 <= p < |t|
  {
    hide Hdr;
  }

  lemma {:induction false} BodyInside(top: Body, k: int)
    requires k < Count(top)
    ensures k >= 0 ==> BodyOff(top, k) <= Size(top)
  {
    if k >= 0 {
      OffInside(top, k);
    }
  }

  /** Copying the value completes an opened property; what is left of the gap is its padding. */
  lemma Completed(v: Parts, w: Parts, q: nat, m: nat, nameoff: u32, val: bytes, gap: bytes, x: Parts)
    requires Opened(v, w, q, m, nameoff, |val|, gap)
    requires q + 12 + |val| <= |w.stru| && x == w.(stru := Patch(w.stru, q + 12, val))
    ensures |gap[|val|..]| == Align4(|val|) - |val|
    ensures |FlatProp(nameoff, val, gap[|val|..])| == 12 + |gap|
    ensures Spliced(v, x, q, m, FlatProp(nameoff, val, gap[|val|..]))
  {
    hide Splice, PropHead, FlatProp;
    FillBytes(v.stru, q, m, PropHead(nameoff, |val|), gap, 0, val);
    assert Patch(gap, 0, val) == val + gap[|val|..];
    HeadData(nameoff, val, gap[|val|..]);
  }

  /** A value of the k-th node changed in place, which made f' of the tree and the block delta bytes longer;
      or nothing changed because the blob has too little slack. */
  ghost predicate Resized(v: Parts, s: bytes, top: Body, top': Body, k: nat, delta: int, f': Forest, err: int) {
    if delta > Slack(v.hdr) then err == NOSPACE && Kept(v, s, top, top')
    else
      && err == 0 && Grown(v, s, delta, top', v.strs)
      && Erase(top', v.strs) == f' && MovedBy(top, top', k, delta)
  }

  /** A property was added to the k-th node and its name to the strings block, which is then t; or only the
      name was, or nothing, because the blob has too little slack. */
  ghost predicate Inserted(v: Parts, s: bytes, top: Body, top': Body, k: nat, t: bytes, delta: nat, f': Forest, err: int) {
    var n := |t| - |v.strs|;
    if n + delta > Slack(v.hdr) then err == NOSPACE && top' == top && Grown(v, s, 0, top, if n > Slack(v.hdr) then v.strs else t)
    else
      && err == 0 && Grown(v, s, delta, top', t)
      && Erase(top', t) == f' && MovedBy(top, top', k, delta)
  }

  /** What fdt_setprop or fdt_appendprop makes of a tree. */
  function TreeSet(f: Forest, k: nat, name: bytes, val: bytes, append: bool): Forest
    requires k < Total(f)
  {
    if append then Trees.AppendProp(f, k, name, val) else Trees.SetProp(f, k, name, val)
  }

  /** Bytes a value takes more when val replaces it or is appended to it. */
  function Growth(old_: bytes, val: bytes, append: bool): int {
    Align4(if append then |old_| + |val| else |val|) - Align4(|old_|)
  }

  /** The k-th node has the property called name set to val (or with val appended), in place if it was there,
      as its first if not; or nothing changed because the blob has too little slack for the growth. */
  ghost predicate PropSet(v: Parts, s: bytes, top: Body, top': Body, k: nat, name: bytes, val: bytes, append: bool, err: int)
    requires k < Total(Erase(top, v.strs))
  {
    var f := Erase(top, v.strs);
    var f' := TreeSet(f, k, name, val, append);
    var ps := PropsOf(f, k);
    var i := IndexOf(ps, name);
    if i < |ps| then Resized(v, s, top, top', k, Growth(ps[i].val, val, append), f', err)
    else Inserted(v, s, top, top', k, Intern(v.strs, name).0, 12 + Align4(|val|), f', err)
  }

  lemma OpenedFits(v: Parts, w: Parts, q: nat, m: nat, nameoff: u32, len: nat, gap: bytes)
    requires Opened(v, w, q, m, nameoff, len, gap)
    ensures q + 12 + len <= |w.stru|
  {
    hide Splice, PropHead;
  }

  /** Only the strings block has grown. */
  lemma {:induction false} OnlyStrings(v: Parts, t: bytes, s: bytes, top: Body)
    requires RwErr(v.hdr) == 0 && |v.strs| == v.hdr.sizeStrings && v.strs <= t && |t| < TWO31
    requires Wf(top, true) && v.stru == Flat(top, true) && Named(top, v.strs)
    requires Layout(s) && View(s) == Checked(v, t)
    ensures Grown(v, s, 0, top, t)
  {
    hide Hdr, Flat, Wf, Named, Erase, Props;
    MoreTree(top, v.strs, t);
    GrownIs(v, s, 0, top, t);
  }

  /** The property that was there has its new value. */
  lemma {:induction false} SetDone(v: Parts, w: Parts, s: bytes, top: Body, k: nat, name: bytes, c: Body, po: nat, p: Body,
                                   val: bytes, gap: bytes)
    returns (top': Body)
    requires RwErr(v.hdr) == 0 && v.hdr.sizeStrings == |v.strs| < TWO31
    requires Wf(top, true) && v.stru == Flat(top, true) && PropHere(top, k, v.strs, name, c, po, p)
    requires Opened(Checked(v, v.strs), w, BodyOff(top, k) + po, PropSize(p.val), p.nameoff, |val|, gap)
    requires BodyOff(top, k) + po + 12 + |val| <= |w.stru|
    requires Layout(s) && View(s) == w.(stru := Patch(w.stru, BodyOff(top, k) + po + 12, val))
    ensures var delta := Align4(|val|) - Align4(|p.val|);
      Grown(v, s, delta, top', v.strs) && MovedBy(top, top', k, delta)
    ensures k < Total(Erase(top, v.strs)) && Erase(top', v.strs) == Trees.SetProp(Erase(top, v.strs), k, name, val)
  {
    hide Hdr, Flat, Wf, Named, Erase, MovedBy, Splice, BodyOff, FlatProp, View, Align4, Opened, Patch, Grown, Spliced, Replace;
    var q := BodyOff(top, k) + po;
    Completed(Checked(v, v.strs), w, q, PropSize(p.val), p.nameoff, val, gap, View(s));
    OpenedGap(Checked(v, v.strs), w, q, PropSize(p.val), p.nameoff, |val|, gap);
    var pad := gap[|val|..];
    top' := SetPlan(top, k, v.strs, name, c, po, p, val, pad);
    Commit(v, v.strs, s, top, top', k, po, PropSize(p.val), FlatProp(p.nameoff, val, pad));
  }

  lemma OpenedGap(v: Parts, w: Parts, q: nat, m: nat, nameoff: u32, len: nat, gap: bytes)
    requires Opened(v, w, q, m, nameoff, len, gap)
    ensures |gap| == Align4(len) && len < TWO31
  {
  }

  /** The new property is the node's first. */
  lemma {:induction false} AddDone(v: Parts, w: Parts, s: bytes, top: Body, k: nat, name: bytes, val: bytes, gap: bytes)
    returns (top': Body)
    requires RwErr(v.hdr) == 0 && v.hdr.sizeStrings == |v.strs|
    requires Wf(top, true) && v.stru == Flat(top, true) && Named(top, v.strs) && Size(top) < TWO31
    requires k < Count(top) && FindProp(NodeAt(top, k).body, v.strs, name) == Absent
    requires name != [] && 0 !in name
    requires var (t, nameoff) := Intern(v.strs, name);
      && v.hdr.sizeStrings <= |t| < TWO31 && 0 <= nameoff < TWO32
      && Opened(Checked(v, t), w, BodyOff(top, k), 0, nameoff, |val|, gap)
      && BodyOff(top, k) + 12 + |val| <= |w.stru|
      && Layout(s) && View(s) == w.(stru := Patch(w.stru, BodyOff(top, k) + 12, val))
    ensures var t, delta := Intern(v.strs, name).0, 12 + Align4(|val|);
      && Grown(v, s, delta, top', t) && MovedBy(top, top', k, delta)
      && k < Total(Erase(top, v.strs))
      && Erase(top', t) == Trees.SetProp(Erase(top, v.strs), k, name, val) == Trees.AppendProp(Erase(top, v.strs), k, name, val)
  {
    hide Hdr, Flat, Wf, Named, Erase, MovedBy, Splice, BodyOff, PropHere, FlatProp, View, Align4, Opened, Patch, Grown,
      Spliced, Replace, FindProp, Intern, StrAt, NameAt;
    var (t, nameoff) := Intern(v.strs, name);
    InternReads(v.strs, name);
    MoreTree(top, v.strs, t);
    AbsentMore(top, k, v.strs, t, name);
    OpenedGap(Checked(v, t), w, BodyOff(top, k), 0, nameoff, |val|, gap);
    Completed(Checked(v, t), w, BodyOff(top, k), 0, nameoff, val, gap, View(s));
    var pad := gap[|val|..];
    top' := AddPlan(top, k, t, name, nameoff, val, pad);
    Commit(v, t, s, top, top', k, 0, 0, FlatProp(nameoff, val, pad));
  }

  /** A property that is not found by the old strings block is not found by the longer one. */
  lemma {:induction false} AbsentMore(top: Body, k: nat, strs: bytes, t: bytes, name: bytes)
    requires k < Count(top) && Wf(top, true) && Named(top, strs) && strs <= t
    requires FindProp(NodeAt(top, k).body, strs, name) == Absent
    ensures FindProp(NodeAt(top, k).body, t, name) == Absent
  {
    hide StrAt, NameAt, Erase, Props, FindProp, Named, Wf;
    NamedNode(top, strs, k);
    NamedBody(NodeAt(top, k), strs);
    FindMore(NodeAt(top, k).body, strs, t, name);
  }

  lemma {:induction false} NamedBody(n: Body, strs: bytes)
    requires n.Sub? && Named(n, strs)
    ensures Named(n.body, strs)
  {
  }

  lemma {:induction false} FindMore(b: Body, strs: bytes, t: bytes, name: bytes)
    requires Named(b, strs) && strs <= t
    ensures FindProp(b, t, name) == FindProp(b, strs, name)
    decreases b
  {
    hide StrAt, NameAt;
    if b.Nop? {
      FindMore(b.rest, strs, t, name);
    } else if b.Prop? {
      MoreStrings(strs, t, b.nameoff);
      FindMore(b.rest, strs, t, name);
    }
  }

  /** The state in which only the value of the property is still open: a new one of the k-th node, or the
      one at po. */
  ghost predicate ValueOpen(v: Parts, w: Parts, top: Body, k: nat, name: bytes, isNew: bool, c: Body, po: nat, p: Body,
                            prop: int, len: nat, gap: bytes) {
    && RwErr(v.hdr) == 0 && v.hdr.sizeStrings == |v.strs| < TWO31
    && Wf(top, true) && v.stru == Flat(top, true) && Named(top, v.strs) && Size(top) < TWO31
    && name != [] && 0 !in name
    && if isNew then
         && k < Count(top) && FindProp(NodeAt(top, k).body, v.strs, name) == Absent && prop == BodyOff(top, k)
         && var (t, nameoff) := Intern(v.strs, name);
         |v.strs| <= |t| < TWO31 && 0 <= nameoff < TWO32 && Opened(Checked(v, t), w, prop, 0, nameoff, len, gap)
       else
         && PropHere(top, k, v.strs, name, c, po, p) && prop == BodyOff(top, k) + po
         && Opened(Checked(v, v.strs), w, prop, PropSize(p.val), p.nameoff, len, gap)
  }

  /** Copies the value into an opened property. */
  method StoreValue(fdt: array<byte>, prop: int, val: bytes, ghost v: Parts, ghost top: Body, ghost k: nat,
                    ghost name: bytes, ghost isNew: bool, ghost c: Body, ghost po: nat, ghost p: Body, ghost gap: bytes)
    returns (ghost top': Body)
    requires Layout(fdt[..]) && ValueOpen(v, View(fdt[..]), top, k, name, isNew, c, po, p, prop, |val|, gap)
    modifies fdt
    ensures var f := Erase(top, v.strs);
      && k < Total(f)
      && if isNew then
           var t, delta := Intern(v.strs, name).0, 12 + Align4(|val|);
           && Grown(v, fdt[..], delta, top', t) && MovedBy(top, top', k, delta)
           && Erase(top', t) == Trees.SetProp(f, k, name, val) == Trees.AppendProp(f, k, name, val)
         else
           var delta := Align4(|val|) - if p.Prop? then Align4(|p.val|) else 0;
           && Grown(v, fdt[..], delta, top', v.strs) && MovedBy(top, top', k, delta)
           && Erase(top', v.strs) == Trees.SetProp(f, k, name, val)
  {
    hide Hdr, Flat, Wf, Named, MovedBy, Erase, Splice, BodyOff, View, Ordered, Align4, FlatProp, Intern, FindProp, Opened,
      Grown, Patch, Checked, Trees.SetProp, Trees.AppendProp;
    ghost var w := View(fdt[..]);
    if isNew {
      OpenedFits(Checked(v, Intern(v.strs, name).0), w, prop, 0, Intern(v.strs, name).1, |val|, gap);
    } else {
      OpenedFits(Checked(v, v.strs), w, prop, PropSize(p.val), p.nameoff, |val|, gap);
    }
    StoreBytes(fdt, prop + 12, val);
    if isNew {
      top' := AddDone(v, w, fdt[..], top, k, name, val, gap);
    } else {
      top' := SetDone(v, w, fdt[..], top, k, name, c, po, p, val, gap);
    }
  }

  /** fdt_setprop behind its header check. */
  method SetChecked(fdt: array<byte>, nodeoffset: int, name: bytes, val: bytes, ghost v: Parts, ghost top: Body, ghost k: int)
    returns (err: int, ghost top': Body)
    requires Encodes(fdt[..], top) && Target(View(fdt[..]).stru, top, nodeoffset, k)
    requires v.hdr.sizeStrings == |v.strs| < TWO31 && View(fdt[..]) == Checked(v, v.strs) && Kept(v, fdt[..], top, top)
    requires RwErr(v.hdr) == 0 && name != [] && 0 !in name && |val| < TWO31
    modifies fdt
    ensures k < 0 ==> err == BADOFFSET && Kept(v, fdt[..], top, top')
    ensures k >= 0 ==> k < Total(Erase(top, v.strs)) && PropSet(v, fdt[..], top, top', k, name, val, false, err)
  {
    hide Hdr, Flat, Wf, Named, MovedBy, Erase, IndexOf, Encodes, Splice, BodyOff, PropHere, PropEdit, Target, RwErr, Grown,
      View, Ordered, PropBytes, Align4, FlatProp, Intern, FindProp, Opened, Off, Count, NodeAt, Size, Trees.SetProp;
    top' := top;
    ghost var s := fdt[..];
    EncodesReady(s, top);
    var prop;
    ghost var gap, c, po, p;
    err, prop, gap, c, po, p := ResizeProperty(fdt, nodeoffset, name, |val|, top, k);
    ghost var missing := err == NOTFOUND;
    Roomy(s);
    if err == NOTFOUND {
      InternBounds(s, name);
      InternReads(v.strs, name);
      err, prop, gap := AddProperty(fdt, nodeoffset, name, |val|, top, k);
    }
    if err != 0 {
      if k >= 0 && missing && |Intern(v.strs, name).0| - |v.strs| <= Slack(v.hdr) {
        OnlyStrings(v, Intern(v.strs, name).0, fdt[..], top);
      }
      return;
    }
    top' := StoreValue(fdt, prop, val, v, top, k, name, missing, c, po, p, gap);
  }

  /** fdt_setprop. */
  method SetProp(fdt: array<byte>, nodeoffset: int, name: bytes, val: bytes, ghost top: Body, ghost k: int)
    returns (err: int, ghost top': Body)
    requires Editable(fdt[..], top) && name != [] && 0 !in name && |val| < TWO31
    requires RwErr(Hdr(fdt[..])) == 0 ==> Target(View(fdt[..]).stru, top, nodeoffset, k)
    modifies fdt
    ensures RwErr(old(Hdr(fdt[..]))) != 0 ==> err == RwErr(old(Hdr(fdt[..]))) && fdt[..] == old(fdt[..])
    ensures RwErr(old(Hdr(fdt[..]))) == 0 && k < 0 ==> err == BADOFFSET && Kept(old(View(fdt[..])), fdt[..], top, top')
    ensures RwErr(old(Hdr(fdt[..]))) == 0 && k >= 0 ==>
              var v := old(View(fdt[..]));
              && k < Total(Erase(top, v.strs))
              && PropSet(v, fdt[..], top, top', k, name, val, false, err)
  {
    hide Hdr, Flat, Wf, Named, Encodes, Target, RwErr, Grown, View, Ordered, PropSet;
    top' := top;
    err := RwCheckHeader(fdt, top);
    if err != 0 {
      return;
    }
    EncodesReady(fdt[..], top);
    HeaderKept(old(fdt[..]), fdt[..], top);
    err, top' := SetChecked(fdt, nodeoffset, name, val, old(View(fdt[..])), top, k);
  }

  /** The property that was there has a longer value. */
  lemma {:induction false} AppendDone(v: Parts, w: Parts, s: bytes, top: Body, k: nat, name: bytes, c: Body, po: nat, p: Body,
                                      val: bytes, gap: bytes)
    returns (top': Body)
    requires RwErr(v.hdr) == 0 && v.hdr.sizeStrings == |v.strs| < TWO31
    requires Wf(top, true) && v.stru == Flat(top, true) && PropHere(top, k, v.strs, name, c, po, p)
    requires Opened(Checked(v, v.strs), w, BodyOff(top, k) + po, PropSize(p.val), p.nameoff, |p.val| + |val|, gap)
    requires p.val <= gap
    requires BodyOff(top, k) + po + 12 + |p.val| + |val| <= |w.stru|
    requires Layout(s) && View(s) == w.(stru := Patch(w.stru, BodyOff(top, k) + po + 12 + |p.val|, val))
    ensures var delta := Align4(|p.val| + |val|) - Align4(|p.val|);
      Grown(v, s, delta, top', v.strs) && MovedBy(top, top', k, delta)
    ensures k < Total(Erase(top, v.strs)) && Erase(top', v.strs) == Trees.AppendProp(Erase(top, v.strs), k, name, val)
  {
    hide Hdr, Flat, Wf, Named, Erase, MovedBy, Splice, BodyOff, FlatProp, View, Align4, Opened, Patch, Grown, Spliced, Replace;
    var q, val' := BodyOff(top, k) + po, p.val + val;
    FillTwice(w.stru, q + 12, gap, p.val, val, Checked(v, v.strs), w, q, PropSize(p.val), p.nameoff);
    Completed(Checked(v, v.strs), w, q, PropSize(p.val), p.nameoff, val', gap, View(s));
    OpenedGap(Checked(v, v.strs), w, q, PropSize(p.val), p.nameoff, |val'|, gap);
    var pad := gap[|val'|..];
    top' := SetPlan(top, k, v.strs, name, c, po, p, val', pad);
    Commit(v, v.strs, s, top, top', k, po, PropSize(p.val), FlatProp(p.nameoff, val', pad));
    AppendTree(top, k, v.strs, name, c, po, p, val);
  }

  /** Where the old value still stands, copying behind it stores the whole new value. */
  lemma FillTwice(st: bytes, o: nat, gap: bytes, old_: bytes, val: bytes, v: Parts, w: Parts, q: nat, m: nat, nameoff: u32)
    requires Opened(v, w, q, m, nameoff, |old_| + |val|, gap) && old_ <= gap && st == w.stru && o == q + 12
    ensures o + |old_| + |val| <= |st|
    ensures Patch(st, o + |old_|, val) == Patch(st, o, old_ + val)
  {
    hide PropHead;
    assert st[o..o + |gap|] == gap;
    assert st[..o + |old_|] == st[..o] + old_;
  }

  lemma {:induction false} AppendTree(top: Body, k: nat, strs: bytes, name: bytes, c: Body, po: nat, p: Body, val: bytes)
    requires PropHere(top, k, strs, name, c, po, p) && k < Total(Erase(top, strs))
    ensures Trees.AppendProp(Erase(top, strs), k, name, val) == Trees.SetProp(Erase(top, strs), k, name, p.val + val)
  {
    hide Flat, Wf, Named, StrAt, Replace;
    FoundProp(top, k, strs, name);
    EraseNode(top, strs, k);
    AppendIsSet(c, po, val, strs, name);
  }

  /** fdt_appendprop. */
  method AppendProp(fdt: array<byte>, nodeoffset: int, name: bytes, val: bytes, ghost top: Body, ghost k: int)
    returns (err: int, ghost top': Body)
    requires Editable(fdt[..], top) && name != [] && 0 !in name && |val| + Hdr(fdt[..]).sizeStruct < TWO31
    requires RwErr(Hdr(fdt[..])) == 0 ==> Target(View(fdt[..]).stru, top, nodeoffset, k)
    modifies fdt
    ensures RwErr(old(Hdr(fdt[..]))) != 0 ==> err == RwErr(old(Hdr(fdt[..]))) && fdt[..] == old(fdt[..])
    ensures RwErr(old(Hdr(fdt[..]))) == 0 && k < 0 ==> err == BADOFFSET && Kept(old(View(fdt[..])), fdt[..], top, top')
    ensures RwErr(old(Hdr(fdt[..]))) == 0 && k >= 0 ==>
              var v := old(View(fdt[..]));
              && k < Total(Erase(top, v.strs))
              && PropSet(v, fdt[..], top, top', k, name, val, true, err)
  {
    hide Hdr, Flat, Wf, Named, MovedBy, Erase, IndexOf, Encodes, Splice, BodyOff, PropHere, PropEdit, Target, RwErr, Grown,
      View, Ordered, PropBytes, Align4, FlatProp, Intern, FindProp, Opened, Trees.AppendProp;
    top' := top;
    err := RwCheckHeader(fdt, top);
    if err != 0 {
      return;
    }
    ghost var s := fdt[..];
    EncodesReady(s, top);
    HeaderKept(old(fdt[..]), s, top);
    var prop, oldlen;
    ghost var c, po, p;
    prop, oldlen, c, po, p := GetPropertyW(fdt, nodeoffset, name, top, k);
    if prop != -1 {
      PropLen(View(s).stru, prop, p);
      err, top' := ExtendValue(fdt, prop, oldlen, val, old(View(fdt[..])), top, k, name, c, po, p);
    } else {
      err, top' := AddValue(fdt, nodeoffset, name, val, old(View(fdt[..])), top, k);
    }
  }

  lemma PropLen(st: bytes, o: nat, p: Body)
    requires PropBytes(st, o, p)
    ensures p.Prop? && |p.val| <= |st|
  {
    hide PropHead;
  }

  /** The other branch of fdt_appendprop: a new property with its value. */
  method AddValue(fdt: array<byte>, nodeoffset: int, name: bytes, val: bytes, ghost v: Parts, ghost top: Body, ghost k: int)
    returns (err: int, ghost top': Body)
    requires Encodes(fdt[..], top) && Target(View(fdt[..]).stru, top, nodeoffset, k)
    requires RwErr(v.hdr) == 0 && v.hdr.sizeStrings == |v.strs| && View(fdt[..]) == Checked(v, v.strs)
    requires v.stru == Flat(top, true) && name != [] && 0 !in name && |val| < TWO31
    requires k >= 0 ==> k < Count(top) && FindProp(NodeAt(top, k).body, v.strs, name) == Absent
    modifies fdt
    ensures k < 0 ==> err == BADOFFSET && top' == top && fdt[..] == old(fdt[..])
    ensures k >= 0 ==>
      var t, delta := Intern(v.strs, name).0, 12 + Align4(|val|);
      var n := |t| - |v.strs|;
      if n > Slack(v.hdr) then err == NOSPACE && top' == top && fdt[..] == old(fdt[..])
      else if n + delta > Slack(v.hdr) then err == NOSPACE && top' == top && Grown(v, fdt[..], 0, top, t)
      else
        && err == 0 && Grown(v, fdt[..], delta, top', t) && MovedBy(top, top', k, delta)
        && k < Total(Erase(top, v.strs)) && Erase(top', t) == Trees.AppendProp(Erase(top, v.strs), k, name, val)
  {
    hide Hdr, Flat, Wf, Named, MovedBy, Erase, IndexOf, Encodes, Splice, BodyOff, PropHere, PropEdit, Target, RwErr, Grown,
      View, Ordered, PropBytes, Align4, FlatProp, Intern, FindProp, Opened, Trees.AppendProp;
    top' := top;
    var prop;
    ghost var gap, s := [], fdt[..];
    EncodesReady(s, top);
    Roomy(s);
    InternBounds(s, name);
    InternReads(v.strs, name);
    err, prop, gap := AddProperty(fdt, nodeoffset, name, |val|, top, k);
    if err != 0 {
      if k >= 0 && |Intern(v.strs, name).0| - |v.strs| <= Slack(v.hdr) {
        OnlyStrings(v, Intern(v.strs, name).0, fdt[..], top);
      }
      return;
    }
    top' := StoreValue(fdt, prop, val, v, top, k, name, true, Close, 0, Close, gap);
  }

  /** The splice, the new length and the copy of fdt_appendprop on a property that is there. */
  method ExtendValue(fdt: array<byte>, prop: nat, oldlen: nat, val: bytes, ghost v: Parts, ghost top: Body, ghost k: nat,
                     ghost name: bytes, ghost c: Body, ghost po: nat, ghost p: Body)
    returns (err: int, ghost top': Body)
    requires Layout(fdt[..]) && v.hdr.sizeStrings == |v.strs| < TWO31 && View(fdt[..]) == Checked(v, v.strs)
    requires PropBytes(View(fdt[..]).stru, prop, p) && oldlen == |p.val| && |val| + oldlen < TWO31
    requires RwErr(v.hdr) == 0
    requires Wf(top, true) && v.stru == Flat(top, true) && PropHere(top, k, v.strs, name, c, po, p)
    requires prop == BodyOff(top, k) + po
    modifies fdt
    ensures var delta := Align4(oldlen + |val|) - Align4(oldlen);
      if delta > Slack(v.hdr) then err == NOSPACE && top' == top && fdt[..] == old(fdt[..])
      else
        && err == 0 && Grown(v, fdt[..], delta, top', v.strs) && MovedBy(top, top', k, delta)
        && k < Total(Erase(top, v.strs)) && Erase(top', v.strs) == Trees.AppendProp(Erase(top, v.strs), k, name, val)
  {
    hide Hdr, Flat, Wf, Named, MovedBy, Erase, Splice, BodyOff, RwErr, Grown, View, Ordered, PropBytes, Align4, PropHead;
    ghost var gap;
    top' := top;
    err, gap := Reshape(fdt, prop, oldlen, oldlen + |val|, p);
    if err != 0 {
      return;
    }
    ghost var w := View(fdt[..]);
    OpenedFits(Checked(v, v.strs), w, prop, PropSize(p.val), p.nameoff, oldlen + |val|, gap);
    StoreBytes(fdt, prop + 12 + oldlen, val);
    top' := AppendDone(v, w, fdt[..], top, k, name, c, po, p, val, gap);
  }
}
