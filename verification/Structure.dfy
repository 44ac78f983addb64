/** The structure block (section 5.4 of the Devicetree Specification): its tags, the lexer's view of
    them, and the nested contents that a well-formed block encodes. */
module Structure {
  import opened Bytes

  const BEGIN_NODE: u32 := 1
  const END_NODE: u32 := 2
  const PROP: u32 := 3
  const NOP: u32 := 4
  const END: u32 := 9

  // ---------------------------------------------------------------------------
  // Contents
  // ---------------------------------------------------------------------------

  /** What follows a point of the structure block up to the end of the enclosing node: the tags in
      order, padding bytes included. Close is the node's END_NODE tag, Eof the END tag of the block. */
  datatype Body =
    | Close
    | Eof
    | Nop(rest: Body)
    | Prop(nameoff: u32, val: bytes, pad: bytes, rest: Body)
    | Sub(name: bytes, npad: bytes, body: Body, rest: Body)

  function BeginSize(name: bytes): (n: nat)
    ensures n >= 8
  {
    4 + Align4(|name| + 1)
  }

  function PropSize(val: bytes): (n: nat)
    ensures n >= 12
  {
    12 + Align4(|val|)
  }

  function Size(b: Body): (n: nat)
    ensures n >= 4
  {
    match b
    case Close => 4
    case Eof => 4
    case Nop(r) => 4 + Size(r)
    case Prop(_, v, _, r) => PropSize(v) + Size(r)
    case Sub(n, _, c, r) => BeginSize(n) + Size(c) + Size(r)
  }

  /** Sizes of the variable parts; a property never follows a subnode; only the outermost level ends in Eof. */
  predicate Wf(b: Body, top: bool) {
    match b
    case Close => !top
    case Eof => top
    case Nop(r) => Wf(r, top)
    case Prop(_, v, p, r) => |v| < TWO31 && |p| == Align4(|v|) - |v| && Wf(r, top)
    case Sub(n, p, c, r) =>
      0 !in n && |p| == Align4(|n| + 1) - (|n| + 1) && Wf(c, false) && Wf(r, top) && NoProps(r)
  }

  predicate NoProps(b: Body) {
    match b
    case Close => true
    case Eof => true
    case Nop(r) => NoProps(r)
    case Prop(_, _, _, _) => false
    case Sub(_, _, _, r) => NoProps(r)
  }

  function FlatBegin(name: bytes, pad: bytes): bytes {
    Cell(BEGIN_NODE) + name + [0] + pad
  }

  function FlatProp(nameoff: u32, val: bytes, pad: bytes): bytes
    requires |val| < TWO31
  {
    Cell(PROP) + Cell(|val|) + Cell(nameoff) + val + pad
  }

  function HeadTag(b: Body): u32 {
    match b
    case Close => END_NODE
    case Eof => END
    case Nop(_) => NOP
    case Prop(_, _, _, _) => PROP
    case Sub(_, _, _, _) => BEGIN_NODE
  }

  function HeadSize(b: Body): nat {
    match b
    case Close => 4
    case Eof => 4
    case Nop(_) => 4
    case Prop(_, v, _, _) => PropSize(v)
    case Sub(n, _, _, _) => BeginSize(n)
  }

  /** The encoding of the first tag of b alone. */
  function HeadFlat(b: Body, top: bool): (s: bytes)
    requires Wf(b, top)
    ensures |s| == HeadSize(b)
  {
    match b
    case Close => Cell(END_NODE)
    case Eof => Cell(END)
    case Nop(_) => Cell(NOP)
    case Prop(o, v, p, _) => FlatProp(o, v, p)
    case Sub(n, p, _, _) => FlatBegin(n, p)
  }

  /** The bytes that encode b. */
  function Flat(b: Body, top: bool): (s: bytes)
    requires Wf(b, top)
    ensures |s| == Size(b)
  {
    match b
    case Close => HeadFlat(b, top)
    case Eof => HeadFlat(b, top)
    case Nop(r) => HeadFlat(b, top) + Flat(r, top)
    case Prop(o, v, p, r) => HeadFlat(b, top) + Flat(r, top)
    case Sub(n, p, c, r) => HeadFlat(b, top) + Flat(c, false) + Flat(r, top)
  }

  lemma Sum4(a: nat, b: nat)
    requires a % 4 == 0 && b % 4 == 0
    ensures (a + b) % 4 == 0
  {
  }

  lemma {:induction false} HeadAligned(b: Body)
    ensures HeadSize(b) % 4 == 0
  {
  }

  lemma {:induction false} SizeAligned(b: Body)
    ensures Size(b) % 4 == 0
  {
    hide BeginSize, PropSize;
    HeadAligned(b);
    match b
    case Close =>
    case Eof =>
    case Nop(r) =>
      SizeAligned(r);
      Sum4(4, Size(r));
    case Prop(_, v, _, r) =>
      SizeAligned(r);
      Sum4(PropSize(v), Size(r));
    case Sub(n, _, c, r) =>
      SizeAligned(c);
      SizeAligned(r);
      Sum4(BeginSize(n), Size(c));
      Sum4(BeginSize(n) + Size(c), Size(r));
  }

  // ---------------------------------------------------------------------------
  // Lexing
  // ---------------------------------------------------------------------------

  datatype Lexed = Lexed(tag: u32, next: int)

  const TRUNCATED_TAG := Lexed(END, -8)
  const BAD_TAG := Lexed(END, -11)

  /** Position of the first NUL at or after o, or |s| if there is none. */
  function NulFrom(s: bytes, o: nat): (z: nat)
    requires o <= |s|
    ensures o <= z <= |s|
    ensures forall i :: o <= i < z ==> s[i] != 0
    ensures z < |s| ==> s[z] == 0
    decreases |s| - o
  {
    if o == |s| || s[o] == 0 then o else NulFrom(s, o + 1)
  }

  /** A 32-bit sum read back as a signed int. */
  function Int32(x: nat): int {
    var w := x % TWO32;
    if w < TWO31 then w else w - TWO32
  }

  /** fdt_next_tag on a structure block of fewer than 2^31 bytes, with its 32-bit arithmetic. */
  function TagAt(st: bytes, start: nat): (r: Lexed) {
    if start + 4 > |st| then TRUNCATED_TAG
    else
      var tag := Be32(st, start);
      if tag == BEGIN_NODE then
        var z := NulFrom(st, start + 4);
        if z == |st| then BAD_TAG else TagEnd(st, start, tag, z + 1)
      else if tag == PROP then
        if start + 8 > |st| then BAD_TAG
        else TagEnd(st, start, tag, Int32(start + 12 + Be32(st, start + 4)))
      else if tag == END || tag == END_NODE || tag == NOP then TagEnd(st, start, tag, start + 4)
      else BAD_TAG
  }

  /** The closing bounds check: the tag and its payload must lie inside the block. */
  function TagEnd(st: bytes, start: nat, tag: u32, end: int): Lexed {
    if start <= end <= |st| then Lexed(tag, Align4(end)) else BAD_TAG
  }

  /** Every accepted tag moves an aligned scan forward by at least one cell, unless it is a property
      whose length field is 2^32 - 12: exactly then the scan stays where it is. */
  lemma LexerProgress(st: bytes, start: nat)
    requires |st| < TWO31 && start % 4 == 0
    requires TagAt(st, start).next >= 0
    ensures TagAt(st, start).next % 4 == 0
    ensures TagAt(st, start).next >= start
    ensures TagAt(st, start).next == start <==>
            Be32(st, start) == PROP && Be32(st, start + 4) == TWO32 - 12
  {
  }

  // ---------------------------------------------------------------------------
  // Scanning: the rest of the block, seen from a tag, is a stack of contents
  // ---------------------------------------------------------------------------

  /** The contents still ahead of a scan, innermost node first; the last frame is the outermost level. */
  datatype Stack = Bottom | Frame(b: Body, up: Stack)

  predicate WfS(stk: Stack) {
    stk.Bottom? || (Wf(stk.b, stk.up.Bottom?) && WfS(stk.up))
  }

  function SizeS(stk: Stack): nat {
    if stk.Bottom? then 0 else Size(stk.b) + SizeS(stk.up)
  }

  function FlatS(stk: Stack): (s: bytes)
    requires WfS(stk)
    ensures |s| == SizeS(stk)
  {
    if stk.Bottom? then [] else Flat(stk.b, stk.up.Bottom?) + FlatS(stk.up)
  }

  /** Number of frames: one more than the depth of a node that starts here. */
  function Height(stk: Stack): nat {
    if stk.Bottom? then 0 else 1 + Height(stk.up)
  }

  /** The scan position o of the block st has exactly the tags of stk ahead. */
  predicate On(st: bytes, o: nat, stk: Stack) {
    && o <= |st| < TWO31 && o % 4 == 0
    && WfS(stk)
    && FlatS(stk) <= st[o..]
  }

  /** The stack after one tag. */
  function Step(stk: Stack): Stack
    requires stk.Frame?
  {
    match stk.b
    case Close => stk.up
    case Eof => stk.up
    case Nop(r) => Frame(r, stk.up)
    case Prop(_, _, _, r) => Frame(r, stk.up)
    case Sub(_, _, c, r) => Frame(c, Frame(r, stk.up))
  }

  lemma {:induction false} StepFlat(stk: Stack)
    requires stk.Frame? && WfS(stk)
    ensures Wf(stk.b, stk.up.Bottom?)
    ensures WfS(Step(stk))
    ensures SizeS(stk) == HeadSize(stk.b) + SizeS(Step(stk))
    ensures FlatS(stk) == HeadFlat(stk.b, stk.up.Bottom?) + FlatS(Step(stk))
  {
    hide HeadFlat;
    var h, u := HeadFlat(stk.b, stk.up.Bottom?), FlatS(stk.up);
    match stk.b
    case Close =>
    case Eof =>
    case Nop(r) => Assoc(h, Flat(r, stk.up.Bottom?), u);
    case Prop(_, _, _, r) => Assoc(h, Flat(r, stk.up.Bottom?), u);
    case Sub(_, _, c, r) =>
      Assoc(h, Flat(c, false), Flat(r, stk.up.Bottom?));
      Assoc(h, Flat(c, false) + Flat(r, stk.up.Bottom?), u);
      Assoc(Flat(c, false), Flat(r, stk.up.Bottom?), u);
  }

  lemma Assoc(x: bytes, y: bytes, z: bytes)
    ensures x + y + z == x + (y + z)
  {
  }

  /** A NUL-free string ends at the NUL behind it. */
  lemma NulAt(s: bytes, o: nat, n: bytes)
    requires o + |n| < |s|
    requires s[o..o + |n|] == n && s[o + |n|] == 0 && 0 !in n
    ensures NulFrom(s, o) == o + |n|
    decreases |n|
  {
    if n != [] {
      assert s[o] == s[o..o + |n|][0] == n[0];
      assert s[o + 1..o + |n|] == s[o..o + |n|][1..] == n[1..];
      NulAt(s, o + 1, n[1..]);
    }
  }

  /** Slices of a prefix of st[o..] are slices of st. */
  lemma PrefixSlice(st: bytes, o: nat, f: bytes, lo: nat, hi: nat)
    requires o <= |st| && f <= st[o..] && lo <= hi <= |f|
    ensures st[o + lo..o + hi] == f[lo..hi]
  {
    assert st[o..][lo..hi] == f[lo..hi];
  }

  lemma BeginSlices(n: bytes, p: bytes)
    ensures var f := FlatBegin(n, p);
      && |f| == 5 + |n| + |p|
      && f[0..4] == Cell(BEGIN_NODE) && f[4..4 + |n|] == n && f[4 + |n|..5 + |n|] == [0]
  {
    hide Cell;
  }

  lemma PropSlices(no: u32, v: bytes, p: bytes)
    requires |v| < TWO31
    ensures var f := FlatProp(no, v, p);
      && |f| == 12 + |v| + |p|
      && f[0..4] == Cell(PROP) && f[4..8] == Cell(|v|) && f[8..12] == Cell(no) && f[12..12 + |v|] == v
  {
    hide Cell;
  }

  lemma AlignShift(o: nat, x: nat)
    requires o % 4 == 0
    ensures Align4(o + x) == o + Align4(x)
  {
  }

  lemma PropAt(st: bytes, o: nat, no: u32, v: bytes, p: bytes)
    requires o <= |st| && |v| < TWO31
    requires FlatProp(no, v, p) <= st[o..]
    ensures o + 12 + |v| + |p| <= |st|
    ensures Be32(st, o) == PROP && Be32(st, o + 4) == |v| && Be32(st, o + 8) == no
    ensures st[o + 12..o + 12 + |v|] == v
  {
    hide Cell, Be32, FlatProp;
    var f := FlatProp(no, v, p);
    PropSlices(no, v, p);
    PrefixSlice(st, o, f, 0, 4);
    PrefixSlice(st, o, f, 4, 8);
    PrefixSlice(st, o, f, 8, 12);
    PrefixSlice(st, o, f, 12, 12 + |v|);
    Be32At(st, o, PROP);
    Be32At(st, o + 4, |v|);
    Be32At(st, o + 8, no);
  }

  lemma LexProp(st: bytes, o: nat, no: u32, v: bytes, p: bytes)
    requires o <= |st| < TWO31 && o % 4 == 0
    requires |v| < TWO31 && |p| == Align4(|v|) - |v|
    requires FlatProp(no, v, p) <= st[o..]
    ensures TagAt(st, o) == Lexed(PROP, o + PropSize(v))
    ensures Be32(st, o + 4) == |v| && Be32(st, o + 8) == no
    ensures st[o + 12..o + 12 + |v|] == v
  {
    hide Be32, FlatProp, Align4;
    PropAt(st, o, no, v, p);
    AlignShift(o + 12, |v|);
  }

  lemma BeginAt(st: bytes, o: nat, n: bytes, p: bytes)
    requires o <= |st| && 0 !in n
    requires FlatBegin(n, p) <= st[o..]
    ensures o + 5 + |n| + |p| <= |st|
    ensures Be32(st, o) == BEGIN_NODE
    ensures st[o + 4..o + 4 + |n|] == n && NulFrom(st, o + 4) == o + 4 + |n|
  {
    hide Cell, Be32, FlatBegin, NulFrom;
    var f := FlatBegin(n, p);
    BeginSlices(n, p);
    PrefixSlice(st, o, f, 0, 4);
    PrefixSlice(st, o, f, 4, 4 + |n|);
    PrefixSlice(st, o, f, 4 + |n|, 5 + |n|);
    assert st[o + 4 + |n|] == st[o + 4 + |n|..o + 5 + |n|][0];
    Be32At(st, o, BEGIN_NODE);
    NulAt(st, o + 4, n);
  }

  lemma LexBegin(st: bytes, o: nat, n: bytes, p: bytes)
    requires o <= |st| < TWO31 && o % 4 == 0
    requires 0 !in n && |p| == Align4(|n| + 1) - (|n| + 1)
    requires FlatBegin(n, p) <= st[o..]
    ensures TagAt(st, o) == Lexed(BEGIN_NODE, o + BeginSize(n))
    ensures st[o + 4..o + 4 + |n|] == n && NulFrom(st, o + 4) == o + 4 + |n|
  {
    hide Be32, FlatBegin, NulFrom, Align4;
    BeginAt(st, o, n, p);
    AlignShift(o + 4, |n| + 1);
  }

  /** The first tag of b, wherever it stands in a block, is lexed as itself. */
  lemma {:induction false} LexHead(st: bytes, o: nat, b: Body, top: bool)
    requires o <= |st| < TWO31 && o % 4 == 0
    requires Wf(b, top)
    requires HeadFlat(b, top) <= st[o..]
    ensures TagAt(st, o) == Lexed(HeadTag(b), o + HeadSize(b))
  {
    hide FlatProp, FlatBegin, Cell, Be32;
    match b
    case Prop(no, v, p, _) => LexProp(st, o, no, v, p);
    case Sub(n, p, _, _) => LexBegin(st, o, n, p);
    case _ =>
      PrefixSlice(st, o, Cell(HeadTag(b)), 0, 4);
      Be32At(st, o, HeadTag(b));
  }

  /** One lexer step along a stack. */
  lemma {:induction false} LexStep(st: bytes, o: nat, stk: Stack)
    requires On(st, o, stk) && stk.Frame?
    ensures HeadFlat(stk.b, stk.up.Bottom?) <= st[o..]
    ensures TagAt(st, o) == Lexed(HeadTag(stk.b), o + HeadSize(stk.b))
    ensures On(st, o + HeadSize(stk.b), Step(stk))
    ensures SizeS(stk) == HeadSize(stk.b) + SizeS(Step(stk))
  {
    hide HeadFlat, Flat, TagAt, FlatS, SizeS, WfS;
    StepFlat(stk);
    var f, g := HeadFlat(stk.b, stk.up.Bottom?), FlatS(Step(stk));
    assert f <= f + g <= st[o..];
    LexHead(st, o, stk.b, stk.up.Bottom?);
    assert st[o..][|f|..] == st[o + |f|..];
    assert (f + g)[|f|..] == g;
  }
}
