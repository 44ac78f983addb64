/** Edits of a structure block: how replacing a stretch of bytes at a tag boundary edits the tree. */
module Edits {
  import opened Bytes
  import opened Structure
  import opened Nodes
  import opened Trees
  import opened Attrs

  lemma SpliceSplice(s: bytes, o: nat, m: bytes, q: nat, len: nat, d: bytes)
    requires o + |m| <= |s| && s[o..o + |m|] == m && q + len <= |m|
    ensures Splice(s, o, |m|, Splice(m, q, len, d)) == Splice(s, o + q, len, d)
  {
    var a, z := s[..o], s[o + |m|..];
    assert s == a + m + z;
    SpliceMiddle(a, m, z, q, len, d);
  }

  /** The encoding of a node stands at its offset. */
  lemma {:induction false} FlatNode(top: Body, k: nat)
    requires k < Count(top) && Wf(top, true) && Size(top) < TWO31
    ensures Wf(NodeAt(top, k), Outer(top, true, k))
    ensures Off(top, k) + Size(NodeAt(top, k)) <= Size(top)
    ensures Flat(top, true)[Off(top, k)..Off(top, k) + Size(NodeAt(top, k))] == Flat(NodeAt(top, k), Outer(top, true, k))
  {
    hide HeadFlat, Wf, BeginSize, Flat, TagAt;
    WfNode(top, true, k);
    OffInside(top, k);
    var st, o, h := Flat(top, true), Off(top, k), Here(top, Bottom, k);
    assert FlatS(Frame(top, Bottom)) == st;
    HereOn(st, 0, top, Bottom, k);
    HereHeight(top, Bottom, k);
    var f := Flat(h.b, h.up.Bottom?);
    assert f <= FlatS(h) <= st[o..];
    assert st[o..][..|f|] == st[o..o + |f|];
  }

  /** top with new contents for its k-th node. */
  function Refill(top: Body, k: nat, body: Body): Body
    requires k < Count(top)
  {
    var n := NodeAt(top, k);
    Swap(top, k, Sub(n.name, n.npad, body, n.rest))
  }

  lemma {:induction false} RefillWf(top: Body, k: nat, body: Body)
    requires k < Count(top) && Wf(top, true) && Wf(body, false)
    ensures Wf(NodeAt(top, k).body, false)
    ensures Wf(Refill(top, k, body), true)
  {
    var n := NodeAt(top, k);
    WfNode(top, true, k);
    WfSwap(top, true, k, Sub(n.name, n.npad, body, n.rest));
  }

  /** Splicing the contents of a node splices the block at the same bytes. */
  lemma {:induction false} RefillFlat(top: Body, k: nat, body: Body, po: nat, len: nat, d: bytes)
    requires k < Count(top) && Wf(top, true) && Wf(body, false) && Wf(NodeAt(top, k).body, false)
    requires Size(top) < TWO31
    requires po + len <= Size(NodeAt(top, k).body)
    requires Flat(body, false) == Splice(Flat(NodeAt(top, k).body, false), po, len, d)
    ensures Wf(Refill(top, k, body), true)
    ensures BodyOff(top, k) + po + len <= Size(top)
    ensures Flat(Refill(top, k, body), true) == Splice(Flat(top, true), BodyOff(top, k) + po, len, d)
  {
    hide HeadFlat, Flat, Wf, Splice, BeginSize;
    var n := NodeAt(top, k);
    var n' := Sub(n.name, n.npad, body, n.rest);
    var outer := Outer(top, true, k);
    RefillWf(top, k, body);
    WfNode(top, true, k);
    NodeWith(n, body, outer);
    FlatNode(top, k);
    FlatSwap(top, true, k, n');
    FlatOf(n, outer);
    FlatOf(n', outer);
    SpliceMiddle(HeadFlat(n, outer), Flat(n.body, false), Flat(n.rest, outer), po, len, d);
    SpliceSplice(Flat(top, true), Off(top, k), Flat(n, outer), BeginSize(n.name) + po, len, d);
  }

  lemma {:induction false} NodeWith(n: Body, body: Body, outer: bool)
    requires n.Sub? && Wf(n, outer) && NoProps(n) && Wf(body, false)
    ensures Wf(n.body, false) && Wf(n.rest, outer)
    ensures var n' := Sub(n.name, n.npad, body, n.rest);
      Wf(n', outer) && NoProps(n') && HeadFlat(n', outer) == HeadFlat(n, outer) && HeadSize(n) == BeginSize(n.name)
  {
  }

  /** New contents are new properties and children of the node, and nothing else. */
  lemma {:induction false} RefillTree(top: Body, k: nat, body: Body, strs: bytes)
    requires k < Count(top) && Wf(top, true) && Named(top, strs) && Named(body, strs)
    ensures Named(Refill(top, k, body), strs)
    ensures k < Total(Erase(top, strs))
    ensures var n := NodeOf(Erase(top, strs), k);
      && n.props == Props(NodeAt(top, k).body, strs) && n.kids == Erase(NodeAt(top, k).body, strs)
      && Erase(Refill(top, k, body), strs) ==
         Replace(Erase(top, strs), k, n.(props := Props(body, strs), kids := Erase(body, strs)))
  {
    var n := NodeAt(top, k);
    var n' := Sub(n.name, n.npad, body, n.rest);
    WfNode(top, true, k);
    EraseNode(top, strs, k);
    EraseSwap(top, strs, k, n');
    NamedNode(top, strs, k);
    NamedSwap(top, strs, k, n');
  }

  /** Bytes and tree together. */
  lemma {:induction false} RefillEdit(top: Body, k: nat, body: Body, strs: bytes, po: nat, len: nat, d: bytes)
    requires k < Count(top) && Wf(top, true) && Named(top, strs) && Size(top) < TWO31
    requires Wf(NodeAt(top, k).body, false) && Wf(body, false) && Named(body, strs)
    requires po + len <= Size(NodeAt(top, k).body)
    requires Flat(body, false) == Splice(Flat(NodeAt(top, k).body, false), po, len, d)
    ensures var top' := Refill(top, k, body);
      && Wf(top', true) && Named(top', strs)
      && BodyOff(top, k) + po + len <= Size(top)
      && Flat(top', true) == Splice(Flat(top, true), BodyOff(top, k) + po, len, d)
      && k < Total(Erase(top, strs))
      && var n := NodeOf(Erase(top, strs), k);
      && n.props == Props(NodeAt(top, k).body, strs) && n.kids == Erase(NodeAt(top, k).body, strs)
      && Erase(top', strs) == Replace(Erase(top, strs), k, n.(props := Props(body, strs), kids := Erase(body, strs)))
  {
    hide *;
    RefillFlat(top, k, body, po, len, d);
    RefillTree(top, k, body, strs);
  }

  // ---------------------------------------------------------------------------
  // The contents of one node
  // ---------------------------------------------------------------------------

  /** A cut that keeps what followed the tag at po replaces that tag. */
  lemma {:induction false} CutSplice(c: Body, po: nat, new_: Body, len: nat, d: bytes)
    requires Mark(c, po) && Wf(c, false) && Wf(new_, false)
    requires Wf(From(c, po), false)
    requires len <= Size(From(c, po))
    requires Flat(new_, false) == Splice(Flat(From(c, po), false), 0, len, d)
    ensures Wf(Cut(c, po, new_), false)
    ensures Flat(Cut(c, po, new_), false) == Splice(Flat(c, false), po, len, d)
  {
    hide Flat, Splice, Wf;
    CutFlat(c, po, new_);
    SpliceLast(Flat(c, false)[..po], Flat(From(c, po), false), 0, len, d);
  }

  lemma {:induction false} HeadSplice(b: Body, new_: Body, d: bytes)
    requires Wf(b, false) && Wf(new_, false) && (b.Prop? || b.Nop?)
    requires Flat(new_, false) == d + Flat(b.rest, false)
    ensures HeadSize(b) <= Size(b)
    ensures Flat(new_, false) == Splice(Flat(b, false), 0, HeadSize(b), d)
  {
    hide HeadFlat;
    FlatOf(b, false);
    var h, r := HeadFlat(b, false), Flat(b.rest, false);
    assert (h + r)[|h|..] == r;
    assert [] + d == d;
  }

  /** Setting the value of the property at po: the bytes and the property list. */
  lemma {:induction false} SetAt(c: Body, po: nat, val: bytes, pad: bytes, strs: bytes, name: bytes)
    requires Wf(c, false) && Named(c, strs) && FindProp(c, strs, name) == At(po)
    requires |val| < TWO31 && |pad| == Align4(|val|) - |val|
    ensures Mark(c, po) && From(c, po).Prop?
    ensures var p := From(c, po);
      var c' := Cut(c, po, Prop(p.nameoff, val, pad, p.rest));
      && Wf(c', false) && Named(c', strs)
      && po + PropSize(p.val) <= Size(c)
      && Flat(c', false) == Splice(Flat(c, false), po, PropSize(p.val), FlatProp(p.nameoff, val, pad))
      && Props(c', strs) == SetVal(Props(c, strs), name, val)
      && Erase(c', strs) == Erase(c, strs) && Count(c') == Count(c)
  {
    hide FlatProp, StrAt, PropSize, Flat, Align4, Props, Erase, Count, Named;
    FindPropMark(c, strs, name);
    var p := From(c, po);
    var new_ := Prop(p.nameoff, val, pad, p.rest);
    PropWf(c, po, val, pad);
    HeadSplice(p, new_, FlatProp(p.nameoff, val, pad));
    CutSplice(c, po, new_, PropSize(p.val), FlatProp(p.nameoff, val, pad));
    CutNamed(c, strs, po, c);
    NamedRest(p, new_, strs);
    CutNamed(c, strs, po, new_);
    SetAtView(c, po, new_, strs, name);
  }

  lemma {:induction false} SetAtView(c: Body, po: nat, new_: Body, strs: bytes, name: bytes)
    requires Named(c, strs) && FindProp(c, strs, name) == At(po) && Mark(c, po) && From(c, po).Prop?
    requires new_.Prop? && new_.nameoff == From(c, po).nameoff && new_.rest == From(c, po).rest
    ensures var c' := Cut(c, po, new_);
      && Props(c', strs) == SetVal(Props(c, strs), name, new_.val)
      && Erase(c', strs) == Erase(c, strs) && Count(c') == Count(c)
  {
    hide StrAt, PropSize;
    FindPropMark(c, strs, name);
    FindPropIndex(c, strs, name);
    var p := From(c, po);
    CutNamed(c, strs, po, c);
    NamedRest(p, new_, strs);
    CutView(c, strs, po, new_);
    var bef := Before(c, strs, po);
    assert Props(c, strs) == bef + ([PropVal(name, p.val)] + Props(p.rest, strs));
    assert Props(Cut(c, po, new_), strs) == bef + ([PropVal(name, new_.val)] + Props(p.rest, strs));
  }

  lemma {:induction false} NamedRest(p: Body, new_: Body, strs: bytes)
    requires p.Prop? && Named(p, strs) && new_.Prop? && new_.nameoff == p.nameoff && new_.rest == p.rest
    ensures Named(new_, strs) && Named(p.rest, strs)
    ensures Props(p, strs) == [PropVal(StrAt(strs, p.nameoff), p.val)] + Props(p.rest, strs)
    ensures Props(new_, strs) == [PropVal(StrAt(strs, p.nameoff), new_.val)] + Props(p.rest, strs)
    ensures Erase(new_, strs) == Erase(p, strs) && Count(new_) == Count(p)
  {
  }

  lemma {:induction false} PropWf(c: Body, po: nat, val: bytes, pad: bytes)
    requires Wf(c, false) && Mark(c, po) && From(c, po).Prop?
    requires |val| < TWO31 && |pad| == Align4(|val|) - |val|
    ensures var p := From(c, po);
      && Wf(p, false) && Wf(p.rest, false)
      && Wf(Prop(p.nameoff, val, pad, p.rest), false)
      && HeadSize(p) == PropSize(p.val)
      && Flat(Prop(p.nameoff, val, pad, p.rest), false) == FlatProp(p.nameoff, val, pad) + Flat(p.rest, false)
  {
    hide FlatProp;
    CutWf(c, po, c);
  }

  /** Appending to the property at po is setting it to the longer value. */
  lemma {:induction false} AppendIsSet(c: Body, po: nat, val: bytes, strs: bytes, name: bytes)
    requires FindProp(c, strs, name) == At(po)
    ensures Mark(c, po) && From(c, po).Prop?
    ensures AppendVal(Props(c, strs), name, val) == SetVal(Props(c, strs), name, From(c, po).val + val)
  {
    hide StrAt, PropSize;
    FindPropMark(c, strs, name);
    FindPropIndex(c, strs, name);
    CutView(c, strs, po, c);
    assert Props(From(c, po), strs)[0] == PropVal(name, From(c, po).val);
  }

  /** Deleting the property at po. */
  lemma {:induction false} DropAt(c: Body, po: nat, strs: bytes, name: bytes)
    requires Wf(c, false) && Named(c, strs) && FindProp(c, strs, name) == At(po)
    ensures Mark(c, po) && From(c, po).Prop?
    ensures var p := From(c, po);
      var c' := Cut(c, po, p.rest);
      && Wf(c', false) && Named(c', strs)
      && po + PropSize(p.val) <= Size(c)
      && Flat(c', false) == Splice(Flat(c, false), po, PropSize(p.val), [])
      && Props(c', strs) == DropVal(Props(c, strs), name)
      && Erase(c', strs) == Erase(c, strs) && Count(c') == Count(c)
  {
    hide FlatProp, StrAt, PropSize, Flat, Align4;
    FindPropMark(c, strs, name);
    var p := From(c, po);
    CutWf(c, po, c);
    CutNamed(c, strs, po, c);
    assert Flat(p.rest, false) == [] + Flat(p.rest, false);
    CutOut(c, po, p.rest, [], strs, name);
  }

  /** Cells that hold nothing but NOP tags. */
  function NopCells(n: nat): (s: bytes)
    ensures |s| == 4 * n
  {
    if n == 0 then [] else Cell(NOP) + NopCells(n - 1)
  }

  lemma {:induction false} NopsFlat(n: nat, r: Body, top: bool)
    requires Wf(r, top)
    ensures Wf(Nops(n, r), top)
    ensures Flat(Nops(n, r), top) == NopCells(n) + Flat(r, top)
  {
    hide Cell;
    if n > 0 {
      NopsFlat(n - 1, r, top);
      Assoc(Cell(NOP), NopCells(n - 1), Flat(r, top));
    } else {
      assert [] + Flat(r, top) == Flat(r, top);
    }
  }

  /** Overwriting the property at po with NOP tags deletes it as well. */
  lemma {:induction false} BlankAt(c: Body, po: nat, strs: bytes, name: bytes)
    requires Wf(c, false) && Named(c, strs) && FindProp(c, strs, name) == At(po)
    ensures Mark(c, po) && From(c, po).Prop?
    ensures var p := From(c, po);
      var n := PropSize(p.val) / 4;
      var c' := Cut(c, po, Nops(n, p.rest));
      && Wf(c', false) && Named(c', strs)
      && po + PropSize(p.val) <= Size(c)
      && Flat(c', false) == Splice(Flat(c, false), po, PropSize(p.val), NopCells(n))
      && Props(c', strs) == DropVal(Props(c, strs), name)
      && Erase(c', strs) == Erase(c, strs) && Count(c') == Count(c)
  {
    hide FlatProp, StrAt, Flat, Align4, Nops;
    FindPropMark(c, strs, name);
    var p := From(c, po);
    var n := PropSize(p.val) / 4;
    CutWf(c, po, c);
    CutNamed(c, strs, po, c);
    NopsFlat(n, p.rest, false);
    NopsView(n, p.rest, strs, false);
    NopsCount(n, p.rest);
    CutOut(c, po, Nops(n, p.rest), NopCells(n), strs, name);
  }

  lemma {:induction false} NopsCount(n: nat, r: Body)
    ensures Count(Nops(n, r)) == Count(r)
  {
    if n > 0 {
      NopsCount(n - 1, r);
    }
  }

  /** Replacing the property at po by anything that shows nothing. */
  lemma {:induction false} CutOut(c: Body, po: nat, new_: Body, d: bytes, strs: bytes, name: bytes)
    requires Wf(c, false) && Named(c, strs) && FindProp(c, strs, name) == At(po)
    requires Mark(c, po) && From(c, po).Prop?
    requires Wf(From(c, po).rest, false) && Wf(new_, false) && Flat(new_, false) == d + Flat(From(c, po).rest, false)
    requires Props(new_, strs) == Props(From(c, po).rest, strs) && Erase(new_, strs) == Erase(From(c, po).rest, strs)
    requires Count(new_) == Count(From(c, po).rest) && Named(new_, strs)
    ensures var p := From(c, po);
      var c' := Cut(c, po, new_);
      && Wf(c', false) && Named(c', strs)
      && po + PropSize(p.val) <= Size(c)
      && Flat(c', false) == Splice(Flat(c, false), po, PropSize(p.val), d)
      && Props(c', strs) == DropVal(Props(c, strs), name)
      && Erase(c', strs) == Erase(c, strs) && Count(c') == Count(c)
  {
    hide FlatProp, StrAt, PropSize, Flat, Align4, Props, Erase, Count, Named;
    var p := From(c, po);
    PropWf(c, po, p.val, p.pad) by { CutWf(c, po, c); }
    HeadSplice(p, new_, d);
    CutSplice(c, po, new_, PropSize(p.val), d);
    CutNamed(c, strs, po, c);
    NamedRest(p, p, strs);
    CutNamed(c, strs, po, new_);
    CutOutView(c, po, new_, strs, name);
  }

  lemma {:induction false} CutOutView(c: Body, po: nat, new_: Body, strs: bytes, name: bytes)
    requires FindProp(c, strs, name) == At(po)
    requires Mark(c, po) && From(c, po).Prop?
    requires Props(new_, strs) == Props(From(c, po).rest, strs) && Erase(new_, strs) == Erase(From(c, po).rest, strs)
    requires Count(new_) == Count(From(c, po).rest)
    ensures var c' := Cut(c, po, new_);
      && Props(c', strs) == DropVal(Props(c, strs), name)
      && Erase(c', strs) == Erase(c, strs) && Count(c') == Count(c)
  {
    hide StrAt, PropSize;
    FindPropMark(c, strs, name);
    FindPropIndex(c, strs, name);
    var p := From(c, po);
    CutView(c, strs, po, new_);
    var bef := Before(c, strs, po);
    assert Props(c, strs) == bef + ([PropVal(name, p.val)] + Props(p.rest, strs));
    assert DropVal(Props(c, strs), name) == bef + Props(p.rest, strs);
  }

  /** A new property becomes the first. */
  lemma {:induction false} InsertFront(c: Body, nameoff: u32, val: bytes, pad: bytes, strs: bytes, name: bytes)
    requires Wf(c, false) && Named(c, strs) && FindProp(c, strs, name) == Absent
    requires |val| < TWO31 && |pad| == Align4(|val|) - |val|
    requires NameAt(strs, nameoff) && StrAt(strs, nameoff) == name
    ensures var c' := Prop(nameoff, val, pad, c);
      && Wf(c', false) && Named(c', strs)
      && Flat(c', false) == Splice(Flat(c, false), 0, 0, FlatProp(nameoff, val, pad))
      && Props(c', strs) == SetVal(Props(c, strs), name, val) == AppendVal(Props(c, strs), name, val)
      && Erase(c', strs) == Erase(c, strs) && Count(c') == Count(c)
  {
    hide FlatProp, StrAt, NameAt;
    FindPropIndex(c, strs, name);
    SpliceFront(Flat(c, false), FlatProp(nameoff, val, pad));
  }

  lemma SpliceFront(s: bytes, d: bytes)
    ensures Splice(s, 0, 0, d) == d + s
  {
  }

  /** A new child comes right behind the properties. */
  lemma {:induction false} InsertChild(c: Body, name: bytes, pad: bytes, strs: bytes)
    requires Wf(c, false) && Named(c, strs)
    requires 0 !in name && |pad| == Align4(|name| + 1) - (|name| + 1)
    ensures var po := ListEnd(c);
      && Mark(c, po) && po <= Size(c)
      && var c' := Cut(c, po, Sub(name, pad, Close, From(c, po)));
      && Wf(c', false) && Named(c', strs)
      && Flat(c', false) == Splice(Flat(c, false), po, 0, FlatBegin(name, pad) + Cell(END_NODE))
      && Props(c', strs) == Props(c, strs)
      && Erase(c', strs) == Tree(name, [], Nil, Erase(c, strs))
  {
    hide FlatBegin, Cell;
    var po := ListEnd(c);
    ListEndMark(c, strs);
    CutWf(c, po, c);
    var f := From(c, po);
    var new_ := Sub(name, pad, Close, f);
    var d := FlatBegin(name, pad) + Cell(END_NODE);
    EndNoProps(c, f, strs);
    assert Flat(new_, false) == d + Flat(f, false);
    SpliceFront(Flat(f, false), d);
    CutSplice(c, po, new_, 0, d);
    CutNamed(c, strs, po, c);
    CutNamed(c, strs, po, new_);
    CutView(c, strs, po, new_);
  }

  lemma {:induction false} EndNoProps(c: Body, f: Body, strs: bytes)
    requires Wf(f, false) && (f.Close? || f.Eof? || f.Sub?)
    ensures NoProps(f)
  {
  }

  // ---------------------------------------------------------------------------
  // Whole nodes
  // ---------------------------------------------------------------------------

  /** Replacing the first len bytes of the k-th node and its siblings. */
  lemma {:induction false} NodeSplice(top: Body, k: nat, new_: Body, len: nat, d: bytes)
    requires k < Count(top) && Wf(top, true) && Size(top) < TWO31
    requires Wf(NodeAt(top, k), Outer(top, true, k)) && len <= Size(NodeAt(top, k))
    requires Wf(new_, Outer(top, true, k)) && NoProps(new_)
    requires Flat(new_, Outer(top, true, k)) == Splice(Flat(NodeAt(top, k), Outer(top, true, k)), 0, len, d)
    ensures Wf(Swap(top, k, new_), true)
    ensures Off(top, k) + len <= Size(top)
    ensures Flat(Swap(top, k, new_), true) == Splice(Flat(top, true), Off(top, k), len, d)
  {
    hide Flat, Splice;
    FlatNode(top, k);
    FlatSwap(top, true, k, new_);
    SpliceSplice(Flat(top, true), Off(top, k), Flat(NodeAt(top, k), Outer(top, true, k)), 0, len, d);
  }

  /** Span of a node: from its BEGIN_NODE tag to the end of its END_NODE tag. */
  function Span(n: Body): nat
    requires n.Sub?
  {
    BeginSize(n.name) + Size(n.body)
  }

  lemma {:induction false} NodeParts(n: Body, outer: bool)
    requires n.Sub? && Wf(n, outer)
    ensures Wf(n.rest, outer) && NoProps(n.rest)
    ensures Span(n) <= Size(n) && |Flat(n, outer)| == Size(n)
    ensures Flat(n, outer)[Span(n)..] == Flat(n.rest, outer)
  {
    hide HeadFlat, BeginSize;
    FlatOf(n, outer);
    var x, y := HeadFlat(n, outer) + Flat(n.body, false), Flat(n.rest, outer);
    assert (x + y)[|x|..] == y;
  }

  /** The tree edits by whole nodes, on the block: replacing the k-th node and its span by new tags in front
      of its siblings. */
  lemma {:induction false} SpanSplice(top: Body, k: nat, new_: Body, d: bytes)
    requires k < Count(top) && Wf(top, true) && Size(top) < TWO31
    requires Wf(new_, Outer(top, true, k)) && NoProps(new_)
    requires Wf(NodeAt(top, k).rest, Outer(top, true, k))
    requires Flat(new_, Outer(top, true, k)) == d + Flat(NodeAt(top, k).rest, Outer(top, true, k))
    ensures Wf(Swap(top, k, new_), true)
    ensures Off(top, k) + Span(NodeAt(top, k)) <= Size(top)
    ensures Flat(Swap(top, k, new_), true) == Splice(Flat(top, true), Off(top, k), Span(NodeAt(top, k)), d)
  {
    hide Flat, BeginSize;
    var n, outer := NodeAt(top, k), Outer(top, true, k);
    WfNode(top, true, k);
    NodeParts(n, outer);
    assert Splice(Flat(n, outer), 0, Span(n), d) == d + Flat(n.rest, outer);
    NodeSplice(top, k, new_, Span(n), d);
  }

  // ---------------------------------------------------------------------------
  // Where the other nodes go
  // ---------------------------------------------------------------------------

  /** The nodes of c and c' correspond, delta bytes apart. */
  ghost predicate KidsMoved(c: Body, c': Body, delta: int) {
    Count(c') == Count(c) && forall i | 0 <= i < Count(c) :: Off(c', i) == Off(c, i) + delta
  }

  lemma {:induction false} CutMoved(c: Body, po: nat, new_: Body, delta: int)
    requires Mark(c, po) && KidsMoved(From(c, po), new_, delta)
    ensures KidsMoved(c, Cut(c, po, new_), delta)
    decreases c
  {
    hide PropSize;
    if po > 0 {
      var q := if c.Nop? then po - 4 else po - PropSize(c.val);
      CutMoved(c.rest, q, new_, delta);
      var c' := Cut(c, po, new_);
      assert c'.rest == Cut(c.rest, q, new_);
      forall i | 0 <= i < Count(c)
        ensures Off(c', i) == Off(c, i) + delta
      {
        assert Off(c'.rest, i) == Off(c.rest, i) + delta;
      }
    }
  }

  /** Every node up to the k-th keeps its offset, every later one moves by delta. */
  ghost predicate MovedBy(top: Body, top': Body, k: nat, delta: int) {
    Count(top') == Count(top)
    && forall j | 0 <= j < Count(top) :: Off(top', j) == Off(top, j) + if j <= k then 0 else delta
  }

  lemma {:induction false} SwapCount(b: Body, k: nat, new_: Body)
    requires k < Count(b)
    ensures Count(Swap(b, k, new_)) == Count(b) - Count(NodeAt(b, k)) + Count(new_)
    ensures k + Count(NodeAt(b, k)) <= Count(b)
    decreases b
  {
    hide Size, PropSize, BeginSize, Off;
    match b
    case Nop(r) => SwapCount(r, k, new_);
    case Prop(_, _, _, r) => SwapCount(r, k, new_);
    case Sub(_, _, c, r) =>
      if k == 0 {
      } else if k <= Count(c) {
        SwapCount(c, k - 1, new_);
      } else {
        SwapCount(r, k - 1 - Count(c), new_);
      }
  }

  lemma {:induction false} SwapSize(b: Body, k: nat, new_: Body)
    requires k < Count(b)
    ensures Size(Swap(b, k, new_)) == Size(b) - Size(NodeAt(b, k)) + Size(new_)
    decreases b
  {
    hide PropSize, BeginSize, Off;
    match b
    case Nop(r) => SwapSize(r, k, new_);
    case Prop(_, _, _, r) => SwapSize(r, k, new_);
    case Sub(_, _, c, r) =>
      if k == 0 {
      } else if k <= Count(c) {
        SwapSize(c, k - 1, new_);
      } else {
        SwapSize(r, k - 1 - Count(c), new_);
      }
  }

  /** What is ahead at the j-th node of a stack of contents; Bottom if it has fewer nodes. */
  function HereS(stk: Stack, j: nat): Stack {
    if stk.Bottom? then Bottom
    else if j < Count(stk.b) then Here(stk.b, stk.up, j)
    else HereS(stk.up, j - Count(stk.b))
  }

  /** Replacing a node does not change what is ahead of any later one. */
  lemma {:induction false} SwapAhead(b: Body, up: Stack, k: nat, new_: Body, j: nat)
    requires k < Count(b) && k <= j
    ensures HereS(Frame(Swap(b, k, new_), up), j) == HereS(Frame(new_, Here(b, up, k).up), j - k)
    decreases b
  {
    hide HereS;
    match b
    case Nop(r) =>
      SwapAhead(r, up, k, new_, j);
      StepAhead(Swap(b, k, new_), up, j);
    case Prop(_, _, _, r) =>
      SwapAhead(r, up, k, new_, j);
      StepAhead(Swap(b, k, new_), up, j);
    case Sub(n, p, c, r) =>
      if k == 0 {
      } else if k <= Count(c) {
        SwapAhead(c, Frame(r, up), k - 1, new_, j - 1);
        StepAhead(Swap(b, k, new_), up, j);
      } else {
        var r' := Swap(r, k - 1 - Count(c), new_);
        SwapAhead(r, up, k - 1 - Count(c), new_, j - 1 - Count(c));
        StepAhead(Sub(n, p, c, r'), up, j);
        SkipAhead(c, Frame(r', up), j - 1);
      }
  }

  /** The nodes of a stack are those of the stack one tag later, but for the one just entered. */
  lemma {:induction false} StepAhead(b: Body, up: Stack, j: nat)
    ensures b.Nop? || b.Prop? ==> HereS(Frame(b, up), j) == HereS(Frame(b.rest, up), j)
    ensures b.Sub? && j >= 1 ==> HereS(Frame(b, up), j) == HereS(Frame(b.body, Frame(b.rest, up)), j - 1)
  {
    if b.Sub? && j - 1 >= Count(b.body) {
      SkipAhead(b.body, Frame(b.rest, up), j - 1);
    }
  }

  lemma {:induction false} SkipAhead(b: Body, up: Stack, j: nat)
    requires j >= Count(b)
    ensures HereS(Frame(b, up), j) == HereS(up, j - Count(b))
  {
  }

  lemma {:induction false} SwapSelf(b: Body, k: nat)
    requires k < Count(b)
    ensures Swap(b, k, NodeAt(b, k)) == b
    decreases b
  {
    match b
    case Nop(r) => SwapSelf(r, k);
    case Prop(_, _, _, r) => SwapSelf(r, k);
    case Sub(_, _, c, r) =>
      if k == 0 {
      } else if k <= Count(c) {
        SwapSelf(c, k - 1);
      } else {
        SwapSelf(r, k - 1 - Count(c));
      }
  }

  /** Nodes in front of the replaced one keep their offsets. */
  lemma {:induction false} SwapBefore(b: Body, k: nat, new_: Body, j: nat)
    requires j < k < Count(b)
    ensures j < Count(Swap(b, k, new_)) && Off(Swap(b, k, new_), j) == Off(b, j)
    decreases b
  {
    hide PropSize, BeginSize, Size, Off, Here, NodeAt;
    SwapCount(b, k, new_);
    match b
    case Nop(r) =>
      SwapBefore(r, k, new_, j);
      OffTail(b, Swap(b, k, new_), j);
    case Prop(_, _, _, r) =>
      SwapBefore(r, k, new_, j);
      OffTail(b, Swap(b, k, new_), j);
    case Sub(n, p, c, r) =>
      if k <= Count(c) {
        var c' := Swap(c, k - 1, new_);
        if j == 0 {
          OffZero(b);
          OffZero(Sub(n, p, c', r));
        } else {
          SwapBefore(c, k - 1, new_, j - 1);
          OffFirst(n, p, c, c', r, r, j - 1);
        }
      } else {
        var i := k - 1 - Count(c);
        var r' := Swap(r, i, new_);
        if j == 0 {
          OffZero(b);
          OffZero(Sub(n, p, c, r'));
        } else if j <= Count(c) {
          OffFirst(n, p, c, c, r, r', j - 1);
        } else {
          SwapBefore(r, i, new_, j - 1 - Count(c));
          OffSecond(n, p, c, r, r', j - 1 - Count(c));
        }
      }
  }

  lemma {:induction false} OffZero(b: Body)
    requires b.Sub?
    ensures Off(b, 0) == 0
  {
  }

  lemma {:induction false} OffTail(b: Body, b': Body, j: nat)
    requires (b.Nop? && b'.Nop?) || (b.Prop? && b'.Prop? && b'.val == b.val)
    requires j < Count(b.rest) && j < Count(b'.rest) && Off(b.rest, j) == Off(b'.rest, j)
    ensures Off(b, j) == Off(b', j)
  {
  }

  lemma {:induction false} OffFirst(n: bytes, p: bytes, c: Body, c': Body, r: Body, r': Body, i: nat)
    requires i < Count(c) && i < Count(c') && Off(c, i) == Off(c', i)
    ensures Off(Sub(n, p, c', r'), i + 1) == Off(Sub(n, p, c, r), i + 1)
  {
  }

  lemma {:induction false} OffSecond(n: bytes, p: bytes, c: Body, r: Body, r': Body, i: nat)
    requires i < Count(r) && i < Count(r') && Off(r, i) == Off(r', i)
    ensures Off(Sub(n, p, c, r'), i + 1 + Count(c)) == Off(Sub(n, p, c, r), i + 1 + Count(c))
  {
  }

  /** Nodes inside the replacement stand where it does. */
  lemma {:induction false} SwapInside(b: Body, k: nat, new_: Body, i: nat)
    requires k < Count(b) && i < Count(new_)
    ensures k + i < Count(Swap(b, k, new_)) && Off(Swap(b, k, new_), k + i) == Off(b, k) + Off(new_, i)
  {
    hide Swap, Size, Off, Here, PropSize, BeginSize;
    SwapCount(b, k, new_);
    SwapSize(b, k, new_);
    SwapAhead(b, Bottom, k, new_, k + i);
    HereSize(Swap(b, k, new_), Bottom, k + i);
    HereSize(new_, Here(b, Bottom, k).up, i);
    HereSize(b, Bottom, k);
  }

  /** Nodes behind the replaced one move by the difference in size. */
  lemma {:induction false} SwapBehind(b: Body, k: nat, new_: Body, j: nat)
    requires k < Count(b) && k + Count(NodeAt(b, k)) <= j < Count(b)
    ensures var j' := j - Count(NodeAt(b, k)) + Count(new_);
      && 0 <= j' < Count(Swap(b, k, new_))
      && Off(Swap(b, k, new_), j') == Off(b, j) + Size(new_) - Size(NodeAt(b, k))
  {
    hide Swap, Size, Off, Here, PropSize, BeginSize;
    var n := NodeAt(b, k);
    var j' := j - Count(n) + Count(new_);
    SwapCount(b, k, new_);
    SwapSize(b, k, new_);
    SwapAhead(b, Bottom, k, new_, j');
    SwapSelf(b, k);
    SwapAhead(b, Bottom, k, n, j);
    HereSize(Swap(b, k, new_), Bottom, j');
    HereSize(b, Bottom, j);
  }

  /** The same seen from the contents of a node. */
  lemma {:induction false} RefillOff(top: Body, k: nat, body: Body, j: nat)
    requires k < Count(top) && j < Count(top)
    ensures var c, top' := NodeAt(top, k).body, Refill(top, k, body);
      && Count(top') == Count(top) - Count(c) + Count(body)
      && k + Count(c) < Count(top)
      && (j <= k ==> Off(top', j) == Off(top, j))
      && (j > k + Count(c) ==> Off(top', j - Count(c) + Count(body)) == Off(top, j) + Size(body) - Size(c))
  {
    hide PropSize, BeginSize, Swap, Off, Here;
    var n := NodeAt(top, k);
    var n' := Sub(n.name, n.npad, body, n.rest);
    SwapCount(top, k, n');
    if j < k {
      SwapBefore(top, k, n', j);
    } else if j < k + Count(n) {
      if j == k || j > k + Count(n.body) {
        SwapSelf(top, k);
        SwapInside(top, k, n, j - k);
        SubInside(n, n', j - k);
        SwapInside(top, k, n', if j == k then 0 else j - k - Count(n.body) + Count(body));
      }
    } else {
      SwapBehind(top, k, n', j);
    }
  }

  lemma {:induction false} SubInside(n: Body, n': Body, i: nat)
    requires n.Sub? && n'.Sub? && n'.name == n.name && n'.rest == n.rest && i < Count(n)
    ensures i == 0 ==> Off(n, 0) == Off(n', 0) == 0
    ensures i > Count(n.body) ==>
              var i' := i - Count(n.body) + Count(n'.body);
              i' < Count(n') && Off(n', i') == Off(n, i) + Size(n'.body) - Size(n.body)
  {
    hide PropSize, BeginSize, Size;
  }

  /** A node of the new contents. */
  lemma {:induction false} RefillInside(top: Body, k: nat, body: Body, i: nat)
    requires k < Count(top) && i < Count(body)
    ensures var top' := Refill(top, k, body);
      k + 1 + i < Count(top') && Off(top', k + 1 + i) == BodyOff(top, k) + Off(body, i)
  {
    hide PropSize, BeginSize, Size, Swap;
    var n := NodeAt(top, k);
    SwapInside(top, k, Sub(n.name, n.npad, body, n.rest), i + 1);
  }

  lemma {:induction false} RefillMoves(top: Body, k: nat, body: Body)
    requires k < Count(top)
    requires KidsMoved(NodeAt(top, k).body, body, Size(body) - Size(NodeAt(top, k).body))
    ensures MovedBy(top, Refill(top, k, body), k, Size(body) - Size(NodeAt(top, k).body))
  {
    hide Off, Count, Size, Swap;
    var c := NodeAt(top, k).body;
    var delta := Size(body) - Size(c);
    RefillOff(top, k, body, k);
    forall j | 0 <= j < Count(top)
      ensures Off(Refill(top, k, body), j) == Off(top, j) + if j <= k then 0 else delta
    {
      RefillOff(top, k, body, j);
      if k < j <= k + Count(c) {
        OffBelow(top, k, j - k - 1);
        RefillInside(top, k, body, j - k - 1);
        assert Off(body, j - k - 1) == Off(c, j - k - 1) + delta;
      }
    }
  }

  /** A position in the property list of the k-th node, in the block. */
  lemma {:induction false} FoundProp(top: Body, k: nat, strs: bytes, name: bytes)
    requires k < Count(top) && Wf(top, true) && Named(top, strs)
    ensures Wf(NodeAt(top, k).body, false) && Named(NodeAt(top, k).body, strs)
    ensures k < Total(Erase(top, strs))
    ensures var c, n := NodeAt(top, k).body, NodeOf(Erase(top, strs), k);
      var i := IndexOf(n.props, name);
      match FindProp(c, strs, name)
      case Absent => i == |n.props|
      case At(po) => i < |n.props| && Mark(c, po) && From(c, po).Prop? && From(c, po).val == n.props[i].val
  {
    hide StrAt, PropSize;
    var c := NodeAt(top, k).body;
    WfNode(top, true, k);
    NamedNode(top, strs, k);
    EraseCount(top, strs);
    EraseNode(top, strs, k);
    FindPropMark(c, strs, name);
    FindPropIndex(c, strs, name);
    match FindProp(c, strs, name)
    case Absent =>
    case At(po) =>
      CutView(c, strs, po, c);
      NamedFrom(c, strs, po);
      NamedRest(From(c, po), From(c, po), strs);
  }

  /** The property called name stands at po in the contents c of the k-th node. */
  ghost predicate PropHere(top: Body, k: nat, strs: bytes, name: bytes, c: Body, po: nat, p: Body) {
    && k < Count(top) && Wf(top, true) && Named(top, strs) && Size(top) < TWO31
    && c == NodeAt(top, k).body && FindProp(c, strs, name) == At(po)
    && Mark(c, po) && From(c, po) == p && p.Prop?
  }

  /** An edit of the property at po took len bytes out of the block there and put d in. */
  ghost predicate PropEdit(top: Body, top': Body, k: nat, strs: bytes, po: nat, len: nat, d: bytes) {
    && k < Count(top) && Wf(top, true) && Wf(top', true) && Named(top', strs)
    && BodyOff(top, k) + po + len <= Size(top)
    && Flat(top', true) == Splice(Flat(top, true), BodyOff(top, k) + po, len, d)
    && MovedBy(top, top', k, |d| - len)
  }

  /** New contents for the k-th node, by a cut of its property list at po. */
  lemma {:induction false} CutPlan(top: Body, k: nat, strs: bytes, name: bytes, c: Body, po: nat, p: Body, new_: Body, len: nat, d: bytes)
    returns (top': Body)
    requires PropHere(top, k, strs, name, c, po, p)
    requires KidsMoved(p, new_, |d| - len)
    requires var c' := Cut(c, po, new_);
      && Wf(c', false) && Named(c', strs) && Wf(c, false) && po + len <= Size(c)
      && Flat(c', false) == Splice(Flat(c, false), po, len, d)
    ensures PropEdit(top, top', k, strs, po, len, d)
    ensures k < Total(Erase(top, strs))
    ensures var n := NodeOf(Erase(top, strs), k);
      && n.props == Props(c, strs) && n.kids == Erase(c, strs)
      && Erase(top', strs) == Replace(Erase(top, strs), k, n.(props := Props(Cut(c, po, new_), strs), kids := Erase(Cut(c, po, new_), strs)))
  {
    hide Flat, Wf, Named, Erase, Props, StrAt, Splice, MovedBy, Off, Replace, Swap, KidsMoved, FindProp, Mark, From, Cut,
      Count, Size, Refill, BodyOff;
    var c' := Cut(c, po, new_);
    RefillEdit(top, k, c', strs, po, len, d);
    top' := Refill(top, k, c');
    CutMoved(c, po, new_, |d| - len);
    assert Size(c') == |Flat(c', false)| && Size(c) == |Flat(c, false)|;
    RefillMoves(top, k, c');
  }

  /** fdt_delprop on the structure block. */
  lemma {:induction false} DelPlan(top: Body, k: nat, strs: bytes, name: bytes, c: Body, po: nat, p: Body)
    returns (top': Body)
    requires PropHere(top, k, strs, name, c, po, p)
    ensures PropEdit(top, top', k, strs, po, PropSize(p.val), [])
    ensures k < Total(Erase(top, strs)) && Erase(top', strs) == DelProp(Erase(top, strs), k, name)
  {
    hide Flat, Wf, Named, Erase, Props, PropSize, StrAt, Splice, Replace, KidsMoved, FindProp, Mark, From, Cut, PropEdit;
    FoundProp(top, k, strs, name);
    DropAt(c, po, strs, name);
    RestMoved(p);
    top' := CutPlan(top, k, strs, name, c, po, p, p.rest, PropSize(p.val), []);
  }

  lemma {:induction false} RestMoved(p: Body)
    requires p.Prop?
    ensures KidsMoved(p, p.rest, 0 - PropSize(p.val))
  {
  }

  /** The header of a property in the block: tag, length, name offset. */
  function PropHead(nameoff: u32, len: u32): (s: bytes)
    ensures |s| == 12
  {
    Cell(PROP) + Cell(len) + Cell(nameoff)
  }

  lemma HeadData(nameoff: u32, val: bytes, pad: bytes)
    requires |val| < TWO31
    ensures FlatProp(nameoff, val, pad) == PropHead(nameoff, |val|) + (val + pad)
  {
    hide Cell;
  }

  /** fdt_setprop on a property that is there. */
  lemma {:induction false} SetPlan(top: Body, k: nat, strs: bytes, name: bytes, c: Body, po: nat, p: Body, val: bytes, pad: bytes)
    returns (top': Body)
    requires PropHere(top, k, strs, name, c, po, p)
    requires |val| < TWO31 && |pad| == Align4(|val|) - |val|
    ensures PropEdit(top, top', k, strs, po, PropSize(p.val), FlatProp(p.nameoff, val, pad))
    ensures k < Total(Erase(top, strs)) && Erase(top', strs) == SetProp(Erase(top, strs), k, name, val)
  {
    hide Flat, Wf, Named, Erase, Props, StrAt, Splice, Replace, KidsMoved, FindProp, Mark, From, Cut, PropEdit, FlatProp;
    var d := FlatProp(p.nameoff, val, pad);
    FoundProp(top, k, strs, name);
    SetAt(c, po, val, pad, strs, name);
    HeadData(p.nameoff, val, pad);
    var new_ := Prop(p.nameoff, val, pad, p.rest);
    SetMoved(p, new_);
    top' := CutPlan(top, k, strs, name, c, po, p, new_, PropSize(p.val), d);
  }

  lemma {:induction false} SetMoved(p: Body, new_: Body)
    requires p.Prop? && new_.Prop? && new_.rest == p.rest
    ensures KidsMoved(p, new_, PropSize(new_.val) - PropSize(p.val))
  {
  }

  /** fdt_setprop on a property that is not there. */
  lemma {:induction false} AddPlan(top: Body, k: nat, strs: bytes, name: bytes, nameoff: u32, val: bytes, pad: bytes)
    returns (top': Body)
    requires k < Count(top) && Wf(top, true) && Named(top, strs) && Size(top) < TWO31
    requires FindProp(NodeAt(top, k).body, strs, name) == Absent
    requires NameAt(strs, nameoff) && StrAt(strs, nameoff) == name
    requires |val| < TWO31 && |pad| == Align4(|val|) - |val|
    ensures PropEdit(top, top', k, strs, 0, 0, FlatProp(nameoff, val, pad))
    ensures k < Total(Erase(top, strs))
    ensures Erase(top', strs) == SetProp(Erase(top, strs), k, name, val) == AppendProp(Erase(top, strs), k, name, val)
  {
    hide Flat, Wf, Named, Erase, Props, StrAt, Splice, MovedBy, Off, Replace, Swap, KidsMoved, Align4, FlatProp, NameAt;
    var d := FlatProp(nameoff, val, pad);
    var c := NodeAt(top, k).body;
    FoundProp(top, k, strs, name);
    InsertFront(c, nameoff, val, pad, strs, name);
    var c' := Prop(nameoff, val, pad, c);
    HeadData(nameoff, val, pad);
    RefillEdit(top, k, c', strs, 0, 0, d);
    top' := Refill(top, k, c');
    FrontMoved(c, c');
    RefillMoves(top, k, c');
  }

  lemma {:induction false} FrontMoved(c: Body, c': Body)
    requires c'.Prop? && c'.rest == c
    ensures KidsMoved(c, c', PropSize(c'.val))
  {
  }

  /** Resizing the value of a property and correcting its length rewrites the property. */
  lemma ResizeBytes(st: bytes, q: nat, nameoff: u32, old_: bytes, oldlen: u32, gap: bytes, len: u32)
    requires q + 12 + |old_| <= |st|
    requires st[q..q + 12] == PropHead(nameoff, oldlen)
    ensures Patch(Splice(st, q + 12, |old_|, gap), q + 4, Cell(len)) ==
            Splice(st, q, 12 + |old_|, PropHead(nameoff, len) + gap)
  {
    hide Cell;
    var a, z := st[..q], st[q + 12 + |old_|..];
    var h := PropHead(nameoff, oldlen);
    var t := Splice(st, q + 12, |old_|, gap);
    assert st[..q + 12] == a + h;
    assert t == a + h + gap + z;
    assert h[..4] == Cell(PROP) && h[8..] == Cell(nameoff);
    assert t[..q + 4] == a + Cell(PROP);
    assert t[q + 8..] == Cell(nameoff) + gap + z;
    assert Patch(t, q + 4, Cell(len)) == a + Cell(PROP) + Cell(len) + (Cell(nameoff) + gap + z);
  }

  /** Copying bytes into what was spliced in. */
  lemma FillBytes(st: bytes, q: nat, m: nat, h: bytes, gap: bytes, at: nat, d: bytes)
    requires q + m <= |st| && at + |d| <= |gap|
    ensures Patch(Splice(st, q, m, h + gap), q + |h| + at, d) == Splice(st, q, m, h + Patch(gap, at, d))
  {
    var a, z := st[..q], st[q + m..];
    var t := Splice(st, q, m, h + gap);
    assert t[..q + |h| + at] == a + h + gap[..at];
    assert t[q + |h| + at + |d|..] == gap[at + |d|..] + z;
  }

  // ---------------------------------------------------------------------------
  // Edits of whole nodes
  // ---------------------------------------------------------------------------

  /** m nodes from the a-th on made way for m' others: the nodes in front keep their offsets, those behind
      move by delta. */
  ghost predicate Shifted(top: Body, top': Body, a: nat, m: nat, m': nat, delta: int) {
    && a + m <= Count(top) && Count(top') == Count(top) - m + m'
    && (forall j | 0 <= j < a :: Off(top', j) == Off(top, j))
    && (forall j | a + m <= j < Count(top) :: Off(top', j - m + m') == Off(top, j) + delta)
  }

  /** An edit at the k-th node took len bytes out of the block at offset o and put d in. */
  ghost predicate NodeEdit(top: Body, top': Body, strs: bytes, o: nat, len: nat, d: bytes) {
    && Wf(top, true) && Wf(top', true) && Named(top', strs)
    && o + len <= Size(top)
    && Flat(top', true) == Splice(Flat(top, true), o, len, d)
  }

  /** Replacing the k-th node's span, siblings kept. */
  lemma {:induction false} SpanPlan(top: Body, k: nat, strs: bytes, new_: Body, d: bytes) returns (top': Body)
    requires k < Count(top) && Wf(top, true) && Named(top, strs) && Size(top) < TWO31
    requires Wf(NodeAt(top, k).rest, Outer(top, true, k))
    requires Wf(new_, Outer(top, true, k)) && NoProps(new_) && (Named(NodeAt(top, k).rest, strs) ==> Named(new_, strs))
    requires Flat(new_, Outer(top, true, k)) == d + Flat(NodeAt(top, k).rest, Outer(top, true, k))
    ensures top' == Swap(top, k, new_)
    ensures NodeEdit(top, top', strs, Off(top, k), Span(NodeAt(top, k)), d)
    ensures k < Total(Erase(top, strs)) && NodeOf(Erase(top, strs), k) == Erase(NodeAt(top, k), strs)
    ensures Erase(top', strs) == Replace(Erase(top, strs), k, Erase(new_, strs))
  {
    hide Flat, Wf, Erase, Props, StrAt, Splice, Off, Replace, Swap, Count, NoProps, Span, Size;
    top' := Swap(top, k, new_);
    NamedNode(top, strs, k);
    NamedSwap(top, strs, k, new_);
    SpanSplice(top, k, new_, d);
    EraseCount(top, strs);
    EraseNode(top, strs, k);
    EraseSwap(top, strs, k, new_);
  }

  /** fdt_del_node on the structure block. */
  lemma {:induction false} DelNodePlan(top: Body, k: nat, strs: bytes) returns (top': Body)
    requires k < Count(top) && Wf(top, true) && Named(top, strs) && Size(top) < TWO31
    ensures NodeEdit(top, top', strs, Off(top, k), Span(NodeAt(top, k)), [])
    ensures k < Total(Erase(top, strs)) && Erase(top', strs) == Remove(Erase(top, strs), k)
    ensures Shifted(top, top', k, 1 + Count(NodeAt(top, k).body), 0, 0 - Span(NodeAt(top, k)))
  {
    hide Flat, Wf, Named, Props, StrAt, Splice, Off, Replace, Swap, Count, Span, Size, Shifted, NodeEdit;
    var n := NodeAt(top, k);
    WfNode(top, true, k);
    NodeParts(n, Outer(top, true, k));
    assert [] + Flat(n.rest, Outer(top, true, k)) == Flat(n.rest, Outer(top, true, k));
    top' := SpanPlan(top, k, strs, n.rest, []);
    DelShift(top, k);
  }

  lemma {:induction false} DelShift(top: Body, k: nat)
    requires k < Count(top)
    ensures var n := NodeAt(top, k);
      Shifted(top, Swap(top, k, n.rest), k, 1 + Count(n.body), 0, 0 - Span(n))
  {
    hide Swap, Off, BeginSize, Size, Count;
    var n := NodeAt(top, k);
    var m := 1 + Count(n.body);
    SubCount(n);
    SwapCount(top, k, n.rest);
    SwapSelf(top, k);
    forall j | 0 <= j < k
      ensures Off(Swap(top, k, n.rest), j) == Off(top, j)
    {
      SwapBefore(top, k, n.rest, j);
    }
    forall j | k + m <= j < Count(top)
      ensures Off(Swap(top, k, n.rest), j - m) == Off(top, j) - Span(n)
    {
      if j < k + Count(n) {
        SwapInside(top, k, n, j - k);
        SwapInside(top, k, n.rest, j - k - m);
        OffRest(n, j - k - m);
      } else {
        SwapBehind(top, k, n.rest, j);
      }
    }
  }

  lemma {:induction false} SubCount(n: Body)
    requires n.Sub?
    ensures Count(n) == 1 + Count(n.body) + Count(n.rest)
    ensures Size(n) == Span(n) + Size(n.rest)
  {
  }

  lemma {:induction false} OffRest(n: Body, i: nat)
    requires n.Sub? && i < Count(n.rest)
    ensures 1 + Count(n.body) + i < Count(n) && Off(n, 1 + Count(n.body) + i) == Span(n) + Off(n.rest, i)
  {
  }

  /** fdt_nop_node on the structure block: the same tree as after fdt_del_node, no byte moved. */
  lemma {:induction false} BlankNodePlan(top: Body, k: nat, strs: bytes) returns (top': Body)
    requires k < Count(top) && Wf(top, true) && Named(top, strs) && Size(top) < TWO31
    ensures var n := NodeAt(top, k);
      && Span(n) % 4 == 0
      && NodeEdit(top, top', strs, Off(top, k), Span(n), NopCells(Span(n) / 4))
      && Shifted(top, top', k, 1 + Count(n.body), 0, 0)
    ensures k < Total(Erase(top, strs)) && Erase(top', strs) == Remove(Erase(top, strs), k)
  {
    hide Flat, Wf, Named, Props, StrAt, Splice, Off, Replace, Swap, Count, Span, Size, Shifted, NodeEdit, Nops, NoProps;
    var n, outer := NodeAt(top, k), Outer(top, true, k);
    var c := Span(n) / 4;
    WfNode(top, true, k);
    NodeParts(n, outer);
    SpanAligned(n);
    NopsFlat(c, n.rest, outer);
    NopsView(c, n.rest, strs, outer);
    top' := SpanPlan(top, k, strs, Nops(c, n.rest), NopCells(c));
    BlankShift(top, k);
  }

  lemma {:induction false} SpanAligned(n: Body)
    requires n.Sub?
    ensures Span(n) % 4 == 0
  {
    SizeAligned(n.body);
    HeadAligned(n);
    Sum4(BeginSize(n.name), Size(n.body));
  }

  lemma {:induction false} BlankShift(top: Body, k: nat)
    requires k < Count(top)
    ensures var n := NodeAt(top, k);
      Span(n) % 4 == 0 ==> Shifted(top, Swap(top, k, Nops(Span(n) / 4, n.rest)), k, 1 + Count(n.body), 0, 0)
  {
    hide Swap, Off, BeginSize, Size, Count, Span;
    var n := NodeAt(top, k);
    if Span(n) % 4 == 0 {
      var m := 1 + Count(n.body);
      var new_ := Nops(Span(n) / 4, n.rest);
      SubCount(n);
      NopsCount(Span(n) / 4, n.rest);
      SwapCount(top, k, new_);
      SwapSelf(top, k);
      forall j | 0 <= j < k
        ensures Off(Swap(top, k, new_), j) == Off(top, j)
      {
        SwapBefore(top, k, new_, j);
      }
      forall j | k + m <= j < Count(top)
        ensures Off(Swap(top, k, new_), j - m) == Off(top, j)
      {
        if j < k + Count(n) {
          SwapInside(top, k, n, j - k);
          SwapInside(top, k, new_, j - k - m);
          OffRest(n, j - k - m);
          NopsOff(Span(n) / 4, n.rest, j - k - m);
        } else {
          SwapBehind(top, k, new_, j);
        }
      }
    }
  }

  lemma {:induction false} NopsOff(n: nat, r: Body, i: nat)
    requires i < Count(r)
    ensures i < Count(Nops(n, r)) && Off(Nops(n, r), i) == 4 * n + Off(r, i)
  {
    if n > 0 {
      NopsOff(n - 1, r, i);
    }
  }

  /** fdt_nop_property on the structure block: the same tree as after fdt_delprop, no byte moved. */
  lemma {:induction false} BlankPlan(top: Body, k: nat, strs: bytes, name: bytes, c: Body, po: nat, p: Body)
    returns (top': Body)
    requires PropHere(top, k, strs, name, c, po, p)
    ensures PropSize(p.val) % 4 == 0
    ensures PropEdit(top, top', k, strs, po, PropSize(p.val), NopCells(PropSize(p.val) / 4))
    ensures k < Total(Erase(top, strs)) && Erase(top', strs) == DelProp(Erase(top, strs), k, name)
  {
    hide Flat, Wf, Named, Erase, Props, StrAt, Splice, Replace, KidsMoved, FindProp, Mark, From, Cut, PropEdit, Nops;
    FoundProp(top, k, strs, name);
    HeadAligned(p);
    BlankAt(c, po, strs, name);
    var n := PropSize(p.val) / 4;
    BlankMoved(p, n);
    top' := CutPlan(top, k, strs, name, c, po, p, Nops(n, p.rest), PropSize(p.val), NopCells(n));
  }

  lemma {:induction false} BlankMoved(p: Body, n: nat)
    requires p.Prop? && PropSize(p.val) == 4 * n
    ensures KidsMoved(p, Nops(n, p.rest), 0)
  {
    hide PropSize;
    NopsCount(n, p.rest);
    forall i | 0 <= i < Count(p)
      ensures Off(Nops(n, p.rest), i) == Off(p, i)
    {
      NopsOff(n, p.rest, i);
    }
  }

  /** fdt_set_name on the structure block. */
  lemma {:induction false} RenamePlan(top: Body, k: nat, strs: bytes, name: bytes, pad: bytes) returns (top': Body)
    requires k < Count(top) && Wf(top, true) && Named(top, strs) && Size(top) < TWO31
    requires 0 !in name && |pad| == Align4(|name| + 1) - (|name| + 1)
    ensures NodeEdit(top, top', strs, Off(top, k), BeginSize(NodeAt(top, k).name), FlatBegin(name, pad))
    ensures k < Total(Erase(top, strs)) && Erase(top', strs) == Rename(Erase(top, strs), k, name)
    ensures MovedBy(top, top', k, BeginSize(name) - BeginSize(NodeAt(top, k).name))
  {
    hide Flat, Wf, Named, Erase, Props, StrAt, Splice, Off, Replace, Swap, Count, Size, MovedBy, NoProps, FlatBegin, BeginSize;
    var n, outer := NodeAt(top, k), Outer(top, true, k);
    var new_ := Sub(name, pad, n.body, n.rest);
    WfNode(top, true, k);
    NamedNode(top, strs, k);
    RenameParts(n, new_, outer);
    RenameView(n, new_, strs);
    top' := Swap(top, k, new_);
    NodeSplice(top, k, new_, BeginSize(n.name), FlatBegin(name, pad));
    NamedSwap(top, strs, k, new_);
    EraseCount(top, strs);
    EraseNode(top, strs, k);
    EraseSwap(top, strs, k, new_);
    RenameMoves(top, k, new_);
  }

  lemma {:induction false} RenameParts(n: Body, new_: Body, outer: bool)
    requires n.Sub? && new_.Sub? && new_.body == n.body && new_.rest == n.rest
    requires Wf(n, outer) && NoProps(n)
    requires 0 !in new_.name && |new_.npad| == Align4(|new_.name| + 1) - (|new_.name| + 1)
    ensures Wf(new_, outer) && NoProps(new_)
    ensures BeginSize(n.name) <= Size(n)
    ensures Flat(new_, outer) == Splice(Flat(n, outer), 0, BeginSize(n.name), FlatBegin(new_.name, new_.npad))
  {
    hide FlatBegin, Flat;
    FlatOf(n, outer);
    FlatOf(new_, outer);
    assert [] + HeadFlat(new_, outer) == HeadFlat(new_, outer);
    SpliceMiddle([], HeadFlat(n, outer), Flat(n.body, false) + Flat(n.rest, outer), 0, BeginSize(n.name), HeadFlat(new_, outer));
    SpliceAll(HeadFlat(n, outer), HeadFlat(new_, outer));
    Assoc(HeadFlat(n, outer), Flat(n.body, false), Flat(n.rest, outer));
    Assoc(HeadFlat(new_, outer), Flat(n.body, false), Flat(n.rest, outer));
    assert [] + HeadFlat(n, outer) == HeadFlat(n, outer);
  }

  lemma {:induction false} RenameView(n: Body, new_: Body, strs: bytes)
    requires n.Sub? && new_.Sub? && new_.body == n.body && new_.rest == n.rest
    ensures Named(new_, strs) <==> Named(n, strs)
    ensures var e := Erase(n, strs);
      e.Tree? && Erase(new_, strs) == Tree(new_.name, e.props, e.kids, e.sibs)
  {
  }

  lemma {:induction false} RenameMoves(top: Body, k: nat, new_: Body)
    requires k < Count(top) && new_.Sub? && new_.body == NodeAt(top, k).body && new_.rest == NodeAt(top, k).rest
    ensures MovedBy(top, Swap(top, k, new_), k, BeginSize(new_.name) - BeginSize(NodeAt(top, k).name))
  {
    hide Swap, Off, BeginSize, Size, Count;
    var n := NodeAt(top, k);
    var delta := BeginSize(new_.name) - BeginSize(n.name);
    SubCount(n);
    SubCount(new_);
    SwapCount(top, k, new_);
    SwapSelf(top, k);
    forall j | 0 <= j < Count(top)
      ensures Off(Swap(top, k, new_), j) == Off(top, j) + if j <= k then 0 else delta
    {
      if j < k {
        SwapBefore(top, k, new_, j);
      } else if j < k + Count(n) {
        SwapInside(top, k, n, j - k);
        SwapInside(top, k, new_, j - k);
        RenamedOff(n, new_, j - k);
      } else {
        SwapBehind(top, k, new_, j);
      }
    }
  }

  lemma {:induction false} RenamedOff(n: Body, new_: Body, i: nat)
    requires n.Sub? && new_.Sub? && new_.body == n.body && new_.rest == n.rest && i < Count(n)
    ensures i < Count(new_)
    ensures Off(new_, i) == Off(n, i) + if i == 0 then 0 else BeginSize(new_.name) - BeginSize(n.name)
  {
    hide BeginSize;
  }

  /** fdt_add_subnode on the structure block. */
  lemma {:induction false} ChildPlan(top: Body, k: nat, strs: bytes, name: bytes, pad: bytes) returns (top': Body)
    requires k < Count(top) && Wf(top, true) && Named(top, strs) && Size(top) < TWO31
    requires 0 !in name && |pad| == Align4(|name| + 1) - (|name| + 1)
    ensures var o := BodyOff(top, k) + ListEnd(NodeAt(top, k).body);
      && NodeEdit(top, top', strs, o, 0, FlatBegin(name, pad) + Cell(END_NODE))
      && Shifted(top, top', k + 1, 0, 1, BeginSize(name) + 4)
      && k + 1 < Count(top') && Off(top', k + 1) == o
    ensures k < Total(Erase(top, strs)) && Erase(top', strs) == AddChild(Erase(top, strs), k, name)
  {
    hide Flat, Wf, Named, Props, StrAt, Splice, Off, Replace, Swap, Count, Size, Shifted, NoProps, FlatBegin, BeginSize,
      BodyOff, Cut, ListEnd, Erase;
    var c := NodeAt(top, k).body;
    var po := ListEnd(c);
    WfNode(top, true, k);
    NamedNode(top, strs, k);
    ChildParts(NodeAt(top, k), strs);
    InsertChild(c, name, pad, strs);
    var c' := Cut(c, po, Sub(name, pad, Close, From(c, po)));
    RefillEdit(top, k, c', strs, po, 0, FlatBegin(name, pad) + Cell(END_NODE));
    top' := Refill(top, k, c');
    ChildShift(top, k, strs, name, pad);
  }

  lemma {:induction false} ChildParts(n: Body, strs: bytes)
    requires n.Sub? && Named(n, strs)
    ensures Named(n.body, strs)
    ensures forall outer :: Wf(n, outer) ==> Wf(n.body, false)
  {
  }

  lemma {:induction false} ChildShift(top: Body, k: nat, strs: bytes, name: bytes, pad: bytes)
    requires k < Count(top)
    ensures var c := NodeAt(top, k).body;
      var po := ListEnd(c);
      && Mark(c, po)
      && var top' := Refill(top, k, Cut(c, po, Sub(name, pad, Close, From(c, po))));
      && Shifted(top, top', k + 1, 0, 1, BeginSize(name) + 4)
      && k + 1 < Count(top') && Off(top', k + 1) == BodyOff(top, k) + po
  {
    hide Swap, Off, BeginSize, Count, PropSize, Refill, Props, Erase, NodeAt, Size;
    var c := NodeAt(top, k).body;
    var po := ListEnd(c);
    ListEndMark(c, strs);
    var f := From(c, po);
    var new_ := Sub(name, pad, Close, f);
    var c' := Cut(c, po, new_);
    var top' := Refill(top, k, c');
    CutCount(c, po, new_);
    SubCountClose(new_);
    RefillOff(top, k, c', k);
    forall j | 0 <= j < k + 1
      ensures Off(top', j) == Off(top, j)
    {
      RefillOff(top, k, c', j);
    }
    CutOff(c, po, new_, 0);
    OffZero(new_);
    RefillInside(top, k, c', 0);
    forall j | k + 1 <= j < Count(top)
      ensures Off(top', j + 1) == Off(top, j) + BeginSize(name) + 4
    {
      RefillOff(top, k, c', j);
      if j <= k + Count(c) {
        var i := j - k - 1;
        OffBelow(top, k, i);
        RefillInside(top, k, c', i + 1);
        CutOff(c, po, new_, i + 1);
        FromOff(c, po, i);
        NewFirst(name, pad, f, i);
      }
    }
  }

  lemma {:induction false} CutCount(c: Body, po: nat, new_: Body)
    requires Mark(c, po)
    ensures Count(c) == Count(From(c, po)) && Count(Cut(c, po, new_)) == Count(new_)
  {
    CutView(c, [], po, new_);
  }

  lemma {:induction false} CutOff(c: Body, po: nat, new_: Body, i: nat)
    requires Mark(c, po) && i < Count(new_)
    ensures i < Count(Cut(c, po, new_)) && Off(Cut(c, po, new_), i) == po + Off(new_, i)
    decreases c
  {
    hide PropSize;
    if po > 0 {
      CutOff(c.rest, if c.Nop? then po - 4 else po - PropSize(c.val), new_, i);
    }
  }

  lemma {:induction false} FromOff(c: Body, po: nat, i: nat)
    requires Mark(c, po) && i < Count(c)
    ensures i < Count(From(c, po)) && Off(c, i) == po + Off(From(c, po), i)
    decreases c
  {
    hide PropSize;
    if po > 0 {
      FromOff(c.rest, if c.Nop? then po - 4 else po - PropSize(c.val), i);
    }
  }

  lemma {:induction false} SubCountClose(new_: Body)
    requires new_.Sub? && new_.body == Close
    ensures Count(new_) == 1 + Count(new_.rest) && Size(new_) == BeginSize(new_.name) + 4 + Size(new_.rest)
  {
  }

  lemma {:induction false} NewFirst(name: bytes, pad: bytes, f: Body, i: nat)
    requires i < Count(f)
    ensures var new_ := Sub(name, pad, Close, f);
      i + 1 < Count(new_) && Off(new_, i + 1) == BeginSize(name) + 4 + Off(f, i)
  {
  }
}
