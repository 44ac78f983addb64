/** A structure block has one reading: the bytes determine the contents, so the tree of a blob is a function
    of the blob. */
module Decoding {
  import opened Bytes
  import opened Structure
  import opened Trees
  import opened Blob
  import opened Rw

  lemma BeginOnce(n: bytes, p: bytes, n': bytes, p': bytes)
    requires 0 !in n && 0 !in n' && FlatBegin(n, p) == FlatBegin(n', p')
    ensures n == n' && p == p'
  {
    hide Cell;
    var f := FlatBegin(n, p);
    BeginSlices(n, p);
    BeginSlices(n', p');
    assert f[4 + |n|] == f[4 + |n|..5 + |n|][0] == 0;
    assert f[4 + |n'|] == f[4 + |n'|..5 + |n'|][0] == 0;
    NulAt(f, 4, n);
    NulAt(f, 4, n');
    BeginTail(n, p);
    BeginTail(n', p');
  }

  lemma BeginTail(n: bytes, p: bytes)
    ensures 5 + |n| <= |FlatBegin(n, p)| && FlatBegin(n, p)[5 + |n|..] == p
  {
    hide Cell;
  }

  lemma PropOnce(o: u32, v: bytes, p: bytes, o': u32, v': bytes, p': bytes)
    requires |v| < TWO31 && |v'| < TWO31 && FlatProp(o, v, p) == FlatProp(o', v', p')
    ensures o == o' && v == v' && p == p'
  {
    hide Cell, FlatProp;
    PropSlices(o, v, p);
    PropSlices(o', v', p');
    CellOnce(|v|, |v'|);
    CellOnce(o, o');
    PropTail(o, v, p);
    PropTail(o', v', p');
  }

  lemma PropTail(o: u32, v: bytes, p: bytes)
    requires |v| < TWO31
    ensures 12 + |v| <= |FlatProp(o, v, p)| && FlatProp(o, v, p)[12 + |v|..] == p
  {
    hide Cell;
  }

  lemma CellOnce(v: u32, w: u32)
    requires Cell(v) == Cell(w)
    ensures v == w
  {
    hide Be32;
    assert Be32(Cell(v), 0) == v && Be32(Cell(w), 0) == w;
  }

  /** Two tags that start at the same place are the same tag. */
  lemma {:induction false} HeadOnce(st: bytes, o: nat, a: Stack, b: Stack)
    requires On(st, o, a) && On(st, o, b) && a.Frame? && b.Frame?
    ensures HeadTag(a.b) == HeadTag(b.b) && HeadSize(a.b) == HeadSize(b.b)
    ensures HeadFlat(a.b, a.up.Bottom?) == HeadFlat(b.b, b.up.Bottom?)
  {
    hide On, TagAt, HeadFlat, HeadTag, HeadSize;
    LexStep(st, o, a);
    LexStep(st, o, b);
    OnHead(st, o, a);
    OnHead(st, o, b);
  }

  lemma {:induction false} OnHead(st: bytes, o: nat, a: Stack)
    requires On(st, o, a) && a.Frame?
    ensures Wf(a.b, a.up.Bottom?)
    ensures o + HeadSize(a.b) <= |st|
    ensures st[o..o + HeadSize(a.b)] == HeadFlat(a.b, a.up.Bottom?)
  {
    hide TagAt, HeadFlat, HeadTag, HeadSize, Flat;
    LexStep(st, o, a);
    var h := HeadFlat(a.b, a.up.Bottom?);
    PrefixSlice(st, o, h, 0, |h|);
    assert h[0..|h|] == h;
  }

  /** Equal first tags and equal contents behind them make equal stacks. */
  lemma {:induction false} StepOnce(a: Stack, b: Stack)
    requires a.Frame? && b.Frame? && Wf(a.b, a.up.Bottom?) && Wf(b.b, b.up.Bottom?)
    requires HeadTag(a.b) == HeadTag(b.b) && HeadFlat(a.b, a.up.Bottom?) == HeadFlat(b.b, b.up.Bottom?)
    requires Step(a) == Step(b)
    ensures a == b
  {
    hide FlatBegin, FlatProp, Cell;
    match a.b
    case Sub(n, p, _, _) => BeginOnce(n, p, b.b.name, b.b.npad);
    case Prop(o, v, p, _) => PropOnce(o, v, p, b.b.nameoff, b.b.val, b.b.pad);
    case _ =>
  }

  /** Two readings of the same block from the same place, nested equally deep, are equal. */
  lemma {:induction false} ReadOnce(st: bytes, o: nat, a: Stack, b: Stack)
    requires On(st, o, a) && On(st, o, b) && Height(a) == Height(b)
    ensures a == b
    decreases SizeS(a)
  {
    hide On, TagAt, HeadFlat, HeadSize;
    if a.Frame? {
      HeadOnce(st, o, a, b);
      LexStep(st, o, a);
      LexStep(st, o, b);
      OnHead(st, o, a);
      OnHead(st, o, b);
      ReadOnce(st, o + HeadSize(a.b), Step(a), Step(b));
      StepOnce(a, b);
    }
  }

  /** A blob encodes at most one structure, hence one tree. */
  lemma {:induction false} BlobOnce(s: bytes, top: Body, top': Body)
    requires Encodes(s, top) && Encodes(s, top')
    ensures top == top' && TreeOf(s, top) == TreeOf(s, top')
  {
    hide Hdr, On, Encodes, Erase;
    EncodesReady(s, top);
    EncodesReady(s, top');
    ReadOnce(View(s).stru, 0, Frame(top, Bottom), Frame(top', Bottom));
  }
}
