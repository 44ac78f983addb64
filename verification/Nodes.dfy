/** The nodes of a structure block in document order: where they start, how deep they lie, and what a
    forward scan has ahead of it at each of them. */
module Nodes {
  import opened Bytes
  import opened Structure

  function Count(b: Body): nat {
    match b
    case Close => 0
    case Eof => 0
    case Nop(r) => Count(r)
    case Prop(_, _, _, r) => Count(r)
    case Sub(_, _, c, r) => 1 + Count(c) + Count(r)
  }

  /** Offset of the k-th BEGIN_NODE tag of b in document order. */
  function Off(b: Body, k: nat): (o: nat)
    requires k < Count(b)
    ensures o < Size(b)
  {
    match b
    case Nop(r) => 4 + Off(r, k)
    case Prop(_, v, _, r) => PropSize(v) + Off(r, k)
    case Sub(n, _, c, r) =>
      if k == 0 then 0
      else if k <= Count(c) then BeginSize(n) + Off(c, k - 1)
      else BeginSize(n) + Size(c) + Off(r, k - 1 - Count(c))
  }

  /** Depth of the k-th node, 0 for the outermost ones. */
  function Depth(b: Body, k: nat): nat
    requires k < Count(b)
  {
    match b
    case Nop(r) => Depth(r, k)
    case Prop(_, _, _, r) => Depth(r, k)
    case Sub(_, _, c, r) =>
      if k == 0 then 0
      else if k <= Count(c) then 1 + Depth(c, k - 1)
      else Depth(r, k - 1 - Count(c))
  }

  /** The k-th node with everything behind it in its parent. */
  function NodeAt(b: Body, k: nat): (n: Body)
    requires k < Count(b)
    ensures n.Sub?
  {
    match b
    case Nop(r) => NodeAt(r, k)
    case Prop(_, _, _, r) => NodeAt(r, k)
    case Sub(_, _, c, r) =>
      if k == 0 then b
      else if k <= Count(c) then NodeAt(c, k - 1)
      else NodeAt(r, k - 1 - Count(c))
  }

  /** Offset of the first tag inside the k-th node. */
  function BodyOff(b: Body, k: nat): nat
    requires k < Count(b)
  {
    Off(b, k) + BeginSize(NodeAt(b, k).name)
  }

  /** Offset just past the END_NODE tag of the k-th node. */
  function EndOff(b: Body, k: nat): nat
    requires k < Count(b)
  {
    BodyOff(b, k) + Size(NodeAt(b, k).body)
  }

  /** What is ahead at the k-th BEGIN_NODE tag of b, when up follows b. */
  function Here(b: Body, up: Stack, k: nat): (stk: Stack)
    requires k < Count(b)
    ensures stk.Frame? && stk.b == NodeAt(b, k)
  {
    match b
    case Nop(r) => Here(r, up, k)
    case Prop(_, _, _, r) => Here(r, up, k)
    case Sub(_, _, c, r) =>
      if k == 0 then Frame(b, up)
      else if k <= Count(c) then Here(c, Frame(r, up), k - 1)
      else Here(r, up, k - 1 - Count(c))
  }

  /** What is left once the enclosing content is skipped. */
  lemma SkipOn(st: bytes, o: nat, stk: Stack)
    requires On(st, o, stk) && stk.Frame?
    ensures On(st, o + Size(stk.b), stk.up)
  {
    hide Flat, Wf;
    var f, g := Flat(stk.b, stk.up.Bottom?), FlatS(stk.up);
    SizeAligned(stk.b);
    assert f + g <= st[o..];
    assert st[o..][|f|..] == st[o + |f|..];
    assert (f + g)[|f|..] == g;
  }

  /** Off is where a scan meets the k-th node, and Here is what it then has ahead. */
  lemma {:induction false} HereOn(st: bytes, o: nat, b: Body, up: Stack, k: nat)
    requires On(st, o, Frame(b, up)) && k < Count(b)
    ensures On(st, o + Off(b, k), Here(b, up, k))
    decreases b
  {
    hide On, TagAt, HeadFlat, Flat, FlatS, WfS, Wf, BeginSize, PropSize;
    LexStep(st, o, Frame(b, up));
    match b
    case Nop(r) => HereOn(st, o + 4, r, up, k);
    case Prop(_, v, _, r) => HereOn(st, o + PropSize(v), r, up, k);
    case Sub(n, _, c, r) =>
      if k == 0 {
      } else if k <= Count(c) {
        HereOn(st, o + BeginSize(n), c, Frame(r, up), k - 1);
      } else {
        SkipOn(st, o + BeginSize(n), Frame(c, Frame(r, up)));
        HereOn(st, o + BeginSize(n) + Size(c), r, up, k - 1 - Count(c));
      }
  }

  lemma {:induction false} HereSize(b: Body, up: Stack, k: nat)
    requires k < Count(b)
    ensures Size(b) + SizeS(up) == Off(b, k) + SizeS(Here(b, up, k))
    decreases b
  {
    hide BeginSize, PropSize;
    match b
    case Nop(r) => HereSize(r, up, k);
    case Prop(_, v, _, r) => HereSize(r, up, k);
    case Sub(n, _, c, r) =>
      if k == 0 {
      } else if k <= Count(c) {
        HereSize(c, Frame(r, up), k - 1);
      } else {
        HereSize(r, up, k - 1 - Count(c));
      }
  }

  lemma {:induction false} HereHeight(b: Body, up: Stack, k: nat)
    requires k < Count(b)
    ensures Height(Here(b, up, k)) == Height(up) + 1 + Depth(b, k)
    decreases b
  {
    match b
    case Nop(r) => HereHeight(r, up, k);
    case Prop(_, v, _, r) => HereHeight(r, up, k);
    case Sub(n, _, c, r) =>
      if k == 0 {
      } else if k <= Count(c) {
        HereHeight(c, Frame(r, up), k - 1);
      } else {
        HereHeight(r, up, k - 1 - Count(c));
      }
  }

  /** The next BEGIN_NODE ahead, as the stack that starts with it; Bottom if the block has none left. */
  function Seek(stk: Stack): (r: Stack)
    ensures r.Frame? ==> r.b.Sub?
    ensures Height(r) <= Height(stk)
    decreases SizeS(stk)
  {
    if stk.Bottom? || stk.b.Sub? then stk else Seek(Step(stk))
  }

  lemma {:induction false} SeekBody(b: Body, up: Stack)
    ensures Seek(Frame(b, up)) == if Count(b) > 0 then Here(b, up, 0) else Seek(up)
    decreases b
  {
    match b
    case Nop(r) => SeekBody(r, up);
    case Prop(_, _, _, r) => SeekBody(r, up);
    case _ =>
  }

  /** From one node a scan comes to the next one in document order, and from the last one out of b. */
  lemma {:induction false} SeekNext(b: Body, up: Stack, k: nat)
    requires k < Count(b)
    ensures Seek(Step(Here(b, up, k))) == if k + 1 < Count(b) then Here(b, up, k + 1) else Seek(up)
    decreases b
  {
    match b
    case Nop(r) => SeekNext(r, up, k);
    case Prop(_, _, _, r) => SeekNext(r, up, k);
    case Sub(_, _, c, r) =>
      if k == 0 {
        SeekBody(c, Frame(r, up));
        SeekBody(r, up);
      } else if k <= Count(c) {
        SeekNext(c, Frame(r, up), k - 1);
        SeekBody(r, up);
      } else {
        SeekNext(r, up, k - 1 - Count(c));
      }
  }

  /** The nodes below the k-th one are those of its contents, in the same order. */
  lemma {:induction false} HereBelow(b: Body, up: Stack, k: nat, j: nat)
    requires k < Count(b) && j < Count(NodeAt(b, k).body)
    ensures k + 1 + j < Count(b)
    ensures var h := Here(b, up, k);
      Here(b, up, k + 1 + j) == Here(h.b.body, Frame(h.b.rest, h.up), j)
    decreases b
  {
    hide Size, BeginSize, PropSize;
    match b
    case Nop(r) => HereBelow(r, up, k, j);
    case Prop(_, _, _, r) => HereBelow(r, up, k, j);
    case Sub(_, _, c, r) =>
      if k == 0 {
      } else if k <= Count(c) {
        HereBelow(c, Frame(r, up), k - 1, j);
      } else {
        HereBelow(r, up, k - 1 - Count(c), j);
      }
  }

  lemma {:induction false} OffBelow(b: Body, k: nat, j: nat)
    requires k < Count(b) && j < Count(NodeAt(b, k).body)
    ensures k + 1 + j < Count(b)
    ensures Off(b, k + 1 + j) == BodyOff(b, k) + Off(NodeAt(b, k).body, j)
    ensures Depth(b, k + 1 + j) == Depth(b, k) + 1 + Depth(NodeAt(b, k).body, j)
  {
    HereBelow(b, Bottom, k, j);
    var h := Here(b, Bottom, k);
    HereSize(b, Bottom, k);
    HereSize(b, Bottom, k + 1 + j);
    HereSize(h.b.body, Frame(h.b.rest, h.up), j);
    HereHeight(b, Bottom, k);
    HereHeight(b, Bottom, k + 1 + j);
    HereHeight(h.b.body, Frame(h.b.rest, h.up), j);
  }

  lemma OffNatural(b: Body, k: nat)
    requires k < Count(b)
    ensures Off(b, k) >= 0
  {
    hide *;
  }

  /** Document order is offset order. */
  lemma {:induction false} OffMonotone(b: Body, j: nat, k: nat)
    requires j < k < Count(b)
    ensures Off(b, j) < Off(b, k)
  {
    hide BeginSize, PropSize, Size;
    match b
    case Nop(r) => OffMonotone(r, j, k);
    case Prop(_, _, _, r) => OffMonotone(r, j, k);
    case Sub(_, _, c, r) =>
      if j == 0 {
      } else if k <= Count(c) {
        OffMonotone(c, j - 1, k - 1);
      } else if j > Count(c) {
        OffMonotone(r, j - 1 - Count(c), k - 1 - Count(c));
      }
  }
}
