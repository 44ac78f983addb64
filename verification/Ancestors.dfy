/** Subnodes, depths and ancestors, found by scanning the flat structure block. */
module Ancestors {
  import opened Bytes
  import opened Blob
  import opened Structure
  import opened Lexer
  import opened Nodes
  import opened Walk

  /** The block starts with its root node and has no other outermost node. */
  predicate Rooted(top: Body) {
    top.Sub? && Count(top.rest) == 0
  }

  /** The ancestor at depth d of the k-th node; the node itself for its own depth. */
  function Anc(b: Body, k: nat, d: nat): (a: nat)
    requires k < Count(b) && d <= Depth(b, k)
    ensures a <= k && Depth(b, a) == d
  {
    match b
    case Nop(r) => Anc(r, k, d)
    case Prop(_, _, _, r) => Anc(r, k, d)
    case Sub(_, _, c, r) =>
      if k == 0 then 0
      else if k <= Count(c) then (if d == 0 then 0 else 1 + Anc(c, k - 1, d - 1))
      else 1 + Count(c) + Anc(r, k - 1 - Count(c), d)
  }

  /** Neighbours in document order differ in depth by at most one level down, and share their ancestors. */
  lemma {:induction false} AncNext(b: Body, k: nat, d: nat)
    requires k + 1 < Count(b) && d < Depth(b, k + 1)
    ensures d <= Depth(b, k) && Anc(b, k + 1, d) == Anc(b, k, d)
    decreases b
  {
    match b
    case Nop(r) => AncNext(r, k, d);
    case Prop(_, _, _, r) => AncNext(r, k, d);
    case Sub(_, _, c, r) =>
      if k < Count(c) {
        if k > 0 && d > 0 {
          AncNext(c, k - 1, d - 1);
        } else if k == 0 {
          FirstDepth(c);
        }
      } else if k == Count(c) {
        FirstDepth(r);
      } else {
        AncNext(r, k - 1 - Count(c), d);
      }
  }

  lemma {:induction false} FirstDepth(b: Body)
    ensures Count(b) > 0 ==> Depth(b, 0) == 0
    decreases b
  {
    if b.Nop? || b.Prop? {
      FirstDepth(b.rest);
    }
  }

  lemma {:induction false} SelfAnc(b: Body, k: nat)
    requires k < Count(b)
    ensures Anc(b, k, Depth(b, k)) == k
    decreases b
  {
    match b
    case Nop(r) => SelfAnc(r, k);
    case Prop(_, _, _, r) => SelfAnc(r, k);
    case Sub(_, _, c, r) =>
      if k == 0 {
      } else if k <= Count(c) {
        SelfAnc(c, k - 1);
      } else {
        SelfAnc(r, k - 1 - Count(c));
      }
  }

  /** The ancestor one level up is the node among whose children the k-th node is. */
  lemma {:induction false} ParentIff(b: Body, p: nat, k: nat)
    requires p < Count(b) && k < Count(b)
    ensures Depth(b, k) == Depth(b, p) + 1 && Anc(b, k, Depth(b, p)) == p <==>
            p < k <= p + Count(NodeAt(b, p).body) && Depth(NodeAt(b, p).body, k - p - 1) == 0
  {
    if p < k <= p + Count(NodeAt(b, p).body) {
      OffBelow(b, p, k - p - 1);
      AncBelow(b, p, k - p - 1);
    } else if Depth(b, k) == Depth(b, p) + 1 {
      AncOutside(b, p, k);
    }
  }

  /** Every node below the p-th one has it as ancestor. */
  lemma {:induction false} AncBelow(b: Body, p: nat, j: nat)
    requires p < Count(b) && j < Count(NodeAt(b, p).body)
    ensures p + 1 + j < Count(b)
    ensures Depth(b, p) <= Depth(b, p + 1 + j) && Anc(b, p + 1 + j, Depth(b, p)) == p
    decreases b
  {
    OffBelow(b, p, j);
    match b
    case Nop(r) => AncBelow(r, p, j);
    case Prop(_, _, _, r) => AncBelow(r, p, j);
    case Sub(_, _, c, r) =>
      if p == 0 {
      } else if p <= Count(c) {
        AncBelow(c, p - 1, j);
      } else {
        AncBelow(r, p - 1 - Count(c), j);
      }
  }

  /** No node outside the p-th one has it as a proper ancestor. */
  lemma {:induction false} AncOutside(b: Body, p: nat, k: nat)
    requires p < Count(b) && k < Count(b) && !(p <= k <= p + Count(NodeAt(b, p).body))
    requires Depth(b, p) < Depth(b, k)
    ensures Anc(b, k, Depth(b, p)) != p
    decreases b
  {
    match b
    case Nop(r) => AncOutside(r, p, k);
    case Prop(_, _, _, r) => AncOutside(r, p, k);
    case Sub(_, _, c, r) =>
      var m := Count(c);
      if 0 < p <= m && 0 < k <= m {
        AncOutside(c, p - 1, k - 1);
      } else if p > m && k > m {
        AncOutside(r, p - 1 - m, k - 1 - m);
      }
  }

  // ---------------------------------------------------------------------------
  // The scans
  // ---------------------------------------------------------------------------

  /** st encodes top, and k is the number of the node at offset o, or -1 if no node starts there. */
  ghost predicate Numbered(st: bytes, top: Body, o: int, k: int) {
    && On(st, 0, Frame(top, Bottom)) && Rooted(top)
    && -1 <= k < Count(top)
    && if k >= 0 then Off(top, k) == o else forall j | 0 <= j < Count(top) :: Off(top, j) != o
  }

  /** Below the frames of its ancestors a node has what it was given. */
  lemma {:induction false} HereDrop(b: Body, up: Stack, k: nat)
    requires k < Count(b)
    ensures Depth(b, k) + 1 <= Height(Here(b, up, k)) && Drop(Here(b, up, k), Depth(b, k) + 1) == up
    decreases b
  {
    HereHeight(b, up, k);
    match b
    case Nop(r) => HereDrop(r, up, k);
    case Prop(_, _, _, r) => HereDrop(r, up, k);
    case Sub(_, _, c, r) =>
      if k == 0 {
      } else if k <= Count(c) {
        HereDrop(c, Frame(r, up), k - 1);
        HereHeight(c, Frame(r, up), k - 1);
        DropDrop(Here(b, up, k), Depth(b, k), 1);
      } else {
        HereDrop(r, up, k - 1 - Count(c));
      }
  }

  /** One absolute step of a depth-tracking scan that started at the root. */
  lemma {:induction false} RootStep(st: bytes, top: Body, j: nat)
    requires On(st, 0, Frame(top, Bottom)) && Rooted(top) && j < Count(top)
    ensures AtNode(st, Off(top, j), Here(top, Bottom, j)) && !BadNode(st, Off(top, j))
    ensures Off(top, j) + SizeS(Here(top, Bottom, j)) == Size(top)
    ensures NextStop(Step(Here(top, Bottom, j)), Depth(top, j), true) ==
            if j + 1 < Count(top) then Stop(Here(top, Bottom, j + 1), Depth(top, j + 1))
            else Stop(Frame(top.rest, Bottom), -1)
    ensures EndOff(top, 0) + Size(top.rest) == Size(top) && Size(top) < TWO31
    ensures j + 1 < Count(top) ==> Off(top, j) < Off(top, j + 1) < EndOff(top, 0)
    ensures Off(top, j) < EndOff(top, 0)
  {
    hide On, TagAt, NextStop, BeginSize;
    DocumentOrder(st, top, j, Depth(top, j));
    NodeIsGood(st, Off(top, j), Here(top, Bottom, j));
    HereSize(top, Bottom, j);
    RootSize(st, top);
    if j > 0 {
      OffInBody(top.body, j - 1);
    }
    if j + 1 < Count(top) {
      OffMonotone(top, j, j + 1);
      OffInBody(top.body, j);
    } else {
      HereDrop(top, Bottom, j);
      LastDrop(top, j);
    }
  }

  lemma {:induction false} RootSize(st: bytes, top: Body)
    requires On(st, 0, Frame(top, Bottom))
    ensures Size(top) < TWO31
  {
    hide Flat;
  }

  lemma {:induction false} OffInBody(c: Body, k: nat)
    requires k < Count(c)
    ensures Off(c, k) < Size(c)
  {
  }

  lemma {:induction false} LastDrop(top: Body, j: nat)
    requires Rooted(top) && j < Count(top)
    ensures var inside := Step(Here(top, Bottom, j));
      Depth(top, j) + 1 <= Height(inside) && Drop(inside, Depth(top, j) + 1) == Frame(top.rest, Bottom)
  {
    HereHeight(top, Bottom, j);
    if j > 0 {
      HereDrop(top.body, Frame(top.rest, Bottom), j - 1);
      DropOne(Here(top, Bottom, j), Depth(top, j) - 1) by { HereHeight(top, Bottom, j); }
      assert Drop(Here(top, Bottom, j).up, Depth(top, j) - 1) == Drop(Here(top, Bottom, j), Depth(top, j));
    }
  }

  /** Behind the root no node is accepted. */
  lemma {:induction false} BehindRoot(st: bytes, top: Body)
    requires Rooted(top) && On(st, EndOff(top, 0), Frame(top.rest, Bottom))
    ensures BadNode(st, EndOff(top, 0))
  {
    hide TagAt, HeadFlat;
    LexStep(st, EndOff(top, 0), Frame(top.rest, Bottom));
  }

  /** State of a loop that started at the root and tracks the absolute depth: at the j-th node, or behind
      the root when all nodes are done. */
  ghost predicate RootScan(st: bytes, top: Body, o: int, depth: int, j: nat, cur: Stack) {
    && Rooted(top) && On(st, 0, Frame(top, Bottom)) && j <= Count(top)
    && if j < Count(top) then o == Off(top, j) && depth == Depth(top, j) && cur == Here(top, Bottom, j)
       else o == EndOff(top, 0) && depth == -1 && cur == Frame(top.rest, Bottom) && On(st, o, cur)
  }

  lemma {:induction false} RootScanStart(st: bytes, top: Body)
    requires Rooted(top) && On(st, 0, Frame(top, Bottom))
    ensures RootScan(st, top, 0, 0, 0, Frame(top, Bottom))
  {
    hide On;
  }

  /** What fdt_next_node does in such a loop. */
  lemma {:induction false} RootScanStep(st: bytes, top: Body, o: int, depth: int, j: nat, cur: Stack)
    requires RootScan(st, top, o, depth, j, cur)
    ensures 0 <= o && NodeRef(st, o, cur)
    ensures if j < Count(top) then !BadNode(st, o) && depth >= 0 && o < EndOff(top, 0) else BadNode(st, o)
  {
    hide On, TagAt, NextStop, BeginSize, HeadFlat, HeadSize;
    if j < Count(top) {
      RootStep(st, top, j);
      NodeIsGood(st, o, cur);
    } else {
      RootStep(st, top, 0);
      BehindRoot(st, top);
    }
  }

  lemma {:induction false} RootScanNext(st: bytes, top: Body, o: int, depth: int, j: nat, cur: Stack,
                                        o': int, depth': int, ahead: Stack)
    requires RootScan(st, top, o, depth, j, cur) && j < Count(top) && depth >= 0 && cur.Frame?
    requires Stop(ahead, depth') == NextStop(Step(cur), depth, true)
    requires ahead.Frame? ==> o' >= 0 && o' + SizeS(ahead) == o + SizeS(cur) && On(st, o', ahead)
    ensures o' > o && RootScan(st, top, o', depth', j + 1, ahead)
  {
    hide On, TagAt, NextStop, BeginSize;
    RootStep(st, top, j);
    if j + 1 < Count(top) {
      HereSize(top, Bottom, j + 1);
    }
  }

  function Supernode(top: Body, nodeoffset: int, k: int, depth: int): int
    requires Rooted(top) && -1 <= k < Count(top)
  {
    if depth < 0 then NOTFOUND
    else if k >= 0 then (if depth > Depth(top, k) then NOTFOUND else Off(top, Anc(top, k, depth)))
    else if nodeoffset < EndOff(top, 0) then BADOFFSET
    else if nodeoffset == EndOff(top, 0) then NOTFOUND
    else BADSTRUCTURE
  }

  lemma {:induction false} RootScanOrder(st: bytes, top: Body, o: int, depth: int, j: nat, cur: Stack, nodeoffset: int, k: int)
    requires RootScan(st, top, o, depth, j, cur) && Numbered(st, top, nodeoffset, k)
    requires o <= nodeoffset && (k >= 0 ==> j <= k)
    ensures k >= 0 ==> j < Count(top) && (o == nodeoffset <==> j == k)
    ensures k < 0 && j < Count(top) ==> o < nodeoffset
  {
    hide On;
    if k >= 0 && j < k {
      OffMonotone(top, j, k);
    }
  }

  /** Passing an offset without meeting it means that no node is there. */
  lemma {:induction false} RootScanPast(st: bytes, top: Body, o: int, depth: int, j: nat, cur: Stack, nodeoffset: int, k: int)
    requires RootScan(st, top, o, depth, j, cur) && Numbered(st, top, nodeoffset, k)
    requires o > nodeoffset && (k >= 0 ==> j <= k)
    ensures k < 0 && nodeoffset < EndOff(top, 0)
  {
    hide On;
    if j < Count(top) {
      RootStep(st, top, j);
    }
    if j < k {
      OffMonotone(top, j, k);
    }
  }

  /** Supernode for a node is the offset noted last at that depth. */
  lemma {:induction false} AncStep(top: Body, j: nat, d: nat)
    requires j + 1 < Count(top) && d < Depth(top, j + 1)
    ensures d <= Depth(top, j)
    ensures Anc(top, j + 1, d) == if d == Depth(top, j) then j else Anc(top, j, d)
  {
    AncNext(top, j, d);
    SelfAnc(top, j);
  }

  /** fdt_supernode_atdepth_offset; the depth of the node is returned when it is one. */
  method SupernodeAtDepth(fdt: array<byte>, nodeoffset: int, supernodedepth: int,
                          ghost st: bytes, ghost top: Body, ghost k: int)
    returns (r: int, nodedepth: int)
    requires Ready(fdt[..], st) && Numbered(st, top, nodeoffset, k)
    ensures fdt.Length >= HEADER_SIZE
    ensures if CheckErr(Hdr(fdt[..])) != 0 then r == CheckErr(Hdr(fdt[..]))
            else r == Supernode(top, nodeoffset, k, supernodedepth)
    ensures CheckErr(Hdr(fdt[..])) == 0 && supernodedepth >= 0 && k >= 0 ==> nodedepth == Depth(top, k)
  {
    hide Hdr, Ready, On, AtNode, TagAt, NextStop, NodeRef, BadNode, EndOff;
    ReadySize(fdt[..], st);
    nodedepth := 0;
    var err := CheckHeader(fdt);
    if err != 0 {
      return err, 0;
    }
    if supernodedepth < 0 {
      return NOTFOUND, 0;
    }
    var offset, depth, super := 0, 0, INTERNAL;
    ghost var j: nat := 0;
    ghost var cur := Frame(top, Bottom);
    RootScanStart(st, top);
    while offset >= 0 && offset <= nodeoffset
      invariant offset >= 0 ==> RootScan(st, top, offset, depth, j, cur)
      invariant offset >= 0 && k >= 0 ==> j <= k
      invariant offset >= 0 && j == Count(top) ==> k < 0 && nodeoffset >= 0
      invariant offset < 0 ==> offset == BADOFFSET && k < 0 && nodeoffset > EndOff(top, 0)
      invariant offset >= 0 && 0 <= supernodedepth < depth ==>
        j < Count(top) && super == Off(top, Anc(top, j, supernodedepth))
      decreases offset >= 0, Count(top) - j
    {
      RootScanOrder(st, top, offset, depth, j, cur, nodeoffset, k);
      if depth == supernodedepth {
        super := offset;
      }
      if offset == nodeoffset {
        nodedepth := depth;
        if supernodedepth > depth {
          return NOTFOUND, nodedepth;
        } else {
          SelfAnc(top, j);
          return super, nodedepth;
        }
      }
      RootScanStep(st, top, offset, depth, j, cur);
      if j + 1 < Count(top) && supernodedepth < Depth(top, j + 1) {
        AncStep(top, j, supernodedepth);
      }
      ghost var o, d, c := offset, depth, cur;
      offset, depth, cur := NextNode(fdt, offset, depth, true, st, cur);
      if j < Count(top) {
        RootScanNext(st, top, o, d, j, c, offset, depth, cur);
      }
      j := j + 1;
    }
    if offset >= 0 {
      RootScanPast(st, top, offset, depth, j, cur, nodeoffset, k);
    }
    if offset == NOTFOUND || offset >= 0 {
      return BADOFFSET, 0;
    } else if offset == BADOFFSET {
      return BADSTRUCTURE, 0;
    }
    return offset, 0;
  }

  /** fdt_node_depth. */
  method NodeDepth(fdt: array<byte>, nodeoffset: int, ghost st: bytes, ghost top: Body, ghost k: int)
    returns (r: int)
    requires Ready(fdt[..], st) && Numbered(st, top, nodeoffset, k)
    ensures fdt.Length >= HEADER_SIZE
    ensures r == if CheckErr(Hdr(fdt[..])) != 0 then CheckErr(Hdr(fdt[..]))
                 else if k >= 0 then Depth(top, k) else Supernode(top, nodeoffset, k, 0)
  {
    hide Hdr, Ready, On;
    var err, nodedepth := SupernodeAtDepth(fdt, nodeoffset, 0, st, top, k);
    if k >= 0 {
      RootAnc(top, k);
    }
    if err != 0 {
      return if err < 0 then err else INTERNAL;
    }
    return nodedepth;
  }

  lemma {:induction false} RootAnc(top: Body, k: nat)
    requires Rooted(top) && k < Count(top)
    ensures Anc(top, k, 0) == 0 && Off(top, 0) == 0
  {
  }

  /** fdt_parent_offset: the node among whose children this one is; the root has none. */
  method ParentOffset(fdt: array<byte>, nodeoffset: int, ghost st: bytes, ghost top: Body, ghost k: int)
    returns (r: int, ghost p: int)
    requires Ready(fdt[..], st) && Numbered(st, top, nodeoffset, k)
    ensures fdt.Length >= HEADER_SIZE
    ensures CheckErr(Hdr(fdt[..])) != 0 ==> r == CheckErr(Hdr(fdt[..]))
    ensures CheckErr(Hdr(fdt[..])) == 0 && k == 0 ==> r == NOTFOUND
    ensures CheckErr(Hdr(fdt[..])) == 0 && k > 0 ==>
              && 0 <= p < k && r == Off(top, p)
              && k <= p + Count(NodeAt(top, p).body) && Depth(NodeAt(top, p).body, k - p - 1) == 0
    ensures CheckErr(Hdr(fdt[..])) == 0 && k < 0 ==> r == Supernode(top, nodeoffset, k, 0)
  {
    hide Hdr, Ready, On;
    p := 0;
    var nodedepth := NodeDepth(fdt, nodeoffset, st, top, k);
    if nodedepth < 0 {
      return nodedepth, p;
    }
    if k > 0 {
      p := Anc(top, k, Depth(top, k) - 1);
      ParentIff(top, p, k);
    }
    var n;
    r, n := SupernodeAtDepth(fdt, nodeoffset, nodedepth - 1, st, top, k);
  }
}
