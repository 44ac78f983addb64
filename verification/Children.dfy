/** fdt_first_subnode and fdt_next_subnode (lib/libfdt/fdt.c): the children of a node, one after another. */
module Children {
  import opened Bytes
  import opened Blob
  import opened Structure
  import opened Lexer
  import opened Nodes
  import opened Walk
  import opened Ancestors

  /** Behind the subtree of a node comes its next sibling, or a node that lies higher. */
  lemma {:induction false} BehindSubtree(b: Body, k: nat)
    requires k < Count(b)
    ensures var m := k + 1 + Count(NodeAt(b, k).body);
      && m <= Count(b)
      && (Count(NodeAt(b, k).rest) > 0 ==> m < Count(b))
      && (m < Count(b) ==> Depth(b, m) <= Depth(b, k) && (Depth(b, m) == Depth(b, k) <==> Count(NodeAt(b, k).rest) > 0))
    decreases b
  {
    hide Size, Off;
    match b
    case Nop(r) => BehindSubtree(r, k);
    case Prop(_, _, _, r) => BehindSubtree(r, k);
    case Sub(_, _, c, r) =>
      FirstDepth(r);
      if k == 0 {
      } else if k <= Count(c) {
        BehindSubtree(c, k - 1);
      } else {
        BehindSubtree(r, k - 1 - Count(c));
      }
  }

  /** Number of the next sibling of the k-th node, or NOTFOUND for the last child. */
  function NextSibling(top: Body, k: nat): (r: int)
    requires k < Count(top)
    ensures r == NOTFOUND || k < r < Count(top)
  {
    BehindSubtree(top, k);
    if Count(NodeAt(top, k).rest) > 0 then k + 1 + Count(NodeAt(top, k).body) else NOTFOUND
  }

  /** Number of the first child of the k-th node, or NOTFOUND. */
  function FirstChild(top: Body, k: nat): (r: int)
    requires k < Count(top)
    ensures r == NOTFOUND || k < r < Count(top)
  {
    BehindSubtree(top, k);
    if Count(NodeAt(top, k).body) > 0 then k + 1 else NOTFOUND
  }

  /** Inside the subtree of a node all nodes lie deeper. */
  lemma {:induction false} InSubtree(b: Body, k: nat, j: nat)
    requires k < Count(b) && k < j <= k + Count(NodeAt(b, k).body)
    ensures j < Count(b) && Depth(b, j) > Depth(b, k)
  {
    OffBelow(b, k, j - k - 1);
  }

  /** What one fdt_next_node of these functions does, in numbers: from the k-th node, at depth relative to the
      children of some node, to the next one, unless that lies higher than these children; k == -1 stands for an
      offset that is refused. */
  method Advance(fdt: array<byte>, offset: int, depth: int, ghost st: bytes, ghost top: Body, ghost k: int)
    returns (next: int, depth': int)
    requires Ready(fdt[..], st) && On(st, 0, Frame(top, Bottom)) && depth >= 0
    requires if k < 0 then 0 <= offset < TWO31 && BadNode(st, offset) else k < Count(top) && offset == Off(top, k)
    ensures k < 0 ==> next == BADOFFSET
    ensures k >= 0 ==>
              if k + 1 < Count(top) && depth + Depth(top, k + 1) - Depth(top, k) >= 1
              then next == Off(top, k + 1) && depth' == depth + Depth(top, k + 1) - Depth(top, k)
              else next < 0 || depth' < 1
  {
    hide Ready, On, TagAt, BadNode, Here, NextStop;
    if k >= 0 {
      DocumentOrder(st, top, k, depth);
      NodeIsRef(st, offset, Here(top, Bottom, k));
      HereSize(top, Bottom, k);
      if k + 1 < Count(top) {
        HereSize(top, Bottom, k + 1);
      }
    }
    ghost var ahead;
    next, depth', ahead := NextNode(fdt, offset, depth, true, st, if k < 0 then Bottom else Here(top, Bottom, k));
  }

  /** fdt_first_subnode; k == -1 stands for an offset that is refused. */
  method FirstSubnode(fdt: array<byte>, offset: int, ghost st: bytes, ghost top: Body, ghost k: int) returns (r: int)
    requires Ready(fdt[..], st) && On(st, 0, Frame(top, Bottom))
    requires if k < 0 then 0 <= offset < TWO31 && BadNode(st, offset) else k < Count(top) && offset == Off(top, k)
    ensures r == if k < 0 || FirstChild(top, k) < 0 then NOTFOUND else Off(top, k + 1)
  {
    hide Ready, On, Off, Depth, BadNode;
    if k >= 0 {
      BehindSubtree(top, k);
      if FirstChild(top, k) >= 0 {
        InSubtree(top, k, k + 1);
        OneDeeper(top, k);
      }
    }
    var depth;
    r, depth := Advance(fdt, offset, 0, st, top, k);
    if r < 0 || depth != 1 {
      return NOTFOUND;
    }
  }

  lemma {:induction false} OneDeeper(b: Body, k: nat)
    requires k < Count(b) && Count(NodeAt(b, k).body) > 0
    ensures k + 1 < Count(b) && Depth(b, k + 1) == Depth(b, k) + 1
  {
    OffBelow(b, k, 0);
    FirstDepth(NodeAt(b, k).body);
  }

  /** fdt_next_subnode. */
  method NextSubnode(fdt: array<byte>, offset: int, ghost st: bytes, ghost top: Body, ghost k: int) returns (r: int)
    requires Ready(fdt[..], st) && On(st, 0, Frame(top, Bottom))
    requires if k < 0 then 0 <= offset < TWO31 && BadNode(st, offset) else k < Count(top) && offset == Off(top, k)
    ensures r == if k < 0 || NextSibling(top, k) < 0 then NOTFOUND else Off(top, NextSibling(top, k))
  {
    hide Ready, On, Off, Depth, BadNode;
    if k >= 0 {
      BehindSubtree(top, k);
    }
    r := offset;
    var depth := 1;
    ghost var j, m := k, if k < 0 then 0 else k + 1 + Count(NodeAt(top, k).body);
    var more := true;
    while more
      invariant k < 0 ==> more && j == k && r == offset && depth == 1
      invariant k >= 0 ==> k <= j < Count(top) && r == Off(top, j) && depth == 1 + Depth(top, j) - Depth(top, k)
      invariant k >= 0 ==> if more then j < m && depth >= 1 else depth == 1 && j == m
      decreases more, Count(top) - j
    {
      if k >= 0 && j + 1 < m {
        InSubtree(top, k, j + 1);
      }
      r, depth := Advance(fdt, r, depth, st, top, j);
      if r < 0 || depth < 1 {
        return NOTFOUND;
      }
      j := j + 1;
      more := depth > 1;
    }
  }

  // ---------------------------------------------------------------------------
  // The list of children
  // ---------------------------------------------------------------------------

  /** The k-th node stands on the outermost level of the contents of the p-th. */
  predicate IsChild(top: Body, p: nat, k: nat)
    requires p < Count(top)
  {
    p < k <= p + Count(NodeAt(top, p).body) && Depth(NodeAt(top, p).body, k - p - 1) == 0
  }

  /** A walk over fdt_first_subnode and fdt_next_subnode from the p-th node comes to the k-th. */
  ghost predicate Listed(top: Body, p: nat, k: nat)
    requires p < Count(top)
    decreases k
  {
    FirstChild(top, p) == k || exists j | 0 <= j < k && j < Count(top) :: Listed(top, p, j) && NextSibling(top, j) == k
  }

  /** Every node of an outermost level but the first is the next sibling of one. */
  lemma {:induction false} PreviousKid(b: Body, i: nat) returns (j: nat)
    requires 0 < i < Count(b) && Depth(b, i) == 0
    ensures j < i && Depth(b, j) == 0 && NextSibling(b, j) == i
    decreases b
  {
    match b
    case Nop(r) => j := PreviousKid(r, i);
    case Prop(_, _, _, r) => j := PreviousKid(r, i);
    case Sub(_, _, c, r) =>
      if i - 1 - Count(c) == 0 {
        j := 0;
      } else {
        j := PreviousKid(r, i - 1 - Count(c));
        j := j + 1 + Count(c);
      }
  }

  /** The next sibling of a node is the same seen from inside its parent. */
  lemma {:induction false} SiblingInside(top: Body, p: nat, i: nat)
    requires p < Count(top) && i < Count(NodeAt(top, p).body)
    ensures p + 1 + i < Count(top)
    ensures var r := NextSibling(NodeAt(top, p).body, i);
      NextSibling(top, p + 1 + i) == if r < 0 then NOTFOUND else p + 1 + r
  {
    HereBelow(top, Bottom, p, i);
  }

  lemma {:induction false} ChildListed(top: Body, p: nat, k: nat)
    requires p < Count(top) && IsChild(top, p, k)
    ensures Listed(top, p, k)
    decreases k
  {
    hide NextSibling, FirstChild, Depth;
    var c, i := NodeAt(top, p).body, k - p - 1;
    FirstChildIs(top, p);
    if i > 0 {
      var j := PreviousKid(c, i);
      SiblingInside(top, p, j);
      ChildListed(top, p, p + 1 + j);
    }
  }

  lemma {:induction false} FirstChildIs(top: Body, p: nat)
    requires p < Count(top)
    ensures FirstChild(top, p) == if Count(NodeAt(top, p).body) > 0 then p + 1 else NOTFOUND
  {
  }

  lemma {:induction false} ListedChild(top: Body, p: nat, k: nat)
    requires p < Count(top) && Listed(top, p, k)
    ensures IsChild(top, p, k)
    decreases k
  {
    hide NextSibling, FirstChild, Depth;
    var c := NodeAt(top, p).body;
    FirstChildIs(top, p);
    FirstDepth(c);
    if FirstChild(top, p) != k {
      var j :| 0 <= j < k && j < Count(top) && Listed(top, p, j) && NextSibling(top, j) == k;
      ListedChild(top, p, j);
      SiblingInside(top, p, j - p - 1);
      KidAgain(c, j - p - 1);
    }
  }

  lemma {:induction false} KidAgain(b: Body, i: nat)
    requires i < Count(b) && Depth(b, i) == 0 && NextSibling(b, i) >= 0
    ensures Depth(b, NextSibling(b, i)) == 0
  {
    BehindSubtree(b, i);
  }

  /** The walk lists exactly the children of a node. */
  lemma {:induction false} ListIsChildren(top: Body, p: nat, k: nat)
    requires p < Count(top)
    ensures Listed(top, p, k) <==> IsChild(top, p, k)
  {
    hide Listed, IsChild;
    if IsChild(top, p, k) {
      ChildListed(top, p, k);
    }
    if Listed(top, p, k) {
      ListedChild(top, p, k);
    }
  }
}
