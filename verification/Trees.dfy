/** The device tree as a value, and what a structure block and a strings block say about it. */
module Trees {
  import opened Bytes
  import opened Structure
  import opened Nodes

  /** The string stored at offset o of a strings block, up to its NUL. */
  function StrAt(strs: bytes, o: nat): bytes {
    if o <= |strs| then strs[o..NulFrom(strs, o)] else []
  }

  /** There is a non-empty string with its NUL at offset o. */
  predicate NameAt(strs: bytes, o: nat) {
    o < |strs| && o < NulFrom(strs, o) < |strs|
  }

  /** Every property of b has a name. */
  predicate Named(b: Body, strs: bytes) {
    match b
    case Close => true
    case Eof => true
    case Nop(r) => Named(r, strs)
    case Prop(o, _, _, r) => NameAt(strs, o) && Named(r, strs)
    case Sub(_, _, c, r) => Named(c, strs) && Named(r, strs)
  }

  datatype PropVal = PropVal(name: bytes, val: bytes)

  /** A list of sibling nodes, each with its name, properties and children. */
  datatype Forest = Nil | Tree(name: bytes, props: seq<PropVal>, kids: Forest, sibs: Forest)

  /** The properties among the tags of b, padding and NOPs forgotten. */
  function Props(b: Body, strs: bytes): seq<PropVal> {
    match b
    case Close => []
    case Eof => []
    case Nop(r) => Props(r, strs)
    case Prop(o, v, _, r) => [PropVal(StrAt(strs, o), v)] + Props(r, strs)
    case Sub(_, _, _, _) => []
  }

  /** The nodes among the tags of b, as trees. */
  function Erase(b: Body, strs: bytes): Forest {
    match b
    case Close => Nil
    case Eof => Nil
    case Nop(r) => Erase(r, strs)
    case Prop(_, _, _, r) => Erase(r, strs)
    case Sub(n, _, c, r) => Tree(n, Props(c, strs), Erase(c, strs), Erase(r, strs))
  }

  // ---------------------------------------------------------------------------
  // Trees and their nodes in document order
  // ---------------------------------------------------------------------------

  function Total(f: Forest): nat {
    if f.Nil? then 0 else 1 + Total(f.kids) + Total(f.sibs)
  }

  /** The k-th node of f together with its later siblings. */
  function NodeOf(f: Forest, k: nat): (n: Forest)
    requires k < Total(f)
    ensures n.Tree?
  {
    if k == 0 then f
    else if k <= Total(f.kids) then NodeOf(f.kids, k - 1)
    else NodeOf(f.sibs, k - 1 - Total(f.kids))
  }

  /** f with its k-th node and that node's later siblings replaced by g. */
  function Replace(f: Forest, k: nat, g: Forest): Forest
    requires k < Total(f)
  {
    if k == 0 then g
    else if k <= Total(f.kids) then f.(kids := Replace(f.kids, k - 1, g))
    else f.(sibs := Replace(f.sibs, k - 1 - Total(f.kids), g))
  }

  /** First property called name, or |props|. */
  function IndexOf(props: seq<PropVal>, name: bytes): (i: nat)
    ensures i <= |props|
    ensures forall j :: 0 <= j < i ==> props[j].name != name
    ensures i < |props| ==> props[i].name == name
  {
    if props == [] || props[0].name == name then 0 else 1 + IndexOf(props[1..], name)
  }

  /** The value of a property. */
  datatype Val = NoVal | Is(v: bytes)

  function ValueOf(ps: seq<PropVal>, name: bytes): Val {
    var i := IndexOf(ps, name);
    if i < |ps| then Is(ps[i].val) else NoVal
  }

  function SetVal(props: seq<PropVal>, name: bytes, val: bytes): seq<PropVal> {
    var i := IndexOf(props, name);
    if i < |props| then props[i := PropVal(name, val)] else [PropVal(name, val)] + props
  }

  function AppendVal(props: seq<PropVal>, name: bytes, val: bytes): seq<PropVal> {
    var i := IndexOf(props, name);
    if i < |props| then props[i := PropVal(name, props[i].val + val)] else [PropVal(name, val)] + props
  }

  function DropVal(props: seq<PropVal>, name: bytes): seq<PropVal> {
    var i := IndexOf(props, name);
    if i < |props| then props[..i] + props[i + 1..] else props
  }

  /** The edits of a tree, each at its k-th node. */
  function SetProp(f: Forest, k: nat, name: bytes, val: bytes): Forest
    requires k < Total(f)
  {
    var n := NodeOf(f, k);
    Replace(f, k, n.(props := SetVal(n.props, name, val)))
  }

  function AppendProp(f: Forest, k: nat, name: bytes, val: bytes): Forest
    requires k < Total(f)
  {
    var n := NodeOf(f, k);
    Replace(f, k, n.(props := AppendVal(n.props, name, val)))
  }

  function DelProp(f: Forest, k: nat, name: bytes): Forest
    requires k < Total(f)
  {
    var n := NodeOf(f, k);
    Replace(f, k, n.(props := DropVal(n.props, name)))
  }

  function Rename(f: Forest, k: nat, name: bytes): Forest
    requires k < Total(f)
  {
    var n := NodeOf(f, k);
    Replace(f, k, n.(name := name))
  }

  /** f with other properties for its k-th node. */
  function WithProps(f: Forest, k: nat, ps: seq<PropVal>): Forest
    requires k < Total(f)
  {
    var n := NodeOf(f, k);
    Replace(f, k, n.(props := ps))
  }

  /** A new first child without properties or children. */
  function AddChild(f: Forest, k: nat, name: bytes): Forest
    requires k < Total(f)
  {
    var n := NodeOf(f, k);
    Replace(f, k, n.(kids := Tree(name, [], Nil, n.kids)))
  }

  /** The k-th node goes with its whole subtree. */
  function Remove(f: Forest, k: nat): Forest
    requires k < Total(f)
  {
    var n := NodeOf(f, k);
    Replace(f, k, n.sibs)
  }

  // ---------------------------------------------------------------------------
  // Nodes of a block are nodes of its tree
  // ---------------------------------------------------------------------------

  lemma EraseCount(b: Body, strs: bytes)
    ensures Total(Erase(b, strs)) == Count(b)
  {
  }

  lemma {:induction false} EraseNode(b: Body, strs: bytes, k: nat)
    requires k < Count(b)
    ensures k < Total(Erase(b, strs))
    ensures NodeOf(Erase(b, strs), k) == Erase(NodeAt(b, k), strs)
    decreases b
  {
    EraseCount(b, strs);
    match b
    case Nop(r) => EraseNode(r, strs, k);
    case Prop(_, _, _, r) => EraseNode(r, strs, k);
    case Sub(_, _, c, r) =>
      EraseCount(c, strs);
      if k == 0 {
      } else if k <= Count(c) {
        EraseNode(c, strs, k - 1);
      } else {
        EraseNode(r, strs, k - 1 - Count(c));
      }
  }

  // ---------------------------------------------------------------------------
  // Replacing a node of a block
  // ---------------------------------------------------------------------------

  /** b with its k-th node, and what follows that node in its parent, replaced by new. */
  function Swap(b: Body, k: nat, new_: Body): Body
    requires k < Count(b)
  {
    match b
    case Nop(r) => Nop(Swap(r, k, new_))
    case Prop(o, v, p, r) => Prop(o, v, p, Swap(r, k, new_))
    case Sub(n, p, c, r) =>
      if k == 0 then new_
      else if k <= Count(c) then Sub(n, p, Swap(c, k - 1, new_), r)
      else Sub(n, p, c, Swap(r, k - 1 - Count(c), new_))
  }

  lemma {:induction false} EraseSwap(b: Body, strs: bytes, k: nat, new_: Body)
    requires k < Count(b) && NoProps(new_)
    ensures k < Total(Erase(b, strs))
    ensures Erase(Swap(b, k, new_), strs) == Replace(Erase(b, strs), k, Erase(new_, strs))
    ensures Props(Swap(b, k, new_), strs) == Props(b, strs)
    decreases b
  {
    hide StrAt;
    EraseCount(b, strs);
    match b
    case Nop(r) => EraseSwap(r, strs, k, new_);
    case Prop(_, _, _, r) => EraseSwap(r, strs, k, new_);
    case Sub(_, _, c, r) =>
      EraseCount(c, strs);
      if k == 0 {
        NoPropsNone(new_, strs);
      } else if k <= Count(c) {
        EraseSwap(c, strs, k - 1, new_);
      } else {
        EraseSwap(r, strs, k - 1 - Count(c), new_);
      }
  }

  lemma NoPropsNone(b: Body, strs: bytes)
    requires NoProps(b)
    ensures Props(b, strs) == []
  {
  }

  lemma {:induction false} NamedSwap(b: Body, strs: bytes, k: nat, new_: Body)
    requires k < Count(b) && Named(b, strs) && Named(new_, strs)
    ensures Named(Swap(b, k, new_), strs)
    decreases b
  {
    match b
    case Nop(r) => NamedSwap(r, strs, k, new_);
    case Prop(_, _, _, r) => NamedSwap(r, strs, k, new_);
    case Sub(_, _, c, r) =>
      if k == 0 {
      } else if k <= Count(c) {
        NamedSwap(c, strs, k - 1, new_);
      } else {
        NamedSwap(r, strs, k - 1 - Count(c), new_);
      }
  }

  lemma {:induction false} NamedNode(b: Body, strs: bytes, k: nat)
    requires k < Count(b) && Named(b, strs)
    ensures Named(NodeAt(b, k), strs)
    decreases b
  {
    match b
    case Nop(r) => NamedNode(r, strs, k);
    case Prop(_, _, _, r) => NamedNode(r, strs, k);
    case Sub(_, _, c, r) =>
      if k == 0 {
      } else if k <= Count(c) {
        NamedNode(c, strs, k - 1);
      } else {
        NamedNode(r, strs, k - 1 - Count(c));
      }
  }

  /** Whether the k-th node stands on the outermost level. */
  predicate Outer(b: Body, top: bool, k: nat)
    requires k < Count(b)
  {
    top && Depth(b, k) == 0
  }

  lemma {:induction false} WfNode(b: Body, top: bool, k: nat)
    requires k < Count(b) && Wf(b, top)
    ensures Wf(NodeAt(b, k), Outer(b, top, k)) && NoProps(NodeAt(b, k))
    decreases b
  {
    match b
    case Nop(r) => WfNode(r, top, k);
    case Prop(_, _, _, r) => WfNode(r, top, k);
    case Sub(_, _, c, r) =>
      if k == 0 {
      } else if k <= Count(c) {
        WfNode(c, false, k - 1);
      } else {
        WfNode(r, top, k - 1 - Count(c));
      }
  }

  lemma {:induction false} WfSwap(b: Body, top: bool, k: nat, new_: Body)
    requires k < Count(b) && Wf(b, top)
    requires Wf(new_, Outer(b, top, k)) && NoProps(new_)
    ensures Wf(Swap(b, k, new_), top)
    ensures NoProps(b) ==> NoProps(Swap(b, k, new_))
    decreases b
  {
    match b
    case Nop(r) => WfSwap(r, top, k, new_);
    case Prop(_, _, _, r) => WfSwap(r, top, k, new_);
    case Sub(_, _, c, r) =>
      if k == 0 {
      } else if k <= Count(c) {
        WfSwap(c, false, k - 1, new_);
      } else {
        WfSwap(r, top, k - 1 - Count(c), new_);
      }
  }

  /** Replacing a node splices the encoding at that node's offset and nowhere else. */
  lemma {:induction false} FlatSwap(b: Body, top: bool, k: nat, new_: Body)
    requires k < Count(b) && Wf(b, top)
    requires Wf(new_, Outer(b, top, k)) && NoProps(new_)
    ensures Wf(Swap(b, k, new_), top)
    ensures Off(b, k) + Size(NodeAt(b, k)) <= Size(b)
    ensures Flat(Swap(b, k, new_), top) ==
            Splice(Flat(b, top), Off(b, k), Size(NodeAt(b, k)), Flat(new_, Outer(b, top, k)))
    decreases b
  {
    hide HeadFlat, Splice, Swap, Wf, BeginSize, PropSize, NoProps, Flat;
    WfSwap(b, top, k, new_);
    SwapHead(b, top, k, new_);
    OffInside(b, k);
    FlatOf(b, top);
    var l, d := Size(NodeAt(b, k)), Flat(new_, Outer(b, top, k));
    if b.Sub? {
      FlatSwapSub(b, top, k, new_);
    } else {
      FlatSwap(b.rest, top, k, new_);
      FlatOf(Swap(b, k, new_), top);
      SpliceLast(HeadFlat(b, top), Flat(b.rest, top), Off(b.rest, k), l, d);
    }
  }

  lemma {:induction false} FlatSwapSub(b: Body, top: bool, k: nat, new_: Body)
    requires b.Sub? && k < Count(b) && Wf(b, top) && Wf(Swap(b, k, new_), top)
    requires Wf(new_, Outer(b, top, k)) && NoProps(new_)
    ensures Off(b, k) + Size(NodeAt(b, k)) <= Size(b)
    ensures Flat(Swap(b, k, new_), top) ==
            Splice(Flat(b, top), Off(b, k), Size(NodeAt(b, k)), Flat(new_, Outer(b, top, k)))
    decreases b, 0
  {
    hide HeadFlat, Splice, Swap, Wf, BeginSize, PropSize, NoProps, Flat, Size;
    SwapHead(b, top, k, new_);
    OffInside(b, k);
    FlatOf(b, top);
    FlatOf(Swap(b, k, new_), top);
    var l, d := Size(NodeAt(b, k)), Flat(new_, Outer(b, top, k));
    var h, c, r := HeadFlat(b, top), b.body, b.rest;
    if k == 0 {
      SpliceAll(Flat(b, top), d);
    } else if k <= Count(c) {
      FlatSwap(c, false, k - 1, new_);
      SpliceMiddle(h, Flat(c, false), Flat(r, top), Off(c, k - 1), l, d);
    } else {
      FlatSwap(r, top, k - 1 - Count(c), new_);
      SpliceLast(h + Flat(c, false), Flat(r, top), Off(r, k - 1 - Count(c)), l, d);
    }
  }

  /** The encoding of b is that of its first tag followed by the rest. */
  lemma {:induction false} FlatOf(b: Body, top: bool)
    requires Wf(b, top)
    ensures match b
      case Close => Flat(b, top) == HeadFlat(b, top)
      case Eof => Flat(b, top) == HeadFlat(b, top)
      case Nop(r) => Wf(r, top) && Flat(b, top) == HeadFlat(b, top) + Flat(r, top)
      case Prop(_, _, _, r) => Wf(r, top) && Flat(b, top) == HeadFlat(b, top) + Flat(r, top)
      case Sub(_, _, c, r) => Wf(c, false) && Wf(r, top) && Flat(b, top) == HeadFlat(b, top) + Flat(c, false) + Flat(r, top)
  {
    hide HeadFlat;
  }

  lemma {:induction false} OffInside(b: Body, k: nat)
    requires k < Count(b)
    ensures Off(b, k) + Size(NodeAt(b, k)) <= Size(b)
    ensures k == 0 && b.Sub? ==> NodeAt(b, k) == b && Off(b, k) == 0 && Depth(b, k) == 0
    decreases b
  {
    hide BeginSize, PropSize;
    match b
    case Nop(r) => OffInside(r, k);
    case Prop(_, _, _, r) => OffInside(r, k);
    case Sub(_, _, c, r) =>
      if k == 0 {
      } else if k <= Count(c) {
        OffInside(c, k - 1);
      } else {
        OffInside(r, k - 1 - Count(c));
      }
  }

  /** One level of Swap, without the definition of the encoding. */
  lemma {:induction false} SwapHead(b: Body, top: bool, k: nat, new_: Body)
    requires k < Count(b) && Wf(b, top) && Wf(Swap(b, k, new_), top)
    ensures match b
      case Nop(r) => Wf(r, top) && Swap(b, k, new_) == Nop(Swap(r, k, new_)) && HeadFlat(Swap(b, k, new_), top) == HeadFlat(b, top)
      case Prop(o, v, p, r) =>
        Wf(r, top) && Swap(b, k, new_) == Prop(o, v, p, Swap(r, k, new_)) && HeadFlat(Swap(b, k, new_), top) == HeadFlat(b, top)
      case Sub(n, p, c, r) =>
        && Wf(c, false) && Wf(r, top)
        && if k == 0 then Swap(b, k, new_) == new_
           else
             && HeadFlat(Swap(b, k, new_), top) == HeadFlat(b, top)
             && if k <= Count(c) then Swap(b, k, new_) == Sub(n, p, Swap(c, k - 1, new_), r)
                else Swap(b, k, new_) == Sub(n, p, c, Swap(r, k - 1 - Count(c), new_))
  {
  }

  lemma SpliceAll(s: bytes, d: bytes)
    ensures Splice(s, 0, |s|, d) == d
  {
  }
}
