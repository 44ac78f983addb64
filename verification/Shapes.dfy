/** Trees without their properties: what names and positions decide, and how edits move nodes about. */
module Shapes {
  import opened Bytes
  import opened Blob
  import opened Structure
  import opened Nodes
  import opened Trees
  import opened Attrs
  import opened Subnodes
  import opened Edits
  import opened Rw
  import opened RwNodes
  import opened Paths
  import opened PathLookup

  /** f without any properties. */
  function Bare(f: Forest): (b: Forest)
    ensures Total(b) == Total(f)
  {
    if f.Nil? then Nil else Tree(f.name, [], Bare(f.kids), Bare(f.sibs))
  }

  lemma {:induction false} BareWithProps(f: Forest, k: nat, ps: seq<PropVal>)
    requires k < Total(f)
    ensures Bare(WithProps(f, k, ps)) == Bare(f)
    decreases f
  {
    if k == 0 {
    } else if k <= Total(f.kids) {
      BareWithProps(f.kids, k - 1, ps);
    } else {
      BareWithProps(f.sibs, k - 1 - Total(f.kids), ps);
    }
  }

  lemma {:induction false} BareNode(f: Forest, k: nat)
    requires k < Total(f)
    ensures NodeOf(Bare(f), k) == Bare(NodeOf(f, k))
    decreases f
  {
    if k == 0 {
    } else if k <= Total(f.kids) {
      BareNode(f.kids, k - 1);
    } else {
      BareNode(f.sibs, k - 1 - Total(f.kids));
    }
  }

  lemma {:induction false} BareChild(f: Forest, s: bytes)
    ensures FindChild(Bare(f), s) == FindChild(f, s)
    decreases f
  {
    hide NameEq;
    if f.Tree? {
      BareChild(f.sibs, s);
    }
  }

  lemma {:induction false} BareAdd(f: Forest, k: nat, name: bytes)
    requires k < Total(f)
    ensures Bare(AddChild(f, k, name)) == AddChild(Bare(f), k, name)
    decreases f
  {
    if k == 0 {
    } else if k <= Total(f.kids) {
      BareAdd(f.kids, k - 1, name);
    } else {
      BareAdd(f.sibs, k - 1 - Total(f.kids), name);
    }
  }

  /** Where the x-th node is after a node was added behind the k-th one. */
  function Moved(k: nat, x: nat): nat {
    if x <= k then x else x + 1
  }

  lemma {:induction false} AddHead(f: Forest, k: nat, name: bytes)
    requires k < Total(f)
    ensures f.Tree?
    ensures AddChild(f, k, name) ==
            if k == 0 then f.(kids := Tree(name, [], Nil, f.kids))
            else if k <= Total(f.kids) then f.(kids := AddChild(f.kids, k - 1, name))
            else f.(sibs := AddChild(f.sibs, k - 1 - Total(f.kids), name))
  {
  }

  lemma {:induction false} NodeHead(f: Forest, k: nat)
    requires k < Total(f)
    ensures f.Tree? && Total(f) == 1 + Total(f.kids) + Total(f.sibs)
    ensures NodeOf(f, k) == if k == 0 then f
                            else if k <= Total(f.kids) then NodeOf(f.kids, k - 1) else NodeOf(f.sibs, k - 1 - Total(f.kids))
  {
  }

  lemma TreeTotal(name: bytes, kids: Forest)
    ensures Total(Tree(name, [], Nil, kids)) == 1 + Total(kids)
  {
    assert Total(Nil) == 0;
  }

  lemma {:induction false} TotalAdd(f: Forest, k: nat, name: bytes)
    requires k < Total(f)
    ensures Total(AddChild(f, k, name)) == Total(f) + 1
    decreases f
  {
    hide AddChild;
    AddHead(f, k, name);
    if k == 0 {
      TreeTotal(name, f.kids);
    } else if k <= Total(f.kids) {
      TotalAdd(f.kids, k - 1, name);
    } else {
      TotalAdd(f.sibs, k - 1 - Total(f.kids), name);
    }
  }

  /** A new first child of the k-th node of f is the (k+1)-th; every other node keeps its name, its properties
      and its children, one number further on if it comes later. */
  lemma {:induction false} NodeOfAdd(f: Forest, k: nat, name: bytes, j: nat)
    requires k < Total(f) && j < Total(f)
    ensures var f', n := AddChild(f, k, name), NodeOf(f, j);
      && Total(f') == Total(f) + 1
      && var n' := NodeOf(f', Moved(k, j));
      && n'.name == n.name && n'.props == n.props
      && n'.kids == (if j == k then Tree(name, [], Nil, n.kids)
                     else if j < k <= j + Total(n.kids) then AddChild(n.kids, k - j - 1, name)
                     else n.kids)
    decreases f
  {
    hide AddChild, NodeOf, Total;
    AddHead(f, k, name);
    NodeHead(f, j);
    var m := 1 + Total(f.kids);
    TotalAdd(f, k, name);
    NodeHead(AddChild(f, k, name), Moved(k, j));
    if k == 0 {
      TreeTotal(name, f.kids);
      if 0 < j < m {
        NodeHead(Tree(name, [], Nil, f.kids), j);
      }
    } else if k < m {
      TotalAdd(f.kids, k - 1, name);
      if 0 < j < m {
        NodeOfAdd(f.kids, k - 1, name, j - 1);
      }
    } else {
      TotalAdd(f.sibs, k - m, name);
      if j >= m {
        NodeOfAdd(f.sibs, k - m, name, j - m);
      } else if j > 0 {
        KidsInside(f.kids, j - 1);
      }
    }
  }

  lemma {:induction false} KidsInside(f: Forest, j: nat)
    requires j < Total(f)
    ensures j + Total(NodeOf(f, j).kids) < Total(f)
    decreases f
  {
    if j == 0 {
    } else if j <= Total(f.kids) {
      KidsInside(f.kids, j - 1);
    } else {
      KidsInside(f.sibs, j - 1 - Total(f.kids));
    }
  }

  /** The node added. */
  lemma {:induction false} NodeAdded(f: Forest, k: nat, name: bytes)
    requires k < Total(f)
    ensures var f' := AddChild(f, k, name);
      && k + 1 < Total(f')
      && NodeOf(f', k + 1) == Tree(name, [], Nil, NodeOf(f, k).kids)
    decreases f
  {
    TotalAdd(f, k, name);
    if k == 0 {
    } else if k <= Total(f.kids) {
      NodeAdded(f.kids, k - 1, name);
    } else {
      NodeAdded(f.sibs, k - 1 - Total(f.kids), name);
    }
  }

  /** A child that is found is found after a node was added further down. */
  lemma {:induction false} FindChildAdd(g: Forest, x: nat, name: bytes, s: bytes)
    requires x < Total(g)
    ensures FindChild(AddChild(g, x, name), s) ==
            match FindChild(g, s) case Absent => Absent case At(i) => At(Moved(x, i))
    decreases g
  {
    hide NameEq, AddChild;
    AddHead(g, x, name);
    if x == 0 {
      assert Total(Tree(name, [], Nil, g.kids)) == 1 + Total(g.kids);
    } else if x <= Total(g.kids) {
      TotalAdd(g.kids, x - 1, name);
    } else {
      FindChildAdd(g.sibs, x - 1 - Total(g.kids), name, s);
    }
  }

  lemma {:induction false} FoundInside(g: Forest, s: bytes)
    ensures FindChild(g, s).At? ==> FindChild(g, s).pos < Total(g)
    decreases g
  {
    hide NameEq;
    if g.Tree? {
      FoundInside(g.sibs, s);
    }
  }

  /** The nodes below the k-th one are those of its children. */
  lemma {:induction false} NodeInside(f: Forest, k: nat, i: nat)
    requires k < Total(f) && i < Total(NodeOf(f, k).kids)
    ensures k + 1 + i < Total(f) && NodeOf(f, k + 1 + i) == NodeOf(NodeOf(f, k).kids, i)
    decreases f
  {
    hide NodeOf;
    NodeHead(f, k);
    KidsInside(f, k);
    NodeHead(f, k + 1 + i);
    if k == 0 {
    } else if k <= Total(f.kids) {
      KidsInside(f.kids, k - 1);
      NodeInside(f.kids, k - 1, i);
    } else {
      NodeInside(f.sibs, k - 1 - Total(f.kids), i);
    }
  }

  // ---------------------------------------------------------------------------
  // Paths in a tree
  // ---------------------------------------------------------------------------

  /** The node reached from the k-th one by following names, or NOTFOUND. */
  function Reach(f: Forest, k: nat, names: seq<bytes>): (r: int)
    requires k < Total(f)
    ensures r == NOTFOUND || 0 <= r < Total(f)
    decreases |names|
  {
    if names == [] then k
    else
      FoundInside(NodeOf(f, k).kids, names[0]);
      KidsInside(f, k);
      match FindChild(NodeOf(f, k).kids, names[0])
      case Absent => NOTFOUND
      case At(i) => Reach(f, k + 1 + i, names[1..])
  }

  lemma {:induction false} ReachInside(f: Forest, k: nat, names: seq<bytes>)
    requires k < Total(f)
    ensures var r := Reach(f, k, names); r >= 0 ==> k <= r <= k + Total(NodeOf(f, k).kids)
    decreases |names|
  {
    hide NodeOf, FindChild;
    if names != [] {
      FoundInside(NodeOf(f, k).kids, names[0]);
      KidsInside(f, k);
      var c := FindChild(NodeOf(f, k).kids, names[0]);
      if c.At? {
        ReachInside(f, k + 1 + c.pos, names[1..]);
        NodeInside(f, k, c.pos);
        KidsInside(NodeOf(f, k).kids, c.pos);
      }
    }
  }

  lemma {:induction false} ReachBare(f: Forest, k: nat, names: seq<bytes>)
    requires k < Total(f)
    ensures Reach(Bare(f), k, names) == Reach(f, k, names)
    decreases |names|
  {
    hide NodeOf, FindChild;
    if names != [] {
      FoundInside(NodeOf(f, k).kids, names[0]);
      KidsInside(f, k);
      BareNode(f, k);
      BareChild(NodeOf(f, k).kids, names[0]);
      var c := FindChild(NodeOf(f, k).kids, names[0]);
      if c.At? {
        ReachBare(f, k + 1 + c.pos, names[1..]);
      }
    }
  }

  /** The name by which the way from the k-th node leaves the p-th one, if it does. */
  function Exit(f: Forest, p: nat, k: nat, names: seq<bytes>): Val
    requires k < Total(f)
    decreases |names|
  {
    if names == [] then NoVal
    else if k == p then Is(names[0])
    else
      FoundInside(NodeOf(f, k).kids, names[0]);
      KidsInside(f, k);
      match FindChild(NodeOf(f, k).kids, names[0])
      case Absent => NoVal
      case At(i) => Exit(f, p, k + 1 + i, names[1..])
  }

  /** The node is left by that name only if it has such a child, and only for what lies below it. */
  lemma {:induction false} ExitFound(f: Forest, p: nat, k: nat, names: seq<bytes>)
    requires k < Total(f) && p < Total(f) && Reach(f, k, names) >= 0 && Exit(f, p, k, names).Is?
    ensures FindChild(NodeOf(f, p).kids, Exit(f, p, k, names).v).At?
    ensures k <= p < Reach(f, k, names) <= p + Total(NodeOf(f, p).kids)
    decreases |names|
  {
    hide NodeOf, FindChild;
    FoundInside(NodeOf(f, k).kids, names[0]);
    KidsInside(f, k);
    var c := FindChild(NodeOf(f, k).kids, names[0]);
    if k == p {
      ReachInside(f, k, names);
      ReachInside(f, k + 1 + c.pos, names[1..]);
    } else {
      ExitFound(f, p, k + 1 + c.pos, names[1..]);
    }
  }

  lemma {:induction false} ExitBare(f: Forest, p: nat, k: nat, names: seq<bytes>)
    requires k < Total(f)
    ensures Exit(Bare(f), p, k, names) == Exit(f, p, k, names)
    decreases |names|
  {
    hide NodeOf, FindChild;
    if names != [] && k != p {
      FoundInside(NodeOf(f, k).kids, names[0]);
      KidsInside(f, k);
      BareNode(f, k);
      BareChild(NodeOf(f, k).kids, names[0]);
      var c := FindChild(NodeOf(f, k).kids, names[0]);
      if c.At? {
        ExitBare(f, p, k + 1 + c.pos, names[1..]);
      }
    }
  }

  /** A new child called name of the p-th node is in the way. */
  predicate Blocked(f: Forest, p: nat, name: bytes, k: nat, names: seq<bytes>)
    requires k < Total(f)
  {
    match Exit(f, p, k, names) case NoVal => false case Is(s) => NameEq(name, s)
  }

  /** What is found below the p-th node itself after a child was added there. */
  lemma {:induction false} FindAdded(kids: Forest, name: bytes, s: bytes)
    ensures FindChild(Tree(name, [], Nil, kids), s) ==
            if NameEq(name, s) then At(0) else match FindChild(kids, s) case Absent => Absent case At(i) => At(1 + i)
  {
    hide NameEq;
    assert Total(Nil) == 0;
  }

  lemma {:induction false} ReachLeaf(f: Forest, k: nat, names: seq<bytes>)
    requires k < Total(f) && NodeOf(f, k).kids == Nil
    ensures Reach(f, k, names) == if names == [] then k else NOTFOUND
  {
    hide NodeOf;
  }

  /** From below a node no way leaves it. */
  lemma {:induction false} ExitBelow(f: Forest, p: nat, k: nat, names: seq<bytes>)
    requires p < k < Total(f)
    ensures Exit(f, p, k, names) == NoVal
    decreases |names|
  {
    hide NodeOf, FindChild, Total;
    if names != [] {
      FoundInside(NodeOf(f, k).kids, names[0]);
      KidsInside(f, k);
      var c := FindChild(NodeOf(f, k).kids, names[0]);
      if c.At? {
        ExitBelow(f, p, k + 1 + c.pos, names[1..]);
      }
    }
  }

  /** One step of a way through a tree to which a child of the p-th node was added. */
  lemma {:induction false} StepAdd(f: Forest, p: nat, name: bytes, k: nat, s: bytes)
    requires k < Total(f) && p < Total(f) && FindChild(NodeOf(f, k).kids, s).At?
    ensures Moved(p, k) < Total(AddChild(f, p, name))
    ensures var i, r := FindChild(NodeOf(f, k).kids, s).pos, FindChild(NodeOf(AddChild(f, p, name), Moved(p, k)).kids, s);
      && k + 1 + i < Total(f)
      && r == if k == p && NameEq(name, s) then At(0) else At(Moved(p, k + 1 + i) - Moved(p, k) - 1)
  {
    hide NodeOf, FindChild, AddChild, NameEq, Total;
    NodeOfAdd(f, p, name, k);
    var kids := NodeOf(f, k).kids;
    FoundInside(kids, s);
    KidsInside(f, k);
    if k == p {
      FindAdded(kids, name, s);
    } else if k < p <= k + Total(kids) {
      FindChildAdd(kids, p - k - 1, name, s);
    }
  }

  /** After a child was added to the p-th node the same names lead to the same node if and only if it is not in the way;
      if it is, they lead to the new node or nowhere. */
  lemma {:induction false} ReachAdd(f: Forest, p: nat, name: bytes, k: nat, names: seq<bytes>)
    requires k < Total(f) && p < Total(f) && Reach(f, k, names) >= 0
    ensures Moved(p, k) < Total(AddChild(f, p, name))
    ensures var r := Reach(AddChild(f, p, name), Moved(p, k), names);
      && (!Blocked(f, p, name, k, names) <==> r == Moved(p, Reach(f, k, names)))
      && (Blocked(f, p, name, k, names) ==> r == NOTFOUND || r == p + 1)
    ensures !Blocked(f, p, name, k, names) ==> Exit(AddChild(f, p, name), p, Moved(p, k), names) == Exit(f, p, k, names)
    decreases |names|
  {
    hide NodeOf, FindChild, AddChild, NameEq, Total;
    NodeOfAdd(f, p, name, k);
    if names != [] {
      StepAdd(f, p, name, k, names[0]);
      var c := FindChild(NodeOf(f, k).kids, names[0]);
      if k == p {
        ReachBlocked(f, p, name, names);
      }
      if k != p || !NameEq(name, names[0]) {
        ReachAdd(f, p, name, k + 1 + c.pos, names[1..]);
      }
      if k == p {
        ExitBelow(f, p, k + 1 + c.pos, names[1..]);
      }
    }
  }

  /** From the p-th node itself: the new child answers first. */
  lemma {:induction false} ReachBlocked(f: Forest, p: nat, name: bytes, names: seq<bytes>)
    requires p < Total(f) && names != [] && Reach(f, p, names) >= 0
    ensures p < Total(AddChild(f, p, name)) && p < Reach(f, p, names)
    ensures var r := Reach(AddChild(f, p, name), p, names); NameEq(name, names[0]) ==> r == NOTFOUND || r == p + 1
  {
    hide NodeOf, FindChild, AddChild, NameEq, Total;
    StepAdd(f, p, name, p, names[0]);
    ReachInside(f, p + 1 + FindChild(NodeOf(f, p).kids, names[0]).pos, names[1..]);
    if NameEq(name, names[0]) {
      NodeAdded(f, p, name);
      ReachLeaf(AddChild(f, p, name), p + 1, names[1..]);
    }
  }

  lemma {:induction false} DescendReach(top: Body, strs: bytes, k: nat, names: seq<bytes>)
    requires k < Count(top)
    ensures k < Total(Erase(top, strs)) && Descend(top, k, names) == Reach(Erase(top, strs), k, names)
    decreases |names|
  {
    hide NodeOf, FindChild, FindKid, Erase, Off, Depth;
    KidsOf(top, k, strs, if names == [] then [] else names[0]);
    if names != [] {
      FindKidNode(NodeAt(top, k).body, names[0]);
      var c := FindKid(NodeAt(top, k).body, names[0]);
      if c.At? {
        OffBelow(top, k, c.pos);
        DescendReach(top, strs, k + 1 + c.pos, names[1..]);
      }
    }
  }

  /** The node a path means in the tree f, or the error. */
  function PathIn(f: Forest, path: bytes): (r: int)
    requires Total(f) > 0 && path != []
    ensures r < Total(f)
  {
    if path[0] == SLASH then Reach(f, 0, Route(path))
    else
      match AliasIn(f, path[..NextSlash(path)])
      case NoVal => BADPATH
      case Is(v) =>
        var k := Reach(f, 0, Route(CString(v)));
        if k < 0 then NOTFOUND else Reach(f, k, Route(path[NextSlash(path)..]))
  }

  function AliasIn(f: Forest, name: bytes): Val
    requires Total(f) > 0
  {
    var a := Reach(f, 0, Route(ALIASES));
    if a < 0 then NoVal else ValueOf(PropsOf(f, a), name)
  }

  lemma {:induction false} AliasSame(top: Body, strs: bytes, name: bytes)
    requires Count(top) > 0 && Wf(top, true) && Named(top, strs)
    ensures Total(Erase(top, strs)) > 0
    ensures match AliasIn(Erase(top, strs), name)
      case NoVal => AliasOf(top, strs, name) == NoAlias
      case Is(v) => AliasOf(top, strs, name) == Alias(v)
  {
    hide Erase, NodeOf, FindProp, From, Mark, Route, Reach, Descend, IndexOf, Wf, Named, NodeAt;
    DescendReach(top, strs, 0, Route(ALIASES));
    var a := Onwards(top, 0, ALIASES);
    if a >= 0 {
      FoundProp(top, a, strs, name);
    }
  }

  /** What the blob's path lookup finds is what the path means in its tree. */
  lemma {:induction false} PathSame(top: Body, strs: bytes, path: bytes)
    requires Count(top) > 0 && Wf(top, true) && Named(top, strs) && path != []
    ensures Total(Erase(top, strs)) == Count(top)
    ensures NodeOfPath(top, strs, path) == PathIn(Erase(top, strs), path)
  {
    hide Erase, Route, Reach, Descend, NextSlash, AliasIn, AliasOf, CString, Wf, Named;
    EraseCount(top, strs);
    DescendReach(top, strs, 0, Route(path));
    var name := path[..NextSlash(path)];
    AliasSame(top, strs, name);
    match AliasIn(Erase(top, strs), name)
    case NoVal =>
    case Is(v) =>
      DescendReach(top, strs, 0, Route(CString(v)));
      var k := Onwards(top, 0, CString(v));
      if k >= 0 {
        DescendReach(top, strs, k, Route(path[NextSlash(path)..]));
      }
  }
}
