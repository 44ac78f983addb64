/** What a deletion or a renaming leaves of the other nodes: at the offset where it now stands each has its name, its
    properties, and its children under their names (lib/libfdt/fdt_rw.c). */
module Survivors {
  import opened Bytes
  import opened Blob
  import opened Structure
  import opened Nodes
  import opened Trees
  import opened Attrs
  import opened Subnodes
  import opened Edits
  import opened Rw
  import opened RwNodes
  import opened Stores
  import opened Shapes

  /** Number of the j-th node after n nodes from the k-th on have gone. */
  function Left(k: nat, n: nat, j: nat): int {
    if j < k then j else j - n
  }

  lemma {:induction false} RemoveHead(f: Forest, k: nat)
    requires k < Total(f)
    ensures f.Tree?
    ensures Remove(f, k) ==
            if k == 0 then f.sibs
            else if k <= Total(f.kids) then f.(kids := Remove(f.kids, k - 1))
            else f.(sibs := Remove(f.sibs, k - 1 - Total(f.kids)))
  {
  }

  lemma {:induction false} TotalRemove(f: Forest, k: nat)
    requires k < Total(f)
    ensures Total(Remove(f, k)) == Total(f) - 1 - Total(NodeOf(f, k).kids)
    decreases f
  {
    hide Remove, NodeOf;
    RemoveHead(f, k);
    NodeHead(f, k);
    if k == 0 {
    } else if k <= Total(f.kids) {
      TotalRemove(f.kids, k - 1);
    } else {
      TotalRemove(f.sibs, k - 1 - Total(f.kids));
    }
  }

  lemma {:induction false} NodeOfRemove(f: Forest, k: nat, j: nat)
    requires k < Total(f) && j < Total(f)
    requires !(k <= j <= k + Total(NodeOf(f, k).kids))
    ensures var n, m, f' := 1 + Total(NodeOf(f, k).kids), NodeOf(f, j), Remove(f, k);
      && 0 <= Left(k, n, j) < Total(f')
      && var m' := NodeOf(f', Left(k, n, j));
      && m'.name == m.name && m'.props == m.props
      && m'.kids == if j < k <= j + Total(m.kids) then Remove(m.kids, k - j - 1) else m.kids
    decreases f
  {
    hide Remove, NodeOf, Total;
    RemoveHead(f, k);
    NodeHead(f, k);
    NodeHead(f, j);
    TotalRemove(f, k);
    KidsInside(f, k);
    var n, a := 1 + Total(NodeOf(f, k).kids), 1 + Total(f.kids);
    NodeHead(Remove(f, k), Left(k, n, j));
    if k == 0 {
    } else if k < a {
      TotalRemove(f.kids, k - 1);
      KidsInside(f.kids, k - 1);
      if 0 < j < a {
        NodeOfRemove(f.kids, k - 1, j - 1);
      }
    } else {
      if j >= a {
        NodeOfRemove(f.sibs, k - a, j - a);
      } else if j > 0 {
        KidsInside(f.kids, j - 1);
      }
    }
  }

  /** A child that is found is found after another node has gone. */
  lemma {:induction false} FindChildRemove(g: Forest, x: nat, s: bytes)
    requires x < Total(g)
    ensures var n := 1 + Total(NodeOf(g, x).kids);
      match FindChild(g, s)
      case Absent => FindChild(Remove(g, x), s) == Absent
      case At(i) => i != x ==> !(x <= i < x + n) && FindChild(Remove(g, x), s) == At(Left(x, n, i))
    decreases g
  {
    hide NameEq, Remove, NodeOf;
    RemoveHead(g, x);
    NodeHead(g, x);
    if x == 0 {
    } else if x <= Total(g.kids) {
      TotalRemove(g.kids, x - 1);
      KidsInside(g.kids, x - 1);
    } else {
      FindChildRemove(g.sibs, x - 1 - Total(g.kids), s);
    }
  }

  lemma {:induction false} RenameHead(f: Forest, k: nat, name: bytes)
    requires k < Total(f)
    ensures f.Tree?
    ensures Rename(f, k, name) ==
            if k == 0 then f.(name := name)
            else if k <= Total(f.kids) then f.(kids := Rename(f.kids, k - 1, name))
            else f.(sibs := Rename(f.sibs, k - 1 - Total(f.kids), name))
  {
  }

  lemma {:induction false} TotalRename(f: Forest, k: nat, name: bytes)
    requires k < Total(f)
    ensures Total(Rename(f, k, name)) == Total(f)
    decreases f
  {
    hide Rename;
    RenameHead(f, k, name);
    if k == 0 {
    } else if k <= Total(f.kids) {
      TotalRename(f.kids, k - 1, name);
    } else {
      TotalRename(f.sibs, k - 1 - Total(f.kids), name);
    }
  }

  lemma {:induction false} NodeOfRename(f: Forest, k: nat, name: bytes, j: nat)
    requires k < Total(f) && j < Total(f)
    ensures var m, f' := NodeOf(f, j), Rename(f, k, name);
      && Total(f') == Total(f)
      && var m' := NodeOf(f', j);
      && m'.name == (if j == k then name else m.name) && m'.props == m.props
      && m'.kids == if j < k <= j + Total(m.kids) then Rename(m.kids, k - j - 1, name) else m.kids
    decreases f
  {
    hide Rename, NodeOf, Total;
    RenameHead(f, k, name);
    TotalRename(f, k, name);
    NodeHead(f, j);
    NodeHead(Rename(f, k, name), j);
    var a := 1 + Total(f.kids);
    if k == 0 {
    } else if k < a {
      TotalRename(f.kids, k - 1, name);
      if 0 < j < a {
        NodeOfRename(f.kids, k - 1, name, j - 1);
      }
    } else {
      TotalRename(f.sibs, k - a, name);
      if j >= a {
        NodeOfRename(f.sibs, k - a, name, j - a);
      } else if j > 0 {
        KidsInside(f.kids, j - 1);
      }
    }
  }

  /** A search that neither found the renamed node nor is answered by its new name finds what it found. */
  lemma {:induction false} FindChildRename(g: Forest, x: nat, name: bytes, s: bytes)
    requires x < Total(g) && !NameEq(name, s) && FindChild(g, s) != At(x)
    ensures FindChild(Rename(g, x, name), s) == FindChild(g, s)
    decreases g
  {
    hide NameEq, Rename;
    RenameHead(g, x, name);
    if x == 0 {
    } else if x <= Total(g.kids) {
      TotalRename(g.kids, x - 1, name);
    } else if !NameEq(g.name, s) {
      FindChildRename(g.sibs, x - 1 - Total(g.kids), name, s);
    }
  }

  /** The j-th node of f is a node of f' under its new number, after the k-th one has gone with its subtree: same name,
      same properties, and a search among its children finds what it found, unless that was the node that has gone. */
  ghost predicate Stays(f: Forest, k: nat, f': Forest, j: nat, name: bytes)
    requires k < Total(f) && j < Total(f)
  {
    var n := 1 + Total(NodeOf(f, k).kids);
    var j' := Left(k, n, j);
    && 0 <= j' < Total(f')
    && NodeOf(f', j').name == NodeOf(f, j).name && NodeOf(f', j').props == NodeOf(f, j).props
    && var found, found' := FindChild(NodeOf(f, j).kids, name), FindChild(NodeOf(f', j').kids, name);
    && (found == Absent ==> found' == Absent)
    && (found.At? && j + 1 + found.pos != k ==> found'.At? && j' + 1 + found'.pos == Left(k, n, j + 1 + found.pos))
  }

  lemma {:induction false} RemoveStays(f: Forest, k: nat, j: nat, name: bytes)
    requires k < Total(f) && j < Total(f) && !(k <= j <= k + Total(NodeOf(f, k).kids))
    ensures Stays(f, k, Remove(f, k), j, name)
  {
    hide Total, NodeOf, Remove, FindChild;
    NodeOfRemove(f, k, j);
    var kids := NodeOf(f, j).kids;
    FoundInside(kids, name);
    if j < k <= j + Total(kids) {
      NodeInside(f, j, k - j - 1);
      FindChildRemove(kids, k - j - 1, name);
    }
  }

  // ---------------------------------------------------------------------------
  // On blobs
  // ---------------------------------------------------------------------------

  lemma EraseSub(n: Body, strs: bytes)
    requires n.Sub?
    ensures Erase(n, strs).Tree? && Total(Erase(n, strs).kids) == Count(n.body)
  {
    EraseCount(n.body, strs);
  }

  lemma {:induction false} GoneTree(s: bytes, s': bytes, top: Body, top': Body, k: nat)
    requires Encodes(s, top) && k < Count(top) && k < Total(TreeOf(s, top)) && NodeGone(View(s), s', top, top', k)
    ensures Encodes(s', top') && TreeOf(s', top') == Remove(TreeOf(s, top), k)
    ensures Shifted(top, top', k, 1 + Count(NodeAt(top, k).body), 0, 0 - Span(NodeAt(top, k)))
    ensures Total(TreeOf(s, top)) == Count(top) && Total(NodeOf(TreeOf(s, top), k).kids) == Count(NodeAt(top, k).body)
  {
    hide Hdr, View, Encodes, Erase, Ordered, Grown, Slack, Total, NodeOf, Remove, Shifted, Span, Count, Layout, RwErr, Wf, Flat, Named;
    EncodesReady(s, top);
    GrownTree(View(s), s', 0 - Span(NodeAt(top, k)), top', View(s).strs);
    EraseCount(top, View(s).strs);
    EraseNode(top, View(s).strs, k);
    EraseSub(NodeAt(top, k), View(s).strs);
  }

  /** After fdt_del_node a node that is left stands at its offset, or one subtree further up, and is there what it was. */
  lemma {:induction false} AfterDelete(s: bytes, s': bytes, top: Body, top': Body, k: nat, j: nat, name: bytes)
    requires Encodes(s, top) && k < Count(top) && k < Total(TreeOf(s, top)) && NodeGone(View(s), s', top, top', k)
    requires j < Count(top) && !(k <= j <= k + Count(NodeAt(top, k).body))
    ensures Encodes(s', top') && j < Total(TreeOf(s, top)) && Stays(TreeOf(s, top), k, TreeOf(s', top'), j, name)
    ensures var j' := Left(k, 1 + Count(NodeAt(top, k).body), j);
      && 0 <= j' < Count(top') == Total(TreeOf(s', top'))
      && Off(top', j') == Off(top, j) - if j < k then 0 else Span(NodeAt(top, k))
  {
    hide Hdr, View, Encodes, Erase, Ordered, Total, NodeOf, Remove, Span, Count, Off, FindChild, NodeGone, Stays, Layout, RwErr, Wf, Flat, Named;
    EncodesReady(s, top);
    GoneTree(s, s', top, top', k);
    EncodesReady(s', top');
    EraseCount(top', View(s').strs);
    RemoveStays(TreeOf(s, top), k, j, name);
  }

  lemma {:induction false} RenamedTree(s: bytes, s': bytes, top: Body, top': Body, k: nat, name: bytes)
    requires Encodes(s, top) && k < Count(top) && k < Total(TreeOf(s, top)) && NodeRenamed(View(s), s', top, top', k, name, 0)
    ensures Encodes(s', top') && TreeOf(s', top') == Rename(TreeOf(s, top), k, name)
    ensures MovedBy(top, top', k, Align4(|name| + 1) - Align4(|NodeAt(top, k).name| + 1))
    ensures Total(TreeOf(s, top)) == Count(top)
  {
    hide Hdr, View, Encodes, Erase, Ordered, Grown, Slack, Total, NodeOf, Rename, MovedBy, Count, Align4, RwErr, Wf, Flat, Named, Layout;
    EncodesReady(s, top);
    GrownTree(View(s), s', Align4(|name| + 1) - Align4(|NodeAt(top, k).name| + 1), top', View(s).strs);
    EraseCount(top, View(s).strs);
  }

  /** The j-th node after the k-th one got the name new_: its name, its properties, and a search among its children that
      did not find the node renamed and is not answered by its new name. */
  ghost predicate StaysNamed(f: Forest, k: nat, new_: bytes, f': Forest, j: nat, name: bytes)
    requires k < Total(f) && j < Total(f)
  {
    && j < Total(f')
    && NodeOf(f', j).name == (if j == k then new_ else NodeOf(f, j).name) && NodeOf(f', j).props == NodeOf(f, j).props
    && var found := FindChild(NodeOf(f, j).kids, name);
    !NameEq(new_, name) && (found.At? ==> j + 1 + found.pos != k) ==> FindChild(NodeOf(f', j).kids, name) == found
  }

  lemma {:induction false} RenameStays(f: Forest, k: nat, new_: bytes, j: nat, name: bytes)
    requires k < Total(f) && j < Total(f)
    ensures StaysNamed(f, k, new_, Rename(f, k, new_), j, name)
  {
    hide Total, NodeOf, Rename, FindChild, NameEq;
    NodeOfRename(f, k, new_, j);
    var kids := NodeOf(f, j).kids;
    if j < k <= j + Total(kids) && !NameEq(new_, name) && FindChild(kids, name) != At(k - j - 1) {
      FindChildRename(kids, k - j - 1, new_, name);
    }
  }

  /** After fdt_set_name every node stands at its offset, moved by the difference of the padded names if it comes later,
      and is there what it was but for that name. */
  lemma {:induction false} AfterRename(s: bytes, s': bytes, top: Body, top': Body, k: nat, new_: bytes, j: nat, name: bytes)
    requires Encodes(s, top) && k < Count(top) && k < Total(TreeOf(s, top)) && NodeRenamed(View(s), s', top, top', k, new_, 0)
    requires j < Count(top)
    ensures Encodes(s', top') && j < Total(TreeOf(s, top)) && StaysNamed(TreeOf(s, top), k, new_, TreeOf(s', top'), j, name)
    ensures j < Count(top')
    ensures Off(top', j) == Off(top, j) + if j <= k then 0 else Align4(|new_| + 1) - Align4(|NodeAt(top, k).name| + 1)
  {
    hide Hdr, View, Encodes, Erase, Ordered, Total, NodeOf, Rename, Count, Off, FindChild, NodeRenamed, NameEq, Align4, StaysNamed,
      Layout, RwErr, Wf, Flat, Named;
    EncodesReady(s, top);
    RenamedTree(s, s', top, top', k, new_);
    EncodesReady(s', top');
    RenameStays(TreeOf(s, top), k, new_, j, name);
  }
}
