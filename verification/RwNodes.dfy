/** The read-write functions of lib/libfdt/fdt_rw.c that edit whole nodes. */
module RwNodes {
  import opened Bytes
  import opened Blob
  import opened Structure
  import opened Lexer
  import opened Nodes
  import opened Trees
  import opened Attrs
  import opened Walk
  import opened Lookup
  import opened Subnodes
  import opened Edits
  import opened Rw

  /** What an edit by whole nodes leaves behind once the bytes are in place. */
  lemma {:induction false} CommitNode(v: Parts, t: bytes, top: Body, top': Body, o: nat, len: nat, d: bytes)
    requires RwErr(v.hdr) == 0 && v.hdr.sizeStrings == |v.strs| < TWO31
    requires NodeEdit(top, top', v.strs, o, len, d) && v.stru == Flat(top, true)
    requires Layout(t) && Spliced(Checked(v, v.strs), View(t), o, len, d)
    ensures Grown(v, t, |d| - len, top', v.strs)
  {
    hide Hdr, Flat, Wf, Named, Splice;
    GrownIs(v, t, |d| - len, top', v.strs);
  }

  lemma {:induction false} NodeFits(s: bytes, top: Body, top': Body, o: nat, len: nat, d: bytes)
    requires Encodes(s, top) && NodeEdit(top, top', View(s).strs, o, len, d)
    ensures o + len <= Hdr(s).sizeStruct <= Hdr(s).offStrings && 0 <= Slack(Hdr(s)) && Hdr(s).offStruct + o <= |s|
  {
    hide Hdr, Flat, Wf, Named, Splice;
  }

  /** The k-th node is gone with its subtree; everything behind it moved up by its span. */
  ghost predicate NodeGone(v: Parts, s: bytes, top: Body, top': Body, k: nat)
    requires k < Count(top) && k < Total(Erase(top, v.strs))
  {
    var n := NodeAt(top, k);
    && Grown(v, s, 0 - Span(n), top', v.strs)
    && Erase(top', v.strs) == Remove(Erase(top, v.strs), k)
    && Shifted(top, top', k, 1 + Count(n.body), 0, 0 - Span(n))
  }

  /** fdt_del_node. */
  method DelNode(fdt: array<byte>, nodeoffset: int, ghost top: Body, ghost k: int) returns (err: int, ghost top': Body)
    requires Editable(fdt[..], top)
    requires RwErr(Hdr(fdt[..])) == 0 ==> Target(View(fdt[..]).stru, top, nodeoffset, k)
    modifies fdt
    ensures RwErr(old(Hdr(fdt[..]))) != 0 ==> err == RwErr(old(Hdr(fdt[..]))) && fdt[..] == old(fdt[..])
    ensures RwErr(old(Hdr(fdt[..]))) == 0 && k < 0 ==>
              && err == (if nodeoffset < 0 then nodeoffset else BADOFFSET)
              && Kept(old(View(fdt[..])), fdt[..], top, top')
    ensures RwErr(old(Hdr(fdt[..]))) == 0 && k >= 0 ==>
              && err == 0 && k < Count(top) && k < Total(Erase(top, old(View(fdt[..])).strs))
              && NodeGone(old(View(fdt[..])), fdt[..], top, top', k)
  {
    hide Hdr, Flat, Wf, Named, Erase, Encodes, Splice, RwErr, Grown, View, Ordered, On, TagAt, Ready, BadNode, Shifted, NodeEdit;
    top' := top;
    err := RwCheckHeader(fdt, top);
    if err != 0 {
      return;
    }
    ghost var s := fdt[..];
    EncodesReady(s, top);
    HeaderKept(old(fdt[..]), s, top);
    TargetRef(View(s).stru, top, nodeoffset, k);
    var endoffset := NodeEndOffset(fdt, nodeoffset, View(s).stru, StackFor(top, k));
    if endoffset < 0 {
      return endoffset, top;
    }
    top' := DelNodePlan(top, k, View(s).strs);
    NodeFits(s, top, top', nodeoffset, endoffset - nodeoffset, []);
    assert s[Hdr(s).offStruct + nodeoffset..Hdr(s).offStruct + nodeoffset + 0] == [];
    err := SpliceStruct(fdt, nodeoffset, endoffset - nodeoffset, 0);
    CommitNode(old(View(fdt[..])), fdt[..], top, top', nodeoffset, endoffset - nodeoffset, []);
  }

  // ---------------------------------------------------------------------------
  // Names
  // ---------------------------------------------------------------------------

  /** fdt_get_name: the structure offset of the node's name and its length. NULL is -1, and then len is
      the error. */
  method GetName(fdt: array<byte>, nodeoffset: int, ghost st: bytes, ghost stk: Stack) returns (p: int, len: int)
    requires Ready(fdt[..], st) && NodeRef(st, nodeoffset, stk)
    ensures fdt.Length >= HEADER_SIZE
    ensures CheckErr(Hdr(fdt[..])) != 0 ==> p == -1 && len == CheckErr(Hdr(fdt[..]))
    ensures CheckErr(Hdr(fdt[..])) == 0 && BadNode(st, nodeoffset) ==> p == -1 && len == BADOFFSET
    ensures CheckErr(Hdr(fdt[..])) == 0 && !BadNode(st, nodeoffset) ==>
              && p == nodeoffset + 4 && len == |stk.b.name| && p + len < |st| && st[p..p + len] == stk.b.name
  {
    hide Ready, Hdr, On, TagAt, BadNode, CheckErr;
    ReadySize(fdt[..], st);
    var err := CheckHeader(fdt);
    if err != 0 {
      return -1, err;
    }
    if !BadNode(st, nodeoffset) {
      NodeIsGood(st, nodeoffset, stk);
    }
    err := CheckNodeOffset(fdt, nodeoffset, st);
    if err < 0 {
      return -1, err;
    }
    NodeName(st, nodeoffset, stk);
    NameInMemory(fdt[..], st, nodeoffset, stk.b.name);
    len := StrLen(fdt, GetHdr(fdt, OffStruct) + nodeoffset + 4);
    return nodeoffset + 4, len;
  }

  lemma NameInMemory(mem: bytes, st: bytes, o: nat, n: bytes)
    requires Ready(mem, st) && 0 !in n && o + 4 + |n| < |st|
    requires st[o + 4..o + 4 + |n|] == n && st[o + 4 + |n|] == 0
    ensures var p := Hdr(mem).offStruct + o + 4;
      p + |n| < |mem| && NulFrom(mem, p) == p + |n|
  {
    hide Hdr, NulFrom;
    assert mem[0..] == mem;
    StruSlice(mem, 0, o + 4, o + 4 + |n|);
    StruAt(mem, 0, o + 4 + |n|);
    NulAt(mem, Hdr(mem).offStruct + o + 4, n);
  }

  /** Resizing the name of a node and copying the new one in rewrites its BEGIN_NODE tag. */
  lemma RenameBytes(st: bytes, q: nat, oldlen: nat, gap: bytes, name: bytes)
    requires q + 4 + oldlen <= |st| && |gap| == Align4(|name| + 1)
    requires st[q..q + 4] == Cell(BEGIN_NODE)
    ensures Patch(Splice(st, q + 4, oldlen, gap), q + 4, name + [0]) ==
            Splice(st, q, 4 + oldlen, FlatBegin(name, gap[|name| + 1..]))
  {
    hide Cell, Splice, Patch;
    var c := Cell(BEGIN_NODE);
    HeadGap(st, q, c, oldlen, gap);
    FillBytes(st, q, 4 + oldlen, c, gap, 0, name + [0]);
    PatchFront(gap, name + [0]);
    NameParts(c, name, gap[|name| + 1..]);
  }

  lemma HeadGap(st: bytes, q: nat, c: bytes, oldlen: nat, gap: bytes)
    requires q + |c| + oldlen <= |st| && st[q..q + |c|] == c
    ensures Splice(st, q + |c|, oldlen, gap) == Splice(st, q, |c| + oldlen, c + gap)
  {
    assert st[..q + |c|] == st[..q] + c;
  }

  lemma PatchFront(gap: bytes, d: bytes)
    requires |d| <= |gap|
    ensures Patch(gap, 0, d) == d + gap[|d|..]
  {
  }

  lemma NameParts(c: bytes, name: bytes, pad: bytes)
    ensures c + (name + [0] + pad) == c + name + [0] + pad
  {
  }

  /** The k-th node is called name; or nothing changed because the blob has too little slack. */
  ghost predicate NodeRenamed(v: Parts, s: bytes, top: Body, top': Body, k: nat, name: bytes, err: int)
    requires k < Count(top) && k < Total(Erase(top, v.strs))
  {
    var delta := Align4(|name| + 1) - Align4(|NodeAt(top, k).name| + 1);
    if delta > Slack(v.hdr) then err == NOSPACE && Kept(v, s, top, top')
    else
      && err == 0 && Grown(v, s, delta, top', v.strs)
      && Erase(top', v.strs) == Rename(Erase(top, v.strs), k, name)
      && MovedBy(top, top', k, delta)
  }

  /** fdt_set_name. */
  method SetName(fdt: array<byte>, nodeoffset: int, name: bytes, ghost top: Body, ghost k: int)
    returns (err: int, ghost top': Body)
    requires Editable(fdt[..], top) && 0 !in name && |name| < TWO31 - 8
    requires RwErr(Hdr(fdt[..])) == 0 ==> Target(View(fdt[..]).stru, top, nodeoffset, k)
    modifies fdt
    ensures RwErr(old(Hdr(fdt[..]))) != 0 ==> err == RwErr(old(Hdr(fdt[..]))) && fdt[..] == old(fdt[..])
    ensures RwErr(old(Hdr(fdt[..]))) == 0 && k < 0 ==> err == BADOFFSET && Kept(old(View(fdt[..])), fdt[..], top, top')
    ensures RwErr(old(Hdr(fdt[..]))) == 0 && k >= 0 ==>
              && k < Count(top) && k < Total(Erase(top, old(View(fdt[..])).strs))
              && NodeRenamed(old(View(fdt[..])), fdt[..], top, top', k, name, err)
  {
    hide Hdr, Flat, Wf, Named, Erase, Encodes, Splice, RwErr, CheckErr, Grown, View, Ordered, On, TagAt, Ready, BadNode,
      MovedBy, NodeEdit, Align4, FlatBegin, Patch;
    top' := top;
    err := RwCheckHeader(fdt, top);
    if err != 0 {
      return;
    }
    ghost var s := fdt[..];
    EncodesReady(s, top);
    HeaderKept(old(fdt[..]), s, top);
    TargetRef(View(s).stru, top, nodeoffset, k);
    var namep, oldlen := GetName(fdt, nodeoffset, View(s).stru, StackFor(top, k));
    if namep == -1 {
      return oldlen, top;
    }
    err, top' := ReplaceName(fdt, namep, oldlen, name, old(View(fdt[..])), top, k);
  }

  /** The splice and the copy of fdt_set_name. */
  method ReplaceName(fdt: array<byte>, namep: nat, oldlen: nat, name: bytes, ghost v: Parts, ghost top: Body, ghost k: nat)
    returns (err: int, ghost top': Body)
    requires Layout(fdt[..]) && v.hdr.sizeStrings == |v.strs| < TWO31 && View(fdt[..]) == Checked(v, v.strs)
    requires RwErr(v.hdr) == 0
    requires Wf(top, true) && v.stru == Flat(top, true) && Named(top, v.strs) && Size(top) < TWO31
    requires k < Count(top) && namep == Off(top, k) + 4 && oldlen == |NodeAt(top, k).name|
    requires 0 !in name && |name| < TWO31 - 8
    modifies fdt
    ensures k < Total(Erase(top, v.strs))
    ensures var delta := Align4(|name| + 1) - Align4(oldlen + 1);
      if delta > Slack(v.hdr) then err == NOSPACE && top' == top && fdt[..] == old(fdt[..])
      else
        && err == 0 && Grown(v, fdt[..], delta, top', v.strs)
        && Erase(top', v.strs) == Rename(Erase(top, v.strs), k, name)
        && MovedBy(top, top', k, delta)
  {
    hide Hdr, Flat, Wf, Named, Erase, Splice, RwErr, Grown, View, Ordered, MovedBy, Align4, Patch, Off, NodeAt, Count, Size,
      Cell, Blocks, Rename;
    top' := top;
    ghost var s := fdt[..];
    Roomy(s);
    NodeTag(top, k);
    EraseCount(top, v.strs);
    err := SpliceStruct(fdt, namep, Align4(oldlen + 1), Align4(|name| + 1));
    if err != 0 {
      return;
    }
    ghost var gap := s[Hdr(s).offStruct + namep..Hdr(s).offStruct + namep + Align4(|name| + 1)];
    ghost var w := View(fdt[..]);
    StoreBytes(fdt, namep, name + [0]);
    top' := RenameDone(v, w, fdt[..], top, k, name, gap);
  }

  lemma {:induction false} RenameDone(v: Parts, w: Parts, s: bytes, top: Body, k: nat, name: bytes, gap: bytes) returns (top': Body)
    requires RwErr(v.hdr) == 0 && v.hdr.sizeStrings == |v.strs| < TWO31
    requires k < Count(top) && Wf(top, true) && Named(top, v.strs) && Size(top) < TWO31 && v.stru == Flat(top, true)
    requires 0 !in name && |gap| == Align4(|name| + 1)
    requires Spliced(Checked(v, v.strs), w, Off(top, k) + 4, Align4(|NodeAt(top, k).name| + 1), gap)
    requires Off(top, k) + 4 + |name| + 1 <= |w.stru|
    requires Layout(s) && View(s) == w.(stru := Patch(w.stru, Off(top, k) + 4, name + [0]))
    ensures k < Total(Erase(top, v.strs))
    ensures var delta := Align4(|name| + 1) - Align4(|NodeAt(top, k).name| + 1);
      && Grown(v, s, delta, top', v.strs)
      && Erase(top', v.strs) == Rename(Erase(top, v.strs), k, name)
      && MovedBy(top, top', k, delta)
  {
    hide Hdr, Flat, Wf, Named, Erase, Splice, RwErr, Grown, View, Ordered, MovedBy, NodeEdit, Align4, FlatBegin, Patch;
    var o, len, pad := Off(top, k), BeginSize(NodeAt(top, k).name), gap[|name| + 1..];
    NodeTag(top, k);
    RenameBytes(v.stru, o, len - 4, gap, name);
    top' := RenamePlan(top, k, v.strs, name, pad);
    BeginLength(name, pad);
    CommitNode(v, s, top, top', o, len, FlatBegin(name, pad));
  }

  lemma BeginLength(name: bytes, pad: bytes)
    ensures |FlatBegin(name, pad)| == 5 + |name| + |pad|
  {
    hide Cell;
  }

  /** The BEGIN_NODE tag and the name of a node lie inside the block. */
  lemma {:induction false} NodeTag(top: Body, k: nat)
    requires k < Count(top) && Wf(top, true) && Size(top) < TWO31
    ensures Off(top, k) + BeginSize(NodeAt(top, k).name) <= Size(top)
    ensures Flat(top, true)[Off(top, k)..Off(top, k) + 4] == Cell(BEGIN_NODE)
  {
    hide Cell, FlatBegin, Flat, Wf, BeginSize;
    var n, outer, o, st := NodeAt(top, k), Outer(top, true, k), Off(top, k), Flat(top, true);
    FlatNode(top, k);
    BeginFirst(n, outer);
    SliceSlice(st, o, o + Size(n), 0, 4);
  }

  lemma {:induction false} BeginFirst(n: Body, outer: bool)
    requires n.Sub? && Wf(n, outer)
    ensures BeginSize(n.name) <= Size(n)
    ensures Flat(n, outer)[0..4] == Cell(BEGIN_NODE)
  {
    hide FlatBegin, Cell;
    BeginSlices(n.name, n.npad);
    FlatOf(n, outer);
    var h := HeadFlat(n, outer);
    assert Flat(n, outer)[0..4] == h[0..4];
  }

  // ---------------------------------------------------------------------------
  // New subnodes
  // ---------------------------------------------------------------------------

  /** The do loop of fdt_add_subnode_namelen: the offset behind the property list. */
  method SkipProps(fdt: array<byte>, start: nat, ghost st: bytes, ghost body: Body, ghost up: Stack) returns (r: nat)
    requires Ready(fdt[..], st) && InNode(st, start, body, up)
    ensures r == start + ListEnd(body)
  {
    hide Ready, TagAt, InNode, PropSize;
    var nextoffset: int := start;
    r := start;
    var tag := NOP;
    ghost var at := body;
    while tag == PROP || tag == NOP
      invariant tag == PROP || tag == NOP ==> nextoffset >= 0 && InNode(st, nextoffset, at, up)
      invariant tag == PROP || tag == NOP ==> start + ListEnd(body) == nextoffset + ListEnd(at)
      invariant !(tag == PROP || tag == NOP) ==> r == start + ListEnd(body)
      decreases tag == PROP || tag == NOP, at
    {
      InNodeStep(st, nextoffset, at, up);
      r := nextoffset;
      tag, nextoffset := LexTag(fdt, r, st);
      if tag == PROP || tag == NOP {
        at := at.rest;
      }
    }
  }

  /** Clearing the name field, copying the name and storing both tags writes an empty node. */
  lemma ChildBytes(st: bytes, q: nat, g: bytes, name: bytes)
    requires q <= |st| && |g| == BeginSize(name) + 4
    ensures var pad := seq(Align4(|name| + 1) - (|name| + 1), _ => 0);
      var t := Patch(Patch(Splice(st, q, 0, g), q, Cell(BEGIN_NODE)), q + 4, seq(Align4(|name| + 1), _ => 0));
      Patch(Patch(t, q + 4, name), q + |g| - 4, Cell(END_NODE)) == Splice(st, q, 0, FlatBegin(name, pad) + Cell(END_NODE))
  {
    hide Cell, Splice, Patch, Align4, FlatBegin;
    var n := Align4(|name| + 1);
    var g1 := Patch(g, 0, Cell(BEGIN_NODE));
    var g2 := Patch(g1, 4, seq(n, _ => 0));
    var g3 := Patch(g2, 4, name);
    var g4 := Patch(g3, n + 4, Cell(END_NODE));
    FillGap(st, q, g, 0, Cell(BEGIN_NODE));
    FillGap(st, q, g1, 4, seq(n, _ => 0));
    FillGap(st, q, g2, 4, name);
    FillGap(st, q, g3, n + 4, Cell(END_NODE));
    EmptyNode(g, name);
  }

  lemma FillGap(st: bytes, q: nat, gap: bytes, at: nat, d: bytes)
    requires q <= |st| && at + |d| <= |gap|
    ensures Patch(Splice(st, q, 0, gap), q + at, d) == Splice(st, q, 0, Patch(gap, at, d))
  {
    hide Splice, Patch;
    assert [] + gap == gap && [] + Patch(gap, at, d) == Patch(gap, at, d);
    FillBytes(st, q, 0, [], gap, at, d);
  }

  lemma EmptyNode(g: bytes, name: bytes)
    requires |g| == BeginSize(name) + 4
    ensures var n := Align4(|name| + 1);
      Patch(Patch(Patch(Patch(g, 0, Cell(BEGIN_NODE)), 4, seq(n, _ => 0)), 4, name), n + 4, Cell(END_NODE)) ==
      FlatBegin(name, seq(n - (|name| + 1), _ => 0)) + Cell(END_NODE)
  {
    hide Cell, Align4;
    var n := Align4(|name| + 1);
    var b, e := Cell(BEGIN_NODE), Cell(END_NODE);
    assert Patch(Patch(g, 0, b), 4, seq(n, _ => 0)) == b + seq(n, _ => 0) + g[n + 4..];
  }

  /** The k-th node has a new first child called name, at offset r; or it has a child of that name already;
      or the blob has too little slack. */
  ghost predicate ChildAdded(v: Parts, s: bytes, top: Body, top': Body, k: nat, name: bytes, r: int)
    requires k < Count(top) && k < Total(Erase(top, v.strs))
  {
    var f := Erase(top, v.strs);
    if FindChild(NodeOf(f, k).kids, name).At? then r == EXISTS && Kept(v, s, top, top')
    else if BeginSize(name) + 4 > Slack(v.hdr) then r == NOSPACE && Kept(v, s, top, top')
    else
      && Grown(v, s, BeginSize(name) + 4, top', v.strs)
      && Erase(top', v.strs) == AddChild(f, k, name)
      && Shifted(top, top', k + 1, 0, 1, BeginSize(name) + 4)
      && k + 1 < Count(top') && r == Off(top', k + 1)
  }

  /** First of the siblings f whose name matches, by its number in document order. */
  function FindChild(f: Forest, s: bytes): Found {
    if f.Nil? then Absent
    else if NameEq(f.name, s) then At(0)
    else var r := FindChild(f.sibs, s); if r.At? then At(1 + Total(f.kids) + r.pos) else Absent
  }

  lemma {:induction false} FindKidChild(b: Body, strs: bytes, s: bytes)
    ensures FindKid(b, s) == FindChild(Erase(b, strs), s)
    decreases b
  {
    hide NameEq;
    if b.Sub? {
      EraseCount(b.body, strs);
    }
    if !b.Close? && !b.Eof? {
      FindKidChild(b.rest, strs, s);
    }
  }

  lemma {:induction false} KidsOf(top: Body, k: nat, strs: bytes, s: bytes)
    requires k < Count(top)
    ensures k < Total(Erase(top, strs))
    ensures FindChild(NodeOf(Erase(top, strs), k).kids, s) == FindKid(NodeAt(top, k).body, s)
  {
    hide NameEq, FindKid, FindChild;
    EraseCount(top, strs);
    EraseNode(top, strs, k);
    FindKidChild(NodeAt(top, k).body, strs, s);
  }

  /** The padding of a new node's name. */
  function Zeros(name: bytes): (z: bytes)
    ensures |z| == Align4(|name| + 1) - (|name| + 1)
  {
    seq(Align4(|name| + 1) - (|name| + 1), _ => 0)
  }

  /** The splice and the stores of fdt_add_subnode_namelen. */
  method OpenNode(fdt: array<byte>, q: nat, name: bytes) returns (err: int)
    requires Layout(fdt[..]) && q <= Hdr(fdt[..]).sizeStruct && |name| < TWO31 - 16
    modifies fdt
    ensures if BeginSize(name) + 4 > Slack(old(Hdr(fdt[..]))) then err == NOSPACE && fdt[..] == old(fdt[..])
            else err == 0 && Layout(fdt[..]) && Spliced(old(View(fdt[..])), View(fdt[..]), q, 0, FlatBegin(name, Zeros(name)) + Cell(END_NODE))
  {
    hide Hdr, Splice, View, Ordered, Align4, Patch, Cell, FlatBegin;
    ghost var s := fdt[..];
    Roomy(s);
    var nodelen := 4 + Align4(|name| + 1) + 4;
    err := SpliceStruct(fdt, q, 0, nodelen);
    if err != 0 {
      return;
    }
    StoreCell(fdt, q, BEGIN_NODE);
    StoreBytes(fdt, q + 4, seq(Align4(|name| + 1), _ => 0));
    StoreBytes(fdt, q + 4, name);
    StoreCell(fdt, q + nodelen - 4, END_NODE);
    ghost var g := s[Hdr(s).offStruct + q..Hdr(s).offStruct + q + nodelen];
    ChildBytes(View(s).stru, q, g, name);
    BeginLength(name, Zeros(name));
  }

  lemma {:induction false} InsideNode(st: bytes, top: Body, k: nat)
    requires On(st, 0, Frame(top, Bottom)) && Wf(top, true) && k < Count(top)
    ensures var n, up := NodeAt(top, k), Here(top, Bottom, k).up;
      && 0 <= Off(top, k) < TWO31 && TagAt(st, Off(top, k)).next == BodyOff(top, k)
      && InNode(st, BodyOff(top, k), n.body, Frame(n.rest, up))
  {
    hide On, TagAt;
    HereOn(st, 0, top, Bottom, k);
    NodeIsGood(st, Off(top, k), Here(top, Bottom, k));
  }

  /** The part of fdt_add_subnode_namelen behind the search. */
  method InsertSubnode(fdt: array<byte>, parentoffset: nat, name: bytes, ghost v: Parts, ghost top: Body, ghost k: nat)
    returns (r: int, ghost top': Body)
    requires Layout(fdt[..]) && v.hdr.sizeStrings == |v.strs| < TWO31 && View(fdt[..]) == Checked(v, v.strs)
    requires RwErr(v.hdr) == 0 && Ready(fdt[..], v.stru) && On(v.stru, 0, Frame(top, Bottom))
    requires Wf(top, true) && v.stru == Flat(top, true) && Named(top, v.strs) && Size(top) < TWO31
    requires k < Count(top) && parentoffset == Off(top, k) && 0 !in name && |name| < TWO31 - 16
    modifies fdt
    ensures k < Total(Erase(top, v.strs))
    ensures if BeginSize(name) + 4 > Slack(v.hdr) then r == NOSPACE && top' == top && fdt[..] == old(fdt[..])
            else
              && Grown(v, fdt[..], BeginSize(name) + 4, top', v.strs)
              && Erase(top', v.strs) == AddChild(Erase(top, v.strs), k, name)
              && Shifted(top, top', k + 1, 0, 1, BeginSize(name) + 4)
              && k + 1 < Count(top') && r == Off(top', k + 1)
  {
    hide Hdr, Flat, Wf, Named, Erase, Splice, RwErr, Grown, View, Ordered, On, TagAt, Ready, Shifted, Align4, BeginSize,
      Size, AddChild, NodeEdit, Off, Count, NodeAt, Blocks, InNode, FlatBegin, Cell, ListEnd;
    ghost var n := NodeAt(top, k);
    ghost var s := fdt[..];
    EraseCount(top, v.strs);
    InsideNode(v.stru, top, k);
    top' := top;
    var tag, next := LexTag(fdt, parentoffset, v.stru);
    var offset := SkipProps(fdt, next, v.stru, n.body, Frame(n.rest, Here(top, Bottom, k).up));
    ghost var d := FlatBegin(name, Zeros(name)) + Cell(END_NODE);
    ghost var plan := ChildPlan(top, k, v.strs, name, Zeros(name));
    NodeEditFits(top, plan, v.strs, offset, 0, d);
    r := OpenNode(fdt, offset, name);
    if r != 0 {
      return;
    }
    r, top' := offset, plan;
    BeginLength(name, Zeros(name));
    ChildLength(name);
    CommitNode(v, fdt[..], top, top', offset, 0, d);
  }

  lemma ChildLength(name: bytes)
    ensures 5 + |name| + |Zeros(name)| == BeginSize(name)
  {
  }

  lemma NodeEditFits(top: Body, top': Body, strs: bytes, o: nat, len: nat, d: bytes)
    requires NodeEdit(top, top', strs, o, len, d)
    ensures Wf(top, true) && o + len <= |Flat(top, true)|
  {
    hide Flat, Wf, Named, Splice;
  }

  /** fdt_add_subnode_namelen: the offset of the new node, or the error. A parent offset of -1 is left out:
      it equals the error for a missing child, so the code would take it for one. */
  method AddSubnode(fdt: array<byte>, parentoffset: int, name: bytes, ghost top: Body, ghost k: int)
    returns (r: int, ghost top': Body)
    requires Editable(fdt[..], top) && name != [] && 0 !in name && |name| < TWO31 - 16
    requires RwErr(Hdr(fdt[..])) == 0 ==> Target(View(fdt[..]).stru, top, parentoffset, k) && parentoffset != NOTFOUND
    modifies fdt
    ensures RwErr(old(Hdr(fdt[..]))) != 0 ==> r == RwErr(old(Hdr(fdt[..]))) && fdt[..] == old(fdt[..])
    ensures RwErr(old(Hdr(fdt[..]))) == 0 && k < 0 ==>
              && r == (if parentoffset < 0 then parentoffset else BADOFFSET)
              && Kept(old(View(fdt[..])), fdt[..], top, top')
    ensures RwErr(old(Hdr(fdt[..]))) == 0 && k >= 0 ==>
              && k < Count(top) && k < Total(Erase(top, old(View(fdt[..])).strs))
              && ChildAdded(old(View(fdt[..])), fdt[..], top, top', k, name, r)
  {
    hide Hdr, Flat, Wf, Named, Erase, Encodes, Splice, RwErr, Grown, View, Ordered, On, TagAt, Ready, BadNode, Shifted,
      NodeEdit, Align4, BeginSize, Size, FindKid, FindChild, AddChild;
    top' := top;
    r := RwCheckHeader(fdt, top);
    if r != 0 {
      return;
    }
    ghost var s := fdt[..];
    EncodesReady(s, top);
    HeaderKept(old(fdt[..]), s, top);
    ghost var st := View(s).stru;
    TargetRef(st, top, parentoffset, k);
    if k >= 0 {
      KidsOf(top, k, View(s).strs, name);
    }
    var offset := SubnodeOffset(fdt, parentoffset, name, st, StackFor(top, k));
    if offset >= 0 {
      return EXISTS, top;
    } else if offset != NOTFOUND {
      return offset, top;
    }
    r, top' := InsertSubnode(fdt, parentoffset, name, old(View(fdt[..])), top, k);
  }
}
