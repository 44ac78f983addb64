/** Edits in place that move nothing (lib/libfdt/fdt_wip.c). */
module Wip {
  import opened Bytes
  import opened Memory
  import opened Blob
  import opened Structure
  import opened Lexer
  import opened Nodes
  import opened Trees
  import opened Walk
  import opened Edits
  import opened Rw
  import opened RwNodes

  lemma NopCellsMore(n: nat)
    ensures NopCells(n + 1) == NopCells(n) + Cell(NOP)
  {
    hide Cell;
    if n > 0 {
      NopCellsMore(n - 1);
    }
  }

  /** _fdt_nop_region: whole cells, up to the one that covers the last byte. */
  method NopRegion(fdt: array<byte>, start: nat, len: nat)
    requires start + Align4(len) <= fdt.Length
    modifies fdt
    ensures fdt[..] == Patch(old(fdt[..]), start, NopCells(Align4(len) / 4))
  {
    hide Cell, Patch, NopCells;
    ghost var s := fdt[..];
    ghost var n := 0;
    var p := start;
    NopCellsNone();
    PatchNone(s, start);
    while p < start + len
      invariant p == start + 4 * n && 4 * n <= Align4(len)
      invariant fdt[..] == Patch(s, start, NopCells(n))
      decreases start + len - p
    {
      NopCellsMore(n);
      PatchMore(s, start, NopCells(n), Cell(NOP));
      Put32(fdt, p, NOP);
      p := p + 4;
      n := n + 1;
    }
  }

  lemma NopCellsNone()
    ensures NopCells(0) == []
  {
  }

  lemma PatchNone(s: bytes, o: nat)
    requires o <= |s|
    ensures Patch(s, o, []) == s
  {
  }

  /** No byte outside the d bytes at structure offset q has changed, and the blob now encodes top'. */
  ghost predicate Patched(s: bytes, s': bytes, q: nat, d: bytes, top': Body) {
    && Layout(s) && q + |d| <= Hdr(s).sizeStruct && Hdr(s).offStruct + q + |d| <= |s|
    && s' == Patch(s, Hdr(s).offStruct + q, d)
    && Encodes(s', top') && View(s') == View(s).(stru := Flat(top', true))
  }

  lemma {:induction false} PatchedIs(s: bytes, s': bytes, q: nat, d: bytes, top: Body, top': Body)
    requires Encodes(s, top) && Wf(top', true) && Named(top', View(s).strs)
    requires q + |d| <= Hdr(s).sizeStruct && Hdr(s).offStruct + q + |d| <= |s|
    requires s' == Patch(s, Hdr(s).offStruct + q, d)
    requires Flat(top', true) == Splice(Flat(top, true), q, |d|, d)
    ensures Patched(s, s', q, d, top')
  {
    hide Hdr, Flat, Wf, Named;
    ViewPatchStruct(s, q, d);
  }

  lemma Inside(s: bytes, q: nat, n: nat)
    requires Layout(s) && q + n <= Hdr(s).sizeStruct
    ensures Hdr(s).offStruct + q + n <= |s|
  {
    hide Hdr;
  }

  /** fdt_nop_property: the tree that fdt_delprop leaves, with every byte outside the property's own and
      every node where it was. q and n: the cells that became NOP tags. */
  method NopProperty(fdt: array<byte>, nodeoffset: int, name: bytes, ghost top: Body, ghost k: int)
    returns (err: int, ghost top': Body, ghost q: nat, ghost n: nat)
    requires Encodes(fdt[..], top) && name != [] && Target(View(fdt[..]).stru, top, nodeoffset, k)
    modifies fdt
    ensures k < 0 ==> err == BADOFFSET && fdt[..] == old(fdt[..])
    ensures k >= 0 ==>
      var f := Erase(top, old(View(fdt[..])).strs);
      && k < Total(f)
      && var i := IndexOf(PropsOf(f, k), name);
      if i == |PropsOf(f, k)| then err == NOTFOUND && fdt[..] == old(fdt[..])
      else
        && err == 0 && 4 * n == PropSize(PropsOf(f, k)[i].val)
        && Patched(old(fdt[..]), fdt[..], q, NopCells(n), top')
        && Erase(top', old(View(fdt[..])).strs) == Trees.DelProp(f, k, name)
        && MovedBy(top, top', k, 0)
  {
    hide Hdr, Flat, Wf, Named, MovedBy, Erase, IndexOf, Encodes, Splice, BodyOff, PropHere, Target, View, Ordered,
      PropBytes, NopCells, Count, Size, Patch, Align4, PropSize, Off, NodeAt;
    top', q, n := top, 0, 0;
    var prop, len;
    ghost var c, po, p;
    prop, len, c, po, p := GetPropertyW(fdt, nodeoffset, name, top, k);
    if prop == -1 {
      return len, top, 0, 0;
    }
    ghost var s := fdt[..];
    BlankSize(p.val);
    q, n := prop, PropSize(p.val) / 4;
    EncodesReady(s, top);
    top' := BlankPlan(top, k, View(s).strs, name, c, po, p);
    EditFits(s, top, top', k, po, PropSize(p.val), NopCells(n));
    Inside(s, q, PropSize(p.val));
    NopRegion(fdt, GetHdr(fdt, OffStruct) + prop, len + 12);
    PatchedIs(s, fdt[..], q, NopCells(n), top, top');
    return 0, top', q, n;
  }

  lemma BlankSize(val: bytes)
    ensures Align4(|val| + 12) == PropSize(val) && PropSize(val) % 4 == 0
  {
  }

  /** fdt_nop_node: the tree that fdt_del_node leaves, with every byte outside the node's own and every
      other node where it was. */
  method NopNode(fdt: array<byte>, nodeoffset: int, ghost top: Body, ghost k: int) returns (err: int, ghost top': Body)
    requires Encodes(fdt[..], top) && Target(View(fdt[..]).stru, top, nodeoffset, k)
    modifies fdt
    ensures k < 0 ==> err == (if nodeoffset < 0 then nodeoffset else BADOFFSET) && fdt[..] == old(fdt[..])
    ensures k >= 0 ==>
      && err == 0 && k < Count(top) && k < Total(Erase(top, old(View(fdt[..])).strs))
      && var span := Span(NodeAt(top, k));
      && span % 4 == 0
      && Patched(old(fdt[..]), fdt[..], nodeoffset, NopCells(span / 4), top')
      && Erase(top', old(View(fdt[..])).strs) == Remove(Erase(top, old(View(fdt[..])).strs), k)
      && Shifted(top, top', k, 1 + Count(NodeAt(top, k).body), 0, 0)
  {
    hide Hdr, Flat, Wf, Named, Erase, Encodes, Splice, View, Ordered, On, TagAt, Ready, BadNode, Shifted, NopCells, Count,
      Size, Patch, BeginSize, OutOfBlock;
    top' := top;
    ghost var s := fdt[..];
    EncodesReady(s, top);
    ghost var st := View(s).stru;
    TargetRef(st, top, nodeoffset, k);
    var endoffset := NodeEndOffset(fdt, nodeoffset, st, StackFor(top, k));
    if endoffset < 0 {
      return endoffset, top;
    }
    top' := BlankNodePlan(top, k, View(s).strs);
    assert fdt[0..] == fdt[..];
    ghost var span := Span(NodeAt(top, k));
    Inside(s, nodeoffset, span);
    BlockCheck(nodeoffset, nodeoffset, Hdr(s).sizeStruct);
    var p := OffsetPtr(fdt, 0, nodeoffset, 0);
    NopRegion(fdt, p, endoffset - nodeoffset);
    PatchedIs(s, fdt[..], nodeoffset, NopCells(span / 4), top, top');
    return 0, top';
  }

  /** fdt_setprop_inplace: a value of the same length replaces the old one where it stands. */
  method SetPropInPlace(fdt: array<byte>, nodeoffset: int, name: bytes, val: bytes, ghost top: Body, ghost k: int)
    returns (err: int, ghost top': Body, ghost q: nat)
    requires Encodes(fdt[..], top) && name != [] && Target(View(fdt[..]).stru, top, nodeoffset, k)
    modifies fdt
    ensures k < 0 ==> err == BADOFFSET && fdt[..] == old(fdt[..])
    ensures k >= 0 ==>
      var f := Erase(top, old(View(fdt[..])).strs);
      && k < Total(f)
      && var i := IndexOf(PropsOf(f, k), name);
      if i == |PropsOf(f, k)| then err == NOTFOUND && fdt[..] == old(fdt[..])
      else if |PropsOf(f, k)[i].val| != |val| then err == NOSPACE && fdt[..] == old(fdt[..])
      else
        && err == 0 && Patched(old(fdt[..]), fdt[..], q, val, top')
        && Erase(top', old(View(fdt[..])).strs) == Trees.SetProp(f, k, name, val)
        && MovedBy(top, top', k, 0)
  {
    hide Hdr, Flat, Wf, Named, MovedBy, Erase, IndexOf, Encodes, Splice, BodyOff, PropHere, Target, View, Ordered, Count,
      Size, Patch, FlatProp, PropHead;
    top', q := top, 0;
    var prop, len;
    ghost var c, po, p;
    prop, len, c, po, p := GetPropertyW(fdt, nodeoffset, name, top, k);
    if prop == -1 {
      return len, top, 0;
    }
    if len != |val| {
      return NOSPACE, top, 0;
    }
    ghost var s := fdt[..];
    q := prop + 12;
    EncodesReady(s, top);
    top' := SetPlan(top, k, View(s).strs, name, c, po, p, val, p.pad);
    Inside(s, q, |val|);
    SameLength(View(s).stru, prop, p, val);
    MemCpy(fdt, GetHdr(fdt, OffStruct) + (prop + 12), val);
    PatchedIs(s, fdt[..], q, val, top, top');
    return 0, top', q;
  }

  /** Rewriting a whole property with a value of the same length changes the value's bytes alone. */
  lemma SameLength(st: bytes, o: nat, p: Body, val: bytes)
    requires PropBytes(st, o, p) && |val| == |p.val|
    ensures |FlatProp(p.nameoff, val, p.pad)| == PropSize(p.val)
    ensures Splice(st, o, PropSize(p.val), FlatProp(p.nameoff, val, p.pad)) == Splice(st, o + 12, |val|, val)
  {
    hide PropHead, FlatProp, Splice;
    HeadData(p.nameoff, val, p.pad);
    InnerSplice(st, o, PropHead(p.nameoff, |val|), p.val, p.pad, val);
  }

  lemma InnerSplice(st: bytes, o: nat, h: bytes, was: bytes, pad: bytes, val: bytes)
    requires var n := |h| + |was| + |pad|;
      o + n <= |st| && st[o..o + |h|] == h && st[o + |h|..o + n] == was + pad && |val| == |was|
    ensures Splice(st, o, |h| + |was| + |pad|, h + (val + pad)) == Splice(st, o + |h|, |val|, val)
  {
    var n, q := |h| + |was| + |pad|, o + |h|;
    assert st[..q] == st[..o] + h;
    assert st[q..o + n][|val|..] == pad;
    assert st[q + |val|..] == pad + st[o + n..];
  }

  /** Blanking and deleting the same node leave the same tree; deleting moves what is behind, blanking nothing. */
  lemma {:induction false} NopIsDelNode(s: bytes, top: Body, k: nat, s1: bytes, top1: Body, s2: bytes, top2: Body, q: nat, d: bytes)
    requires Encodes(s, top) && k < Count(top) && k < Total(Erase(top, View(s).strs))
    requires NodeGone(View(s), s1, top, top1, k)
    requires Patched(s, s2, q, d, top2) && Erase(top2, View(s).strs) == Remove(Erase(top, View(s).strs), k)
    requires Shifted(top, top2, k, 1 + Count(NodeAt(top, k).body), 0, 0)
    ensures TreeOf(s1, top1) == TreeOf(s2, top2) && Count(top1) == Count(top2)
    ensures forall j | 0 <= j < Count(top1) :: Off(top2, j) == Off(top1, j) + if j < k then 0 else Span(NodeAt(top, k))
  {
    hide Hdr, Flat, Wf, Named, Erase, Off, Count, Size, Remove, Total, NodeAt, Span, RwErr, Patch;
    var m := 1 + Count(NodeAt(top, k).body);
    forall j | 0 <= j < Count(top1)
      ensures Off(top2, j) == Off(top1, j) + if j < k then 0 else Span(NodeAt(top, k))
    {
      if j >= k {
        assert Off(top1, j + m - m) == Off(top, j + m) - Span(NodeAt(top, k));
        assert Off(top2, j + m - m) == Off(top, j + m);
      }
    }
  }

  /** Blanking and deleting the same property leave the same tree. */
  lemma {:induction false} NopIsDelProp(s: bytes, top: Body, k: nat, name: bytes, s1: bytes, top1: Body, err: int,
                                        s2: bytes, top2: Body, q: nat, d: bytes)
    requires Encodes(s, top) && k < Total(Erase(top, View(s).strs)) && PropGone(View(s), s1, top, top1, k, name, err) && err == 0
    requires Patched(s, s2, q, d, top2) && Erase(top2, View(s).strs) == Trees.DelProp(Erase(top, View(s).strs), k, name)
    ensures TreeOf(s1, top1) == TreeOf(s2, top2)
  {
    hide Hdr, Flat, Wf, Named, Erase, Off, Count, Size, Total, NodeOf, IndexOf, RwErr, Patch, MovedBy, Trees.DelProp, Align4;
  }
}
