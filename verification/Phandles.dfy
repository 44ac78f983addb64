/** Phandles: fdt_get_phandle and fdt_node_offset_by_phandle (lib/libfdt/fdt_ro.c), and allocation
    (src/fdt_tools.c). */
module Phandles {
  import opened Bytes
  import opened Blob
  import opened Structure
  import opened Lexer
  import opened Nodes
  import opened Trees
  import opened Attrs
  import opened Walk
  import opened Lookup
  import opened Names
  import opened Edits
  import opened Rw
  import opened Stores

  /** "phandle" */
  const PHANDLE: bytes := [112, 104, 97, 110, 100, 108, 101]
  /** "linux,phandle" */
  const LINUX_PHANDLE: bytes := [108, 105, 110, 117, 120, 44, 112, 104, 97, 110, 100, 108, 101]

  /** The cell in the property called name, or nothing if it is missing or not one cell long. */
  datatype CellValue = NoCell | Value(v: u32)

  function CellOf(ps: seq<PropVal>, name: bytes): CellValue {
    var i := IndexOf(ps, name);
    if i < |ps| && |ps[i].val| == 4 then Value(Be32(ps[i].val, 0)) else NoCell
  }

  /** The phandle of a node with properties ps, 0 for none. */
  function Phandle(ps: seq<PropVal>): u32 {
    match CellOf(ps, PHANDLE)
    case Value(v) => v
    case NoCell => match CellOf(ps, LINUX_PHANDLE) case Value(v) => v case NoCell => 0
  }

  /** The two names spelled out. */
  lemma PhandleWords()
    ensures PHANDLE == Ascii("phandle") && LINUX_PHANDLE == Ascii("linux,phandle")
  {
  }

  /** The phandle of a node is the cell in its property "phandle", else the cell in its property "linux,phandle",
      else 0; a property that is not one cell long does not count. */
  lemma PhandleReads(ps: seq<PropVal>)
    ensures var a, b := ValueOf(ps, Ascii("phandle")), ValueOf(ps, Ascii("linux,phandle"));
      Phandle(ps) == if a.Is? && |a.v| == 4 then Be32(a.v, 0) else if b.Is? && |b.v| == 4 then Be32(b.v, 0) else 0
  {
    hide Be32, IndexOf, PHANDLE, LINUX_PHANDLE, Ascii;
    PhandleWords();
  }

  function PhandleAt(f: Forest, k: nat): u32
    requires k < Total(f)
  {
    Phandle(PropsOf(f, k))
  }

  lemma ValueCell(st: bytes, o: nat, p: Body)
    requires PropBytes(st, o, p) && |p.val| == 4
    ensures o + 16 <= |st| && Be32(st, o + 12) == Be32(p.val, 0)
  {
    hide PropHead, Word;
    var d := st[o + 12..o + PropSize(p.val)];
    assert d[0..4] == p.val;
    assert forall i | 0 <= i < 4 :: st[o + 12 + i] == d[i] == p.val[i];
  }

  /** The value of a property as fdt_get_phandle looks at it. */
  method GetCell(fdt: array<byte>, nodeoffset: int, name: bytes, ghost top: Body, ghost k: int) returns (found: bool, v: u32)
    requires Encodes(fdt[..], top) && name != [] && Target(View(fdt[..]).stru, top, nodeoffset, k)
    ensures k < 0 ==> !found
    ensures k >= 0 ==>
      var f := TreeOf(fdt[..], top);
      k < Total(f) && if found then CellOf(PropsOf(f, k), name) == Value(v) else CellOf(PropsOf(f, k), name) == NoCell
  {
    hide Hdr, View, Encodes, Erase, Target, IndexOf, PropHere, PropBytes, Ordered, BodyOff, Be32, FindProp, Ready, On;
    var prop, len;
    ghost var c, po, p;
    prop, len, c, po, p := GetPropertyW(fdt, nodeoffset, name, top, k);
    if prop == -1 || len != 4 {
      return false, 0;
    }
    EncodesReady(fdt[..], top);
    ValueCell(View(fdt[..]).stru, prop, p);
    v := CellAt(fdt, prop + 12, View(fdt[..]).stru);
    return true, v;
  }

  /** fdt_get_phandle. */
  method GetPhandle(fdt: array<byte>, nodeoffset: int, ghost top: Body, ghost k: int) returns (v: u32)
    requires Encodes(fdt[..], top) && Target(View(fdt[..]).stru, top, nodeoffset, k)
    ensures k < 0 ==> v == 0
    ensures k >= 0 ==>
      && k < Total(TreeOf(fdt[..], top)) && v == PhandleAt(TreeOf(fdt[..], top), k)
      && var ps := PropsOf(TreeOf(fdt[..], top), k);
        var a, b := ValueOf(ps, Ascii("phandle")), ValueOf(ps, Ascii("linux,phandle"));
        v == if a.Is? && |a.v| == 4 then Be32(a.v, 0) else if b.Is? && |b.v| == 4 then Be32(b.v, 0) else 0
  {
    hide Hdr, View, Encodes, Erase, Target, Ordered, CellOf, ValueOf, Ascii, Be32, NodeOf;
    var found;
    found, v := GetCell(fdt, nodeoffset, PHANDLE, top, k);
    EncodesReady(fdt[..], top);
    if k >= 0 {
      PhandleReads(PropsOf(TreeOf(fdt[..], top), k));
    }
    if !found {
      found, v := GetCell(fdt, nodeoffset, LINUX_PHANDLE, top, k);
      if !found {
        return 0;
      }
    }
  }

  // ---------------------------------------------------------------------------
  // Visiting all nodes
  // ---------------------------------------------------------------------------

  /** A loop over all nodes in document order is at the j-th one, or behind the last. */
  ghost predicate Visiting(top: Body, offset: int, j: nat) {
    if offset < 0 then offset == NOTFOUND && j == Count(top) else j < Count(top) && offset == Off(top, j)
  }

  /** fdt_next_node without a depth, from the start (offset -1, j == -1) or from the j-th node. */
  method Visit(fdt: array<byte>, offset: int, ghost st: bytes, ghost top: Body, ghost j: int) returns (next: int)
    requires Ready(fdt[..], st) && On(st, 0, Frame(top, Bottom))
    requires if j < 0 then j == -1 && offset == -1 else j < Count(top) && offset == Off(top, j)
    ensures Visiting(top, next, j + 1)
  {
    hide Ready, On, TagAt, BadNode, Here;
    ghost var stk := if j < 0 then Frame(top, Bottom) else Here(top, Bottom, j);
    if j < 0 {
      SeekBody(top, Bottom);
    } else {
      DocumentOrder(st, top, j, 0);
      NodeIsRef(st, offset, stk);
      HereSize(top, Bottom, j);
    }
    if j + 1 < Count(top) {
      HereSize(top, Bottom, j + 1);
    }
    var depth;
    ghost var ahead;
    next, depth, ahead := NextNode(fdt, offset, 0, false, st, stk);
  }

  /** A 32-bit value read as a signed int. */
  function Signed(v: u32): int {
    if v < TWO31 then v else v - TWO32
  }

  /** The largest of the phandles of the first n nodes, as ints; at least 0. */
  function MaxPhandle(f: Forest, n: nat): (m: int)
    requires n <= Total(f)
    ensures 0 <= m < TWO31
    ensures forall k | 0 <= k < n :: Signed(PhandleAt(f, k)) <= m
    ensures m > 0 ==> exists k | 0 <= k < n :: PhandleAt(f, k) == m
  {
    if n == 0 then 0
    else
      var m, v := MaxPhandle(f, n - 1), Signed(PhandleAt(f, n - 1));
      if v > m then v else m
  }

  /** fdt_alloc_phandle, with the wrap-around of its last addition. */
  method AllocPhandle(fdt: array<byte>, ghost top: Body) returns (r: int)
    requires Encodes(fdt[..], top)
    ensures var f := TreeOf(fdt[..], top); r == Int32(MaxPhandle(f, Total(f)) + 1)
  {
    hide Hdr, View, Encodes, Erase, Ready, On, Ordered, PhandleAt, MaxPhandle, Target, Count, Off, Signed, Int32, Total,
      ValueOf, Ascii, Be32, PropsOf;
    EncodesReady(fdt[..], top);
    ghost var st := View(fdt[..]).stru;
    ghost var f := TreeOf(fdt[..], top);
    EraseCount(top, View(fdt[..]).strs);
    MaxStart(f);
    var phandle := 0;
    ghost var j: nat := 0;
    var offset := Visit(fdt, -1, st, top, -1);
    while offset >= 0
      invariant Visiting(top, offset, j) && j <= Total(f) && phandle == MaxPhandle(f, j)
      decreases Total(f) - j
    {
      NodeIsTarget(st, top, offset, j);
      var new_ := GetPhandle(fdt, offset, top, j);
      MaxStep(f, j);
      if Signed(new_) > phandle {
        phandle := Signed(new_);
      }
      offset := Visit(fdt, offset, st, top, j);
      j := j + 1;
    }
    return Int32(phandle + 1);
  }

  lemma MaxStart(f: Forest)
    ensures MaxPhandle(f, 0) == 0
  {
  }

  lemma MaxStep(f: Forest, j: nat)
    requires j < Total(f)
    ensures MaxPhandle(f, j + 1) == if Signed(PhandleAt(f, j)) > MaxPhandle(f, j) then Signed(PhandleAt(f, j)) else MaxPhandle(f, j)
  {
    hide PhandleAt;
  }

  /** A new phandle is positive and free exactly when the largest int is not in use. */
  lemma {:induction false} AllocFresh(f: Forest)
    ensures var r := Int32(MaxPhandle(f, Total(f)) + 1);
      r > 0 && (forall k | 0 <= k < Total(f) :: PhandleAt(f, k) != r) <==>
      forall k | 0 <= k < Total(f) :: PhandleAt(f, k) != 0x7fffffff
  {
    hide PhandleAt;
    var m := MaxPhandle(f, Total(f));
    if m == TWO31 - 1 {
      var k :| 0 <= k < Total(f) && PhandleAt(f, k) == m;
    } else {
      forall k | 0 <= k < Total(f)
        ensures PhandleAt(f, k) != m + 1 && PhandleAt(f, k) != TWO31 - 1
      {
        assert Signed(PhandleAt(f, k)) <= m;
      }
    }
  }

  /** A single node with the largest int as its phandle: the next one is negative. */
  lemma AllocWraps(v: u32)
    requires v == 0x7fffffff
    ensures var f := Tree([], [PropVal(PHANDLE, Cell(v))], Nil, Nil);
      Total(f) == 1 && PhandleAt(f, 0) == v && Int32(MaxPhandle(f, Total(f)) + 1) == -0x80000000
  {
    hide Cell, Be32;
    var ps := [PropVal(PHANDLE, Cell(v))];
    var f := Tree([], ps, Nil, Nil);
    assert Total(Nil) == 0 && NodeOf(f, 0) == f;
    IndexIs(ps, PHANDLE, 0);
    assert Be32(Cell(v), 0) == v;
    MaxStep(f, 0);
  }

  // ---------------------------------------------------------------------------
  // Setting phandles
  // ---------------------------------------------------------------------------

  /** Setting one property changes its cell and no other. */
  lemma SetValCell(ps: seq<PropVal>, name: bytes, v: u32, other: bytes)
    ensures CellOf(SetVal(ps, name, Cell(v)), name) == Value(v)
    ensures other != name ==> CellOf(SetVal(ps, name, Cell(v)), other) == CellOf(ps, other)
  {
    hide IndexOf, Be32, Cell;
    var i := IndexOf(ps, name);
    var qs := SetVal(ps, name, Cell(v));
    assert Be32(Cell(v), 0) == v;
    IndexIs(qs, name, if i < |ps| then i else 0);
    if other != name {
      if i < |ps| {
        IndexIs(qs, other, IndexOf(ps, other));
      } else {
        IndexBehind(PropVal(name, Cell(v)), ps, other);
      }
    }
  }

  /** The properties of a node that got this phandle. */
  function Linked(ps: seq<PropVal>, ph: u32): seq<PropVal> {
    SetVal(SetVal(ps, PHANDLE, Cell(ph)), LINUX_PHANDLE, Cell(ph))
  }

  /** fdt_setprop_cell, and fdt_setprop_u32 likewise. */
  method SetCell(fdt: array<byte>, nodeoffset: int, name: bytes, v: u32, ghost top: Body, ghost k: int)
    returns (err: int, ghost top': Body)
    requires Encodes(fdt[..], top) && name != [] && 0 !in name && Target(View(fdt[..]).stru, top, nodeoffset, k)
    modifies fdt
    ensures k < 0 ==> err == BADOFFSET && Encodes(fdt[..], top') && top' == top && TreeOf(fdt[..], top) == old(TreeOf(fdt[..], top))
    ensures k >= 0 ==>
      && k < Total(old(TreeOf(fdt[..], top)))
      && var r := PutOn(old(StoreOf(fdt[..], top, k)), name, Cell(v), false);
      Edited(old(fdt[..]), top, fdt[..], top', k, r.0) && err == r.1
  {
    hide Hdr, View, Encodes, Erase, Target, Ordered, Cell, Edited, PutOn;
    err, top' := PutProp(fdt, nodeoffset, name, Cell(v), false, top, k);
  }

  /** fdt_set_phandle on a store: the second property is only set if the first could be. */
  function SetBoth(a: Store, v: u32): (Store, int) {
    var (b, r) := PutOn(a, PHANDLE, Cell(v), false);
    if r < 0 then (b, r) else PutOn(b, LINUX_PHANDLE, Cell(v), false)
  }

  /** fdt_set_phandle. */
  method SetPhandle(fdt: array<byte>, nodeoffset: int, phandle: u32, ghost top: Body, ghost k: int)
    returns (ret: int, ghost top': Body)
    requires Encodes(fdt[..], top) && Target(View(fdt[..]).stru, top, nodeoffset, k)
    modifies fdt
    ensures k < 0 ==> ret == BADOFFSET && top' == top && Encodes(fdt[..], top) && TreeOf(fdt[..], top) == old(TreeOf(fdt[..], top))
    ensures k >= 0 ==>
      && k < Total(old(TreeOf(fdt[..], top)))
      && var r := SetBoth(old(StoreOf(fdt[..], top, k)), phandle);
      Edited(old(fdt[..]), top, fdt[..], top', k, r.0) && ret == r.1
  {
    hide Hdr, View, Ordered, Encodes, Erase, Cell, PutOn, Edited, Target, StoreOf, Total;
    ghost var s := fdt[..];
    EncodesReady(s, top);
    ret, top' := SetCell(fdt, nodeoffset, PHANDLE, phandle, top, k);
    if ret < 0 {
      return;
    }
    ghost var s1, top1 := fdt[..], top';
    ghost var a := PutOn(StoreOf(s, top, k), PHANDLE, Cell(phandle), false).0;
    EditedStore(s, top, s1, top1, k, a);
    EditedTarget(s, top, s1, top1, nodeoffset, k, a);
    ret, top' := SetCell(fdt, nodeoffset, LINUX_PHANDLE, phandle, top1, k);
    EditedTwice(s, top, s1, top1, fdt[..], top', k, a, PutOn(a, LINUX_PHANDLE, Cell(phandle), false).0);
  }

  lemma {:induction false} EditedTarget(s: bytes, top: Body, s': bytes, top': Body, offset: int, k: nat, a: Store)
    requires Edited(s, top, s', top', k, a) && Target(View(s).stru, top, offset, k)
    ensures Encodes(s', top') && Target(View(s').stru, top', offset, k)
  {
    hide Hdr, View, Encodes, Erase, Ordered, KeepsUpTo, Slack, Total, WithProps, Target;
    TargetKept(s, s', top, top', offset, k);
  }

  /** Bytes that the first and the second property of fdt_set_phandle take. */
  function Need1(a: Store, v: u32): int {
    Price(a, PHANDLE, Cell(v), false)
  }

  function Need2(a: Store, v: u32): int {
    Price(Store(SetVal(a.props, PHANDLE, Cell(v)), Table(a, PHANDLE), a.room - Need1(a, v)), LINUX_PHANDLE, Cell(v), false)
  }

  /** fdt_set_phandle succeeds exactly when the free bytes cover the first property and then both; the first
      one stands whenever they cover it. */
  lemma BothOutcome(a: Store, v: u32)
    ensures var (b, r) := SetBoth(a, v);
      && (r == 0 || r == NOSPACE)
      && (r == 0 <==> Need1(a, v) <= a.room && Need1(a, v) + Need2(a, v) <= a.room)
      && b.props == (if Need1(a, v) > a.room then a.props
                     else if Need1(a, v) + Need2(a, v) > a.room then SetVal(a.props, PHANDLE, Cell(v))
                     else Linked(a.props, v))
  {
    hide IndexOf, Intern, SetVal, Cell, Growth;
  }

  /** Setting the first property makes the phandle, and the second does not change it. */
  lemma LinkedPhandle(ps: seq<PropVal>, v: u32)
    ensures Phandle(SetVal(ps, PHANDLE, Cell(v))) == v && Phandle(Linked(ps, v)) == v
  {
    hide SetVal, Cell, CellOf;
    SetValCell(ps, PHANDLE, v, LINUX_PHANDLE);
    SetValCell(SetVal(ps, PHANDLE, Cell(v)), LINUX_PHANDLE, v, PHANDLE);
  }

  /** No two nodes share a phandle other than 0. */
  ghost predicate UniquePhandles(f: Forest) {
    forall i, j | 0 <= i < j < Total(f) :: PhandleAt(f, i) == PhandleAt(f, j) ==> PhandleAt(f, i) == 0
  }

  /** Apart from the k-th node, phandles are as in f; the k-th node's is v. */
  ghost predicate PhandlesBut(f: Forest, f': Forest, k: nat, v: u32) {
    && k < Total(f) == Total(f')
    && forall j | 0 <= j < Total(f) :: PhandleAt(f', j) == if j == k then v else PhandleAt(f, j)
  }

  lemma {:induction false} PhandlesWith(f: Forest, k: nat, ps: seq<PropVal>)
    requires k < Total(f)
    ensures PhandlesBut(f, WithProps(f, k, ps), k, Phandle(ps))
  {
    hide Phandle, Total, PropsOf, Replace;
    ReplaceProps(f, k, ps, k);
    forall j | 0 <= j < Total(f)
      ensures PhandleAt(WithProps(f, k, ps), j) == if j == k then Phandle(ps) else PhandleAt(f, j)
    {
      ReplaceProps(f, k, ps, j);
    }
  }

  /** A fresh phandle keeps phandles unique. */
  lemma {:induction false} FreshUnique(f: Forest, f': Forest, k: nat, v: u32)
    requires UniquePhandles(f) && PhandlesBut(f, f', k, v) && forall j | 0 <= j < Total(f) :: PhandleAt(f, j) != v
    ensures UniquePhandles(f')
  {
    hide PhandleAt;
  }

  /** The number behind m, with the wrap of a signed addition, as an unsigned value. */
  function After(m: nat): (v: u32)
    requires m < TWO31
    ensures v > 0 && (m + 1 < TWO31 ==> v == m + 1)
  {
    Int32(m + 1) % TWO32
  }

  /** What fdt_alloc_phandle returns, as an unsigned value. */
  function NextPhandle(f: Forest): (v: u32)
    ensures v > 0
  {
    After(MaxPhandle(f, Total(f)))
  }

  /** fdt_create_phandle on a node: as it was if it has a phandle, else with a new one as far as there is room. */
  ghost predicate PhandleMade(s: bytes, top: Body, s': bytes, top': Body, k: nat, r: u32) {
    && Encodes(s, top) && k < Total(TreeOf(s, top))
    && var f := TreeOf(s, top);
    if PhandleAt(f, k) != 0 then r == PhandleAt(f, k) && s' == s && top' == top
    else
      var (a, ret) := SetBoth(StoreOf(s, top, k), NextPhandle(f));
      Edited(s, top, s', top', k, a) && r == if ret < 0 then 0 else NextPhandle(f)
  }

  /** fdt_create_phandle. */
  method CreatePhandle(fdt: array<byte>, nodeoffset: int, ghost top: Body, ghost k: int) returns (r: u32, ghost top': Body)
    requires Encodes(fdt[..], top) && Target(View(fdt[..]).stru, top, nodeoffset, k)
    modifies fdt
    ensures k < 0 ==> r == 0 && top' == top && Encodes(fdt[..], top) && TreeOf(fdt[..], top) == old(TreeOf(fdt[..], top))
    ensures k >= 0 ==> PhandleMade(old(fdt[..]), top, fdt[..], top', k, r)
  {
    hide Hdr, View, Ordered, Encodes, Erase, MaxPhandle, Int32, PhandleAt, Total, Target, SetBoth, Edited, StoreOf;
    top' := top;
    var phandle := GetPhandle(fdt, nodeoffset, top, k);
    if phandle != 0 {
      return phandle, top;
    }
    var new_ := AllocPhandle(fdt, top);
    var ret;
    ret, top' := SetPhandle(fdt, nodeoffset, new_ % TWO32, top, k);
    if ret < 0 {
      return 0, top';
    }
    return new_ % TWO32, top';
  }

  /** What fdt_create_phandle does to a node without a phandle, exactly: it reports success if and only if the
      free bytes cover both properties; the node has the new phandle if and only if they cover the first; so it
      returns 0 with the phandle in place if and only if they cover the first but not both. No other node's
      phandle changes. */
  lemma {:induction false} MadePhandle(s: bytes, top: Body, s': bytes, top': Body, k: nat, r: u32)
    requires PhandleMade(s, top, s', top', k, r) && PhandleAt(TreeOf(s, top), k) == 0
    ensures Layout(s) && Encodes(s', top') && k < Total(TreeOf(s, top)) == Total(TreeOf(s', top'))
    ensures var f, f', a, v := TreeOf(s, top), TreeOf(s', top'), StoreOf(s, top, k), NextPhandle(TreeOf(s, top));
      var n1, n2 := Need1(a, v), Need2(a, v);
      && (r == 0 || r == v)
      && (r != 0 <==> n1 <= a.room && n1 + n2 <= a.room)
      && (PhandleAt(f', k) == v <==> n1 <= a.room)
      && (r == 0 && PhandleAt(f', k) == v <==> n1 <= a.room < n1 + n2)
      && PhandlesBut(f, f', k, PhandleAt(f', k)) && (PhandleAt(f', k) == v || PhandleAt(f', k) == 0)
  {
    hide Hdr, View, Ordered, Encodes, Erase, MaxPhandle, Int32, Total, SetBoth, Phandle, NextPhandle, Need1, Need2, Linked, SetVal,
      Cell, WithProps, PhandlesBut, KeepsUpTo, PropsOf, Slack;
    EncodesReady(s, top);
    var f, a, v := TreeOf(s, top), StoreOf(s, top, k), NextPhandle(TreeOf(s, top));
    BothOutcome(a, v);
    LinkedPhandle(a.props, v);
    PhandlesWith(f, k, SetBoth(a, v).0.props);
    ButSizes(f, WithProps(f, k, SetBoth(a, v).0.props), k, Phandle(SetBoth(a, v).0.props));
  }

  /** A phandle that was created stands in both properties. */
  lemma {:induction false} MadeValues(s: bytes, top: Body, s': bytes, top': Body, k: nat, r: u32)
    requires PhandleMade(s, top, s', top', k, r) && PhandleAt(TreeOf(s, top), k) == 0 && r != 0
    ensures Layout(s') && k < Total(TreeOf(s', top'))
    ensures var ps := PropsOf(TreeOf(s', top'), k);
      ValueOf(ps, Ascii("phandle")) == ValueOf(ps, Ascii("linux,phandle")) == Is(Cell(r))
  {
    hide Hdr, View, Ordered, Encodes, Erase, MaxPhandle, Int32, Total, SetBoth, Phandle, NextPhandle, Need1, Need2, Linked, SetVal,
      Cell, KeepsUpTo, PropsOf, Slack, ValueOf, Ascii;
    EncodesReady(s, top);
    var f, a, v := TreeOf(s, top), StoreOf(s, top, k), NextPhandle(TreeOf(s, top));
    BothOutcome(a, v);
    LinkedValues(a.props, v);
    ReplaceProps(f, k, SetBoth(a, v).0.props, k);
    EncodesReady(s', top');
  }

  lemma LinkedValues(ps: seq<PropVal>, v: u32)
    ensures ValueOf(Linked(ps, v), Ascii("phandle")) == ValueOf(Linked(ps, v), Ascii("linux,phandle")) == Is(Cell(v))
  {
    hide SetVal, Cell, ValueOf;
    PhandleWords();
    assert |PHANDLE| == 7 && |LINUX_PHANDLE| == 13;
    OtherValue(ps, PHANDLE, Cell(v), LINUX_PHANDLE);
    OtherValue(SetVal(ps, PHANDLE, Cell(v)), LINUX_PHANDLE, Cell(v), PHANDLE);
  }

  lemma ButSizes(f: Forest, f': Forest, k: nat, v: u32)
    requires PhandlesBut(f, f', k, v)
    ensures k < Total(f) == Total(f') && PhandleAt(f', k) == v
  {
    hide PhandleAt, Total;
  }

  /** A node in an empty strings block with 24 free bytes: the first property fits, the second does not, so the
      node has its phandle although 0 is returned. */
  lemma LostPhandle(v: u32)
    ensures var (b, r) := SetBoth(Store([], [], 24), v);
      r == NOSPACE && Phandle(b.props) == v
  {
    hide Phandle, Cell;
    var a := Store([], [], 24);
    assert |PHANDLE| == 7 && |LINUX_PHANDLE| == 13;
    assert Intern([], PHANDLE).0 == PHANDLE + [0];
    assert Need1(a, v) == 24;
    var qs := SetVal([], PHANDLE, Cell(v));
    IndexIs(qs, LINUX_PHANDLE, 1);
    assert Table(a, PHANDLE) == PHANDLE + [0];
    assert |Intern(PHANDLE + [0], LINUX_PHANDLE).0| == 22;
    assert Need2(a, v) == 30;
    BothOutcome(a, v);
    LinkedPhandle([], v);
  }

  /** A phandle that was created is the node's, is positive, and leaves phandles unique, as long as the
      largest int is not in use. */
  lemma {:induction false} CreatedUnique(f: Forest, f': Forest, k: nat)
    requires k < Total(f) && UniquePhandles(f) && PhandleAt(f, k) == 0
    requires forall j | 0 <= j < Total(f) :: PhandleAt(f, j) != TWO31 - 1
    requires PhandlesBut(f, f', k, NextPhandle(f))
    ensures UniquePhandles(f') && 0 < PhandleAt(f', k) < TWO31
    ensures forall j | 0 <= j < Total(f') :: j != k ==> PhandleAt(f', j) != PhandleAt(f', k)
  {
    hide PhandleAt, MaxPhandle, UniquePhandles;
    AllocFresh(f);
    FreshUnique(f, f', k, NextPhandle(f));
  }

  /** None of the first n nodes has this phandle. */
  ghost predicate NoneBefore(f: Forest, n: nat, phandle: u32)
    requires n <= Total(f)
  {
    forall i | 0 <= i < n :: PhandleAt(f, i) != phandle
  }

  lemma NoneAtStart(f: Forest, phandle: u32)
    ensures NoneBefore(f, 0, phandle)
  {
  }

  lemma NoneNext(f: Forest, n: nat, phandle: u32)
    requires n < Total(f) && NoneBefore(f, n, phandle)
    ensures PhandleAt(f, n) != phandle ==> NoneBefore(f, n + 1, phandle)
  {
    hide PhandleAt;
  }

  /** fdt_node_offset_by_phandle: the first node with that phandle. */
  method NodeOffsetByPhandle(fdt: array<byte>, phandle: u32, ghost top: Body) returns (r: int, ghost j: nat)
    requires Encodes(fdt[..], top)
    ensures var f := TreeOf(fdt[..], top);
      if phandle == 0 || phandle == 0xffffffff then r == -6
      else
        && j <= Count(top) == Total(f)
        && NoneBefore(f, j, phandle)
        && if j == Count(top) then r == -1 else PhandleAt(f, j) == phandle && r == Off(top, j)
  {
    hide Hdr, View, Encodes, Erase, Ready, On, Ordered, PhandleAt, Target, Off, CheckErr, Count, Total, TreeOf, NoneBefore;
    j := 0;
    if phandle == 0 || phandle == TWO32 - 1 {
      return BADPHANDLE, 0;
    }
    EncodesReady(fdt[..], top);
    r := CheckHeader(fdt);
    if r != 0 {
      return;
    }
    ghost var st := View(fdt[..]).stru;
    ghost var f := TreeOf(fdt[..], top);
    TreeCount(fdt[..], top);
    NoneAtStart(f, phandle);
    r := Visit(fdt, -1, st, top, -1);
    while r >= 0
      invariant Visiting(top, r, j) && j <= Count(top)
      invariant NoneBefore(f, j, phandle)
      decreases Count(top) - j
    {
      NodeIsTarget(st, top, r, j);
      var p := GetPhandle(fdt, r, top, j);
      if p == phandle {
        return;
      }
      NoneNext(f, j, phandle);
      r := Visit(fdt, r, st, top, j);
      j := j + 1;
    }
  }

  /** The first node with the phandle r is the k-th one. */
  lemma FirstCarrier(f: Forest, j: nat, k: nat, r: u32)
    requires j <= Total(f) && k < Total(f) && NoneBefore(f, j, r) && PhandleAt(f, k) == r
    requires j < Total(f) ==> PhandleAt(f, j) == r
    ensures j <= k && (j == k <==> NoneBefore(f, k, r))
  {
    hide PhandleAt;
  }

  /** What the lookups meet after a phandle was created. */
  lemma {:induction false} MadeTarget(s: bytes, top: Body, s': bytes, top': Body, offset: int, k: nat, r: u32)
    requires PhandleMade(s, top, s', top', k, r) && r != 0 && Target(View(s).stru, top, offset, k)
    ensures Encodes(s', top') && Target(View(s').stru, top', offset, k)
    ensures k < Total(TreeOf(s', top')) && PhandleAt(TreeOf(s', top'), k) == r && PhandlesBut(TreeOf(s, top), TreeOf(s', top'), k, r)
  {
    hide Hdr, View, Ordered, Encodes, Erase, MaxPhandle, Total, SetBoth, Phandle, NextPhandle, Need1, Need2, Target, Edited, PropsOf;
    EncodesReady(s, top);
    if PhandleAt(TreeOf(s, top), k) == 0 {
      var (a, ret) := SetBoth(StoreOf(s, top, k), NextPhandle(TreeOf(s, top)));
      EditedTarget(s, top, s', top', offset, k, a);
      MadePhandle(s, top, s', top', k, r);
    }
  }

  lemma SameBefore(f: Forest, f': Forest, k: nat, r: u32)
    requires PhandlesBut(f, f', k, r)
    ensures k < Total(f) == Total(f') && (NoneBefore(f, k, r) <==> NoneBefore(f', k, r))
  {
    hide PhandleAt, Total;
    assert forall i | 0 <= i < k :: PhandleAt(f', i) == PhandleAt(f, i);
  }

  /** So with unique phandles, the largest int not among them, the search always leads to the node: a phandle that was
      there is the node's alone, and a new one is free. */
  lemma {:induction false} MadeAlone(s: bytes, top: Body, s': bytes, top': Body, k: nat, r: u32)
    requires PhandleMade(s, top, s', top', k, r) && r != 0 && UniquePhandles(TreeOf(s, top))
    requires var f := TreeOf(s, top); forall j | 0 <= j < Total(f) :: PhandleAt(f, j) != 0x7fffffff
    ensures k < Total(TreeOf(s, top)) && NoneBefore(TreeOf(s, top), k, r)
  {
    hide Hdr, View, Ordered, Encodes, Erase, MaxPhandle, Total, SetBoth, Phandle, Edited, PropsOf, PhandleAt;
    EncodesReady(s, top);
    AllocFresh(TreeOf(s, top));
  }

  /** The search by phandle comes to the k-th node, which carries it, or to one in front. */
  lemma {:induction false} FoundNode(s: bytes, top: Body, offset: int, k: nat, r: u32, found: int, j: nat)
    requires Encodes(s, top) && Target(View(s).stru, top, offset, k) && k < Total(TreeOf(s, top)) && PhandleAt(TreeOf(s, top), k) == r
    requires var f := TreeOf(s, top);
      && j <= Count(top) == Total(f) && NoneBefore(f, j, r)
      && if j == Count(top) then found == NOTFOUND else PhandleAt(f, j) == r && found == Off(top, j)
    ensures found == offset <==> NoneBefore(TreeOf(s, top), k, r)
  {
    hide Hdr, View, Ordered, Encodes, Erase, PhandleAt, Total, Off, Count, BadNode, TagAt;
    EncodesReady(s, top);
    FirstCarrier(TreeOf(s, top), j, k, r);
    if j < k {
      OffMonotone(top, j, k);
    }
  }

  /** fdt_create_phandle, and then both ways to look the phandle up: the node has it, and the search by phandle leads
      to the node exactly when no node in front carries it and it is not the one the search refuses. */
  method CreateAndFind(fdt: array<byte>, nodeoffset: int, ghost top: Body, ghost k: nat)
    returns (r: u32, v: u32, found: int, ghost top': Body)
    requires Encodes(fdt[..], top) && Target(View(fdt[..]).stru, top, nodeoffset, k)
    modifies fdt
    ensures k < Total(old(TreeOf(fdt[..], top))) && PhandleMade(old(fdt[..]), top, fdt[..], top', k, r)
    ensures r != 0 ==>
      var f := old(TreeOf(fdt[..], top));
      v == r && (found == nodeoffset <==> r != 0xffffffff && NoneBefore(f, k, r))
  {
    hide Hdr, View, Ordered, Encodes, Erase, PhandleAt, Total, Target, PhandleMade, Off, Count, NoneBefore, PhandlesBut,
      Layout, Ready, On, Strings, Wf, Named, Flat, CheckErr;
    ghost var s := fdt[..];
    v, found := 0, -1;
    EncodesReady(s, top);
    TargetNatural(s, top, nodeoffset, k);
    r, top' := CreatePhandle(fdt, nodeoffset, top, k);
    if r == 0 {
      return;
    }
    ghost var s' := fdt[..];
    MadeTarget(s, top, s', top', nodeoffset, k, r);
    EncodesReady(s', top');
    SameBefore(TreeOf(s, top), TreeOf(s', top'), k, r);
    v := GetPhandle(fdt, nodeoffset, top', k);
    ghost var j;
    found, j := NodeOffsetByPhandle(fdt, r, top');
    if r != TWO32 - 1 {
      FoundNode(s', top', nodeoffset, k, r, found, j);
    }
  }

  lemma {:induction false} TargetNatural(s: bytes, top: Body, offset: int, k: nat)
    requires Encodes(s, top) && Target(View(s).stru, top, offset, k)
    ensures offset >= 0 && k < Total(TreeOf(s, top))
  {
    hide Hdr, View, Encodes, Erase, Off, Count, Total, BadNode, TagAt;
    EncodesReady(s, top);
    OffNatural(top, k);
    TreeCount(s, top);
  }

  lemma TreeCount(s: bytes, top: Body)
    requires Layout(s)
    ensures Total(TreeOf(s, top)) == Count(top)
  {
    hide View;
    EraseCount(top, View(s).strs);
  }
}
