/** fdt_subnode_offset: the child of a node with a given name (lib/libfdt/fdt_ro.c). */
module Subnodes {
  import opened Bytes
  import opened Memory
  import opened Blob
  import opened Structure
  import opened Lexer
  import opened Nodes
  import opened Attrs
  import opened Walk

  const AT: byte := 64

  /** A name matches a node with that name, or with that name and a unit address it does not give itself. */
  predicate NameEq(node: bytes, s: bytes) {
    node == s || (AT !in s && |node| > |s| && node[..|s|] == s && node[|s|] == AT)
  }

  /** Number, among the nodes of b, of the first node on its own level whose name matches. */
  function FindKid(b: Body, s: bytes): Found {
    match b
    case Close => Absent
    case Eof => Absent
    case Nop(r) => FindKid(r, s)
    case Prop(_, _, _, r) => FindKid(r, s)
    case Sub(n, _, c, r) =>
      if NameEq(n, s) then At(0)
      else var f := FindKid(r, s); if f.At? then At(1 + Count(c) + f.pos) else Absent
  }

  lemma {:induction false} FindKidNode(b: Body, s: bytes)
    ensures FindKid(b, s).At? ==>
              var i := FindKid(b, s).pos;
              i < Count(b) && Depth(b, i) == 0 && NameEq(NodeAt(b, i).name, s)
    decreases b
  {
    hide NameEq;
    if !b.Close? && !b.Eof? {
      FindKidNode(b.rest, s);
    }
  }

  /** Comparing bytes in the block decides the match. */
  lemma NameTest(st: bytes, o: nat, n: bytes, s: bytes)
    requires o + |n| < |st| && st[o..o + |n|] == n && st[o + |n|] == 0
    requires 0 !in n && 0 !in s
    ensures NameEq(n, s) ==> o + |s| < |st|
    ensures o + |s| < |st| ==>
              (NameEq(n, s) <==> st[o..o + |s|] == s && (st[o + |s|] == 0 || (AT !in s && st[o + |s|] == AT)))
  {
    if o + |s| < |st| {
      if |s| <= |n| {
        assert n[..|s|] == st[o..o + |s|];
        if |s| < |n| {
          assert n[|s|] == st[o + |s|];
          assert n[|s|] in n;
        }
      } else {
        assert st[o..o + |s|][|n|] == 0;
      }
    }
  }

  lemma {:induction false} NodeName(st: bytes, offset: int, stk: Stack)
    requires AtNode(st, offset, stk)
    ensures var n := stk.b.name;
      && 0 <= offset < TWO31 && 0 !in n && offset + 4 + |n| < |st|
      && st[offset + 4..offset + 4 + |n|] == n && st[offset + 4 + |n|] == 0
  {
    hide TagAt, FlatBegin, Flat;
    LexStep(st, offset, stk);
    LexBegin(st, offset, stk.b.name, stk.b.npad);
  }

  /** _fdt_nodename_eq. */
  method NodenameEq(fdt: array<byte>, offset: nat, s: bytes, ghost st: bytes, ghost stk: Stack) returns (eq: bool)
    requires Ready(fdt[..], st) && AtNode(st, offset, stk)
    requires s != [] && 0 !in s && |s| < TWO31 - 5
    ensures eq <==> NameEq(stk.b.name, s)
  {
    hide Hdr, TagAt, On, OutOfBlock, Stru, NameEq;
    NodeName(st, offset, stk);
    NameTest(st, offset + 4, stk.b.name, s);
    assert fdt[0..] == fdt[..];
    BlockCheck(offset + 4, offset + 4 + |s| + 1, |st|);
    var p := OffsetPtr(fdt, 0, offset + 4, |s| + 1);
    if p == -1 {
      return false;
    }
    StruSlice(fdt[..], 0, offset + 4, offset + 4 + |s|);
    StruAt(fdt[..], 0, offset + 4 + |s|);
    var diff := MemCmp(fdt, p, s);
    if diff != 0 {
      return false;
    }
    if fdt[p + |s|] == 0 {
      return true;
    }
    var at := MemChr(s, AT);
    return at == -1 && fdt[p + |s|] == AT;
  }

  // ---------------------------------------------------------------------------
  // The scan over the children
  // ---------------------------------------------------------------------------

  /** r is b without some of its leading tags and nodes. */
  predicate Tail(b: Body, r: Body) {
    b == r || match b
      case Close => false
      case Eof => false
      case Nop(t) => Tail(t, r)
      case Prop(_, _, _, t) => Tail(t, r)
      case Sub(_, _, _, t) => Tail(t, r)
  }

  lemma {:induction false} TailHere(b: Body, r: Body, up: Stack, j: nat)
    requires Tail(b, r)
    ensures Count(r) <= Count(b)
    ensures j < Count(r) ==> Here(b, up, Count(b) - Count(r) + j) == Here(r, up, j)
    decreases b
  {
    if b != r {
      TailHere(b.rest, r, up, j);
    }
  }

  lemma {:induction false} TailTail(b: Body, r: Body)
    requires Tail(b, r) && !r.Close? && !r.Eof?
    ensures Tail(b, r.rest)
    decreases b
  {
    if b != r {
      TailTail(b.rest, r);
    }
  }

  /** Searching from r on, all nodes in front of it having been passed. */
  function Onward(b: Body, r: Body, s: bytes): Found
    requires Count(r) <= Count(b)
  {
    var f := FindKid(r, s);
    if f.At? then At(Count(b) - Count(r) + f.pos) else Absent
  }

  /** Closing d frames first is closing them later. */
  lemma {:induction false} ClosesDrop(stk: Stack, d: nat)
    requires WfS(stk) && d < Height(stk) && d <= Closes(stk)
    ensures Closes(stk) == d + Closes(Drop(stk, d)) && Seek(stk) == Seek(Drop(stk, d))
    decreases SizeS(stk)
  {
    hide Flat;
    if d > 0 {
      StepFlat(stk);
      if stk.b.Close? {
        ClosesDrop(stk.up, d - 1);
      } else {
        ClosesDrop(Step(stk), d);
      }
    }
  }

  /** The first node of r, if the scan meets one before r closes. */
  lemma {:induction false} FirstSub(r: Body, goal: Stack, s: bytes)
    requires Wf(r, false)
    ensures Closes(Frame(r, goal)) > 0 ==> Count(r) == 0 && FindKid(r, s) == Absent
    ensures Closes(Frame(r, goal)) == 0 ==>
              var f := Seek(Frame(r, goal));
              && f.Frame? && f.up == goal && f.b.Sub? && Tail(r, f.b)
              && Count(r) == Count(f.b) && FindKid(r, s) == FindKid(f.b, s)
    decreases r
  {
    hide NameEq;
    if r.Nop? || r.Prop? {
      FirstSub(r.rest, goal, s);
    }
  }

  /** State of the loop: the scan is at cur, depth levels below the parent; r is what the parent still has
      behind the child being passed, and goal what follows the parent. */
  ghost predicate KidScan(cur: Stack, depth: nat, body: Body, r: Body, goal: Stack, s: bytes) {
    && cur.Frame? && cur.b.Sub?
    && goal.Frame? && depth < Height(Step(cur)) && Drop(Step(cur), depth) == Frame(r, goal)
    && Tail(body, r) && Count(r) <= Count(body) && Wf(r, false)
    && FindKid(body, s) == Onward(body, r, s)
  }

  /** One step of the loop; at depth 1 the scan is at the next child. */
  lemma {:induction false} KidStep(st: bytes, o: int, cur: Stack, depth: nat, body: Body, r: Body, goal: Stack, s: bytes)
    requires AtNode(st, o, cur) && KidScan(cur, depth, body, r, goal, s)
    ensures var stop := NextStop(Step(cur), depth, true);
      if stop.depth < 0 then FindKid(body, s) == Absent && SizeS(stop.ahead) < SizeS(cur)
      else
        && stop.ahead.Frame? && stop.ahead.b.Sub? && stop.depth >= 1 && SizeS(stop.ahead) < SizeS(cur)
        && if stop.depth > 1 then KidScan(stop.ahead, stop.depth, body, r, goal, s)
           else
             var k := stop.ahead.b;
             && stop.ahead.up == goal && Tail(body, k) && Count(k) <= Count(body)
             && FindKid(body, s) == Onward(body, k, s)
             && (!NameEq(k.name, s) ==> KidScan(stop.ahead, 1, body, k.rest, goal, s))
  {
    hide On, TagAt, NameEq, KidScan, FindKid, Tail, Closes, Seek, Height, SizeS;
    NodeIsGood(st, o, cur);
    var inside := Step(cur);
    OnWf(st, o + BeginSize(cur.b.name), inside);
    SeekDrop(inside);
    KidCase(cur, depth, body, r, goal, s);
  }

  lemma {:induction false} KidCase(cur: Stack, depth: nat, body: Body, r: Body, goal: Stack, s: bytes)
    requires KidScan(cur, depth, body, r, goal, s) && WfS(Step(cur))
    ensures var inside := Step(cur);
      var n := Closes(inside);
      if n > depth then depth + 1 <= Height(inside) && FindKid(body, s) == Absent && SizeS(Drop(inside, depth + 1)) <= SizeS(inside)
      else
        var next := Seek(inside);
        && next.Frame?
        && if n < depth then KidScan(next, depth - n + 1, body, r, goal, s)
           else
             && next.up == goal && Tail(body, next.b) && Count(next.b) <= Count(body)
             && FindKid(body, s) == Onward(body, next.b, s)
             && (!NameEq(next.b.name, s) ==> KidScan(next, 1, body, next.b.rest, goal, s))
  {
    hide NameEq, Tail;
    var inside := Step(cur);
    SeekDrop(inside);
    var n := Closes(inside);
    if n >= depth {
      ClosesDrop(inside, depth);
      FirstSub(r, goal, s);
      if n > depth {
        DropSize(inside, depth + 1);
      } else {
        NextKid(Seek(inside), body, r, goal, s);
      }
    } else {
      var next := Seek(inside);
      DropHeight(inside, n + 1);
      DropDrop(inside, n + 1, depth - n - 1);
      DropOne(next, depth - n - 1);
    }
  }

  lemma {:induction false} NextKid(next: Stack, body: Body, r: Body, goal: Stack, s: bytes)
    requires next.Frame? && next.b.Sub? && next.up == goal && goal.Frame? && Wf(r, false)
    requires Tail(r, next.b) && Tail(body, r) && Count(r) == Count(next.b) <= Count(body)
    requires FindKid(r, s) == FindKid(next.b, s) && FindKid(body, s) == Onward(body, r, s)
    ensures Tail(body, next.b) && FindKid(body, s) == Onward(body, next.b, s)
    ensures !NameEq(next.b.name, s) ==> KidScan(next, 1, body, next.b.rest, goal, s)
  {
    hide NameEq;
    TailTrans(body, r, next.b);
    TailTail(body, next.b);
    TailWf(r, next.b);
    if !NameEq(next.b.name, s) {
      var k := next.b;
      assert Height(Step(next)) == 1 + Height(Frame(k.rest, goal));
      assert Drop(Step(next), 1) == Drop(Frame(k.rest, goal), 0);
      assert FindKid(body, s) == Onward(body, k.rest, s);
    }
  }

  lemma {:induction false} TailTrans(b: Body, r: Body, t: Body)
    requires Tail(b, r) && Tail(r, t)
    ensures Tail(b, t)
    decreases b
  {
    if b != r {
      TailTrans(b.rest, r, t);
    }
  }

  lemma {:induction false} TailWf(b: Body, r: Body)
    requires Tail(b, r) && Wf(b, false)
    ensures Wf(r, false)
    decreases b
  {
    if b != r {
      TailWf(b.rest, r);
    }
  }

  lemma {:induction false} KidScanStart(st: bytes, o: int, stk: Stack, s: bytes)
    requires AtNode(st, o, stk)
    ensures KidScan(stk, 0, stk.b.body, stk.b.body, Frame(stk.b.rest, stk.up), s)
  {
    hide On, NameEq;
    NodeIsGood(st, o, stk);
    OnWf(st, o, stk);
  }

  /** fdt_subnode_offset_namelen: the first child whose name matches. */
  method SubnodeOffset(fdt: array<byte>, parentoffset: int, name: bytes, ghost st: bytes, ghost stk: Stack)
    returns (r: int)
    requires Ready(fdt[..], st) && NodeRef(st, parentoffset, stk)
    requires name != [] && 0 !in name && |name| < TWO31 - 5
    ensures CheckErr(Hdr(fdt[..])) != 0 ==> r == CheckErr(Hdr(fdt[..]))
    ensures CheckErr(Hdr(fdt[..])) == 0 && BadNode(st, parentoffset) ==> r == if parentoffset < 0 then parentoffset else BADOFFSET
    ensures CheckErr(Hdr(fdt[..])) == 0 && !BadNode(st, parentoffset) ==>
      match FindKid(stk.b.body, name)
      case Absent => r == NOTFOUND
      case At(i) =>
        && i < Count(stk.b.body)
        && r == parentoffset + BeginSize(stk.b.name) + Off(stk.b.body, i)
        && AtNode(st, r, Here(stk.b.body, Frame(stk.b.rest, stk.up), i))
  {
    hide Ready, Hdr, On, TagAt, BadNode, NextStop, NameEq, KidScan;
    ReadySize(fdt[..], st);
    var err := CheckHeader(fdt);
    if err != 0 {
      return err;
    }
    r := parentoffset;
    var depth := 0;
    ghost var good := !BadNode(st, parentoffset);
    ghost var cur, body, rest, goal := stk, Close, Close, Bottom;
    if good {
      body, rest, goal := stk.b.body, stk.b.body, Frame(stk.b.rest, stk.up);
      KidScanStart(st, parentoffset, stk, name);
    }
    while r >= 0 && depth >= 0
      invariant !good ==> (r == parentoffset && depth == 0) || (r == BADOFFSET && depth == 0 && parentoffset >= 0)
      invariant good && depth >= 0 ==> AtNode(st, r, cur) && r + SizeS(cur) == parentoffset + SizeS(stk)
      invariant good && depth != 1 && depth >= 0 ==> KidScan(cur, depth, body, rest, goal, name)
      invariant good && depth == 1 ==>
        && cur.up == goal && Tail(body, cur.b) && Count(cur.b) <= Count(body)
        && FindKid(body, name) == Onward(body, cur.b, name)
        && (!NameEq(cur.b.name, name) ==> KidScan(cur, 1, body, cur.b.rest, goal, name))
      invariant good && depth < 0 ==> FindKid(body, name) == Absent
      decreases if good then SizeS(cur) else if r < 0 then 0 else 1
    {
      if depth == 1 {
        var eq := NodenameEq(fdt, r, name, st, cur);
        if eq {
          KidFound(body, cur.b, goal, name);
          HereSize(body, goal, FindKid(body, name).pos);
          return;
        }
        rest := cur.b.rest;
      }
      if good {
        NodeIsRef(st, r, cur);
        KidStep(st, r, cur, depth, body, rest, goal, name);
      }
      r, depth, cur := NextNode(fdt, r, depth, true, st, cur);
      if good && depth >= 0 {
        IsNode(st, r, cur);
      }
    }
    if depth < 0 {
      return NOTFOUND;
    }
  }

  /** A match at the head of what remains is the node the search is after. */
  lemma {:induction false} KidFound(body: Body, k: Body, goal: Stack, s: bytes)
    requires k.Sub? && Tail(body, k) && Count(k) <= Count(body) && NameEq(k.name, s)
    requires FindKid(body, s) == Onward(body, k, s)
    ensures FindKid(body, s).At? && FindKid(body, s).pos < Count(body)
    ensures Here(body, goal, FindKid(body, s).pos) == Frame(k, goal)
  {
    hide NameEq;
    TailHere(body, k, goal, 0);
  }
}
