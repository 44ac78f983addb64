/** Node traversal: fdt_next_node and the scans built on it (lib/libfdt/fdt.c, fdt_ro.c, fdt_wip.c). */
module Walk {
  import opened Bytes
  import opened Blob
  import opened Structure
  import opened Lexer
  import opened Nodes

  /** stk without its i innermost frames. */
  function Drop(stk: Stack, i: nat): Stack
    requires i <= Height(stk)
  {
    if i == 0 then stk else Drop(stk.up, i - 1)
  }

  lemma {:induction false} DropUp(stk: Stack, i: nat)
    requires i < Height(stk)
    ensures Drop(stk, i).Frame? && Drop(stk, i).up == Drop(stk, i + 1)
  {
    if i > 0 {
      DropUp(stk.up, i - 1);
    }
  }

  /** END_NODE tags in front of the next BEGIN_NODE tag or of the end of the block. */
  function Closes(stk: Stack): (n: nat)
    ensures n <= Height(stk)
    decreases SizeS(stk)
  {
    if stk.Bottom? then 0
    else match stk.b
      case Close => 1 + Closes(stk.up)
      case Eof => 0
      case Nop(r) => Closes(Frame(r, stk.up))
      case Prop(_, _, _, r) => Closes(Frame(r, stk.up))
      case Sub(_, _, _, _) => 0
  }

  /** The BEGIN_NODE tag of a node is at offset, with exactly stk ahead. */
  ghost predicate AtNode(st: bytes, offset: int, stk: Stack) {
    offset >= 0 && On(st, offset, stk) && stk.Frame? && stk.b.Sub?
  }

  /** offset is refused by _fdt_check_node_offset. */
  predicate BadNode(st: bytes, offset: int) {
    offset < 0 || offset % 4 != 0 || TagAt(st, offset).tag != BEGIN_NODE
  }

  /** A caller's node offset: a node, or one the functions refuse. */
  ghost predicate NodeRef(st: bytes, offset: int, stk: Stack) {
    offset < TWO31 && (BadNode(st, offset) || AtNode(st, offset, stk))
  }

  lemma {:induction false} NodeIsGood(st: bytes, offset: int, stk: Stack)
    requires AtNode(st, offset, stk)
    ensures !BadNode(st, offset) && 0 <= offset < TWO31
    ensures TagAt(st, offset) == Lexed(BEGIN_NODE, offset + BeginSize(stk.b.name))
    ensures On(st, offset + BeginSize(stk.b.name), Step(stk))
    ensures BeginSize(stk.b.name) + SizeS(Step(stk)) == SizeS(stk)
  {
    hide TagAt, HeadFlat;
    LexStep(st, offset, stk);
  }

  /** _fdt_check_node_offset, on every offset: the tag there decides. */
  method CheckNodeOffset(fdt: array<byte>, offset: int, ghost st: bytes) returns (r: int)
    requires Ready(fdt[..], st) && offset < TWO31
    ensures r == if BadNode(st, offset) then BADOFFSET else TagAt(st, offset).next
  {
    hide Ready, TagAt;
    if offset < 0 || offset % 4 != 0 {
      return BADOFFSET;
    }
    var tag, next := LexTag(fdt, offset, st);
    if tag != BEGIN_NODE {
      return BADOFFSET;
    }
    return next;
  }

  /** Outcome of one fdt_next_node from inside a node: where the scan stops, and the depth there. The scan
      stops behind the END_NODE tag that takes a tracked depth below zero (the first one if it was below zero
      before), else at the next BEGIN_NODE tag, else (Bottom) at the end of the block. */
  datatype Stop = Stop(ahead: Stack, depth: int)

  function NextStop(inside: Stack, depth: int, tracked: bool): Stop {
    var n, most := Closes(inside), if depth < 0 then 0 else depth;
    if tracked && n > most then Stop(Drop(inside, most + 1), depth - most - 1)
    else if Seek(inside).Frame? then Stop(Seek(inside), if tracked then depth - n + 1 else depth)
    else Stop(Bottom, if tracked then depth - n else depth)
  }

  /** State of the tag loop after popped END_NODE tags. */
  ghost predicate Scanning(st: bytes, o: int, stk: Stack, inside: Stack, popped: nat, total: int) {
    && o >= 0 && On(st, o, stk)
    && o + SizeS(stk) == total
    && popped < Height(inside) && stk.Frame? && stk.up == Drop(inside, popped + 1)
    && Closes(inside) == popped + Closes(stk)
    && Seek(inside) == Seek(stk)
  }

  lemma {:induction false} ScanStart(st: bytes, o: int, inside: Stack)
    requires o >= 0 && On(st, o, inside) && inside.Frame?
    ensures Scanning(st, o, inside, inside, 0, o + SizeS(inside))
  {
    hide On;
    DropUp(inside, 0);
  }

  lemma {:induction false} ScanStep(st: bytes, o: int, stk: Stack, inside: Stack, popped: nat, total: int)
    requires Scanning(st, o, stk, inside, popped, total)
    ensures 0 <= o < TWO31
    ensures TagAt(st, o) == Lexed(HeadTag(stk.b), o + HeadSize(stk.b))
    ensures On(st, o + HeadSize(stk.b), Step(stk)) && o + HeadSize(stk.b) + SizeS(Step(stk)) == total
    ensures SizeS(Step(stk)) < SizeS(stk)
    ensures stk.b.Close? ==> stk.up.Frame?
    ensures stk.b.Eof? ==> Seek(stk) == Bottom && Closes(stk) == 0
    ensures stk.b.Nop? || stk.b.Prop? ==> Scanning(st, o + HeadSize(stk.b), Step(stk), inside, popped, total)
  {
    hide TagAt, HeadFlat, FlatS, Drop;
    LexStep(st, o, stk);
  }

  lemma {:induction false} ScanClose(st: bytes, o: int, stk: Stack, inside: Stack, popped: nat, total: int)
    requires Scanning(st, o, stk, inside, popped, total) && stk.b.Close?
    ensures Step(stk) == Drop(inside, popped + 1)
    ensures Scanning(st, o + 4, Step(stk), inside, popped + 1, total)
  {
    hide TagAt, HeadFlat, FlatS, On;
    ScanStep(st, o, stk, inside, popped, total);
    DropHeight(inside, popped + 1);
    DropUp(inside, popped + 1);
  }

  lemma {:induction false} DropHeight(stk: Stack, i: nat)
    requires i <= Height(stk)
    ensures Height(Drop(stk, i)) == Height(stk) - i
  {
    if i > 0 {
      DropHeight(stk.up, i - 1);
    }
  }

  /** fdt_next_node. depth is looked at and updated only when tracked, and stands for NULL otherwise. A
      negative offset starts at the block's first tag. stk is what is ahead at the start, ahead where the
      scan stops. */
  method NextNode(fdt: array<byte>, offset: int, depth: int, tracked: bool, ghost st: bytes, ghost stk: Stack)
    returns (next: int, depth': int, ghost ahead: Stack)
    requires Ready(fdt[..], st)
    requires if offset < 0 then On(st, 0, stk) && stk.Frame? else NodeRef(st, offset, stk)
    ensures offset >= 0 && BadNode(st, offset) ==> next == BADOFFSET && depth' == depth
    ensures offset < 0 || !BadNode(st, offset) ==>
              var start, inside := if offset < 0 then 0 else offset, if offset < 0 then stk else Step(stk);
              && Stop(ahead, depth') == NextStop(inside, depth, tracked)
              && if ahead.Bottom? then next == NOTFOUND
                 else next >= 0 && On(st, next, ahead) && next + SizeS(ahead) == start + SizeS(stk)
  {
    hide Ready, TagAt, On, SizeS, Height, HeadSize;
    var nextoffset := 0;
    depth' := depth;
    if offset >= 0 {
      if !BadNode(st, offset) {
        NodeIsGood(st, offset, stk);
      }
      nextoffset := CheckNodeOffset(fdt, offset, st);
      if nextoffset < 0 {
        return nextoffset, depth, Bottom;
      }
    }
    ghost var inside := if offset < 0 then stk else Step(stk);
    ghost var total := (if offset < 0 then 0 else offset) + SizeS(stk);
    ghost var popped: nat := 0;
    ahead := inside;
    next := offset;
    if offset >= 0 {
      NodeIsGood(st, offset, stk);
    }
    ScanStart(st, nextoffset, inside);
    var tag := NOP;
    while tag != BEGIN_NODE
      invariant tag != BEGIN_NODE ==>
        && Scanning(st, nextoffset, ahead, inside, popped, total)
        && depth' == (if tracked then depth - popped else depth)
        && (tracked ==> popped == 0 || popped <= depth)
      invariant tag == BEGIN_NODE ==>
        && Stop(ahead, depth') == NextStop(inside, depth, tracked)
        && ahead.Frame? && next >= 0 && On(st, next, ahead) && next + SizeS(ahead) == total
      decreases tag != BEGIN_NODE, SizeS(ahead)
    {
      ScanStep(st, nextoffset, ahead, inside, popped, total);
      next := nextoffset;
      tag, nextoffset := LexTag(fdt, next, st);
      if tag == PROP || tag == NOP {
        ahead := Step(ahead);
      } else if tag == BEGIN_NODE {
        if tracked {
          depth' := depth' + 1;
        }
      } else if tag == END_NODE {
        ScanClose(st, next, ahead, inside, popped, total);
        ahead := Step(ahead);
        if tracked {
          depth' := depth' - 1;
          if depth' < 0 {
            return nextoffset, depth', ahead;
          }
        }
        popped := popped + 1;
      } else {
        if nextoffset >= 0 || (nextoffset == TRUNCATED && !tracked) {
          return NOTFOUND, depth', Bottom;
        }
        return nextoffset, depth', Bottom;
      }
    }
  }

  // ---------------------------------------------------------------------------
  // Where the scan stops, in terms of the tree
  // ---------------------------------------------------------------------------

  /** The stack where a scan stops, by frames dropped. */
  lemma {:induction false} SeekDrop(stk: Stack)
    requires WfS(stk)
    ensures Seek(stk).Frame? ==>
              && Closes(stk) < Height(stk)
              && Height(Seek(stk)) == Height(stk) - Closes(stk)
              && Seek(stk).up == Drop(stk, Closes(stk) + 1)
    ensures SizeS(Seek(stk)) <= SizeS(stk)
    ensures stk.Frame? && Seek(stk).Bottom? ==> Closes(stk) == Height(stk) - 1
    decreases SizeS(stk)
  {
    hide Flat;
    if stk.Frame? && !stk.b.Sub? {
      StepFlat(stk);
      SeekDrop(Step(stk));
    }
  }

  /** From the k-th node a scan that tracks the depth relative to any base reaches the (k+1)-th node with
      the depth moved by the difference of the tree depths, unless it leaves the base before. */
  lemma {:induction false} DocumentOrder(st: bytes, top: Body, k: nat, depth: nat)
    requires On(st, 0, Frame(top, Bottom)) && k < Count(top)
    ensures AtNode(st, Off(top, k), Here(top, Bottom, k))
    ensures var inside := Step(Here(top, Bottom, k));
      if k + 1 < Count(top) && depth + Depth(top, k + 1) - Depth(top, k) >= 1 then
        NextStop(inside, depth, true) == Stop(Here(top, Bottom, k + 1), depth + Depth(top, k + 1) - Depth(top, k))
      else if depth <= Depth(top, k) then
        depth + 1 <= Height(inside) && NextStop(inside, depth, true) == Stop(Drop(inside, depth + 1), -1)
      else NextStop(inside, depth, true) == Stop(Bottom, depth - Depth(top, k) - 1)
    ensures NextStop(Step(Here(top, Bottom, k)), depth, false) ==
            Stop(if k + 1 < Count(top) then Here(top, Bottom, k + 1) else Bottom, depth)
  {
    hide On, TagAt, Drop;
    HereOn(st, 0, top, Bottom, k);
    HereHeight(top, Bottom, k);
    SeekNext(top, Bottom, k);
    var h := Here(top, Bottom, k);
    NodeIsGood(st, Off(top, k), h);
    OnWf(st, Off(top, k) + BeginSize(h.b.name), Step(h));
    SeekDrop(Step(h));
    if k + 1 < Count(top) {
      HereHeight(top, Bottom, k + 1);
    }
  }

  lemma {:induction false} OnWf(st: bytes, o: nat, stk: Stack)
    requires On(st, o, stk)
    ensures WfS(stk)
  {
  }

  /** goal is what is ahead behind the node that lies depth levels above the node at cur. */
  ghost predicate Below(cur: Stack, depth: nat, goal: Stack)
    requires cur.Frame?
  {
    goal.Frame? && depth + 1 <= Height(Step(cur)) && Drop(Step(cur), depth + 1) == goal
  }

  lemma {:induction false} DropDrop(stk: Stack, i: nat, j: nat)
    requires i + j <= Height(stk)
    ensures j <= Height(Drop(stk, i)) && Drop(Drop(stk, i), j) == Drop(stk, i + j)
  {
    DropHeight(stk, i);
    if i > 0 {
      DropDrop(stk.up, i - 1, j);
    }
  }

  lemma {:induction false} BelowOut(cur: Stack, depth: nat, goal: Stack)
    requires cur.Frame? && Below(cur, depth, goal)
    ensures Drop(Step(cur), depth + 1) == goal && SizeS(goal) <= SizeS(Step(cur))
  {
    hide Drop, SizeS, Height, Step;
    DropSize(Step(cur), depth + 1);
  }

  lemma {:induction false} BelowIn(cur: Stack, depth: nat, goal: Stack)
    requires cur.Frame? && Below(cur, depth, goal) && WfS(Step(cur)) && Step(cur).Frame? && Closes(Step(cur)) <= depth
    ensures var inside := Step(cur);
      var next := Seek(inside);
      && next.Frame? && next.b.Sub? && SizeS(next) <= SizeS(inside)
      && Below(next, depth - Closes(inside) + 1, goal)
  {
    hide Drop, SizeS, Step, Closes, Seek, WfS;
    var inside := Step(cur);
    SeekDrop(inside);
    var n := Closes(inside);
    DropHeight(inside, depth + 1);
    DropDrop(inside, n + 1, depth - n);
    DropOne(Seek(inside), depth - n);
  }

  /** A scan inside a node either stays below it or ends just behind it. */
  lemma {:induction false} BelowStep(st: bytes, o: int, cur: Stack, depth: nat, goal: Stack)
    requires AtNode(st, o, cur) && Below(cur, depth, goal)
    ensures var stop := NextStop(Step(cur), depth, true);
      && SizeS(stop.ahead) < SizeS(cur)
      && if stop.depth < 0 then stop.ahead == goal
         else stop.ahead.Frame? && stop.ahead.b.Sub? && Below(stop.ahead, stop.depth, goal)
  {
    hide On, TagAt, Drop, Closes, Seek, SizeS, Height, WfS, Below, FlatS;
    NodeIsGood(st, o, cur);
    var inside := Step(cur);
    OnWf(st, o + BeginSize(cur.b.name), inside);
    if Closes(inside) > depth {
      BelowOut(cur, depth, goal);
    } else {
      BelowIn(cur, depth, goal);
    }
  }

  lemma {:induction false} DropSize(stk: Stack, i: nat)
    requires i <= Height(stk)
    ensures SizeS(Drop(stk, i)) <= SizeS(stk)
  {
    if i > 0 {
      DropSize(stk.up, i - 1);
    }
  }

  lemma {:induction false} DropOne(node: Stack, i: nat)
    requires node.Frame? && node.b.Sub? && i <= Height(node.up)
    ensures i + 2 <= Height(Step(node)) && Drop(Step(node), i + 2) == Drop(node.up, i)
  {
    assert Drop(Step(node), i + 2) == Drop(Step(node).up, i + 1) == Drop(node.up, i);
  }

  /** _fdt_node_end_offset: the offset behind the node's END_NODE tag. */
  method NodeEndOffset(fdt: array<byte>, nodeoffset: int, ghost st: bytes, ghost stk: Stack) returns (r: int)
    requires Ready(fdt[..], st) && NodeRef(st, nodeoffset, stk)
    ensures BadNode(st, nodeoffset) ==> r == if nodeoffset < 0 then nodeoffset else BADOFFSET
    ensures !BadNode(st, nodeoffset) ==>
              && r == nodeoffset + BeginSize(stk.b.name) + Size(stk.b.body)
              && On(st, r, Frame(stk.b.rest, stk.up))
  {
    hide Ready, TagAt, On, AtNode, NextStop, Below;
    r := nodeoffset;
    var depth := 0;
    ghost var good := !BadNode(st, nodeoffset);
    ghost var cur, goal := stk, Bottom;
    if good {
      InsideSelf(st, nodeoffset, stk);
      goal := Frame(stk.b.rest, stk.up);
    }
    while r >= 0 && depth >= 0
      invariant !good ==> (r == nodeoffset && depth == 0) || (r == BADOFFSET && nodeoffset >= 0)
      invariant good ==> r >= 0 && r + SizeS(cur) == nodeoffset + SizeS(stk)
      invariant good ==> if depth < 0 then cur == goal && On(st, r, goal)
                         else AtNode(st, r, cur) && cur.Frame? && Below(cur, depth, goal)
      decreases if good then SizeS(cur) else if r < 0 then 0 else 1
    {
      if good {
        BelowStep(st, r, cur, depth, goal);
        NodeIsRef(st, r, cur);
      }
      r, depth, cur := NextNode(fdt, r, depth, true, st, cur);
      if good && depth >= 0 {
        IsNode(st, r, cur);
      }
    }
  }

  lemma {:induction false} InsideSelf(st: bytes, o: int, stk: Stack)
    requires AtNode(st, o, stk)
    ensures stk.Frame? && stk.b.Sub? && Below(stk, 0, Frame(stk.b.rest, stk.up))
    ensures SizeS(stk) == BeginSize(stk.b.name) + Size(stk.b.body) + SizeS(Frame(stk.b.rest, stk.up))
  {
    hide On;
    DropUp(Step(stk), 0);
  }

  lemma {:induction false} NodeIsRef(st: bytes, o: int, stk: Stack)
    requires AtNode(st, o, stk)
    ensures NodeRef(st, o, stk) && !BadNode(st, o) && o >= 0
  {
    hide TagAt;
    NodeIsGood(st, o, stk);
  }

  lemma {:induction false} IsNode(st: bytes, o: int, stk: Stack)
    requires o >= 0 && On(st, o, stk) && stk.Frame? && stk.b.Sub?
    ensures AtNode(st, o, stk)
  {
  }
}
