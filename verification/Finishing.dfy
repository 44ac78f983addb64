/** fdt_finish, and the round trip of the streaming writer: what is written is what is read. */
module Finishing {
  import opened Bytes
  import opened Memory
  import opened Blob
  import opened Structure
  import opened Lexer
  import opened Lookup
  import opened Rw
  import opened Writer
  import opened Stream

  /** All frames with their name offsets corrected. */
  function RelocateS(stk: Stack, n: nat): Stack {
    if stk.Bottom? then Bottom else Frame(Relocate(stk.b, n), RelocateS(stk.up, n))
  }

  lemma {:induction false} RelocateStep(stk: Stack, n: nat)
    requires stk.Frame? && WfS(stk)
    ensures WfS(RelocateS(stk, n)) && RelocateS(stk, n).Frame?
    ensures Step(RelocateS(stk, n)) == RelocateS(Step(stk), n)
    ensures RelocateS(stk, n).b == Relocate(stk.b, n) && (RelocateS(stk, n).up.Bottom? <==> stk.up.Bottom?)
  {
    RelocateWfS(stk, n);
  }

  lemma {:induction false} RelocateWfS(stk: Stack, n: nat)
    requires WfS(stk)
    ensures WfS(RelocateS(stk, n))
  {
    if stk.Frame? {
      RelocateWf(stk.b, n, stk.up.Bottom?);
      RelocateWfS(stk.up, n);
    }
  }

  /** State of the loop of fdt_finish: in front of the scan the name offsets are corrected, behind it not. */
  ghost predicate Correcting(st: bytes, o: nat, pre: bytes, stk: Stack, n: nat, final: bytes) {
    && On(st, o, stk) && stk.Frame? && |pre| == o
    && st == pre + FlatS(stk)
    && WfS(RelocateS(stk, n)) && pre + FlatS(RelocateS(stk, n)) == final
  }

  lemma {:induction false} CorrectStart(top: Body, n: nat)
    requires Wf(top, true) && Size(top) < TWO31
    ensures Wf(Relocate(top, n), true)
    ensures Correcting(Flat(top, true), 0, [], Frame(top, Bottom), n, Flat(Relocate(top, n), true))
  {
    hide Flat;
    var stk := Frame(top, Bottom);
    TopOn(Flat(top, true), top);
    RelocateWf(top, n, true);
    RelocateWfS(stk, n);
    var r := RelocateS(stk, n);
    assert RelocateS(stk.up, n) == Bottom;
    assert r == Frame(Relocate(top, n), Bottom);
    assert FlatS(stk) == Flat(top, true) + FlatS(Bottom) == Flat(top, true);
    assert FlatS(r) == Flat(r.b, true) + FlatS(Bottom) == Flat(r.b, true);
  }

  lemma {:induction false} OnOf(pre: bytes, stk: Stack)
    requires WfS(stk) && |pre| % 4 == 0 && |pre| + SizeS(stk) < TWO31
    ensures On(pre + FlatS(stk), |pre|, stk)
  {
    hide FlatS, WfS;
    assert (pre + FlatS(stk))[|pre|..] == FlatS(stk);
  }

  /** Correcting a tag changes the name offset of a property and nothing else. */
  lemma {:induction false} HeadMoved(b: Body, n: nat, t: bool)
    requires Wf(b, t)
    ensures Wf(Relocate(b, n), t)
    ensures var h := HeadFlat(b, t);
      if b.Prop? then |h| >= 12 && HeadFlat(Relocate(b, n), t) == Patch(h, 8, Cell(Sum32(b.nameoff, n)))
      else HeadFlat(Relocate(b, n), t) == h
  {
    hide Cell, Sum32;
    RelocateWf(b, n, t);
  }

  lemma PatchBetween(pre: bytes, h: bytes, f: bytes, at: nat, d: bytes)
    requires at + |d| <= |h|
    ensures Patch(pre + (h + f), |pre| + at, d) == pre + (Patch(h, at, d) + f)
  {
  }

  lemma {:induction false} TopOfStack(stk: Stack)
    requires stk.Frame? && WfS(stk)
    ensures Wf(stk.b, stk.up.Bottom?)
    ensures if stk.b.Eof? then Step(stk).Bottom? && FlatS(Step(stk)) == [] else Step(stk).Frame?
    ensures SizeS(Step(stk)) < SizeS(stk)
  {
    hide Flat;
    StepFlat(stk);
  }

  /** The block after one tag of the walk is corrected. */
  function Fixed(st: bytes, o: nat, b: Body, n: nat): bytes {
    if b.Prop? && o + 12 <= |st| then Patch(st, o + 8, Cell(Sum32(b.nameoff, n))) else st
  }

  lemma {:induction false} FixedBytes(st: bytes, o: nat, pre: bytes, b: Body, t: bool, n: nat, f: bytes)
    requires Wf(b, t) && |pre| == o && st == pre + (HeadFlat(b, t) + f)
    ensures Wf(Relocate(b, n), t)
    ensures Fixed(st, o, b, n) == pre + (HeadFlat(Relocate(b, n), t) + f)
    ensures |HeadFlat(Relocate(b, n), t)| == HeadSize(b)
  {
    hide Cell, Patch, HeadFlat, Relocate, Sum32, HeadSize;
    HeadSame(b, n);
    HeadMoved(b, n, t);
    if b.Prop? {
      PatchBetween(pre, HeadFlat(b, t), f, 8, Cell(Sum32(b.nameoff, n)));
    }
  }

  lemma {:induction false} HeadSame(b: Body, n: nat)
    ensures HeadSize(Relocate(b, n)) == HeadSize(b)
  {
  }

  lemma {:induction false} OnFacts(st: bytes, o: nat, stk: Stack)
    requires On(st, o, stk)
    ensures WfS(stk) && |st| < TWO31 && o % 4 == 0 && o + SizeS(stk) <= |st|
  {
    hide FlatS, WfS;
  }

  lemma {:induction false} CorrectStep(st: bytes, o: nat, pre: bytes, stk: Stack, n: nat, final: bytes) returns (pre': bytes)
    requires Correcting(st, o, pre, stk, n, final)
    ensures stk.b.Eof? ==> Fixed(st, o, stk.b, n) == final
    ensures !stk.b.Eof? ==> Correcting(Fixed(st, o, stk.b, n), o + HeadSize(stk.b), pre', Step(stk), n, final)
  {
    hide On, TagAt, HeadFlat, FlatS, Relocate, SizeS, WfS, HeadSize, Fixed, Step;
    var b, t := stk.b, stk.up.Bottom?;
    OnFacts(st, o, stk);
    TopOfStack(stk);
    StepFlat(stk);
    RelocateStep(stk, n);
    StepFlat(RelocateS(stk, n));
    HeadAligned(b);
    var h, h', f, f' := HeadFlat(b, t), HeadFlat(Relocate(b, n), t), FlatS(Step(stk)), FlatS(RelocateS(Step(stk), n));
    pre' := pre + h';
    FixedBytes(st, o, pre, b, t, n, f);
    Assoc(pre, h', f);
    Assoc(pre, h', f');
    if b.Eof? {
      NoneLeft(Step(stk), n);
    } else {
      OnOf(pre', Step(stk));
    }
  }

  lemma NoneLeft(stk: Stack, n: nat)
    requires stk.Bottom?
    ensures FlatS(stk) == [] && RelocateS(stk, n) == Bottom
  {
  }

  /** What the lexer finds there. */
  lemma {:induction false} CorrectTag(st: bytes, o: nat, pre: bytes, stk: Stack, n: nat, final: bytes)
    requires Correcting(st, o, pre, stk, n, final)
    ensures TagAt(st, o) == Lexed(HeadTag(stk.b), o + HeadSize(stk.b)) && o < TWO31
    ensures HeadTag(stk.b) == END <==> stk.b.Eof?
    ensures HeadTag(stk.b) == PROP <==> stk.b.Prop?
    ensures stk.b.Prop? ==> o + 12 <= |st| && Be32(st, o + 8) == stk.b.nameoff
  {
    hide TagAt, FlatProp, Be32;
    LexStep(st, o, stk);
    TopOfStack(stk);
    if stk.b.Prop? {
      LexProp(st, o, stk.b.nameoff, stk.b.val, stk.b.pad);
    }
  }

  // ---------------------------------------------------------------------------
  // fdt_finish
  // ---------------------------------------------------------------------------

  /** The header while fdt_finish corrects the name offsets. */
  function MidHeader(w: Sw): Header
    requires w.size < TWO31 && Used(w) <= w.size
  {
    SwHeader(w).(offStrings := RSV_START + |w.rsv| + |w.stru|)
  }

  /** The contents of the finished blob, when top is the structure with its END tag. */
  function FinishView(w: Sw, top: Body): Parts
    requires Used(w) + 4 <= w.size < TWO31 && Wf(top, true) && Flat(top, true) == w.stru + Cell(END)
  {
    RelocateWf(top, |w.tab|, true);
    var a := RSV_START + |w.rsv|;
    var b := a + Size(top);
    Parts(Header(MAGIC, b + |w.tab|, a, b, RSV_START, LAST_VERSION, FIRST_VERSION, 0, |w.tab|, Size(top)),
          w.rsv, Flat(Relocate(top, |w.tab|), true), w.tab)
  }

  /** The header of the finished blob. */
  lemma FinishHeader(w: Sw, top: Body)
    requires Used(w) + 4 <= w.size < TWO31 && Wf(top, true) && Flat(top, true) == w.stru + Cell(END)
    ensures var h := FinishView(w, top).hdr;
      && Complete(h) && h.bootCpu == 0 && Adjacent(h, 48, |w.rsv|, Size(top), |w.tab|)
      && h.totalsize == 48 + |w.rsv| + Size(top) + |w.tab|
  {
    hide Flat, Wf, Cell, Relocate;
  }

  /** Moving the table next to the structure. */
  lemma TableMoved(s: bytes, w: Sw, m: bytes, t: bytes, b: u32)
    requires Rep(s, w) && RSV_SIZE <= |w.rsv| && b == RSV_START + |w.rsv| + |w.stru|
    requires m == Patch(s, b, w.tab) && t == Patch(m, FieldOffset(OffStrings), Cell(b))
    ensures Layout(t) && View(t) == Parts(MidHeader(w), w.rsv, w.stru, w.tab)
  {
    hide Hdr, Cell, Patch;
    var a, hh := RSV_START + |w.rsv|, MidHeader(w);
    HdrKept(s, b, w.tab);
    HdrPatch(m, OffStrings, b);
    PatchAt(s, b, w.tab);
    PatchOutside(s, b, w.tab, RSV_START, a);
    PatchOutside(s, b, w.tab, a, b);
    assert Blocks(m, hh) == Parts(hh, w.rsv, w.stru, w.tab);
    BlocksKept(m, OffStrings, b, hh);
  }

  /** The terminator, and the string table moved up to it. */
  method Terminate(fdt: array<byte>, ghost w: Sw) returns (ok: bool)
    requires Rep(fdt[..], w) && RSV_SIZE <= |w.rsv|
    modifies fdt
    ensures ok <==> Used(w) + 4 <= w.size
    ensures !ok ==> fdt[..] == old(fdt[..])
    ensures ok ==>
              var w' := w.(stru := w.stru + Cell(END));
              Layout(fdt[..]) && View(fdt[..]) == Parts(MidHeader(w'), w.rsv, w'.stru, w.tab)
  {
    hide Hdr, Cell, Patch, Rep, ZeroBytes, View, Ordered;
    var end := GrabSpace(fdt, 4, w);
    if end == -1 {
      return false;
    }
    ghost var w1 := w.(stru := w.stru + ZeroBytes(4));
    CellFill(w.stru, END);
    Write(fdt, end, Cell(END), w1);
    ghost var w2 := w.(stru := w.stru + Cell(END));
    RepBounds(fdt[..], w2);
    ghost var s := fdt[..];
    var oldstroffset := GetHdr(fdt, TotalSize) - GetHdr(fdt, SizeStrings);
    var newstroffset := GetHdr(fdt, OffStruct) + GetHdr(fdt, SizeStruct);
    MemMove(fdt, newstroffset, oldstroffset, GetHdr(fdt, SizeStrings));
    ghost var m := fdt[..];
    SetHdr(fdt, OffStrings, newstroffset);
    TableMoved(s, w2, m, fdt[..], newstroffset);
    return true;
  }

  lemma ViewReady(s: bytes, st: bytes)
    requires Layout(s) && View(s).hdr.version >= 17 && View(s).stru == st
    ensures Ready(s, st) && |s| >= HEADER_SIZE && |st| == Hdr(s).sizeStruct
  {
    hide Hdr;
    StruOfView(s);
  }

  /** The loop of fdt_finish: every name offset is corrected by the size of the table. */
  method CorrectNames(fdt: array<byte>, ghost v: Parts, ghost top: Body, ghost n: nat) returns (next: int)
    requires Layout(fdt[..]) && View(fdt[..]) == v && v.hdr.version >= 17 && n == v.hdr.sizeStrings
    requires Wf(top, true) && v.stru == Flat(top, true) && Size(top) < TWO31
    modifies fdt
    ensures Wf(Relocate(top, n), true) && next >= 0
    ensures Layout(fdt[..]) && View(fdt[..]) == v.(stru := Flat(Relocate(top, n), true))
  {
    hide Hdr, View, Ordered, Flat, Wf, Ready, TagAt, Be32, Cell, Patch, Step, Sum32, HeadSize, HeadTag, On, FlatS, WfS,
      RelocateS, Fixed;
    ghost var st, pre, stk := v.stru, [], Frame(top, Bottom);
    CorrectStart(top, n);
    ghost var final := Flat(Relocate(top, n), true);
    ViewReady(fdt[..], st);
    var offset := 0;
    CorrectTag(st, offset, pre, stk, n, final);
    var tag;
    tag, next := LexTag(fdt, offset, st);
    while tag != END
      invariant offset >= 0 && Layout(fdt[..]) && View(fdt[..]) == v.(stru := st) && stk.Frame?
      invariant Correcting(st, offset, pre, stk, n, final)
      invariant Lexed(tag, next) == TagAt(st, offset)
      decreases SizeS(stk)
    {
      CorrectTag(st, offset, pre, stk, n, final);
      ViewReady(fdt[..], st);
      StackShrinks(st, offset, pre, stk, n, final);
      ghost var pre' := CorrectStep(st, offset, pre, stk, n, final);
      if tag == PROP {
        var nameoff := CellAt(fdt, offset + 8, st);
        StoreCell(fdt, offset + 8, Sum32(nameoff, GetHdr(fdt, SizeStrings)));
      }
      FixedIs(st, offset, stk.b, n);
      st, pre, stk := Fixed(st, offset, stk.b, n), pre', Step(stk);
      offset := next;
      ViewReady(fdt[..], st);
      CorrectTag(st, offset, pre, stk, n, final);
      tag, next := LexTag(fdt, offset, st);
    }
    CorrectTag(st, offset, pre, stk, n, final);
    ghost var last := CorrectStep(st, offset, pre, stk, n, final);
    FixedEnd(st, offset, stk.b, n);
  }

  lemma FixedIs(st: bytes, o: nat, b: Body, n: nat)
    ensures Fixed(st, o, b, n) == if b.Prop? && o + 12 <= |st| then Patch(st, o + 8, Cell(Sum32(b.nameoff, n))) else st
  {
  }

  lemma FixedEnd(st: bytes, o: nat, b: Body, n: nat)
    requires b.Eof?
    ensures Fixed(st, o, b, n) == st && HeadSize(b) == 4
  {
  }

  lemma {:induction false} StackShrinks(st: bytes, o: nat, pre: bytes, stk: Stack, n: nat, final: bytes)
    requires Correcting(st, o, pre, stk, n, final)
    ensures SizeS(Step(stk)) < SizeS(stk) && HeadSize(stk.b) >= 4
  {
    hide On;
    OnFacts(st, o, stk);
    TopOfStack(stk);
  }

  /** A cell of the structure block. */
  lemma {:induction false} FinishedParts(s: bytes, w: Sw, top: Body, h: Header)
    requires Used(w) + 4 <= w.size < TWO31 && RSV_SIZE <= |w.rsv| && Wf(top, true) && Flat(top, true) == w.stru + Cell(END)
    requires Wf(Relocate(top, |w.tab|), true)
    requires Layout(s) && h == MidHeader(w.(stru := w.stru + Cell(END)))
    requires View(s) == Parts(h, w.rsv, Flat(Relocate(top, |w.tab|), true), w.tab)
    ensures var hh := FinishView(w, top).hdr;
      && h.offStrings + |w.tab| == hh.totalsize
      && hh == With(With(h, TotalSize, hh.totalsize), Magic, MAGIC)
      && Ordered(hh, |s|) && Blocks(s, hh) == FinishView(w, top)
  {
    hide Hdr, Flat, Wf, Cell, Relocate;
    assert |w.stru + Cell(END)| == Size(top);
  }

  /** fdt_finish, on a structure that is properly nested: top is what it encodes with its END tag. */
  method Finish(fdt: array<byte>, ghost w: Sw, ghost top: Body) returns (err: int)
    requires HEADER_SIZE <= fdt.Length
    requires Hdr(fdt[..]).magic == SW_MAGIC ==>
               Rep(fdt[..], w) && RSV_SIZE <= |w.rsv| && Wf(top, true) && Flat(top, true) == w.stru + Cell(END)
    modifies fdt
    ensures old(Hdr(fdt[..])).magic != SW_MAGIC ==> err == BADMAGIC && fdt[..] == old(fdt[..])
    ensures old(Hdr(fdt[..])).magic == SW_MAGIC ==>
              if Used(w) + 4 > w.size then err == NOSPACE && fdt[..] == old(fdt[..])
              else
                && err == 0 && w.size < TWO31 && Layout(fdt[..]) && View(fdt[..]) == FinishView(w, top)
                && var h := Hdr(fdt[..]);
                  && Complete(h) && h.bootCpu == 0 && Adjacent(h, 48, |w.rsv|, Size(top), |w.tab|)
                  && h.totalsize == 48 + |w.rsv| + Size(top) + |w.tab|
  {
    hide Hdr, View, Ordered, Flat, Wf, Cell, Rep, Relocate, Blocks;
    if GetHdr(fdt, Magic) != SW_MAGIC {
      return BADMAGIC;
    }
    RepBounds(fdt[..], w);
    var ok := Terminate(fdt, w);
    if !ok {
      return NOSPACE;
    }
    ghost var w' := w.(stru := w.stru + Cell(END));
    MidSize(w, top);
    var next := CorrectNames(fdt, Parts(MidHeader(w'), w.rsv, w'.stru, w.tab), top, |w.tab|);
    if next < 0 {
      return next;
    }
    FinishedParts(fdt[..], w, top, MidHeader(w'));
    var newstroffset := GetHdr(fdt, OffStrings);
    FinishHeader(w, top);
    Relabel(fdt, TotalSize, newstroffset + GetHdr(fdt, SizeStrings), Magic, MAGIC);
    return 0;
  }

  lemma {:induction false} MidSize(w: Sw, top: Body)
    requires Used(w) + 4 <= w.size < TWO31 && Wf(top, true) && Flat(top, true) == w.stru + Cell(END)
    ensures Size(top) == |w.stru| + 4 < TWO31
  {
    hide Flat, Wf, Cell;
  }
}
