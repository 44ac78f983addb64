/** Whole sessions of the streaming writer: a client that writes a reserve map and a tree call by call. */
module Sessions {
  import opened Bytes
  import opened Blob
  import opened Structure
  import opened Trees
  import opened Rw
  import opened Reserve
  import opened Writer
  import opened Stream
  import opened Finishing
  import opened RoundTrip

  lemma RepWriting(s: bytes, w: Sw)
    requires Rep(s, w)
    ensures |s| >= HEADER_SIZE && Hdr(s).magic == SW_MAGIC && Used(w) <= w.size < TWO31
  {
    hide Hdr;
  }

  /** fdt_property for each property, up to the first error. */
  method WriteProps(fdt: array<byte>, ps: seq<PropVal>, ghost w: Sw) returns (err: int, ghost w': Sw)
    requires Rep(fdt[..], w) && w.size < TWO31 && LegalProps(ps)
    requires AllLegal(PropCalls(ps)) && Run(w, PropCalls(ps)).err != OVERRUN
    modifies fdt
    ensures Rep(fdt[..], w') && Outcome(err, w') == Run(w, PropCalls(ps))
    decreases |ps|
  {
    hide Hdr, Rep, Share, FlatProp, Negative, ValPad, Align4, Legal;
    RepWriting(fdt[..], w);
    err, w' := 0, w;
    if ps != [] {
      assert PropCalls(ps)[0] == Call.Property(ps[0].name, ps[0].val) && PropCalls(ps)[1..] == PropCalls(ps[1..]);
      RunPropsLegal(ps[1..]);
      err := Stream.Property(fdt, ps[0].name, ps[0].val, w);
      w' := Apply(w, Call.Property(ps[0].name, ps[0].val)).w;
      if err == 0 {
        err, w' := WriteProps(fdt, ps[1..], w');
      }
    }
  }

  /** fdt_begin_node, the properties, the children, fdt_end_node, and the next siblings, up to the first error. */
  method WriteForest(fdt: array<byte>, f: Forest, ghost w: Sw) returns (err: int, ghost w': Sw)
    requires Rep(fdt[..], w) && w.size < TWO31 && LegalTree(f)
    requires AllLegal(Calls(f)) && Run(w, Calls(f)).err != OVERRUN
    modifies fdt
    ensures Rep(fdt[..], w') && Outcome(err, w') == Run(w, Calls(f))
    decreases f
  {
    hide Hdr, Rep, Share, Align4, Legal, Run, Apply, PropCalls, FlatBegin, Cell, NamePad;
    RepWriting(fdt[..], w);
    err, w' := 0, w;
    if f.Nil? {
      RunNothing(w);
      return;
    }
    RunPieces(w, f);
    LegalBegin(f.name);
    err := Stream.BeginNode(fdt, f.name, w);
    w' := Apply(w, Call.BeginNode(f.name)).w;
    if err != 0 {
      return;
    }
    RepWriting(fdt[..], w');
    err, w' := WriteProps(fdt, f.props, w');
    if err != 0 {
      return;
    }
    RepWriting(fdt[..], w');
    err, w' := WriteForest(fdt, f.kids, w');
    if err != 0 {
      return;
    }
    RepWriting(fdt[..], w');
    ghost var w3 := w';
    err := Stream.EndNode(fdt, w3);
    w' := Apply(w3, Call.EndNode).w;
    if err != 0 {
      return;
    }
    RepWriting(fdt[..], w');
    err, w' := WriteForest(fdt, f.sibs, w');
  }

  lemma RunNothing(w: Sw)
    requires w.size < TWO31
    ensures AllLegal(Calls(Nil)) && Run(w, Calls(Nil)) == Outcome(0, w)
  {
  }

  /** fdt_add_reservemap_entry for each entry, up to the first error. */
  method WriteReserve(fdt: array<byte>, es: seq<Entry>, ghost w: Sw) returns (err: int, ghost w': Sw)
    requires Rep(fdt[..], w) && w.stru == [] && w.tab == []
    modifies fdt
    ensures Rep(fdt[..], w') && w.size < TWO31 && AllLegal(ReserveCalls(es)) && Outcome(err, w') == Run(w, ReserveCalls(es))
    decreases |es|
  {
    hide Hdr, Rep, EntryBytes;
    RepWriting(fdt[..], w);
    ReserveLegal(es);
    err, w' := 0, w;
    if es != [] {
      assert ReserveCalls(es)[0] == AddReserve(es[0]) && ReserveCalls(es)[1..] == ReserveCalls(es[1..]);
      err := AddReservemapEntry(fdt, es[0].address, es[0].size, w);
      w' := Apply(w, AddReserve(es[0])).w;
      if err == 0 {
        err, w' := WriteReserve(fdt, es[1..], w');
      }
    }
  }

  /** A session without fdt_create and fdt_finish. */
  method WriteAll(fdt: array<byte>, es: seq<Entry>, f: Forest, ghost w: Sw) returns (err: int, ghost w': Sw)
    requires Rep(fdt[..], w) && w.size < TWO31 && w.stru == [] && w.tab == [] && LegalTree(f)
    requires AllLegal(Session(es, f)) && Run(w, Session(es, f)).err != OVERRUN
    modifies fdt
    ensures Rep(fdt[..], w') && Outcome(err, w') == Run(w, Session(es, f))
  {
    hide Hdr, Rep, ReserveCalls, Calls, Run, TabOf, EntryList, LegalTree;
    RepWriting(fdt[..], w);
    ghost var all := es + [LAST_ENTRY];
    ReserveLegal(all);
    CallsLegal(f);
    RunConcat(w, ReserveCalls(all), Calls(f));
    RunReserve(w, all);
    err, w' := WriteReserve(fdt, es + [LAST_ENTRY], w);
    if err == 0 {
      err, w' := WriteForest(fdt, f, w');
    }
  }

  /** One call of the writer; the two calls that write where they must not are left out. */
  method WriteCall(fdt: array<byte>, c: Call, ghost w: Sw) returns (err: int)
    requires Rep(fdt[..], w) && w.size < TWO31 && Legal(c) && Apply(w, c).err != OVERRUN && Apply(w, c).err != OVERLAP
    modifies fdt
    ensures err == Apply(w, c).err && Rep(fdt[..], Apply(w, c).w)
  {
    hide Hdr, Rep, EntryBytes, FlatBegin, FlatProp, Cell, Share, Align4;
    RepWriting(fdt[..], w);
    match c
    case AddReserve(e) => err := AddReservemapEntry(fdt, e.address, e.size, w);
    case BeginNode(name) => err := Stream.BeginNode(fdt, name, w);
    case Property(name, val) => err := Stream.Property(fdt, name, val, w);
    case EndNode => err := Stream.EndNode(fdt, w);
  }

  /** A client that makes any calls in any order and goes on after errors. */
  method WriteCalls(fdt: array<byte>, cs: seq<Call>, ghost w: Sw)
    requires Rep(fdt[..], w) && w.size < TWO31 && AllLegal(cs) && Never(w, cs, OVERRUN) && Never(w, cs, OVERLAP)
    modifies fdt
    ensures Rep(fdt[..], StateAfter(w, cs))
    decreases |cs|
  {
    hide Rep, Apply, Legal;
    if cs != [] {
      ApplyAll(w, cs);
      var err := WriteCall(fdt, cs[0], w);
      WriteCalls(fdt, cs[1..], Apply(w, cs[0]).w);
    }
  }

  /** fdt_create, the session and fdt_finish on a buffer in memory: they succeed exactly when the finished blob
      fits, and then the buffer holds a blob with the tree f and the reserve map es. Only sessions in which the
      room test for names goes wrong are left out. */
  method WriteBlob(buf: array<byte>, bufsize: nat, es: seq<Entry>, f: Forest) returns (err: int, ghost top: Body)
    requires RSV_START <= bufsize <= buf.Length && bufsize < TWO31
    requires LegalTree(f) && forall e | e in es :: e.size != 0
    requires AllLegal(Session(es, f)) && Run(Fresh(bufsize), Session(es, f)).err != OVERRUN
    modifies buf
    ensures if FinalSize(es, f) > bufsize then err == NOSPACE
            else
              && err == 0 && Encodes(buf[..], top) && TreeOf(buf[..], top) == f
              && Ended(View(buf[..]).rsv) && Entries(View(buf[..]).rsv) == es
              && Hdr(buf[..]).totalsize == FinalSize(es, f)
              && Complete(Hdr(buf[..])) && Hdr(buf[..]).bootCpu == 0
              && Adjacent(Hdr(buf[..]), 48, 16 * |es| + 16, Size(top), |TabOf([], f)|)
              && Hdr(buf[..]).totalsize == 64 + 16 * |es| + Size(top) + |TabOf([], f)|
  {
    hide Hdr, Rep, Session, Run, TabOf, LegalTree, View, Ordered, Flat, Wf, Cell, Relocate, Named, Erase, Ended, Entries, Make, Encodes, Part;
    top := Eof;
    err := Create(buf, bufsize);
    ghost var w := Fresh(bufsize);
    Streaming(bufsize, es, f);
    ghost var w';
    err, w' := WriteAll(buf, es, f, w);
    if err != 0 {
      return;
    }
    RepWriting(buf[..], w');
    ghost var raw := Make([], f, Eof);
    WrittenFlat(bufsize, es, f, w');
    err := Finish(buf, w', raw);
    if err != 0 {
      return;
    }
    top := Relocate(raw, |w'.tab|);
    RelocateWf(raw, |w'.tab|, true);
    FinishedBlob(buf[..], w', raw);
  }

  /** What stands in the buffer before fdt_finish is properly nested. */
  lemma {:induction false} WrittenFlat(size: nat, es: seq<Entry>, f: Forest, w: Sw)
    requires RSV_START <= size < TWO31 && LegalTree(f) && AllLegal(Session(es, f))
    requires Run(Fresh(size), Session(es, f)) == Outcome(0, w)
    ensures RSV_SIZE <= |w.rsv| && 48 + |w.rsv| == 64 + 16 * |es| && |w.tab| == |TabOf([], f)|
    ensures Wf(Make([], f, Eof), true) && Flat(Make([], f, Eof), true) == w.stru + Cell(END)
  {
    hide Session, Run, Part, TabOf, LegalTree, Make, Flat, Wf, Cell, EntryList;
    RunSession(size, es, f);
    MakeFlat([], f, Eof, true);
    EofFlat();
  }

  /** If the names alone fit into the buffer, the room test is right throughout. */
  lemma {:induction false} NamesFit(size: nat, es: seq<Entry>, f: Forest)
    requires RSV_START <= size < TWO31 && LegalTree(f) && |TabOf([], f)| <= size
    ensures AllLegal(Session(es, f)) && Run(Fresh(size), Session(es, f)).err != OVERRUN
  {
    hide Session, Run, Part, TabOf, LegalTree;
    RunSession(size, es, f);
  }
}
