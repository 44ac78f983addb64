/** The round trip of the streaming writer: the calls for a reserve map and a tree, then fdt_finish, leave a blob
    with that reserve map and that tree, or report that the buffer is too small for it. */
module RoundTrip {
  import opened Bytes
  import opened Blob
  import opened Structure
  import opened Trees
  import opened Rw
  import opened Reserve
  import opened Writer
  import opened Finishing

  function EntryList(es: seq<Entry>): (b: bytes)
    ensures |b| == RSV_SIZE * |es|
  {
    if es == [] then [] else EntryBytes(es[0]) + EntryList(es[1..])
  }

  function ReserveCalls(es: seq<Entry>): seq<Call> {
    if es == [] then [] else [AddReserve(es[0])] + ReserveCalls(es[1..])
  }

  const LAST_ENTRY := Entry(0, 0)

  /** The reserve entries, fdt_finish_reservemap, and the nodes of f. */
  function Session(es: seq<Entry>, f: Forest): seq<Call> {
    ReserveCalls(es + [LAST_ENTRY]) + Calls(f)
  }

  lemma {:induction false} RunReserve(w: Sw, es: seq<Entry>)
    requires w.size < TWO31 && w.stru == [] && w.tab == [] && Used(w) <= w.size
    ensures AllLegal(ReserveCalls(es))
    ensures var o := Run(w, ReserveCalls(es));
      && o.w.size == w.size
      && if Used(w) + RSV_SIZE * |es| <= w.size then o == Outcome(0, w.(rsv := w.rsv + EntryList(es))) else o.err == NOSPACE
    decreases |es|
  {
    hide EntryBytes;
    if es == [] {
      assert w.rsv + [] == w.rsv;
    } else {
      var o := Apply(w, AddReserve(es[0]));
      assert ReserveCalls(es)[1..] == ReserveCalls(es[1..]);
      ReserveLegal(es[1..]);
      if o.err == 0 {
        RunReserve(o.w, es[1..]);
        Assoc(w.rsv, EntryBytes(es[0]), EntryList(es[1..]));
      }
    }
  }

  lemma {:induction false} ReserveLegal(es: seq<Entry>)
    ensures AllLegal(ReserveCalls(es))
  {
    if es != [] {
      ReserveLegal(es[1..]);
    }
  }

  /** A list of entries that are not empty, and the terminator, read back as that list. */
  lemma {:induction false} EntriesOf(es: seq<Entry>)
    requires forall e | e in es :: e.size != 0
    ensures Ended(EntryList(es + [LAST_ENTRY])) && Entries(EntryList(es + [LAST_ENTRY])) == es
  {
    hide EntryBytes, First;
    var all := es + [LAST_ENTRY];
    FirstIs(all[0], EntryList(all[1..]));
    if es != [] {
      assert all[1..] == es[1..] + [LAST_ENTRY];
      EntriesOf(es[1..]);
      assert EntryList(all)[RSV_SIZE..] == EntryList(all[1..]);
    }
  }

  /** Size of the finished blob; a name that occurs already, or at the end of another, takes no room. */
  function FinalSize(es: seq<Entry>, f: Forest): nat
    requires LegalTree(f)
  {
    RSV_START + RSV_SIZE * (|es| + 1) + |Part([], f)| + 4 + |TabOf([], f)|
  }

  function Fresh(size: nat): Sw {
    Sw(size, [], [], [])
  }

  lemma {:induction false} RunSession(size: nat, es: seq<Entry>, f: Forest)
    requires RSV_START <= size < TWO31 && LegalTree(f)
    ensures AllLegal(Session(es, f))
    ensures var o := Run(Fresh(size), Session(es, f));
      if FinalSize(es, f) - 4 <= size then o == Outcome(0, Sw(size, EntryList(es + [LAST_ENTRY]), Part([], f), TabOf([], f)))
      else o.err == NOSPACE || (o.err == OVERRUN && |TabOf([], f)| > size)
  {
    hide EntryList, ReserveCalls, Calls, Part, TabOf, LegalTree, Run;
    var all, w := es + [LAST_ENTRY], Fresh(size);
    RunReserve(w, all);
    CallsLegal(f);
    RunConcat(w, ReserveCalls(all), Calls(f));
    var o := Run(w, ReserveCalls(all));
    if o.err == 0 {
      assert [] + EntryList(all) == EntryList(all);
      RunForest(o.w, f);
      assert [] + Part([], f) == Part([], f);
    }
  }

  /** The streaming round trip: the calls and fdt_finish succeed exactly when the finished blob fits into the
      buffer, and then the blob has the tree f and the reserve map es. They report NOSPACE otherwise, provided
      that the names alone fit into the buffer. */
  lemma {:induction false} Streaming(size: nat, es: seq<Entry>, f: Forest)
    requires RSV_START <= size < TWO31 && LegalTree(f) && forall e | e in es :: e.size != 0
    ensures AllLegal(Session(es, f))
    ensures var o, top := Run(Fresh(size), Session(es, f)), Make([], f, Eof);
      if FinalSize(es, f) > size then
        o.err == NOSPACE || (o.err == 0 && Used(o.w) + 4 > o.w.size) || (o.err == OVERRUN && |TabOf([], f)| > size)
      else
        && o.err == 0 && Used(o.w) + 4 <= o.w.size == size && RSV_SIZE <= |o.w.rsv|
        && Wf(top, true) && Flat(top, true) == o.w.stru + Cell(END)
        && var v := FinishView(o.w, top);
        && v.hdr.totalsize == FinalSize(es, f)
        && Ended(v.rsv) && Entries(v.rsv) == es
        && Named(Relocate(top, |v.strs|), v.strs) && Erase(Relocate(top, |v.strs|), v.strs) == f
  {
    hide Session, Part, TabOf, LegalTree, Run, Make, Erase, Named, Relocate, EntryList, Ended, Entries, Wf, Flat, Cell;
    RunSession(size, es, f);
    EntriesOf(es);
    if FinalSize(es, f) <= size {
      MakeFlat([], f, Eof, true);
      EofFlat();
      var u := TabOf([], f);
      assert Suffix(u, u) by {
        assert u[0..] == u;
      }
      EraseMake([], f, Eof, u);
      SessionSize(f);
    }
  }

  lemma EofFlat()
    ensures Wf(Eof, true) && Flat(Eof, true) == Cell(END)
  {
  }

  lemma {:induction false} SessionSize(f: Forest)
    requires LegalTree(f) && Wf(Make([], f, Eof), true) && Flat(Make([], f, Eof), true) == Part([], f) + Cell(END)
    ensures Size(Make([], f, Eof)) == |Part([], f)| + 4
  {
    hide Part, TabOf, LegalTree, Make, Wf, Flat, Cell;
  }

  /** A finished blob can be read and edited, and stands for the tree that was written. */
  lemma {:induction false} FinishedBlob(s: bytes, w: Sw, top: Body)
    requires Used(w) + 4 <= w.size < TWO31 && Wf(top, true) && Flat(top, true) == w.stru + Cell(END)
    requires Layout(s) && View(s) == FinishView(w, top) && Named(Relocate(top, |w.tab|), w.tab)
    ensures Encodes(s, Relocate(top, |w.tab|)) && TreeOf(s, Relocate(top, |w.tab|)) == Erase(Relocate(top, |w.tab|), w.tab)
  {
    hide Hdr, Flat, Wf, Named, Cell, Relocate, Erase;
    RelocateWf(top, |w.tab|, true);
  }

  /** A name as long as the buffer, on the first property of the root, is written in front of the buffer. */
  lemma {:induction false} LongName(size: nat, name: bytes, val: bytes)
    requires RSV_START + RSV_SIZE + 8 <= size < TWO31 && size <= |name| && 0 !in name && |val| < TWO31
    ensures var f := Tree([], [PropVal(name, val)], Nil, Nil);
      && LegalTree(f) && AllLegal(Session([], f))
      && Run(Fresh(size), Session([], f)).err == OVERRUN
  {
    hide FlatProp, FlatBegin, Share, EntryBytes, Run, Calls;
    var f, w := Tree([], [PropVal(name, val)], Nil, Nil), Fresh(size);
    var all := [] + [LAST_ENTRY];
    CallsLegal(f);
    RunReserve(w, all);
    RunConcat(w, ReserveCalls(all), Calls(f));
    var w1 := Run(w, ReserveCalls(all)).w;
    RunPieces(w1, f);
    BeginLength([], NamePad([]));
    var o1 := Apply(w1, BeginNode([]));
    var c := Property(name, val);
    assert PropCalls(f.props) == [c] by {
      assert f.props[1..] == [];
    }
    ShareLong([], name);
    RunOne(o1.w, c);
  }

  lemma ShareLong(tab: bytes, s: bytes)
    requires |tab| <= |s|
    ensures |Share(tab, s).0| == |tab| + |s| + 1
  {
  }

  lemma BeginLength(name: bytes, pad: bytes)
    ensures |FlatBegin(name, pad)| == 5 + |name| + |pad|
  {
    hide Cell;
  }
}
