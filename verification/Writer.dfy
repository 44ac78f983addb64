/** What the streaming writer of lib/libfdt/fdt_sw.c builds: its state, its calls, and the tree that the
    finished structure block stands for. */
module Writer {
  import opened Bytes
  import opened Blob
  import opened Structure
  import opened Trees
  import opened Names
  import opened Reserve

  /** FDT_ALIGN(40, 16): where the writer puts the reserve map. */
  const RSV_START := 48

  /** A buffer of size bytes with the reserve entries and the structure block written so far growing from the
      front and the table of property names growing from the end. */
  datatype Sw = Sw(size: nat, rsv: bytes, stru: bytes, tab: bytes)

  function Used(w: Sw): nat {
    RSV_START + |w.rsv| + |w.stru| + |w.tab|
  }

  datatype Call = AddReserve(e: Entry) | BeginNode(name: bytes) | Property(name: bytes, val: bytes) | EndNode

  datatype Outcome = Outcome(err: int, w: Sw)

  function ZeroBytes(n: nat): (z: bytes)
    ensures |z| == n
  {
    seq(n, _ => 0)
  }

  function NamePad(name: bytes): (z: bytes)
    ensures |z| == Align4(|name| + 1) - (|name| + 1)
  {
    ZeroBytes(Align4(|name| + 1) - (|name| + 1))
  }

  function ValPad(val: bytes): (z: bytes)
    ensures |z| == Align4(|val|) - |val|
  {
    ZeroBytes(Align4(|val|) - |val|)
  }

  /** The table once it holds s, and how far before the end of the table s then stands. */
  function Share(tab: bytes, s: bytes): (r: (bytes, nat))
    ensures |tab| <= |r.0| && 0 < r.1 <= |r.0|
  {
    var p := Search(tab, s, 0);
    if p >= 0 then (tab, |tab| - p) else (s + [0] + tab, |tab| + |s| + 1)
  }

  /** A distance before the end as the writer stores it: as a negative 32-bit number. */
  function Negative(dist: nat): u32 {
    (0 - dist) % TWO32
  }

  /** A call that appends d to the structure block. */
  function Grab(w: Sw, d: bytes): Outcome {
    if Used(w) + |d| > w.size then Outcome(NOSPACE, w) else Outcome(0, w.(stru := w.stru + d))
  }

  predicate Legal(c: Call) {
    match c
    case AddReserve(_) => true
    case BeginNode(name) => 0 !in name
    case Property(name, val) => name != [] && 0 !in name && |val| < TWO31
    case EndNode => true
  }

  /** Not results of the library, which returns 0 in both cases: the call has written in front of the buffer, or a
      reserve entry has been written over the table of names. */
  const OVERRUN := 1
  const OVERLAP := 2

  /** The room test for a new name, in unsigned 32-bit arithmetic: whether the call turns back. */
  predicate TurnsBack(w: Sw, len: nat) {
    (w.size + (0 - |w.tab| - len)) % TWO32 < RSV_START + |w.rsv| + |w.stru|
  }

  /** The room test is right about a name of len bytes if and only if the table with the name is no longer than
      the buffer; if it is longer, the sum wraps and the name is written in front of the buffer. */
  lemma RoomTest(w: Sw, len: nat)
    requires w.size < TWO31 && Used(w) <= w.size && len < TWO31
    ensures (TurnsBack(w, len) <==> Used(w) + len > w.size) <==> |w.tab| + len <= w.size
    ensures |w.tab| + len > w.size ==> !TurnsBack(w, len)
  {
  }

  /** The room test for a reserve entry does not count the table. */
  predicate Collides(w: Sw) {
    w.stru == [] && RSV_START + |w.rsv| + RSV_SIZE <= w.size < Used(w) + RSV_SIZE
  }

  /** The effect of one call; sizes stay below 2^31. */
  function Apply(w: Sw, c: Call): Outcome
    requires Legal(c) && w.size < TWO31
  {
    match c
    case AddReserve(e) =>
      if w.stru != [] then Outcome(BADSTATE, w)
      else if RSV_START + |w.rsv| + RSV_SIZE > w.size then Outcome(NOSPACE, w)
      else Outcome(if Collides(w) then OVERLAP else 0, w.(rsv := w.rsv + EntryBytes(e)))
    case BeginNode(name) => Grab(w, FlatBegin(name, NamePad(name)))
    case Property(name, val) =>
      var (tab, dist) := Share(w.tab, name);
      if |tab| > w.size then Outcome(OVERRUN, w)
      else if Used(w.(tab := tab)) > w.size then Outcome(NOSPACE, w)
      else Grab(w.(tab := tab), FlatProp(Negative(dist), val, ValPad(val)))
    case EndNode => Grab(w, Cell(END_NODE))
  }

  function Run(w: Sw, cs: seq<Call>): Outcome
    requires w.size < TWO31 && forall c | c in cs :: Legal(c)
    decreases |cs|
  {
    if cs == [] then Outcome(0, w)
    else
      var o := Apply(w, cs[0]);
      if o.err != 0 then o else Run(o.w, cs[1..])
  }

  // ---------------------------------------------------------------------------
  // The calls that write a tree
  // ---------------------------------------------------------------------------

  function PropCalls(ps: seq<PropVal>): seq<Call> {
    if ps == [] then [] else [Property(ps[0].name, ps[0].val)] + PropCalls(ps[1..])
  }

  /** Properly nested calls for the nodes of f and everything in them. */
  function Calls(f: Forest): seq<Call> {
    if f.Nil? then [] else [BeginNode(f.name)] + PropCalls(f.props) + Calls(f.kids) + [EndNode] + Calls(f.sibs)
  }

  predicate LegalProps(ps: seq<PropVal>) {
    forall i | 0 <= i < |ps| :: ps[i].name != [] && 0 !in ps[i].name && |ps[i].val| < TWO31
  }

  /** Names are C strings, property names not empty. */
  predicate LegalTree(f: Forest) {
    f.Tree? ==> 0 !in f.name && LegalProps(f.props) && LegalTree(f.kids) && LegalTree(f.sibs)
  }

  /** The table after the properties ps, ... */
  function TabProps(tab: bytes, ps: seq<PropVal>): (t: bytes)
    ensures |tab| <= |t|
    decreases |ps|
  {
    if ps == [] then tab else TabProps(Share(tab, ps[0].name).0, ps[1..])
  }

  /** ... and after the nodes f. */
  function TabOf(tab: bytes, f: Forest): (t: bytes)
    ensures |tab| <= |t|
    decreases f
  {
    if f.Nil? then tab else TabOf(TabOf(TabProps(tab, f.props), f.kids), f.sibs)
  }

  /** The tags the calls write, in front of tail, with the stored negative name offsets. */
  function MakeProps(tab: bytes, ps: seq<PropVal>, tail: Body): Body
    decreases |ps|
  {
    if ps == [] then tail
    else
      var (t, dist) := Share(tab, ps[0].name);
      Prop(Negative(dist), ps[0].val, ValPad(ps[0].val), MakeProps(t, ps[1..], tail))
  }

  function Make(tab: bytes, f: Forest, tail: Body): Body
    decreases f
  {
    if f.Nil? then tail
    else
      var t1 := TabProps(tab, f.props);
      var t2 := TabOf(t1, f.kids);
      Sub(f.name, NamePad(f.name), MakeProps(tab, f.props, Make(t1, f.kids, Close)), Make(t2, f.sibs, tail))
  }

  /** The bytes the calls write. */
  function PropPart(tab: bytes, ps: seq<PropVal>): bytes
    requires LegalProps(ps)
    decreases |ps|
  {
    if ps == [] then []
    else
      var (t, dist) := Share(tab, ps[0].name);
      FlatProp(Negative(dist), ps[0].val, ValPad(ps[0].val)) + PropPart(t, ps[1..])
  }

  function Part(tab: bytes, f: Forest): bytes
    requires LegalTree(f)
    decreases f
  {
    if f.Nil? then []
    else
      var t1 := TabProps(tab, f.props);
      var t2 := TabOf(t1, f.kids);
      FlatBegin(f.name, NamePad(f.name)) + PropPart(tab, f.props) + Part(t1, f.kids) + Cell(END_NODE) + Part(t2, f.sibs)
  }

  // ---------------------------------------------------------------------------
  // What the calls write is the encoding of a well-formed structure
  // ---------------------------------------------------------------------------

  lemma {:induction false} MakePropsFlat(tab: bytes, ps: seq<PropVal>, rest: Body)
    requires LegalProps(ps) && Wf(rest, false)
    ensures Wf(MakeProps(tab, ps, rest), false)
    ensures Flat(MakeProps(tab, ps, rest), false) == PropPart(tab, ps) + Flat(rest, false)
    decreases |ps|
  {
    hide FlatProp, Share, Negative, Align4;
    if ps != [] {
      var (t, dist) := Share(tab, ps[0].name);
      MakePropsFlat(t, ps[1..], rest);
      Assoc(FlatProp(Negative(dist), ps[0].val, ValPad(ps[0].val)), PropPart(t, ps[1..]), Flat(rest, false));
    } else {
      assert [] + Flat(rest, false) == Flat(rest, false);
    }
  }

  predicate Tail(b: Body, top: bool) {
    if top then b == Eof else b == Close
  }

  lemma {:induction false} MakeFlat(tab: bytes, f: Forest, tail: Body, top: bool)
    requires LegalTree(f) && Tail(tail, top)
    ensures var b := Make(tab, f, tail);
      Wf(b, top) && NoProps(b) && Flat(b, top) == Part(tab, f) + Flat(tail, top)
    decreases f
  {
    hide FlatBegin, Flat, PropPart, MakeProps, Share, Align4;
    if f.Nil? {
      assert [] + Flat(tail, top) == Flat(tail, top);
    } else {
      var t1 := TabProps(tab, f.props);
      var t2 := TabOf(t1, f.kids);
      var kids, sibs := Make(t1, f.kids, Close), Make(t2, f.sibs, tail);
      MakeFlat(t1, f.kids, Close, false);
      MakeFlat(t2, f.sibs, tail, top);
      MakePropsFlat(tab, f.props, kids);
      var b := Make(tab, f, tail);
      FlatOf(b, top);
      FlatClose();
      FiveParts(FlatBegin(f.name, NamePad(f.name)), PropPart(tab, f.props), Part(t1, f.kids), Cell(END_NODE), Part(t2, f.sibs), Flat(tail, top));
    }
  }

  lemma FlatClose()
    ensures Flat(Close, false) == Cell(END_NODE)
  {
  }

  lemma FiveParts(a: bytes, b: bytes, c: bytes, d: bytes, e: bytes, z: bytes)
    ensures a + (b + (c + d)) + (e + z) == a + b + c + d + e + z
  {
  }

  // ---------------------------------------------------------------------------
  // Running the calls
  // ---------------------------------------------------------------------------

  predicate AllLegal(cs: seq<Call>) {
    forall c | c in cs :: Legal(c)
  }

  lemma {:induction false} RunConcat(w: Sw, a: seq<Call>, b: seq<Call>)
    requires w.size < TWO31 && AllLegal(a) && AllLegal(b)
    ensures AllLegal(a + b)
    ensures var o := Run(w, a);
      o.w.size == w.size && Run(w, a + b) == if o.err == 0 then Run(o.w, b) else o
    decreases |a|
  {
    hide Legal;
    if a == [] {
      assert a + b == b;
    } else {
      ApplySize(w, a[0]);
      assert (a + b)[0] == a[0] && (a + b)[1..] == a[1..] + b;
      RunConcat(Apply(w, a[0]).w, a[1..], b);
    }
  }

  lemma ApplySize(w: Sw, c: Call)
    requires w.size < TWO31 && Legal(c)
    ensures Apply(w, c).w.size == w.size
  {
  }

  /** From w, the outcome o is that part and tab were written, if the buffer has room for them, and NOSPACE
      if it has not; only a table longer than the whole buffer can bring an overrun instead. */
  predicate Wrote(w: Sw, o: Outcome, part: bytes, tab: bytes) {
    && Used(o.w) <= o.w.size == w.size
    && if RSV_START + |w.rsv| + |w.stru| + |part| + |tab| <= w.size
       then o == Outcome(0, w.(stru := w.stru + part, tab := tab))
       else o.err == NOSPACE || (o.err == OVERRUN && |tab| > w.size)
  }

  lemma ApplyOverrun(w: Sw, c: Call)
    requires w.size < TWO31 && Legal(c)
    ensures Apply(w, c).err == OVERRUN <==> c.Property? && |Share(w.tab, c.name).0| > w.size
  {
    hide Share, FlatBegin, FlatProp, EntryBytes, Cell, Negative, NamePad, ValPad;
  }

  /** A run overruns the buffer exactly when it comes to a property whose name makes the table longer than the
      buffer. */
  lemma {:induction false} OverrunIff(w: Sw, cs: seq<Call>)
    requires w.size < TWO31 && AllLegal(cs)
    ensures Run(w, cs).err == OVERRUN <==>
            exists i | 0 <= i < |cs| ::
              && cs[i].Property? && Run(w, cs[..i]).err == 0 && |Share(Run(w, cs[..i]).w.tab, cs[i].name).0| > w.size
    decreases |cs|
  {
    hide Share, Legal, Apply;
    if cs != [] {
      var o := Apply(w, cs[0]);
      ApplySize(w, cs[0]);
      ApplyOverrun(w, cs[0]);
      assert cs[..0] == [];
      forall i | 0 < i < |cs|
        ensures Run(w, cs[..i]) == if o.err != 0 then o else Run(o.w, cs[1..][..i - 1])
      {
        assert cs[..i][0] == cs[0] && cs[..i][1..] == cs[1..][..i - 1];
      }
      if o.err == 0 {
        OverrunIff(o.w, cs[1..]);
        if Run(o.w, cs[1..]).err == OVERRUN {
          var i :| 0 <= i < |cs[1..]| && cs[1..][i].Property? && Run(o.w, cs[1..][..i]).err == 0
                   && |Share(Run(o.w, cs[1..][..i]).w.tab, cs[1..][i].name).0| > w.size;
          assert cs[i + 1] == cs[1..][i];
        }
        if i :| 0 <= i < |cs| && cs[i].Property? && Run(w, cs[..i]).err == 0 && |Share(Run(w, cs[..i]).w.tab, cs[i].name).0| > w.size {
          assert i > 0;
          assert cs[1..][i - 1] == cs[i];
        }
      }
    }
  }

  lemma WroteThen(w: Sw, o1: Outcome, p1: bytes, t1: bytes, o2: Outcome, p2: bytes, t2: bytes)
    requires Wrote(w, o1, p1, t1) && |t1| <= |t2|
    requires if o1.err == 0 then Wrote(o1.w, o2, p2, t2) else o2 == o1
    ensures Wrote(w, o2, p1 + p2, t2)
  {
    if o1.err == 0 {
      Assoc(w.stru, p1, p2);
    }
  }

  lemma WroteNone(w: Sw)
    requires Used(w) <= w.size
    ensures Wrote(w, Outcome(0, w), [], w.tab)
  {
    assert w.stru + [] == w.stru;
  }

  lemma {:induction false} RunProps(w: Sw, ps: seq<PropVal>)
    requires w.size < TWO31 && Used(w) <= w.size && LegalProps(ps)
    ensures AllLegal(PropCalls(ps))
    ensures Wrote(w, Run(w, PropCalls(ps)), PropPart(w.tab, ps), TabProps(w.tab, ps))
    decreases |ps|
  {
    hide FlatProp, Negative, Share, ValPad, Wrote;
    if ps == [] {
      WroteNone(w);
    } else {
      var (t, dist) := Share(w.tab, ps[0].name);
      var c, rest := Property(ps[0].name, ps[0].val), PropCalls(ps[1..]);
      assert PropCalls(ps)[0] == c && PropCalls(ps)[1..] == rest;
      var o, d := Apply(w, c), FlatProp(Negative(dist), ps[0].val, ValPad(ps[0].val));
      RunPropsLegal(ps[1..]);
      ApplyProperty(w, ps[0]);
      if o.err == 0 {
        RunProps(o.w, ps[1..]);
      }
      WroteThen(w, o, d, t, Run(w, PropCalls(ps)), PropPart(t, ps[1..]), TabProps(t, ps[1..]));
    }
  }

  lemma ApplyProperty(w: Sw, p: PropVal)
    requires w.size < TWO31 && Used(w) <= w.size && p.name != [] && 0 !in p.name && |p.val| < TWO31
    ensures var (t, dist) := Share(w.tab, p.name);
      Wrote(w, Apply(w, Property(p.name, p.val)), FlatProp(Negative(dist), p.val, ValPad(p.val)), t)
  {
    hide FlatProp, Negative, Share, ValPad;
  }

  lemma ApplyGrab(w: Sw, c: Call)
    requires w.size < TWO31 && Used(w) <= w.size && (c.BeginNode? || c.EndNode?) && Legal(c)
    ensures Wrote(w, Apply(w, c), if c.BeginNode? then FlatBegin(c.name, NamePad(c.name)) else Cell(END_NODE), w.tab)
  {
    hide FlatBegin, Cell, NamePad;
  }

  lemma {:induction false} RunPropsLegal(ps: seq<PropVal>)
    requires LegalProps(ps)
    ensures AllLegal(PropCalls(ps))
    decreases |ps|
  {
    if ps != [] {
      RunPropsLegal(ps[1..]);
    }
  }

  lemma {:induction false} CallsLegal(f: Forest)
    requires LegalTree(f)
    ensures AllLegal(Calls(f))
  {
    if f.Tree? {
      RunPropsLegal(f.props);
      CallsLegal(f.kids);
      CallsLegal(f.sibs);
    }
  }

  function Then(o: Outcome, cs: seq<Call>): Outcome
    requires o.w.size < TWO31 && AllLegal(cs)
  {
    if o.err == 0 then Run(o.w, cs) else o
  }

  lemma {:induction false} RunOne(w: Sw, c: Call)
    requires w.size < TWO31 && Legal(c)
    ensures AllLegal([c]) && Run(w, [c]) == Apply(w, c)
  {
    hide Legal;
    assert [c][1..] == [];
    ApplySize(w, c);
  }

  lemma {:induction false} RunSize(w: Sw, cs: seq<Call>)
    requires w.size < TWO31 && AllLegal(cs)
    ensures Run(w, cs).w.size == w.size
  {
    RunConcat(w, cs, []);
  }

  /** The run for a node and its siblings, piece by piece. */
  lemma {:induction false} RunPieces(w: Sw, f: Forest)
    requires w.size < TWO31 && LegalTree(f) && f.Tree?
    ensures AllLegal(PropCalls(f.props)) && AllLegal(Calls(f.kids)) && AllLegal(Calls(f.sibs)) && AllLegal(Calls(f))
    ensures var o1 := Apply(w, BeginNode(f.name));
      && o1.w.size == w.size
      && var o2 := Then(o1, PropCalls(f.props));
      && o2.w.size == w.size
      && var o3 := Then(o2, Calls(f.kids));
      && o3.w.size == w.size
      && var o4 := if o3.err == 0 then Apply(o3.w, EndNode) else o3;
      && o4.w.size == w.size
      && Run(w, Calls(f)) == Then(o4, Calls(f.sibs))
  {
    hide Run, Legal, Apply;
    CallsLegal(f);
    RunPropsLegal(f.props);
    CallsLegal(f.kids);
    CallsLegal(f.sibs);
    LegalBegin(f.name);
    var a, b, c, d, e := [BeginNode(f.name)], PropCalls(f.props), Calls(f.kids), [EndNode], Calls(f.sibs);
    assert Calls(f) == a + b + c + d + e;
    RunOne(w, BeginNode(f.name));
    RunConcat(w, a, b);
    RunConcat(w, a + b, c);
    RunConcat(w, a + b + c, d);
    RunConcat(w, a + b + c + d, e);
    RunSize(w, a);
    RunSize(w, a + b);
    RunSize(w, a + b + c);
    RunSize(w, a + b + c + d);
    if Run(w, a + b + c).err == 0 {
      RunOne(Run(w, a + b + c).w, EndNode);
    }
  }

  lemma LegalBegin(name: bytes)
    requires 0 !in name
    ensures Legal(BeginNode(name)) && Legal(EndNode)
  {
  }

  /** The calls of a tree succeed exactly when the buffer has room for the whole result, and then have
      written exactly that; they fail with NOSPACE, unless the table alone is longer than the buffer. */
  lemma {:induction false} RunForest(w: Sw, f: Forest)
    requires w.size < TWO31 && Used(w) <= w.size && LegalTree(f)
    ensures AllLegal(Calls(f))
    ensures Wrote(w, Run(w, Calls(f)), Part(w.tab, f), TabOf(w.tab, f))
    decreases f, 1
  {
    hide FlatBegin, PropPart, PropCalls, TabProps, Cell, LegalProps, Wrote;
    CallsLegal(f);
    if f.Nil? {
      WroteNone(w);
    } else {
      RunNode(w, f);
    }
  }

  lemma {:induction false} RunNode(w: Sw, f: Forest)
    requires w.size < TWO31 && Used(w) <= w.size && LegalTree(f) && f.Tree?
    ensures AllLegal(Calls(f))
    ensures Wrote(w, Run(w, Calls(f)), Part(w.tab, f), TabOf(w.tab, f))
    decreases f, 0
  {
    hide FlatBegin, PropPart, PropCalls, TabProps, Cell, LegalProps, Run, Apply, Legal, Wrote, NamePad;
    RunPieces(w, f);
    LegalBegin(f.name);
    var t1 := TabProps(w.tab, f.props);
    var t2 := TabOf(t1, f.kids);
    var o1 := Apply(w, BeginNode(f.name));
    ApplyGrab(w, BeginNode(f.name));
    WroteOk(w, o1, FlatBegin(f.name, NamePad(f.name)), w.tab);
    var o2 := Then(o1, PropCalls(f.props));
    if o1.err == 0 {
      RunProps(o1.w, f.props);
    }
    var p2 := FlatBegin(f.name, NamePad(f.name)) + PropPart(w.tab, f.props);
    WroteThen(w, o1, FlatBegin(f.name, NamePad(f.name)), w.tab, o2, PropPart(w.tab, f.props), t1);
    WroteOk(w, o2, p2, t1);
    var o3 := Then(o2, Calls(f.kids));
    if o2.err == 0 {
      RunForest(o2.w, f.kids);
    }
    var p3 := p2 + Part(t1, f.kids);
    WroteThen(w, o2, p2, t1, o3, Part(t1, f.kids), t2);
    WroteOk(w, o3, p3, t2);
    var o4 := if o3.err == 0 then Apply(o3.w, EndNode) else o3;
    if o3.err == 0 {
      ApplyGrab(o3.w, EndNode);
    }
    WroteThen(w, o3, p3, t2, o4, Cell(END_NODE), t2);
    WroteOk(w, o4, p3 + Cell(END_NODE), t2);
    if o4.err == 0 {
      RunForest(o4.w, f.sibs);
    }
    WroteThen(w, o4, p3 + Cell(END_NODE), t2, Run(w, Calls(f)), Part(t2, f.sibs), TabOf(t2, f.sibs));
  }

  lemma WroteOk(w: Sw, o: Outcome, part: bytes, tab: bytes)
    requires Wrote(w, o, part, tab)
    ensures Used(o.w) <= o.w.size == w.size && (o.err == 0 ==> o.w.tab == tab)
  {
  }

  // ---------------------------------------------------------------------------
  // Name offsets from the end of a growing table, and their correction
  // ---------------------------------------------------------------------------

  /** t is the end of u. */
  predicate Suffix(t: bytes, u: bytes) {
    |t| <= |u| && u[|u| - |t|..] == t
  }

  lemma SuffixTrans(t: bytes, u: bytes, x: bytes)
    requires Suffix(t, u) && Suffix(u, x)
    ensures Suffix(t, x)
  {
    assert x[|x| - |u|..][|u| - |t|..] == x[|x| - |t|..];
  }

  /** A table keeps every string at its distance before the end. */
  lemma OccursSuffix(t: bytes, u: bytes, s: bytes, p: nat)
    requires Suffix(t, u) && Occurs(t, s, p)
    ensures Occurs(u, s, |u| - |t| + p)
  {
    var d := |u| - |t|;
    assert u[d..][p..p + |s| + 1] == u[d + p..d + p + |s| + 1];
  }

  /** The table grows if and only if the name does not occur in it yet. */
  lemma ShareGrows(tab: bytes, s: bytes)
    ensures Share(tab, s).0 == if exists q: nat :: Occurs(tab, s, q) then tab else s + [0] + tab
  {
  }

  lemma ShareSuffix(tab: bytes, s: bytes)
    ensures Suffix(tab, Share(tab, s).0)
    ensures var (t, dist) := Share(tab, s); Occurs(t, s, |t| - dist)
  {
    var t := s + [0] + tab;
    assert t[|s| + 1..] == tab && t[0..|s| + 1] == s + [0];
  }

  lemma {:induction false} TabPropsSuffix(tab: bytes, ps: seq<PropVal>)
    ensures Suffix(tab, TabProps(tab, ps))
    decreases |ps|
  {
    hide Share;
    if ps == [] {
      assert tab[0..] == tab;
    } else {
      var t := Share(tab, ps[0].name).0;
      ShareSuffix(tab, ps[0].name);
      TabPropsSuffix(t, ps[1..]);
      SuffixTrans(tab, t, TabProps(tab, ps));
    }
  }

  lemma {:induction false} TabOfSuffix(tab: bytes, f: Forest)
    ensures Suffix(tab, TabOf(tab, f))
    decreases f
  {
    hide TabProps;
    if f.Nil? {
      assert tab[0..] == tab;
    } else {
      var t1 := TabProps(tab, f.props);
      var t2 := TabOf(t1, f.kids);
      TabPropsSuffix(tab, f.props);
      TabOfSuffix(t1, f.kids);
      TabOfSuffix(t2, f.sibs);
      SuffixTrans(tab, t1, t2);
      SuffixTrans(tab, t2, TabOf(tab, f));
    }
  }

  function Sum32(o: u32, n: nat): u32 {
    (o + n) % TWO32
  }

  /** fdt_finish adds the size of the table to every name offset, in 32 bits. */
  function Relocate(b: Body, n: nat): Body {
    match b
    case Close => Close
    case Eof => Eof
    case Nop(r) => Nop(Relocate(r, n))
    case Prop(o, v, p, r) => Prop(Sum32(o, n), v, p, Relocate(r, n))
    case Sub(m, p, c, r) => Sub(m, p, Relocate(c, n), Relocate(r, n))
  }

  lemma {:induction false} RelocateWf(b: Body, n: nat, top: bool)
    ensures Wf(b, top) ==> Wf(Relocate(b, n), top)
    ensures NoProps(b) ==> NoProps(Relocate(b, n))
    ensures Size(Relocate(b, n)) == Size(b) && HeadSize(Relocate(b, n)) == HeadSize(b)
  {
    hide PropSize, BeginSize;
    match b
    case Close =>
    case Eof =>
    case Nop(r) => RelocateWf(r, n, top);
    case Prop(_, _, _, r) => RelocateWf(r, n, top);
    case Sub(_, _, c, r) =>
      RelocateWf(c, n, false);
      RelocateWf(r, n, top);
  }

  /** A corrected name offset reads back as the name, in the final table. */
  lemma ShareReads(tab: bytes, s: bytes, u: bytes)
    requires s != [] && 0 !in s && Suffix(Share(tab, s).0, u) && |u| < TWO31
    ensures var o := Sum32(Negative(Share(tab, s).1), |u|); NameAt(u, o) && StrAt(u, o) == s
  {
    hide Share, StrAt, NameAt, Sum32, Negative;
    var (t, dist) := Share(tab, s);
    ShareSuffix(tab, s);
    OccursSuffix(t, u, s, |t| - dist);
    OccursReads(u, s, |u| - dist);
    Corrected(dist, |u|);
  }

  lemma Corrected(dist: nat, n: nat)
    requires 0 < dist <= n < TWO31
    ensures Sum32(Negative(dist), n) == n - dist
  {
  }

  lemma {:induction false} PropsMake(tab: bytes, ps: seq<PropVal>, rest: Body, u: bytes)
    requires LegalProps(ps) && Suffix(TabProps(tab, ps), u) && |u| < TWO31
    requires Named(Relocate(rest, |u|), u) && Props(Relocate(rest, |u|), u) == []
    ensures var b := Relocate(MakeProps(tab, ps, rest), |u|);
      Named(b, u) && Props(b, u) == ps && Erase(b, u) == Erase(Relocate(rest, |u|), u)
    decreases |ps|
  {
    hide Share, Negative, StrAt, NameAt, ValPad, Suffix, Sum32;
    if ps != [] {
      var (t, dist) := Share(tab, ps[0].name);
      TabPropsSuffix(t, ps[1..]);
      SuffixTrans(t, TabProps(tab, ps), u);
      ShareReads(tab, ps[0].name, u);
      PropsMake(t, ps[1..], rest, u);
      assert ps == [ps[0]] + ps[1..];
    }
  }

  /** The tree that was written is the tree that is read from the finished blob. */
  lemma {:induction false} EraseMake(tab: bytes, f: Forest, tail: Body, u: bytes)
    requires LegalTree(f) && Suffix(TabOf(tab, f), u) && |u| < TWO31 && (tail == Close || tail == Eof)
    ensures var b := Relocate(Make(tab, f, tail), |u|);
      Named(b, u) && Props(b, u) == [] && Erase(b, u) == f
    decreases f
  {
    hide TabProps, MakeProps, NamePad, LegalProps, Suffix, Make, Relocate, Erase, Props, Named;
    MakeHead(tab, f, tail, |u|);
    if f.Tree? {
      var t1 := TabProps(tab, f.props);
      var t2 := TabOf(t1, f.kids);
      TabOfSuffix(t1, f.kids);
      TabOfSuffix(t2, f.sibs);
      SuffixTrans(t2, TabOf(tab, f), u);
      SuffixTrans(t1, t2, u);
      EraseMake(t1, f.kids, Close, u);
      EraseMake(t2, f.sibs, tail, u);
      PropsMake(tab, f.props, Make(t1, f.kids, Close), u);
      var c, r := Relocate(MakeProps(tab, f.props, Make(t1, f.kids, Close)), |u|), Relocate(Make(t2, f.sibs, tail), |u|);
      SubView(f.name, NamePad(f.name), c, r, u);
    } else {
      TailView(tail, u);
    }
  }

  lemma {:induction false} MakeHead(tab: bytes, f: Forest, tail: Body, n: nat)
    requires LegalTree(f) && (tail == Close || tail == Eof)
    ensures Relocate(Make(tab, f, tail), n) ==
      if f.Nil? then tail
      else
        var t1 := TabProps(tab, f.props);
        var t2 := TabOf(t1, f.kids);
        Sub(f.name, NamePad(f.name), Relocate(MakeProps(tab, f.props, Make(t1, f.kids, Close)), n), Relocate(Make(t2, f.sibs, tail), n))
  {
    hide TabProps, MakeProps, NamePad;
  }

  lemma {:induction false} SubView(name: bytes, pad: bytes, c: Body, r: Body, u: bytes)
    ensures var b := Sub(name, pad, c, r);
      && (Named(b, u) <==> Named(c, u) && Named(r, u))
      && Props(b, u) == [] && Erase(b, u) == Tree(name, Props(c, u), Erase(c, u), Erase(r, u))
  {
  }

  lemma TailView(tail: Body, u: bytes)
    requires tail == Close || tail == Eof
    ensures Named(tail, u) && Props(tail, u) == [] && Erase(tail, u) == Nil
  {
  }

  // ---------------------------------------------------------------------------
  // Any calls in any order, also after errors
  // ---------------------------------------------------------------------------

  /** The state after the calls, whatever they return. */
  function StateAfter(w: Sw, cs: seq<Call>): (r: Sw)
    requires w.size < TWO31 && AllLegal(cs)
    ensures r.size == w.size
    decreases |cs|
  {
    if cs == [] then w
    else
      ApplySize(w, cs[0]);
      StateAfter(Apply(w, cs[0]).w, cs[1..])
  }

  lemma {:induction false} StateConcat(w: Sw, a: seq<Call>, b: seq<Call>)
    requires w.size < TWO31 && AllLegal(a) && AllLegal(b)
    ensures AllLegal(a + b) && StateAfter(w, a + b) == StateAfter(StateAfter(w, a), b)
    decreases |a|
  {
    hide Legal, Apply;
    if a == [] {
      assert a + b == b;
    } else {
      ApplySize(w, a[0]);
      assert (a + b)[0] == a[0] && (a + b)[1..] == a[1..] + b;
      StateConcat(Apply(w, a[0]).w, a[1..], b);
    }
  }

  /** A run without an error ends in that state. */
  lemma {:induction false} RunState(w: Sw, cs: seq<Call>)
    requires w.size < TWO31 && AllLegal(cs) && Run(w, cs).err == 0
    ensures Run(w, cs).w == StateAfter(w, cs)
    decreases |cs|
  {
    hide Legal, Apply;
    if cs != [] {
      ApplySize(w, cs[0]);
      RunState(Apply(w, cs[0]).w, cs[1..]);
    }
  }

  /** A reserve entry leaves the blocks apart if and only if it is refused or has room in front of the table. */
  lemma ReserveApart(w: Sw, e: Entry)
    requires w.size < TWO31 && w.stru == [] && Used(w) <= w.size
    ensures var o := Apply(w, AddReserve(e));
      && (Used(o.w) <= o.w.size <==> RSV_START + |w.rsv| + RSV_SIZE > w.size || Used(w) + RSV_SIZE <= w.size)
      && (o.err == OVERLAP <==> Used(o.w) > o.w.size)
  {
    hide EntryBytes;
  }

  /** In a buffer of 64 bytes a property that does not fit leaves its name behind, and the reserve entry after it
      is written over that name. */
  lemma NameHit(name: bytes, val: bytes, e: Entry)
    requires |name| == 10 && 0 !in name && |val| < TWO31
    ensures var w := Sw(64, [], [], []);
      var o := Apply(w, Property(name, val));
      && o.err == NOSPACE && Used(o.w) == 59 && o.w.tab == name + [0]
      && var p := Apply(o.w, AddReserve(e));
      p.err == OVERLAP && Used(p.w) == 75
  {
    hide FlatProp, EntryBytes, Search, Occurs;
    var w := Sw(64, [], [], []);
    NotThere(name);
    assert name + [0] + [] == name + [0];
    FlatLength(Negative(11), val, ValPad(val));
  }

  lemma NotThere(name: bytes)
    ensures Search([], name, 0) == -1
  {
  }

  lemma FlatLength(nameoff: u32, val: bytes, pad: bytes)
    requires |val| < TWO31
    ensures |FlatProp(nameoff, val, pad)| == 12 + |val| + |pad|
  {
    hide Cell;
  }

  /** No call of cs has this result. */
  ghost predicate Never(w: Sw, cs: seq<Call>, err: int)
    requires w.size < TWO31 && AllLegal(cs)
    decreases |cs|
  {
    ApplyAll(w, cs);
    cs == [] || (Apply(w, cs[0]).err != err && Never(Apply(w, cs[0]).w, cs[1..], err))
  }

  /** Reserve map, structure and table never overlap, before, between and after the calls. */
  ghost predicate Apart(w: Sw, cs: seq<Call>)
    requires w.size < TWO31 && AllLegal(cs)
    decreases |cs|
  {
    ApplyAll(w, cs);
    Used(w) <= w.size && (cs == [] || Apart(Apply(w, cs[0]).w, cs[1..]))
  }

  lemma ApplyAll(w: Sw, cs: seq<Call>)
    requires w.size < TWO31 && AllLegal(cs)
    ensures cs != [] ==> Legal(cs[0]) && AllLegal(cs[1..]) && Apply(w, cs[0]).w.size == w.size
  {
    hide Legal, Apply;
    if cs != [] {
      ApplySize(w, cs[0]);
    }
  }

  /** One call, in a state without overlap. */
  lemma ApplyApart(w: Sw, c: Call)
    requires w.size < TWO31 && Legal(c) && Used(w) <= w.size
    ensures var o := Apply(w, c); Used(o.w) > w.size <==> o.err == OVERLAP
  {
    hide Share, FlatProp, FlatBegin, EntryBytes, Cell, Negative, NamePad, ValPad;
  }

  /** The blocks stay apart over any sequence of calls if and only if no reserve entry hits the table of names. */
  lemma {:induction false} ApartIff(w: Sw, cs: seq<Call>)
    requires w.size < TWO31 && AllLegal(cs) && Used(w) <= w.size
    ensures Apart(w, cs) <==> Never(w, cs, OVERLAP)
    ensures Apart(w, cs) ==> Used(StateAfter(w, cs)) <= w.size
    decreases |cs|
  {
    hide Legal, Apply, Used;
    if cs != [] {
      ApplyAll(w, cs);
      ApplyApart(w, cs[0]);
      if Used(Apply(w, cs[0]).w) <= w.size {
        ApartIff(Apply(w, cs[0]).w, cs[1..]);
      } else {
        ApartHead(Apply(w, cs[0]).w, cs[1..]);
      }
    }
  }

  lemma ApartHead(w: Sw, cs: seq<Call>)
    requires w.size < TWO31 && AllLegal(cs)
    ensures Apart(w, cs) ==> Used(w) <= w.size
  {
    hide Legal, Apply;
  }

  /** Whatever is written stays: the structure keeps its beginning and the table its end. */
  lemma ApplyKeeps(w: Sw, c: Call)
    requires w.size < TWO31 && Legal(c)
    ensures var o := Apply(w, c); w.stru <= o.w.stru && Suffix(w.tab, o.w.tab)
  {
    hide Share, FlatProp, FlatBegin, EntryBytes, Cell, Negative, NamePad, ValPad;
    assert w.tab[0..] == w.tab;
    if c.Property? {
      ShareSuffix(w.tab, c.name);
    }
  }

  lemma {:induction false} StateKeeps(w: Sw, cs: seq<Call>)
    requires w.size < TWO31 && AllLegal(cs)
    ensures var x := StateAfter(w, cs); w.stru <= x.stru && Suffix(w.tab, x.tab)
    decreases |cs|
  {
    hide Legal, Apply, Suffix;
    if cs == [] {
      SuffixSelf(w.tab);
    } else {
      var o := Apply(w, cs[0]);
      ApplyAll(w, cs);
      ApplyKeeps(w, cs[0]);
      StateKeeps(o.w, cs[1..]);
      SuffixTrans(w.tab, o.w.tab, StateAfter(w, cs).tab);
    }
  }

  lemma SuffixSelf(t: bytes)
    ensures Suffix(t, t)
  {
    assert t[0..] == t;
  }

  /** A property that was accepted: what it wrote, and where its name is. */
  lemma PropertyWrote(w: Sw, name: bytes, val: bytes)
    requires w.size < TWO31 && Legal(Property(name, val)) && Apply(w, Property(name, val)).err == 0
    ensures var o, d := Apply(w, Property(name, val)), Share(w.tab, name);
      o.w.tab == d.0 && o.w.stru == w.stru + FlatProp(Negative(d.1), val, ValPad(val))
  {
    hide Share, FlatProp, Negative, ValPad;
  }

  /** Over any sequence of calls, errors included, in which nothing is written where it does not belong: a property that
      was accepted stays in the structure with its stored offset, and that offset, corrected by the size of the table as it
      is in the end, reads back as its name. */
  lemma {:induction false} NamesStay(w: Sw, cs: seq<Call>, i: nat)
    requires w.size < TWO31 && AllLegal(cs) && Used(w) <= w.size && Never(w, cs, OVERRUN) && Never(w, cs, OVERLAP)
    requires i < |cs| && cs[i].Property? && AllLegal(cs[..i])
    requires Apply(StateAfter(w, cs[..i]), cs[i]).err == 0
    ensures var x, y, c := StateAfter(w, cs[..i]), StateAfter(w, cs), cs[i];
      var dist := Share(x.tab, c.name).1;
      && x.stru + FlatProp(Negative(dist), c.val, ValPad(c.val)) <= y.stru
      && dist <= |y.tab| && Occurs(y.tab, c.name, |y.tab| - dist)
      && var o := Sum32(Negative(dist), |y.tab|);
      NameAt(y.tab, o) && StrAt(y.tab, o) == c.name
  {
    hide Legal, Apply, Share, FlatProp, Negative, ValPad, Suffix, Sum32, NameAt, StrAt, Occurs;
    var c, a, b := cs[i], cs[..i], cs[i + 1..];
    var x := StateAfter(w, a);
    assert cs == a + ([c] + b) && c in cs;
    forall d | d in [c] + b
      ensures Legal(d)
    {
      assert d in cs;
    }
    assert AllLegal([c] + b);
    StateConcat(w, a, [c] + b);
    assert ([c] + b)[0] == c && ([c] + b)[1..] == b;
    PropertyLegal(c);
    PropertyWrote(x, c.name, c.val);
    ApplySize(x, c);
    var o := Apply(x, c);
    StateKeeps(o.w, b);
    var y := StateAfter(w, cs);
    ApartIff(w, cs);
    UsedTable(y);
    NameStands(x.tab, c.name, y.tab);
    ShareReads(x.tab, c.name, y.tab);
  }

  lemma PropertyLegal(c: Call)
    requires c.Property? && Legal(c)
    ensures c.name != [] && 0 !in c.name && |c.val| < TWO31 && c == Property(c.name, c.val)
  {
  }

  lemma UsedTable(w: Sw)
    ensures |w.tab| <= Used(w)
  {
  }

  lemma NameStands(tab: bytes, s: bytes, u: bytes)
    requires Suffix(Share(tab, s).0, u)
    ensures var dist := Share(tab, s).1; dist <= |u| && Occurs(u, s, |u| - dist)
  {
    hide Share, Occurs;
    var (t, dist) := Share(tab, s);
    ShareSuffix(tab, s);
    OccursSuffix(t, u, s, |t| - dist);
  }
}
