/** Whole runs of the read-write functions of lib/libfdt/fdt_rw.c: a blob edited by any sequence of calls is
    a device tree, a strings block, a reserve map and a number of free bytes edited by the same calls. */
module Runs {
  import opened Bytes
  import opened Blob
  import opened Structure
  import opened Nodes
  import opened Trees
  import opened Attrs
  import opened Names
  import opened Edits
  import opened Rw
  import opened RwNodes
  import opened Reserve

  /** One call; freed is the length of the node that fdt_del_node takes out, NOP tags included. */
  datatype Call =
    | Put(k: nat, name: bytes, val: bytes, append: bool)
    | Drop(k: nat, name: bytes)
    | Title(k: nat, name: bytes)
    | Add(k: nat, name: bytes)
    | Delete(k: nat, freed: nat)
    | Reserving(entry: Entry)
    | Unreserving(n: nat)

  /** What a blob says, and its free bytes. */
  datatype Model = Model(tree: Forest, strs: bytes, rsv: seq<Entry>, room: int)

  function ModelOf(s: bytes, top: Body): Model
    requires Layout(s) && Ended(View(s).rsv)
  {
    Model(TreeOf(s, top), View(s).strs, Entries(View(s).rsv), Slack(Hdr(s)))
  }

  predicate Legal(m: Model, c: Call) {
    match c
    case Put(k, name, val, _) => k < Total(m.tree) && name != [] && 0 !in name && |val| < TWO31
    case Drop(k, name) => k < Total(m.tree) && name != []
    case Title(k, name) => k < Total(m.tree) && 0 !in name
    case Add(k, name) => k < Total(m.tree) && name != [] && 0 !in name
    case Delete(k, _) => k < Total(m.tree)
    case Reserving(_) => true
    case Unreserving(_) => true
  }

  /** m with another tree, for which n bytes are taken, if there are as many. */
  function Take(m: Model, n: int, tree: Forest): (Model, int) {
    if n > m.room then (m, NOSPACE) else (m.(tree := tree, room := m.room - n), 0)
  }

  /** The meaning of a call. A name that fits stays in the strings block even if its property does not. */
  function Eval(m: Model, c: Call): (Model, int)
    requires Legal(m, c)
  {
    match c
    case Put(k, name, val, append) =>
      var ps, tree := PropsOf(m.tree, k), TreeSet(m.tree, k, name, val, append);
      var i := IndexOf(ps, name);
      if i < |ps| then Take(m, Growth(ps[i].val, val, append), tree)
      else
        var t := Intern(m.strs, name).0;
        var n := |t| - |m.strs|;
        if n > m.room then (m, NOSPACE)
        else Take(m.(strs := t, room := m.room - n), 12 + Align4(|val|), tree)
    case Drop(k, name) =>
      var ps := PropsOf(m.tree, k);
      var i := IndexOf(ps, name);
      if i == |ps| then (m, NOTFOUND)
      else (m.(tree := Trees.DelProp(m.tree, k, name), room := m.room + PropSize(ps[i].val)), 0)
    case Title(k, name) =>
      Take(m, Align4(|name| + 1) - Align4(|NodeOf(m.tree, k).name| + 1), Rename(m.tree, k, name))
    case Add(k, name) =>
      if FindChild(NodeOf(m.tree, k).kids, name).At? then (m, EXISTS)
      else Take(m, BeginSize(name) + 4, AddChild(m.tree, k, name))
    case Delete(k, freed) => (m.(tree := Remove(m.tree, k), room := m.room + freed), 0)
    case Reserving(e) =>
      if RSV_SIZE > m.room then (m, NOSPACE)
      else (m.(rsv := m.rsv + if e.size == 0 then [] else [e], room := m.room - RSV_SIZE), 0)
    case Unreserving(n) =>
      if n >= |m.rsv| then (m, NOTFOUND) else (m.(rsv := m.rsv[..n] + m.rsv[n + 1..], room := m.room + RSV_SIZE), 0)
  }

  /** A blob that can be edited, with a reserve map that ends. */
  ghost predicate Sound(s: bytes, top: Body) {
    Encodes(s, top) && Ended(View(s).rsv)
  }

  /** What the functions promise: the call turned the blob s into s' and returned r (0 for the offset of a
      new node). */
  ghost predicate Performed(c: Call, s: bytes, top: Body, s': bytes, top': Body, r: int) {
    && Sound(s, top) && Legal(ModelOf(s, top), c)
    && var v := View(s);
    match c
    case Put(k, name, val, append) => PropSet(v, s', top, top', k, name, val, append, r)
    case Drop(k, name) => PropGone(v, s', top, top', k, name, r)
    case Title(k, name) => k < Count(top) && NodeRenamed(v, s', top, top', k, name, r)
    case Add(k, name) =>
      && k < Count(top)
      && if r == 0 then k + 1 < Count(top') && ChildAdded(v, s', top, top', k, name, Off(top', k + 1))
         else r < 0 && ChildAdded(v, s', top, top', k, name, r)
    case Delete(k, freed) => r == 0 && k < Count(top) && freed == Span(NodeAt(top, k)) && NodeGone(v, s', top, top', k)
    case Reserving(e) =>
      && top' == top
      && if RSV_SIZE > Slack(v.hdr) then r == NOSPACE && Kept(v, s', top, top)
         else r == 0 && Reserved(v, s', RSV_SIZE, top, Added(v.rsv, e))
    case Unreserving(n) =>
      && top' == top
      && if n >= |Entries(v.rsv)| then r == NOTFOUND && Kept(v, s', top, top)
         else r == 0 && Reserved(v, s', 0 - RSV_SIZE, top, Dropped(v.rsv, n))
  }

  /** The node a call is about, if it is about one. */
  function Node(c: Call): int {
    match c
    case Put(k, _, _, _) => k
    case Drop(k, _) => k
    case Title(k, _) => k
    case Add(k, _) => k
    case Delete(k, _) => k
    case Reserving(_) => -1
    case Unreserving(_) => -1
  }

  /** The arguments stay below the limits of the ints in the code. */
  ghost predicate Small(c: Call, sizeStruct: nat) {
    match c
    case Put(_, _, val, append) => append ==> |val| + sizeStruct < TWO31
    case Title(_, name) => |name| < TWO31 - 8
    case Add(_, name) => |name| < TWO31 - 16
    case _ => true
  }

  lemma SoundReady(s: bytes, top: Body)
    requires Sound(s, top)
    ensures Editable(s, top) && RwErr(Hdr(s)) == 0 && Layout(s) && Ended(View(s).rsv)
    ensures Total(TreeOf(s, top)) == Count(top)
  {
    hide Hdr, Flat, Wf, Named, Erase, Entries, Ended;
    EraseCount(top, View(s).strs);
  }

  lemma NodeTarget(s: bytes, top: Body, offset: int, k: nat)
    requires Sound(s, top) && k < Count(top) && offset == Off(top, k)
    ensures 0 <= offset && Layout(s) && Target(View(s).stru, top, offset, k)
  {
    hide Hdr, View, Erase, Ended, On, Off, Count, TagAt, Encodes, Target;
    EncodesReady(s, top);
    NodeIsTarget(View(s).stru, top, offset, k);
    OffNatural(top, k);
  }

  /** The new offset counts as success. */
  lemma {:induction false} AddDone(c: Call, s: bytes, top: Body, s': bytes, top': Body, r: int)
    requires Sound(s, top) && c.Add? && Legal(ModelOf(s, top), c) && c.k < Count(top) && c.k < Total(TreeOf(s, top))
    requires ChildAdded(View(s), s', top, top', c.k, c.name, r)
    ensures Performed(c, s, top, s', top', if r >= 0 then 0 else r)
  {
    hide Hdr, View, Sound, Erase, Off, Count, Legal, ModelOf, Grown, FindChild, NodeOf, Total, Slack, AddChild, Shifted, BeginSize;
    if r >= 0 {
      OffNatural(top', c.k + 1);
    }
  }

  /** Every function of the library does its call. */
  method Perform(fdt: array<byte>, c: Call, offset: int, ghost top: Body) returns (r: int, ghost top': Body)
    requires Sound(fdt[..], top) && Legal(ModelOf(fdt[..], top), c) && Small(c, Hdr(fdt[..]).sizeStruct)
    requires 0 <= Node(c) ==> Node(c) < Count(top) && offset == Off(top, Node(c))
    requires c.Delete? ==> c.freed == Span(NodeAt(top, c.k))
    modifies fdt
    ensures Performed(c, old(fdt[..]), top, fdt[..], top', r)
  {
    hide Hdr, View, Erase, Off, Count, Ended, Entries, Sound, Editable, Target, PropSet, PropGone, NodeRenamed, NodeGone, ChildAdded, Grown,
      Total, NodeOf, Reserved, Added, Dropped, Span, TreeOf, RwErr, Slack;
    ghost var s := fdt[..];
    SoundReady(s, top);
    top' := top;
    if 0 <= Node(c) {
      NodeTarget(s, top, offset, Node(c));
    }
    match c
    case Put(k, name, val, append) =>
      if append {
        r, top' := Rw.AppendProp(fdt, offset, name, val, top, k);
      } else {
        r, top' := Rw.SetProp(fdt, offset, name, val, top, k);
      }
    case Drop(k, name) =>
      r, top' := Rw.DelProp(fdt, offset, name, top, k);
    case Title(k, name) =>
      r, top' := RwNodes.SetName(fdt, offset, name, top, k);
    case Add(k, name) =>
      r, top' := RwNodes.AddSubnode(fdt, offset, name, top, k);
      AddDone(c, s, top, fdt[..], top', r);
      r := if r >= 0 then 0 else r;
    case Delete(k, freed) =>
      r, top' := RwNodes.DelNode(fdt, offset, top, k);
    case Reserving(e) =>
      r := Reserve.AddMemRsv(fdt, e.address, e.size, top);
    case Unreserving(n) =>
      r := Reserve.DelMemRsv(fdt, n, top);
  }

  /** Bytes between the structure block and the strings block. */
  function Gap(h: Header): int {
    h.offStrings - h.offStruct - h.sizeStruct
  }

  /** The frame around the blocks stays. */
  ghost predicate Framed(s: bytes, s': bytes) {
    && |s| >= HEADER_SIZE && |s'| >= HEADER_SIZE
    && Gap(Hdr(s')) == Gap(Hdr(s)) && Hdr(s').totalsize == Hdr(s).totalsize && Hdr(s').offRsv == Hdr(s).offRsv
  }

  /** An edit of the structure or the strings block, as a model. */
  lemma {:induction false} GrownModel(s: bytes, s': bytes, top: Body, top': Body, delta: int, strs: bytes)
    requires Sound(s, top) && Grown(View(s), s', delta, top', strs)
    ensures Sound(s', top') && Framed(s, s')
    ensures ModelOf(s', top') == Model(Erase(top', strs), strs, Entries(View(s).rsv), Slack(Hdr(s)) - (|strs| - |View(s).strs|) - delta)
  {
    hide Hdr, Flat, Wf, Named, Erase, RwErr, Entries, Ended;
  }

  /** An edit of the reserve map, as a model. */
  lemma {:induction false} ReservedModel(s: bytes, s': bytes, top: Body, delta: int, rsv: bytes)
    requires Sound(s, top) && Reserved(View(s), s', delta, top, rsv) && Ended(rsv)
    ensures Sound(s', top) && Framed(s, s')
    ensures ModelOf(s', top) == ModelOf(s, top).(rsv := Entries(rsv), room := Slack(Hdr(s)) - delta)
  {
    hide Hdr, Flat, Wf, Named, Erase, RwErr, Entries, Ended;
  }

  /** A call that changed nothing, as a model. */
  lemma {:induction false} KeptModel(s: bytes, s': bytes, top: Body, top': Body)
    requires Sound(s, top) && Kept(View(s), s', top, top')
    ensures Sound(s', top') && Framed(s, s') && ModelOf(s', top') == ModelOf(s, top)
  {
    hide Hdr, View, Grown, Erase, Entries, Ended, Encodes, Framed, Slack, Ordered;
    SoundParts(s, top);
    GrownModel(s, s', top, top', 0, View(s).strs);
  }

  lemma {:induction false} SoundParts(s: bytes, top: Body)
    requires Sound(s, top)
    ensures Encodes(s, top) && Layout(s) && View(s).hdr == Hdr(s) && Ended(View(s).rsv)
    ensures |View(s).strs| == Hdr(s).sizeStrings && Total(TreeOf(s, top)) == Count(top)
    ensures 0 <= Slack(Hdr(s))
  {
    hide Hdr, Erase, Entries, Ended;
    EraseCount(top, View(s).strs);
  }

  lemma {:induction false} PutRuns(s: bytes, top: Body, s': bytes, top': Body, k: nat, name: bytes, val: bytes, append: bool, r: int)
    requires Sound(s, top) && Legal(ModelOf(s, top), Put(k, name, val, append))
    requires PropSet(View(s), s', top, top', k, name, val, append, r)
    ensures Sound(s', top') && Framed(s, s') && Eval(ModelOf(s, top), Put(k, name, val, append)) == (ModelOf(s', top'), r)
  {
    hide Hdr, View, Grown, Erase, Entries, Ended, Encodes, Framed, Slack, Ordered, Intern, IndexOf, MovedBy, TreeSet,
      Growth, Align4, Total, NodeOf, Sound;
    SoundParts(s, top);
    var v, m := View(s), ModelOf(s, top);
    var ps := PropsOf(m.tree, k);
    var i, tree := IndexOf(ps, name), TreeSet(m.tree, k, name, val, append);
    if i < |ps| {
      var delta := Growth(ps[i].val, val, append);
      if delta > Slack(v.hdr) {
        KeptModel(s, s', top, top');
      } else {
        GrownModel(s, s', top, top', delta, v.strs);
      }
    } else {
      var t := Intern(v.strs, name).0;
      var n := |t| - |v.strs|;
      InternReads(v.strs, name);
      SoundMore(s, top, t);
      if n + 12 + Align4(|val|) > Slack(v.hdr) {
        GrownModel(s, s', top, top, 0, if n > Slack(v.hdr) then v.strs else t);
      } else {
        GrownModel(s, s', top, top', 12 + Align4(|val|), t);
      }
    }
  }

  /** A longer strings block does not change the tree. */
  lemma {:induction false} SoundMore(s: bytes, top: Body, t: bytes)
    requires Sound(s, top) && View(s).strs <= t
    ensures Erase(top, t) == TreeOf(s, top)
  {
    hide Hdr, Erase, Flat, Wf, Named;
    MoreTree(top, View(s).strs, t);
  }

  lemma {:induction false} DropRuns(s: bytes, top: Body, s': bytes, top': Body, k: nat, name: bytes, r: int)
    requires Sound(s, top) && Legal(ModelOf(s, top), Drop(k, name)) && PropGone(View(s), s', top, top', k, name, r)
    ensures Sound(s', top') && Framed(s, s') && Eval(ModelOf(s, top), Drop(k, name)) == (ModelOf(s', top'), r)
  {
    hide Hdr, View, Grown, Erase, Entries, Ended, Encodes, Framed, Slack, Ordered, IndexOf, MovedBy, Trees.DelProp, Align4,
      Total, NodeOf, Sound, PropSize, Kept;
    SoundParts(s, top);
    var v, m := View(s), ModelOf(s, top);
    var ps := PropsOf(m.tree, k);
    var i := IndexOf(ps, name);
    if i == |ps| {
      KeptModel(s, s', top, top');
    } else {
      GrownModel(s, s', top, top', 0 - PropSize(ps[i].val), v.strs);
    }
  }

  lemma {:induction false} TitleRuns(s: bytes, top: Body, s': bytes, top': Body, k: nat, name: bytes, r: int)
    requires Sound(s, top) && Legal(ModelOf(s, top), Title(k, name)) && k < Count(top) && NodeRenamed(View(s), s', top, top', k, name, r)
    ensures Sound(s', top') && Framed(s, s') && Eval(ModelOf(s, top), Title(k, name)) == (ModelOf(s', top'), r)
  {
    hide Hdr, View, Grown, Erase, Entries, Ended, Encodes, Framed, Slack, Ordered, MovedBy, Rename, Align4, Total, NodeOf,
      Sound, Kept;
    SoundParts(s, top);
    var v := View(s);
    EraseName(top, v.strs, k);
    var delta := Align4(|name| + 1) - Align4(|NodeAt(top, k).name| + 1);
    if delta > Slack(v.hdr) {
      KeptModel(s, s', top, top');
    } else {
      GrownModel(s, s', top, top', delta, v.strs);
    }
  }

  lemma {:induction false} EraseName(top: Body, strs: bytes, k: nat)
    requires k < Count(top)
    ensures k < Total(Erase(top, strs)) && NodeOf(Erase(top, strs), k).name == NodeAt(top, k).name
  {
    hide NodeOf, NodeAt;
    EraseNode(top, strs, k);
  }

  lemma {:induction false} AddRuns(s: bytes, top: Body, s': bytes, top': Body, k: nat, name: bytes, r: int)
    requires Sound(s, top) && Performed(Add(k, name), s, top, s', top', r)
    ensures Sound(s', top') && Framed(s, s') && Eval(ModelOf(s, top), Add(k, name)) == (ModelOf(s', top'), r)
  {
    hide Hdr, View, Grown, Erase, Entries, Ended, Encodes, Framed, Slack, Ordered, Shifted, AddChild, BeginSize, Total,
      NodeOf, Sound, Kept, FindChild;
    SoundParts(s, top);
    var v, m := View(s), ModelOf(s, top);
    if FindChild(NodeOf(m.tree, k).kids, name).At? || BeginSize(name) + 4 > Slack(v.hdr) {
      KeptModel(s, s', top, top');
    } else {
      GrownModel(s, s', top, top', BeginSize(name) + 4, v.strs);
    }
  }

  lemma {:induction false} DeleteRuns(s: bytes, top: Body, s': bytes, top': Body, k: nat, freed: nat, r: int)
    requires Sound(s, top) && Performed(Delete(k, freed), s, top, s', top', r)
    ensures Sound(s', top') && Framed(s, s') && Eval(ModelOf(s, top), Delete(k, freed)) == (ModelOf(s', top'), r)
  {
    hide Hdr, View, Grown, Erase, Entries, Ended, Encodes, Framed, Slack, Ordered, Shifted, Remove, Total, Sound, Span;
    SoundParts(s, top);
    GrownModel(s, s', top, top', 0 - Span(NodeAt(top, k)), View(s).strs);
  }

  lemma {:induction false} ReserveRuns(s: bytes, top: Body, s': bytes, c: Call, r: int)
    requires Sound(s, top) && (c.Reserving? || c.Unreserving?) && Performed(c, s, top, s', top, r)
    ensures Sound(s', top) && Framed(s, s') && Eval(ModelOf(s, top), c) == (ModelOf(s', top), r)
  {
    hide Hdr, View, Grown, Erase, Entries, Ended, Encodes, Framed, Slack, Ordered, Sound, Kept, Reserved, Added, Dropped;
    SoundParts(s, top);
    var v := View(s);
    if r != 0 {
      KeptModel(s, s', top, top);
    } else if c.Reserving? {
      AddedEntries(v.rsv, c.entry);
      ReservedModel(s, s', top, RSV_SIZE, Added(v.rsv, c.entry));
    } else {
      DroppedEntries(v.rsv, c.n);
      ReservedModel(s, s', top, 0 - RSV_SIZE, Dropped(v.rsv, c.n));
    }
  }

  /** Each call does to the blob what it does to the model, with the same result: it is short of space exactly
      when what it takes exceeds the free bytes, and then the tree and the reserve map stay. */
  lemma {:induction false} CallRefines(c: Call, s: bytes, top: Body, s': bytes, top': Body, r: int)
    requires Performed(c, s, top, s', top', r)
    ensures Sound(s, top) && Sound(s', top') && Framed(s, s')
    ensures Legal(ModelOf(s, top), c) && Eval(ModelOf(s, top), c) == (ModelOf(s', top'), r)
  {
    hide Hdr, View, Grown, Erase, Entries, Ended, Encodes, Framed, Slack, Ordered, Sound, Kept, PropSet, PropGone,
      NodeRenamed, NodeGone, ChildAdded, Reserved, ModelOf, Eval;
    match c
    case Put(k, name, val, append) => PutRuns(s, top, s', top', k, name, val, append, r);
    case Drop(k, name) => DropRuns(s, top, s', top', k, name, r);
    case Title(k, name) => TitleRuns(s, top, s', top', k, name, r);
    case Add(k, name) => AddRuns(s, top, s', top', k, name, r);
    case Delete(k, freed) => DeleteRuns(s, top, s', top', k, freed, r);
    case Reserving(e) => ReserveRuns(s, top, s', c, r);
    case Unreserving(n) => ReserveRuns(s, top, s', c, r);
  }

  // ---------------------------------------------------------------------------
  // Sequences of calls
  // ---------------------------------------------------------------------------

  /** A call, its result, and the blob it left. */
  datatype Event = Event(call: Call, r: int, s: bytes, top: Body)

  /** es is what happened to the blob s. */
  ghost predicate Run(s: bytes, top: Body, es: seq<Event>)
    decreases |es|
  {
    es == [] || (Performed(es[0].call, s, top, es[0].s, es[0].top, es[0].r) && Run(es[0].s, es[0].top, es[1..]))
  }

  /** The model after the calls of es, as long as they return what es says. */
  ghost predicate Follows(m: Model, es: seq<Event>, m': Model)
    decreases |es|
  {
    if es == [] then m' == m
    else Legal(m, es[0].call) && Eval(m, es[0].call).1 == es[0].r && Follows(Eval(m, es[0].call).0, es[1..], m')
  }

  function Last(s: bytes, es: seq<Event>): bytes {
    if es == [] then s else es[|es| - 1].s
  }

  function LastTop(top: Body, es: seq<Event>): Body {
    if es == [] then top else es[|es| - 1].top
  }

  /** Over every run of calls the blob stays a sound one, with the same total size and the same gap between
      the blocks, and it says what the calls make of the model. */
  lemma {:induction false} RunRefines(s: bytes, top: Body, es: seq<Event>)
    requires Sound(s, top) && Run(s, top, es)
    ensures Sound(Last(s, es), LastTop(top, es)) && Framed(s, Last(s, es))
    ensures Follows(ModelOf(s, top), es, ModelOf(Last(s, es), LastTop(top, es)))
    decreases |es|
  {
    hide Hdr, View, Sound, Eval, Performed, ModelOf, Framed, Legal;
    FramedSelf(s, top);
    if es != [] {
      var e := es[0];
      CallRefines(e.call, s, top, e.s, e.top, e.r);
      RunRefines(e.s, e.top, es[1..]);
      FramedTrans(s, e.s, Last(s, es));
    }
  }

  lemma FramedSelf(s: bytes, top: Body)
    requires Sound(s, top)
    ensures Framed(s, s)
  {
    hide Hdr, View;
  }

  lemma FramedTrans(a: bytes, b: bytes, c: bytes)
    requires Framed(a, b) && Framed(b, c)
    ensures Framed(a, c)
  {
    hide Hdr;
  }

  /** Over every run of calls the free bytes never run below zero, and every name offset keeps its string. */
  lemma {:induction false} RunKeepsNames(m: Model, es: seq<Event>, m': Model, o: nat)
    requires Follows(m, es, m') && m.room >= 0 && NameAt(m.strs, o)
    ensures m'.room >= 0 && NameAt(m'.strs, o) && StrAt(m'.strs, o) == StrAt(m.strs, o)
    decreases |es|
  {
    hide StrAt, NameAt, Eval, Legal;
    if es != [] {
      var m1 := Eval(m, es[0].call).0;
      CallKeepsNames(m, es[0].call);
      MoreStrings(m.strs, m1.strs, o);
      RunKeepsNames(m1, es[1..], m', o);
    }
  }

  lemma {:induction false} CallKeepsNames(m: Model, c: Call)
    requires Legal(m, c) && m.room >= 0
    ensures m.strs <= Eval(m, c).0.strs && Eval(m, c).0.room >= 0
  {
    hide Total, NodeOf, IndexOf, Search, TreeSet, Growth, Align4, Rename, AddChild, Remove, Trees.DelProp, FindChild,
      BeginSize, PropSize;
  }
}
