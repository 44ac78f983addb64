/** The property list of one node: positions in it, edits of it, and its view as a value. */
module Attrs {
  import opened Bytes
  import opened Structure
  import opened Nodes
  import opened Trees

  /** po is the position of a tag in the property list of b, or the position just behind the list. */
  predicate Mark(b: Body, po: nat) {
    po == 0 || match b
      case Nop(r) => po >= 4 && Mark(r, po - 4)
      case Prop(_, v, _, r) => po >= PropSize(v) && Mark(r, po - PropSize(v))
      case _ => false
  }

  /** What of b follows position po. */
  function From(b: Body, po: nat): (r: Body)
    requires Mark(b, po)
    ensures po + Size(r) == Size(b)
  {
    if po == 0 then b
    else if b.Nop? then From(b.rest, po - 4)
    else From(b.rest, po - PropSize(b.val))
  }

  /** b with everything from position po on replaced. */
  function Cut(b: Body, po: nat, new_: Body): (r: Body)
    requires Mark(b, po)
    ensures Size(r) == po + Size(new_)
  {
    if po == 0 then new_
    else if b.Nop? then Nop(Cut(b.rest, po - 4, new_))
    else Prop(b.nameoff, b.val, b.pad, Cut(b.rest, po - PropSize(b.val), new_))
  }

  /** The properties in front of position po. */
  function Before(b: Body, strs: bytes, po: nat): seq<PropVal>
    requires Mark(b, po)
  {
    if po == 0 then []
    else if b.Nop? then Before(b.rest, strs, po - 4)
    else [PropVal(StrAt(strs, b.nameoff), b.val)] + Before(b.rest, strs, po - PropSize(b.val))
  }

  lemma {:induction false} CutView(b: Body, strs: bytes, po: nat, new_: Body)
    requires Mark(b, po)
    ensures Props(b, strs) == Before(b, strs, po) + Props(From(b, po), strs)
    ensures Props(Cut(b, po, new_), strs) == Before(b, strs, po) + Props(new_, strs)
    ensures Erase(b, strs) == Erase(From(b, po), strs)
    ensures Erase(Cut(b, po, new_), strs) == Erase(new_, strs)
    ensures Count(b) == Count(From(b, po)) && Count(Cut(b, po, new_)) == Count(new_)
    decreases b
  {
    if po > 0 {
      CutView(b.rest, strs, if b.Nop? then po - 4 else po - PropSize(b.val), new_);
    }
  }

  lemma {:induction false} CutWf(b: Body, po: nat, new_: Body)
    requires Mark(b, po) && Wf(b, false) && Wf(new_, false)
    ensures Wf(From(b, po), false) && Wf(Cut(b, po, new_), false)
    decreases b
  {
    if po > 0 {
      CutWf(b.rest, if b.Nop? then po - 4 else po - PropSize(b.val), new_);
    }
  }

  lemma {:induction false} CutNamed(b: Body, strs: bytes, po: nat, new_: Body)
    requires Mark(b, po) && Named(b, strs) && Named(new_, strs)
    ensures Named(From(b, po), strs) && Named(Cut(b, po, new_), strs)
    decreases b
  {
    if po > 0 {
      CutNamed(b.rest, strs, if b.Nop? then po - 4 else po - PropSize(b.val), new_);
    }
  }

  /** A cut keeps the encoding up to po. */
  lemma {:induction false} CutFlat(b: Body, po: nat, new_: Body)
    requires Mark(b, po) && Wf(b, false) && Wf(new_, false)
    ensures Wf(From(b, po), false) && Wf(Cut(b, po, new_), false)
    ensures Flat(b, false) == Flat(b, false)[..po] + Flat(From(b, po), false)
    ensures Flat(Cut(b, po, new_), false) == Flat(b, false)[..po] + Flat(new_, false)
    decreases b
  {
    hide HeadFlat, PropSize, Wf;
    CutWf(b, po, new_);
    if po > 0 {
      var q := if b.Nop? then po - 4 else po - PropSize(b.val);
      FlatOf(b, false);
      FlatOf(Cut(b, po, new_), false);
      CutFlat(b.rest, q, new_);
      CutHead(b, po, new_);
      var h, f := HeadFlat(b, false), Flat(b.rest, false);
      assert (h + f)[..po] == h + f[..q];
      Assoc(h, f[..q], Flat(new_, false));
      Assoc(h, f[..q], Flat(From(b, po), false));
    }
  }

  lemma {:induction false} CutHead(b: Body, po: nat, new_: Body)
    requires Mark(b, po) && po > 0 && Wf(b, false) && Wf(Cut(b, po, new_), false)
    ensures HeadFlat(Cut(b, po, new_), false) == HeadFlat(b, false)
  {
  }

  /** The first property called name: its position, or nothing. */
  datatype Found = Absent | At(pos: nat)

  function FindProp(b: Body, strs: bytes, name: bytes): Found {
    match b
    case Nop(r) => var f := FindProp(r, strs, name); if f.At? then At(4 + f.pos) else Absent
    case Prop(o, v, _, r) =>
      if StrAt(strs, o) == name then At(0)
      else var f := FindProp(r, strs, name); if f.At? then At(PropSize(v) + f.pos) else Absent
    case _ => Absent
  }

  lemma {:induction false} FindPropMark(b: Body, strs: bytes, name: bytes)
    ensures var f := FindProp(b, strs, name);
      f.At? ==> Mark(b, f.pos) && From(b, f.pos).Prop? && StrAt(strs, From(b, f.pos).nameoff) == name
    decreases b
  {
    if b.Nop? || b.Prop? {
      FindPropMark(b.rest, strs, name);
    }
  }

  /** The scan by names finds the property that IndexOf finds in the list of values. */
  lemma {:induction false} FindPropIndex(b: Body, strs: bytes, name: bytes)
    ensures var f := FindProp(b, strs, name);
      if f.At? then Mark(b, f.pos) && IndexOf(Props(b, strs), name) == |Before(b, strs, f.pos)| < |Props(b, strs)|
      else IndexOf(Props(b, strs), name) == |Props(b, strs)|
    decreases b
  {
    hide StrAt;
    FindPropMark(b, strs, name);
    if b.Nop? {
      FindPropIndex(b.rest, strs, name);
    } else if b.Prop? {
      var ps := Props(b.rest, strs);
      assert ([PropVal(StrAt(strs, b.nameoff), b.val)] + ps)[1..] == ps;
      if StrAt(strs, b.nameoff) != name {
        FindPropIndex(b.rest, strs, name);
      }
    }
  }

  lemma {:induction false} NamedFrom(b: Body, strs: bytes, po: nat)
    requires Named(b, strs) && Mark(b, po)
    ensures Named(From(b, po), strs)
    decreases b
  {
    if po > 0 {
      NamedFrom(b.rest, strs, if b.Nop? then po - 4 else po - PropSize(b.val));
    }
  }

  /** Position just behind the property list. */
  function ListEnd(b: Body): nat {
    match b
    case Nop(r) => 4 + ListEnd(r)
    case Prop(_, v, _, r) => PropSize(v) + ListEnd(r)
    case _ => 0
  }

  lemma {:induction false} ListEndMark(b: Body, strs: bytes)
    ensures Mark(b, ListEnd(b)) && Before(b, strs, ListEnd(b)) == Props(b, strs)
    ensures Props(From(b, ListEnd(b)), strs) == []
    ensures var e := From(b, ListEnd(b)); e.Close? || e.Eof? || e.Sub?
    decreases b
  {
    hide StrAt, PropSize;
    if b.Nop? || b.Prop? {
      ListEndMark(b.rest, strs);
    }
  }

  /** n NOP tags in front of r. */
  function Nops(n: nat, r: Body): (b: Body)
    ensures Size(b) == 4 * n + Size(r)
  {
    if n == 0 then r else Nop(Nops(n - 1, r))
  }

  lemma {:induction false} NopsView(n: nat, r: Body, strs: bytes, top: bool)
    ensures Props(Nops(n, r), strs) == Props(r, strs)
    ensures Erase(Nops(n, r), strs) == Erase(r, strs)
    ensures Named(Nops(n, r), strs) <==> Named(r, strs)
    ensures NoProps(Nops(n, r)) <==> NoProps(r)
    ensures Wf(Nops(n, r), top) <==> Wf(r, top)
  {
    if n > 0 {
      NopsView(n - 1, r, strs, top);
    }
  }
}
