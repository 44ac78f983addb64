/** Editing the properties of one node: what happens to its properties, the strings block and the free bytes. */
module Stores {
  import opened Bytes
  import opened Blob
  import opened Structure
  import opened Nodes
  import opened Trees
  import opened Names
  import opened Edits
  import opened Rw

  /** Every node up to the k-th is where it was. */
  ghost predicate KeepsUpTo(top: Body, top': Body, k: nat) {
    Count(top') == Count(top) && forall j | 0 <= j <= k && j < Count(top) :: Off(top', j) == Off(top, j)
  }

  lemma {:induction false} MovedKeeps(top: Body, top': Body, k: nat, delta: int)
    requires MovedBy(top, top', k, delta)
    ensures KeepsUpTo(top, top', k)
  {
    hide Off, Count;
  }

  lemma {:induction false} GrownTree(v: Parts, s': bytes, delta: int, top': Body, strs: bytes)
    requires Grown(v, s', delta, top', strs)
    ensures Encodes(s', top') && TreeOf(s', top') == Erase(top', strs)
    ensures |s'| >= HEADER_SIZE && Slack(Hdr(s')) == Slack(v.hdr) - (|strs| - v.hdr.sizeStrings) - delta
  {
    hide Hdr, Flat, Wf, Named, Erase, RwErr;
  }

  lemma KeepsSelf(top: Body, k: nat)
    ensures KeepsUpTo(top, top, k)
  {
  }

  lemma KeepsTrans(a: Body, b: Body, c: Body, k: int)
    requires k >= 0 ==> KeepsUpTo(a, b, k) && (KeepsUpTo(b, c, k) || c == b)
    ensures k >= 0 ==> KeepsUpTo(a, c, k)
  {
  }

  lemma {:induction false} TargetKept(s: bytes, s': bytes, top: Body, top': Body, offset: int, k: int)
    requires k >= 0 && Encodes(s, top) && Encodes(s', top') && Target(View(s).stru, top, offset, k) && KeepsUpTo(top, top', k)
    ensures Target(View(s').stru, top', offset, k)
  {
    hide Hdr, Flat, Wf, Named, TagAt;
  }

  /** The properties of a node, the strings block of its blob, and the free bytes behind that. */
  datatype Store = Store(props: seq<PropVal>, strs: bytes, room: int)

  function StoreOf(s: bytes, top: Body, k: nat): Store
    requires Layout(s) && k < Total(TreeOf(s, top))
  {
    Store(PropsOf(TreeOf(s, top), k), View(s).strs, Slack(Hdr(s)))
  }

  /** The properties of a node after fdt_setprop or fdt_appendprop. */
  function NewProps(ps: seq<PropVal>, name: bytes, val: bytes, append: bool): seq<PropVal> {
    if append then AppendVal(ps, name, val) else SetVal(ps, name, val)
  }

  /** The strings block once the property has its name in it. */
  function Table(a: Store, name: bytes): (t: bytes)
    ensures |a.strs| <= |t|
  {
    if IndexOf(a.props, name) < |a.props| then a.strs else Intern(a.strs, name).0
  }

  /** Bytes that setting a property or appending to it takes; none or fewer if a value does not grow. */
  function Price(a: Store, name: bytes, val: bytes, append: bool): int {
    var i := IndexOf(a.props, name);
    if i < |a.props| then Growth(a.props[i].val, val, append) else |Table(a, name)| - |a.strs| + 12 + Align4(|val|)
  }

  /** fdt_setprop or fdt_appendprop on a store, with the result: it succeeds exactly when the free bytes cover the
      price, and a new name that fits stays even if its property does not. */
  function PutOn(a: Store, name: bytes, val: bytes, append: bool): (r: (Store, int)) {
    var t, price := Table(a, name), Price(a, name, val, append);
    if price <= a.room then (Store(NewProps(a.props, name, val, append), t, a.room - price), 0)
    else if |t| - |a.strs| <= a.room then (Store(a.props, t, a.room - (|t| - |a.strs|)), NOSPACE)
    else (a, NOSPACE)
  }

  /** The blob s became s' by edits of the k-th node's properties, which with strings block and free bytes are
      those of a; all else of the tree is the same, and nodes up to the k-th are where they were. */
  ghost predicate Edited(s: bytes, top: Body, s': bytes, top': Body, k: nat, a: Store) {
    && Encodes(s, top) && Encodes(s', top') && KeepsUpTo(top, top', k) && k < Total(TreeOf(s, top))
    && TreeOf(s', top') == WithProps(TreeOf(s, top), k, a.props)
    && View(s').strs == a.strs && Slack(Hdr(s')) == a.room
  }

  lemma {:induction false} SameProps(f: Forest, k: nat)
    requires k < Total(f)
    ensures WithProps(f, k, PropsOf(f, k)) == f
    decreases f
  {
    if k == 0 {
    } else if k <= Total(f.kids) {
      SameProps(f.kids, k - 1);
    } else {
      SameProps(f.sibs, k - 1 - Total(f.kids));
    }
  }

  lemma TreeSetProps(f: Forest, k: nat, name: bytes, val: bytes, append: bool)
    requires k < Total(f)
    ensures TreeSet(f, k, name, val, append) == WithProps(f, k, NewProps(PropsOf(f, k), name, val, append))
  {
    hide NodeOf, Replace, Total, AppendVal, SetVal;
  }

  /** The tree is the old one; perhaps a name was added. */
  lemma {:induction false} KeptEdit(s: bytes, top: Body, s': bytes, k: nat, t: bytes)
    requires Encodes(s, top) && k < Total(TreeOf(s, top)) && View(s).strs <= t && Grown(View(s), s', 0, top, t)
    ensures Edited(s, top, s', top, k, Store(PropsOf(TreeOf(s, top), k), t, Slack(Hdr(s)) - (|t| - |View(s).strs|)))
  {
    hide Hdr, View, Encodes, Erase, Ordered, KeepsUpTo, Grown, Slack, WithProps, PropsOf, Total;
    EncodesReady(s, top);
    KeepsSelf(top, k);
    MoreTree(top, View(s).strs, t);
    SameProps(TreeOf(s, top), k);
    GrownTree(View(s), s', 0, top, t);
    GrownStrings(View(s), s', 0, top, t);
  }

  lemma {:induction false} NoEdit(s: bytes, top: Body, s': bytes, k: nat)
    requires Encodes(s, top) && k < Total(TreeOf(s, top)) && Grown(View(s), s', 0, top, View(s).strs)
    ensures Edited(s, top, s', top, k, StoreOf(s, top, k))
  {
    hide Hdr, View, Encodes, Erase, Ordered, Grown, Slack, PropsOf, Total, Edited;
    EncodesReady(s, top);
    KeptEdit(s, top, s', k, View(s).strs);
  }

  lemma GrownStrings(v: Parts, s': bytes, delta: int, top': Body, strs: bytes)
    requires Grown(v, s', delta, top', strs)
    ensures Layout(s') && View(s').strs == strs
  {
    hide Hdr, Flat, Wf, Named, Erase, RwErr;
  }

  lemma {:induction false} DoneEdit(s: bytes, top: Body, s': bytes, top': Body, k: nat, delta: int, t: bytes, ps: seq<PropVal>)
    requires Encodes(s, top) && k < Total(TreeOf(s, top)) && Grown(View(s), s', delta, top', t) && MovedBy(top, top', k, delta)
    requires Erase(top', t) == WithProps(TreeOf(s, top), k, ps)
    ensures Edited(s, top, s', top', k, Store(ps, t, Slack(Hdr(s)) - (|t| - |View(s).strs|) - delta))
  {
    hide Hdr, View, Encodes, Erase, Ordered, KeepsUpTo, Grown, Slack, WithProps, PropsOf, Total, MovedBy;
    EncodesReady(s, top);
    MovedKeeps(top, top', k, delta);
    GrownTree(View(s), s', delta, top', t);
    GrownStrings(View(s), s', delta, top', t);
  }

  lemma {:induction false} ResizedIs(s: bytes, s': bytes, top: Body, top': Body, k: nat, delta: int, ps: seq<PropVal>, err: int)
    requires Encodes(s, top) && k < Total(TreeOf(s, top))
    requires Resized(View(s), s', top, top', k, delta, WithProps(TreeOf(s, top), k, ps), err)
    ensures if delta > Slack(Hdr(s)) then err == NOSPACE && Edited(s, top, s', top', k, StoreOf(s, top, k))
            else err == 0 && Edited(s, top, s', top', k, Store(ps, View(s).strs, Slack(Hdr(s)) - delta))
  {
    hide Hdr, View, Ordered, Encodes, Erase, Edited, Total, Grown, Slack, WithProps, MovedBy, PropsOf;
    EncodesReady(s, top);
    StringsFit(s);
    if delta > Slack(Hdr(s)) {
      NoEdit(s, top, s', k);
    } else {
      DoneEdit(s, top, s', top', k, delta, View(s).strs, ps);
    }
  }

  lemma {:induction false} InsertedIs(s: bytes, s': bytes, top: Body, top': Body, k: nat, t: bytes, delta: nat, ps: seq<PropVal>, err: int)
    requires Encodes(s, top) && k < Total(TreeOf(s, top)) && View(s).strs <= t
    requires Inserted(View(s), s', top, top', k, t, delta, WithProps(TreeOf(s, top), k, ps), err)
    ensures var n, room, qs := |t| - |View(s).strs|, Slack(Hdr(s)), PropsOf(TreeOf(s, top), k);
      if n + delta <= room then err == 0 && Edited(s, top, s', top', k, Store(ps, t, room - (n + delta)))
      else if n <= room then err == NOSPACE && Edited(s, top, s', top', k, Store(qs, t, room - n))
      else err == NOSPACE && Edited(s, top, s', top', k, StoreOf(s, top, k))
  {
    hide Hdr, View, Ordered, Encodes, Erase, Edited, Total, Grown, Slack, WithProps, MovedBy, PropsOf, StoreOf;
    EncodesReady(s, top);
    StringsFit(s);
    var n := |t| - |View(s).strs|;
    if n + delta <= Slack(Hdr(s)) {
      DoneEdit(s, top, s', top', k, delta, t, ps);
    } else if n <= Slack(Hdr(s)) {
      KeptEdit(s, top, s', k, t);
    } else {
      NoEdit(s, top, s', k);
    }
  }

  lemma PutOnCases(a: Store, name: bytes, val: bytes, append: bool)
    requires a.room >= 0
    ensures var i, ps, room := IndexOf(a.props, name), NewProps(a.props, name, val, append), a.room;
      PutOn(a, name, val, append) ==
      if i < |a.props| then
        var delta := Growth(a.props[i].val, val, append);
        if delta > room then (a, NOSPACE) else (Store(ps, a.strs, room - delta), 0)
      else
        var t := Intern(a.strs, name).0;
        var n, delta := |t| - |a.strs|, 12 + Align4(|val|);
        if n + delta <= room then (Store(ps, t, room - (n + delta)), 0)
        else if n <= room then (Store(a.props, t, room - n), NOSPACE)
        else (a, NOSPACE)
  {
    hide IndexOf, Intern, NewProps, Growth, Align4;
  }

  lemma {:induction false} PropSetIs(s: bytes, s': bytes, top: Body, top': Body, k: nat, name: bytes, val: bytes, append: bool, err: int)
    requires Encodes(s, top) && k < Total(TreeOf(s, top)) && name != [] && 0 !in name
    requires PropSet(View(s), s', top, top', k, name, val, append, err)
    ensures Edited(s, top, s', top', k, PutOn(StoreOf(s, top, k), name, val, append).0)
    ensures err == PutOn(StoreOf(s, top, k), name, val, append).1
  {
    hide Hdr, View, Ordered, Encodes, Erase, Edited, TreeSet, IndexOf, Intern, Align4, Growth, NodeOf, Total, Slack, WithProps, NewProps, Resized,
      Inserted, PutOn, Price, Table, Grown, MovedBy, KeepsUpTo, Layout;
    EncodesReady(s, top);
    var v, f := View(s), TreeOf(s, top);
    var ps := PropsOf(f, k);
    var i := IndexOf(ps, name);
    TreeSetProps(f, k, name, val, append);
    StringsFit(s);
    PutOnCases(StoreOf(s, top, k), name, val, append);
    if i < |ps| {
      ResizedIs(s, s', top, top', k, Growth(ps[i].val, val, append), NewProps(ps, name, val, append), err);
    } else {
      InternReads(v.strs, name);
      InsertedIs(s, s', top, top', k, Intern(v.strs, name).0, 12 + Align4(|val|), NewProps(ps, name, val, append), err);
    }
  }

  lemma StringsFit(s: bytes)
    requires Layout(s)
    ensures |View(s).strs| == View(s).hdr.sizeStrings && View(s).hdr == Hdr(s) && 0 <= Slack(Hdr(s))
  {
    hide Hdr;
  }

  /** Edits of one node in a row are one edit. */
  lemma {:induction false} EditedTwice(s: bytes, top: Body, s1: bytes, top1: Body, s2: bytes, top2: Body, k: nat, a: Store, b: Store)
    requires Edited(s, top, s1, top1, k, a) && k < Total(TreeOf(s1, top1)) && Edited(s1, top1, s2, top2, k, b)
    ensures Edited(s, top, s2, top2, k, b)
  {
    hide Hdr, View, Encodes, Erase, Ordered, KeepsUpTo, Slack, WithProps, Total;
    EncodesReady(s, top);
    EncodesReady(s1, top1);
    EncodesReady(s2, top2);
    KeepsTrans(top, top1, top2, k);
    PropsTwice(TreeOf(s, top), k, a.props, b.props);
  }

  lemma {:induction false} PropsTwice(f: Forest, k: nat, ps: seq<PropVal>, qs: seq<PropVal>)
    requires k < Total(f)
    ensures k < Total(WithProps(f, k, ps)) && WithProps(WithProps(f, k, ps), k, qs) == WithProps(f, k, qs)
    decreases f
  {
    if k == 0 {
    } else if k <= Total(f.kids) {
      PropsTwice(f.kids, k - 1, ps, qs);
      SameTotal(f.kids, k - 1, ps);
    } else {
      PropsTwice(f.sibs, k - 1 - Total(f.kids), ps, qs);
      SameTotal(f.sibs, k - 1 - Total(f.kids), ps);
    }
  }

  lemma {:induction false} SameTotal(f: Forest, k: nat, ps: seq<PropVal>)
    requires k < Total(f)
    ensures Total(WithProps(f, k, ps)) == Total(f)
    decreases f
  {
    if k == 0 {
    } else if k <= Total(f.kids) {
      SameTotal(f.kids, k - 1, ps);
    } else {
      SameTotal(f.sibs, k - 1 - Total(f.kids), ps);
    }
  }

  /** What an edit leaves is the store of the node. */
  lemma {:induction false} EditedStore(s: bytes, top: Body, s': bytes, top': Body, k: nat, a: Store)
    requires Edited(s, top, s', top', k, a)
    ensures Layout(s') && k < Total(TreeOf(s', top')) && StoreOf(s', top', k) == a
  {
    hide Hdr, View, Encodes, Erase, Ordered, KeepsUpTo, Slack, Total, Replace;
    EncodesReady(s, top);
    EncodesReady(s', top');
    ReplaceProps(TreeOf(s, top), k, a.props, k);
  }

  /** fdt_setprop or fdt_appendprop, on the tree. */
  method PutProp(fdt: array<byte>, nodeoffset: int, name: bytes, val: bytes, append: bool, ghost top: Body, ghost k: int)
    returns (err: int, ghost top': Body)
    requires Encodes(fdt[..], top) && name != [] && 0 !in name && Target(View(fdt[..]).stru, top, nodeoffset, k)
    requires |val| < TWO31 && (append ==> |val| + Hdr(fdt[..]).sizeStruct < TWO31)
    modifies fdt
    ensures k < 0 ==> err == BADOFFSET && Encodes(fdt[..], top') && top' == top && TreeOf(fdt[..], top) == old(TreeOf(fdt[..], top))
    ensures k >= 0 ==>
      && k < Total(old(TreeOf(fdt[..], top)))
      && var r := PutOn(old(StoreOf(fdt[..], top, k)), name, val, append);
      Edited(old(fdt[..]), top, fdt[..], top', k, r.0) && err == r.1
  {
    hide Hdr, View, Encodes, Erase, Target, Ordered, PropSet, RwErr, Edited, PutOn;
    EncodesEditable(fdt[..], top);
    if append {
      err, top' := Rw.AppendProp(fdt, nodeoffset, name, val, top, k);
    } else {
      err, top' := Rw.SetProp(fdt, nodeoffset, name, val, top, k);
    }
    if k >= 0 {
      PropSetIs(old(fdt[..]), fdt[..], top, top', k, name, val, append, err);
    }
  }

  lemma {:induction false} EncodesEditable(s: bytes, top: Body)
    requires Encodes(s, top)
    ensures Editable(s, top) && RwErr(Hdr(s)) == 0 && Hdr(s).sizeStruct < TWO31 - 56
  {
    hide Hdr, Flat, Wf, Named, RwErr;
  }

  /** New properties for the k-th node are new for no other. */
  lemma {:induction false} ReplaceProps(f: Forest, k: nat, ps: seq<PropVal>, j: nat)
    requires k < Total(f) && j < Total(f)
    ensures var n := NodeOf(f, k);
      var f' := Replace(f, k, n.(props := ps));
      Total(f') == Total(f) && PropsOf(f', j) == if j == k then ps else PropsOf(f, j)
    decreases f
  {
    if k == 0 {
    } else if k <= Total(f.kids) {
      ReplaceProps(f.kids, k - 1, ps, if 0 < j <= Total(f.kids) then j - 1 else 0);
    } else {
      var m := 1 + Total(f.kids);
      ReplaceProps(f.sibs, k - m, ps, if j >= m then j - m else 0);
    }
  }

  lemma IndexIs(ps: seq<PropVal>, name: bytes, i: nat)
    requires i <= |ps| && (forall j | 0 <= j < i :: ps[j].name != name) && (i < |ps| ==> ps[i].name == name)
    ensures IndexOf(ps, name) == i
  {
  }

  lemma IndexBehind(p: PropVal, ps: seq<PropVal>, name: bytes)
    requires p.name != name
    ensures IndexOf([p] + ps, name) == 1 + IndexOf(ps, name)
  {
    assert ([p] + ps)[1..] == ps;
  }

  /** Setting or extending one property leaves the value of every other. */
  lemma OtherValue(ps: seq<PropVal>, name: bytes, val: bytes, other: bytes)
    ensures ValueOf(SetVal(ps, name, val), name) == Is(val)
    ensures other != name ==> ValueOf(SetVal(ps, name, val), other) == ValueOf(AppendVal(ps, name, val), other) == ValueOf(ps, other)
  {
    hide IndexOf;
    var i := IndexOf(ps, name);
    var qs, rs := SetVal(ps, name, val), AppendVal(ps, name, val);
    IndexIs(qs, name, if i < |ps| then i else 0);
    if other != name {
      if i < |ps| {
        IndexIs(qs, other, IndexOf(ps, other));
        IndexIs(rs, other, IndexOf(ps, other));
      } else {
        IndexBehind(PropVal(name, val), ps, other);
      }
    }
  }

  lemma AppendedValue(ps: seq<PropVal>, name: bytes, val: bytes)
    ensures ValueOf(AppendVal(ps, name, val), name) == match ValueOf(ps, name) case NoVal => Is(val) case Is(v) => Is(v + val)
  {
    hide IndexOf;
    var i := IndexOf(ps, name);
    IndexIs(AppendVal(ps, name, val), name, if i < |ps| then i else 0);
  }
}
