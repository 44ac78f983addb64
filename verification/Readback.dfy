/** What the lookups say after an edit: one property or one name is as it was asked for, and all else is as before. */
module Readback {
  import opened Bytes
  import opened Trees
  import opened Names
  import opened Rw
  import opened Stores
  import opened Shapes
  import opened Runs

  /** The value before, nothing for a property that is missing. */
  function Before(ps: seq<PropVal>, name: bytes): bytes {
    match ValueOf(ps, name) case NoVal => [] case Is(v) => v
  }

  lemma PutValue(ps: seq<PropVal>, name: bytes, val: bytes, append: bool, other: bytes)
    ensures var qs := if append then AppendVal(ps, name, val) else SetVal(ps, name, val);
      && ValueOf(qs, name) == Is(if append then Before(ps, name) + val else val)
      && (other != name ==> ValueOf(qs, other) == ValueOf(ps, other))
  {
    hide SetVal, AppendVal, ValueOf;
    OtherValue(ps, name, val, other);
    AppendedValue(ps, name, val);
    assert [] + val == val;
  }

  /** After fdt_setprop and fdt_appendprop the property has that value, or is longer by it; every other property of the
      node, every other node and every name is as before. */
  lemma {:induction false} PutReads(m: Model, c: Call, other: bytes, j: nat)
    requires c.Put? && Legal(m, c) && Eval(m, c).1 == 0 && j < Total(m.tree)
    ensures var t, ps := Eval(m, c).0.tree, PropsOf(m.tree, c.k);
      && Total(t) == Total(m.tree) && Bare(t) == Bare(m.tree)
      && ValueOf(PropsOf(t, c.k), c.name) == Is(if c.append then Before(ps, c.name) + c.val else c.val)
      && (other != c.name ==> ValueOf(PropsOf(t, c.k), other) == ValueOf(ps, other))
      && (j != c.k ==> PropsOf(t, j) == PropsOf(m.tree, j))
  {
    hide NodeOf, Total, Replace, ValueOf, SetVal, AppendVal, IndexOf, Intern, Growth, Bare, Before;
    var ps := PropsOf(m.tree, c.k);
    var qs := if c.append then AppendVal(ps, c.name, c.val) else SetVal(ps, c.name, c.val);
    PutValue(ps, c.name, c.val, c.append, other);
    ReplaceProps(m.tree, c.k, qs, c.k);
    ReplaceProps(m.tree, c.k, qs, j);
    BareWithProps(m.tree, c.k, qs);
    assert Eval(m, c).0.tree == TreeSet(m.tree, c.k, c.name, c.val, c.append) == WithProps(m.tree, c.k, qs);
  }

  lemma DropValue(ps: seq<PropVal>, name: bytes, other: bytes)
    requires ValueOf(ps, name) != NoVal
    ensures var i, qs := IndexOf(ps, name), DropVal(ps, name);
      i < |ps| && |qs| == |ps| - 1 && (other != name ==> ValueOf(qs, other) == ValueOf(ps, other))
    ensures (forall i, j | 0 <= i < j < |ps| :: ps[i].name != ps[j].name) ==> ValueOf(DropVal(ps, name), name) == NoVal
  {
    hide IndexOf;
    var i, qs := IndexOf(ps, name), DropVal(ps, name);
    if other != name {
      var x := IndexOf(ps, other);
      IndexIs(qs, other, if x < i then x else x - 1);
    }
    if forall i, j | 0 <= i < j < |ps| :: ps[i].name != ps[j].name {
      IndexIs(qs, name, |qs|);
    }
  }

  /** fdt_delprop fails if and only if the property is missing. Then the node has one property less and the others have
      their values; and if no two had the same name, this one is gone. */
  lemma {:induction false} DropReads(m: Model, c: Call, other: bytes, j: nat)
    requires c.Drop? && Legal(m, c) && j < Total(m.tree)
    ensures Eval(m, c).1 == (if ValueOf(PropsOf(m.tree, c.k), c.name) == NoVal then -1 else 0)
    ensures Eval(m, c).1 == 0 ==>
      var t, ps := Eval(m, c).0.tree, PropsOf(m.tree, c.k);
      && Total(t) == Total(m.tree) && Bare(t) == Bare(m.tree) && |PropsOf(t, c.k)| == |ps| - 1
      && (other != c.name ==> ValueOf(PropsOf(t, c.k), other) == ValueOf(ps, other))
      && ((forall i, j | 0 <= i < j < |ps| :: ps[i].name != ps[j].name) ==> ValueOf(PropsOf(t, c.k), c.name) == NoVal)
      && (j != c.k ==> PropsOf(t, j) == PropsOf(m.tree, j))
  {
    hide NodeOf, Total, Replace, IndexOf, Bare, DropVal;
    var ps := PropsOf(m.tree, c.k);
    var qs := DropVal(ps, c.name);
    if ValueOf(ps, c.name) != NoVal {
      DropValue(ps, c.name, other);
      ReplaceProps(m.tree, c.k, qs, c.k);
      ReplaceProps(m.tree, c.k, qs, j);
      BareWithProps(m.tree, c.k, qs);
      assert Eval(m, c).0.tree == WithProps(m.tree, c.k, qs);
    }
  }

  lemma {:induction false} ReplaceName(f: Forest, k: nat, name: bytes, j: nat)
    requires k < Total(f) && j < Total(f)
    ensures var g := Rename(f, k, name);
      && Total(g) == Total(f) && NodeOf(g, j).name == (if j == k then name else NodeOf(f, j).name)
      && PropsOf(g, j) == PropsOf(f, j)
    decreases f
  {
    if k == 0 {
    } else if k <= Total(f.kids) {
      ReplaceName(f.kids, k - 1, name, if 0 < j <= Total(f.kids) then j - 1 else 0);
    } else {
      var n := 1 + Total(f.kids);
      ReplaceName(f.sibs, k - n, name, if n <= j then j - n else 0);
    }
  }

  /** After fdt_set_name the node has that name, and all else is as before. */
  lemma {:induction false} TitleReads(m: Model, c: Call, j: nat)
    requires c.Title? && Legal(m, c) && Eval(m, c).1 == 0 && j < Total(m.tree)
    ensures var t := Eval(m, c).0.tree;
      && Total(t) == Total(m.tree) && NodeOf(t, j).name == (if j == c.k then c.name else NodeOf(m.tree, j).name)
      && PropsOf(t, j) == PropsOf(m.tree, j)
  {
    hide NodeOf, Total, Rename, PropsOf;
    ReplaceName(m.tree, c.k, c.name, j);
  }

  /** A call that fails leaves tree and reserve map as they were. */
  lemma FailedKeeps(m: Model, c: Call)
    requires Legal(m, c) && Eval(m, c).1 != 0
    ensures Eval(m, c).0.tree == m.tree && Eval(m, c).0.rsv == m.rsv
  {
  }
}
