/** The intrusive circular lists of include/lib/libfex/common.h. A hook stands inside the structure it links;
    item is that structure, and heads have none. */
module HookList {
  datatype Option<T> = None | Some(value: T)

  class Hook<T> {
    var prev: Hook<T>
    var next: Hook<T>
    const item: Option<T>

    /** list_init: alone on its own list. */
    constructor (item: Option<T>)
      ensures this.item == item && prev == this && next == this
    {
      this.item := item;
      prev := this;
      next := this;
    }
  }

  /** The neighbours of the i-th hook of a list. */
  function Behind<T>(h: Hook<T>, s: seq<Hook<T>>, i: nat): Hook<T>
    requires i < |s|
  {
    if i + 1 < |s| then s[i + 1] else h
  }

  function Before<T>(h: Hook<T>, s: seq<Hook<T>>, i: nat): Hook<T>
    requires i < |s|
  {
    if i > 0 then s[i - 1] else h
  }

  /** The list of head h holds the hooks s in this order: following next, and prev backwards, from h through
      all of s leads back to h. */
  ghost predicate Ring<T>(h: Hook<T>, s: seq<Hook<T>>)
    reads h, s
  {
    && h !in s && (forall i | 0 <= i < |s| :: s[i] != h) && (forall i, j | 0 <= i < j < |s| :: s[i] != s[j])
    && h.next == (if s == [] then h else s[0]) && h.prev == (if s == [] then h else s[|s| - 1])
    && (forall i | 0 <= i < |s| :: s[i].next == Behind(h, s, i))
    && (forall i | 0 <= i < |s| :: s[i].prev == Before(h, s, i))
  }

  /** list_inject. */
  method Inject<T>(l: Hook<T>, prev: Hook<T>, next: Hook<T>)
    modifies l, prev, next
    ensures l != next ==> l.prev == prev
    ensures l != prev ==> l.next == next
    ensures next.prev == l && prev.next == l
    ensures next != l && next != prev ==> next.next == old(next.next)
    ensures prev != l && next != prev ==> prev.prev == old(prev.prev)
  {
    l.prev := prev;
    l.next := next;
    next.prev := l;
    prev.next := l;
  }

  /** list_append. */
  method Append<T>(h: Hook<T>, e: Hook<T>, ghost s: seq<Hook<T>>)
    requires Ring(h, s) && e != h && e !in s
    modifies h, h.prev, e
    ensures Ring(h, s + [e])
  {
    Inject(e, h.prev, h);
  }

  /** list_insert. */
  method Insert<T>(h: Hook<T>, e: Hook<T>, ghost s: seq<Hook<T>>)
    requires Ring(h, s) && e != h && e !in s
    modifies h, h.next, e
    ensures Ring(h, [e] + s)
  {
    Inject(e, h, h.next);
    assert forall i | 1 <= i <= |s| :: ([e] + s)[i] == s[i - 1];
  }

  /** The pointers of a list around its i-th hook, which they leave out. */
  ghost predicate Passing<T>(h: Hook<T>, s: seq<Hook<T>>, i: nat)
    requires i < |s|
    reads h, s
  {
    && h.next == (if i == 0 then Behind(h, s, i) else s[0])
    && h.prev == (if i == |s| - 1 then Before(h, s, i) else s[|s| - 1])
    && (forall q | 0 <= q < |s| :: q != i ==> s[q].next == if q + 1 == i then Behind(h, s, i) else Behind(h, s, q))
    && (forall q | 0 <= q < |s| :: q != i ==> s[q].prev == if q - 1 == i then Before(h, s, i) else Before(h, s, q))
  }

  ghost predicate Distinct<T>(h: Hook<T>, s: seq<Hook<T>>) {
    (forall i | 0 <= i < |s| :: s[i] != h) && (forall i, j | 0 <= i < j < |s| :: s[i] != s[j])
  }

  function Without<T>(s: seq<T>, i: nat): seq<T>
    requires i < |s|
  {
    s[..i] + s[i + 1..]
  }

  /** The j-th hook of a list without its i-th, and that hook's neighbours. */
  lemma WithoutAt<T>(h: Hook<T>, s: seq<Hook<T>>, i: nat, j: nat)
    requires i < |s| && j < |s| - 1
    ensures var t, q := Without(s, i), if j < i then j else j + 1;
      && t[j] == s[q]
      && Behind(h, t, j) == (if q + 1 == i then Behind(h, s, i) else Behind(h, s, q))
      && Before(h, t, j) == (if q - 1 == i then Before(h, s, i) else Before(h, s, q))
  {
  }

  lemma PassingRing<T>(h: Hook<T>, s: seq<Hook<T>>, i: nat)
    requires i < |s| && Distinct(h, s) && Passing(h, s, i)
    ensures Ring(h, Without(s, i))
  {
    hide Behind, Before, Without;
    var t := Without(s, i);
    WithoutEnds(h, s, i);
    forall j | 0 <= j < |t|
      ensures t[j] != h && t[j].next == Behind(h, t, j) && t[j].prev == Before(h, t, j)
    {
      WithoutAt(h, s, i, j);
    }
    forall j, k | 0 <= j < k < |t|
      ensures t[j] != t[k]
    {
      WithoutAt(h, s, i, j);
      WithoutAt(h, s, i, k);
    }
  }

  lemma WithoutEnds<T>(h: Hook<T>, s: seq<Hook<T>>, i: nat)
    requires i < |s|
    ensures var t := Without(s, i);
      && |t| == |s| - 1
      && (if t == [] then h else t[0]) == (if i == 0 then Behind(h, s, i) else s[0])
      && (if t == [] then h else t[|t| - 1]) == (if i == |s| - 1 then Before(h, s, i) else s[|s| - 1])
  {
  }

  /** list_remove; the hook itself keeps its pointers. */
  method Remove<T>(l: Hook<T>, ghost h: Hook<T>, ghost s: seq<Hook<T>>, ghost i: nat)
    requires Ring(h, s) && i < |s| && s[i] == l
    modifies l.prev, l.next
    ensures Ring(h, Without(s, i))
    ensures l.prev == old(l.prev) && l.next == old(l.next)
  {
    Around(h, s, i);
    var prev, next := l.prev, l.next;
    next.prev := prev;
    prev.next := next;
    assert Passing(h, s, i);
    PassingRing(h, s, i);
  }

  /** The neighbours of a hook are other hooks. */
  lemma Around<T>(h: Hook<T>, s: seq<Hook<T>>, i: nat)
    requires Ring(h, s) && i < |s|
    ensures s[i].prev == Before(h, s, i) && s[i].next == Behind(h, s, i)
    ensures s[i].prev != s[i] && s[i].next != s[i]
    ensures i > 0 ==> s[i].prev == s[i - 1] != h
    ensures i + 1 < |s| ==> s[i].next == s[i + 1] != h
  {
  }

  lemma OnList<T>(h: Hook<T>, s: seq<Hook<T>>, i: nat)
    requires Ring(h, s) && i < |s|
    ensures s[i] in s && s[i] != h && |Without(s, i)| == |s| - 1
    ensures forall j | 0 <= j < |s| - 1 :: Without(s, i)[j] == s[if j < i then j else j + 1]
  {
  }

  /** list_first: NULL is null. */
  method First<T>(l: Hook<T>, ghost s: seq<Hook<T>>) returns (r: Hook?<T>)
    requires Ring(l, s)
    ensures r == if s == [] then null else s[0]
  {
    return if l.next == l then null else l.next;
  }

  /** list_last. */
  method Last<T>(l: Hook<T>, ghost s: seq<Hook<T>>) returns (r: Hook?<T>)
    requires Ring(l, s)
    ensures r == if s == [] then null else s[|s| - 1]
  {
    return if l.prev == l then null else l.prev;
  }

  /** list_next. */
  method Next<T>(l: Hook<T>, e: Hook<T>, ghost s: seq<Hook<T>>, ghost i: nat) returns (r: Hook?<T>)
    requires Ring(l, s) && i < |s| && s[i] == e
    ensures r == if i + 1 < |s| then s[i + 1] else null
  {
    return if e.next == l then null else e.next;
  }

  /** list_empty, of a head or of a hook on its list. */
  method Empty<T>(l: Hook<T>, ghost h: Hook<T>, ghost s: seq<Hook<T>>) returns (r: bool)
    requires Ring(h, s) && (l == h || l in s)
    ensures r <==> l == h && s == []
  {
    return l.prev == l;
  }
}
