/** The strings block: names are looked up as byte strings with their NUL, so that one name may share the
    tail of another, and are appended when missing. */
module Names {
  import opened Bytes
  import opened Memory
  import opened Structure
  import opened Trees

  /** s with its NUL stands at p. */
  predicate Occurs(strs: bytes, s: bytes, p: nat) {
    p + |s| + 1 <= |strs| && strs[p..p + |s| + 1] == s + [0]
  }

  /** First place at or after p where s occurs, or -1. */
  function Search(strs: bytes, s: bytes, p: nat): (r: int)
    ensures r == -1 || (r >= p && Occurs(strs, s, r))
    ensures r == -1 ==> forall q :: q >= p ==> !Occurs(strs, s, q)
    ensures r >= 0 ==> forall q :: p <= q < r ==> !Occurs(strs, s, q)
    decreases |strs| - p
  {
    if p + |s| + 1 > |strs| then -1
    else if Occurs(strs, s, p) then p
    else Search(strs, s, p + 1)
  }

  /** _fdt_find_string on the strings block at address tab. */
  method FindString(mem: array<byte>, tab: nat, size: nat, s: bytes) returns (p: int)
    requires tab + size <= mem.Length
    ensures p == Search(mem[tab..tab + size], s, 0)
  {
    hide Search;
    ghost var strs := mem[tab..tab + size];
    var len := |s| + 1;
    p := 0;
    while p <= size - len
      invariant 0 <= p
      invariant Search(strs, s, 0) == Search(strs, s, p)
    {
      SearchStep(strs, s, p);
      SliceSlice(mem[..], tab, tab + size, p, p + len);
      var diff := MemCmp(mem, tab + p, s + [0]);
      if diff == 0 {
        return;
      }
      p := p + 1;
    }
    SearchStep(strs, s, p);
    p := -1;
  }

  lemma SearchStep(strs: bytes, s: bytes, p: nat)
    ensures Search(strs, s, p) == if p + |s| + 1 > |strs| then -1
                                  else if Occurs(strs, s, p) then p else Search(strs, s, p + 1)
  {
  }

  /** The table after a name has been asked for, and the offset the caller gets. */
  function Intern(strs: bytes, s: bytes): (bytes, nat) {
    var p := Search(strs, s, 0);
    if p >= 0 then (strs, p) else (strs + (s + [0]), |strs|)
  }

  /** The offset reads back as exactly the name. */
  lemma OccursReads(strs: bytes, s: bytes, p: nat)
    requires Occurs(strs, s, p) && s != [] && 0 !in s
    ensures NameAt(strs, p) && StrAt(strs, p) == s
  {
    var t := strs[p..p + |s| + 1];
    assert t[..|s|] == s && t[|s|] == 0;
    assert strs[p..p + |s|] == t[..|s|];
    assert strs[p + |s|] == t[|s|];
    NulAt(strs, p, s);
  }

  lemma OccursAppended(strs: bytes, s: bytes)
    ensures Occurs(strs + (s + [0]), s, |strs|)
  {
    var t := strs + (s + [0]);
    assert t[|strs|..] == s + [0];
    assert t[|strs|..|strs| + |s| + 1] == t[|strs|..];
  }

  lemma InternReads(strs: bytes, s: bytes)
    requires s != [] && 0 !in s
    ensures var (t, p) := Intern(strs, s);
      NameAt(t, p) && StrAt(t, p) == s && strs <= t
  {
    var (t, p) := Intern(strs, s);
    if Search(strs, s, 0) < 0 {
      OccursAppended(strs, s);
    }
    OccursReads(t, s, p);
  }

  /** Asking again gives the same offset and adds nothing: no occurrence can straddle the old end. */
  lemma InternAgain(strs: bytes, s: bytes)
    requires 0 !in s
    ensures var (t, p) := Intern(strs, s); Intern(t, s) == (t, p)
  {
    var (t, p) := Intern(strs, s);
    if Search(strs, s, 0) < 0 {
      OccursAppended(strs, s);
      forall q | 0 <= q < |strs|
        ensures !Occurs(t, s, q)
      {
        NoStraddle(strs, s, q);
      }
      var r := Search(t, s, 0);
      assert Occurs(t, s, |strs|);
      assert r == |strs|;
    }
  }

  lemma NoStraddle(strs: bytes, s: bytes, q: nat)
    requires 0 !in s && q < |strs| && !Occurs(strs, s, q)
    ensures !Occurs(strs + (s + [0]), s, q)
  {
    var t := strs + (s + [0]);
    if q + |s| < |strs| {
      assert t[q..q + |s| + 1] == strs[q..q + |s| + 1];
    } else if q + |s| + 1 <= |t| {
      var i := q + |s| - |strs|;
      assert t[q..q + |s| + 1][|s|] == t[q + |s|] == s[i];
      assert s[i] in s;
      assert (s + [0])[|s|] == 0;
    }
  }

  // ---------------------------------------------------------------------------
  // A growing table keeps what it says
  // ---------------------------------------------------------------------------

  lemma MoreStrings(strs: bytes, t: bytes, o: nat)
    requires NameAt(strs, o) && strs <= t
    ensures NameAt(t, o) && StrAt(t, o) == StrAt(strs, o)
  {
    var z := NulFrom(strs, o);
    assert strs == t[..|strs|];
    NulShiftPrefix(strs, t, o);
    assert t[o..z] == strs[o..z];
  }

  lemma NulShiftPrefix(strs: bytes, t: bytes, o: nat)
    requires o <= |strs| && strs <= t && NulFrom(strs, o) < |strs|
    ensures NulFrom(t, o) == NulFrom(strs, o)
    decreases |strs| - o
  {
    if strs[o] != 0 {
      NulShiftPrefix(strs, t, o + 1);
    }
  }

  lemma {:induction false} MoreTree(b: Body, strs: bytes, t: bytes)
    requires Named(b, strs) && strs <= t
    ensures Named(b, t) && Props(b, t) == Props(b, strs) && Erase(b, t) == Erase(b, strs)
    decreases b
  {
    hide StrAt, NameAt;
    match b
    case Close =>
    case Eof =>
    case Nop(r) => MoreTree(r, strs, t);
    case Prop(o, _, _, r) =>
      MoreStrings(strs, t, o);
      MoreTree(r, strs, t);
    case Sub(_, _, c, r) =>
      MoreTree(c, strs, t);
      MoreTree(r, strs, t);
  }
}
