/** fdt_path_offset, and what it makes of the paths that fdt_get_path writes (lib/libfdt/fdt_ro.c). */
module PathLookup {
  import opened Bytes
  import opened Memory
  import opened Blob
  import opened Structure
  import opened Lexer
  import opened Nodes
  import opened Trees
  import opened Attrs
  import opened Walk
  import opened Ancestors
  import opened Lookup
  import opened Subnodes
  import opened Edits
  import opened Rw
  import opened Paths

  /** Position of the first slash, or the length of s. */
  function NextSlash(s: bytes): (e: nat)
    ensures e <= |s| && SLASH !in s[..e] && (e < |s| ==> s[e] == SLASH)
  {
    if s == [] || s[0] == SLASH then 0
    else
      var e := 1 + NextSlash(s[1..]);
      assert s[..e] == [s[0]] + s[1..][..e - 1];
      e
  }

  /** The names a path is made of; slashes may be repeated or missing at the ends. */
  function Route(s: bytes): seq<bytes>
    decreases |s|
  {
    if s == [] then []
    else if s[0] == SLASH then Route(s[1..])
    else [s[..NextSlash(s)]] + Route(s[NextSlash(s)..])
  }

  /** The node reached from the k-th one by following names downwards, or NOTFOUND. */
  function Descend(b: Body, k: nat, names: seq<bytes>): (r: int)
    requires k < Count(b)
    ensures r == NOTFOUND || 0 <= r < Count(b)
    decreases |names|
  {
    if names == [] then k
    else
      var f := FindKid(NodeAt(b, k).body, names[0]);
      FindKidNode(NodeAt(b, k).body, names[0]);
      if f.Absent? then NOTFOUND
      else
        OffBelow(b, k, f.pos);
        Descend(b, k + 1 + f.pos, names[1..])
  }

  /** What the library returns for a node: its offset, or the error. */
  function OffsetOf(b: Body, r: int): int
    requires r < Count(b)
  {
    if r < 0 then r else Off(b, r)
  }

  /** State of the loop of fdt_path_offset. */
  ghost predicate AtStep(st: bytes, top: Body, offset: int, k: int) {
    && On(st, 0, Frame(top, Bottom)) && k < Count(top)
    && if k < 0 then offset == NOTFOUND else offset == Off(top, k)
  }

  function Onwards(top: Body, k: int, path: bytes): (r: int)
    requires k < Count(top)
    ensures r == NOTFOUND || 0 <= r < Count(top)
  {
    if k < 0 then NOTFOUND else Descend(top, k, Route(path))
  }

  lemma {:induction false} StepRef(st: bytes, top: Body, offset: int, k: int)
    requires AtStep(st, top, offset, k)
    ensures var stk := if k < 0 then Bottom else Here(top, Bottom, k);
      && NodeRef(st, offset, stk) && (k < 0 <==> BadNode(st, offset))
      && (k >= 0 ==> stk.Frame? && stk.b == NodeAt(top, k))
  {
    hide On, TagAt;
    if k >= 0 {
      HereOn(st, 0, top, Bottom, k);
      NodeIsRef(st, offset, Here(top, Bottom, k));
    }
  }

  /** One name followed. */
  lemma {:induction false} StepName(st: bytes, top: Body, offset: int, k: nat, name: bytes, rest: bytes)
    requires AtStep(st, top, offset, k) && name != [] && SLASH !in name && (rest == [] || rest[0] == SLASH)
    ensures match FindKid(NodeAt(top, k).body, name)
      case Absent => Onwards(top, k, name + rest) == NOTFOUND
      case At(i) =>
        && i < Count(NodeAt(top, k).body) && k + 1 + i < Count(top)
        && AtStep(st, top, offset + BeginSize(NodeAt(top, k).name) + Off(NodeAt(top, k).body, i), k + 1 + i)
        && Onwards(top, k, name + rest) == Onwards(top, k + 1 + i, rest)
  {
    hide On, NameEq, Off, NodeAt, BeginSize;
    RouteName(name, rest);
    FindKidNode(NodeAt(top, k).body, name);
    match FindKid(NodeAt(top, k).body, name)
    case Absent =>
    case At(i) => OffBelow(top, k, i);
  }

  lemma RouteName(name: bytes, rest: bytes)
    requires name != [] && SLASH !in name && (rest == [] || rest[0] == SLASH)
    ensures Route(name + rest) == [name] + Route(rest)
  {
    var s := name + rest;
    NextSlashIs(s, |name|);
    assert s[..|name|] == name && s[|name|..] == rest;
  }

  lemma NextSlashIs(s: bytes, e: nat)
    requires e <= |s| && SLASH !in s[..e] && (e < |s| ==> s[e] == SLASH)
    ensures NextSlash(s) == e
  {
    if e > 0 {
      assert s[..e][0] == s[0] && s[..e][1..] == s[1..][..e - 1];
      NextSlashIs(s[1..], e - 1);
    }
  }

  lemma RouteSlash(path: bytes, p: nat)
    requires p < |path| && path[p] == SLASH
    ensures Route(path[p..]) == Route(path[p + 1..])
  {
    assert path[p..][1..] == path[p + 1..];
  }

  lemma NameSpan(path: bytes, p: nat, q: nat)
    requires p < q <= |path| && 0 !in path && SLASH !in path[p..][..q - p] && (q < |path| ==> path[q] == SLASH)
    ensures path[p..q] != [] && SLASH !in path[p..q] && 0 !in path[p..q] && path[p..] == path[p..q] + path[q..]
    ensures path[q..] == [] || path[q..][0] == SLASH
  {
    assert path[p..][..q - p] == path[p..q];
  }

  /** One name of the path is looked up. */
  method FollowName(fdt: array<byte>, offset: int, name: bytes, ghost rest: bytes, ghost st: bytes, ghost top: Body, ghost k: int)
    returns (offset': int, ghost k': int)
    requires Ready(fdt[..], st) && AtStep(st, top, offset, k)
    requires name != [] && 0 !in name && SLASH !in name && |name| < TWO31 - 5 && (rest == [] || rest[0] == SLASH)
    requires fdt.Length >= HEADER_SIZE && CheckErr(Hdr(fdt[..])) == 0
    ensures if offset' < 0 then offset' == NOTFOUND && Onwards(top, k, name + rest) == NOTFOUND
            else AtStep(st, top, offset', k') && k' >= 0 && Onwards(top, k, name + rest) == Onwards(top, k', rest)
  {
    hide Ready, Hdr, CheckErr, BadNode, NodeRef, FindKid, Route, Descend, On;
    StepRef(st, top, offset, k);
    offset' := SubnodeOffset(fdt, offset, name, st, if k < 0 then Bottom else Here(top, Bottom, k));
    k' := k;
    if k >= 0 {
      StepName(st, top, offset, k, name, rest);
      if offset' >= 0 {
        k' := k + 1 + FindKid(NodeAt(top, k).body, name).pos;
      }
    }
  }

  /** The loop of fdt_path_offset, on the characters from start on. */
  method Follow(fdt: array<byte>, path: bytes, start: nat, offset0: int, ghost st: bytes, ghost top: Body, ghost k0: int)
    returns (offset: int)
    requires Ready(fdt[..], st) && AtStep(st, top, offset0, k0) && start <= |path| < TWO31 - 5 && 0 !in path
    requires fdt.Length >= HEADER_SIZE && CheckErr(Hdr(fdt[..])) == 0
    ensures offset == OffsetOf(top, Onwards(top, k0, path[start..]))
  {
    hide Ready, Hdr, CheckErr, On, Onwards, Off, Count;
    offset := offset0;
    var p := start;
    ghost var k := k0;
    while p < |path|
      invariant start <= p <= |path| && AtStep(st, top, offset, k) && k < Count(top)
      invariant Onwards(top, k0, path[start..]) == Onwards(top, k, path[p..])
      decreases |path| - p
    {
      while p < |path| && path[p] == SLASH
        invariant start <= p <= |path|
        invariant Onwards(top, k0, path[start..]) == Onwards(top, k, path[p..])
        decreases |path| - p
      {
        OnwardsSlash(top, k, path, p);
        p := p + 1;
      }
      if p == |path| {
        OnwardsEnd(st, top, offset, k, path);
        return;
      }
      var q := StrChr(path[p..], SLASH);
      q := if q == -1 then |path| else p + q;
      assert path[p..][..|path| - p] == path[p..];
      NameSpan(path, p, q);
      offset, k := FollowName(fdt, offset, path[p..q], path[q..], st, top, k);
      if offset < 0 {
        return;
      }
      p := q;
    }
    OnwardsEnd(st, top, offset, k, path);
  }

  lemma {:induction false} OnwardsSlash(top: Body, k: int, path: bytes, p: nat)
    requires k < Count(top) && p < |path| && path[p] == SLASH
    ensures Onwards(top, k, path[p..]) == Onwards(top, k, path[p + 1..])
  {
    hide Route, Descend;
    RouteSlash(path, p);
  }

  lemma {:induction false} OnwardsEnd(st: bytes, top: Body, offset: int, k: int, path: bytes)
    requires k < Count(top) && AtStep(st, top, offset, k)
    ensures OffsetOf(top, Onwards(top, k, path[|path|..])) == offset
  {
    hide On;
    assert path[|path|..] == [];
  }

  // ---------------------------------------------------------------------------
  // Path and node
  // ---------------------------------------------------------------------------

  /** The names from below the ancestor at depth d down to the k-th node. */
  function NamesBelow(b: Body, k: nat, d: nat): seq<bytes>
    requires k < Count(b) && d <= Depth(b, k)
    decreases Depth(b, k) - d
  {
    if d == Depth(b, k) then [] else [NodeAt(b, Anc(b, k, d + 1)).name] + NamesBelow(b, k, d + 1)
  }

  /** Each name with a slash behind it. */
  function Trail(names: seq<bytes>): bytes {
    if names == [] then [] else names[0] + [SLASH] + Trail(names[1..])
  }

  /** Each name with a slash in front of it. */
  function Join(names: seq<bytes>): bytes {
    if names == [] then [] else [SLASH] + names[0] + Join(names[1..])
  }

  lemma TrailJoin(names: seq<bytes>)
    ensures [SLASH] + Trail(names) == Join(names) + [SLASH]
  {
    if names != [] {
      TrailJoin(names[1..]);
      assert [SLASH] + (names[0] + [SLASH] + Trail(names[1..])) == [SLASH] + names[0] + ([SLASH] + Trail(names[1..]));
    }
  }

  predicate Proper(names: seq<bytes>) {
    forall i | 0 <= i < |names| :: names[i] != [] && SLASH !in names[i]
  }

  /** A list of proper names is the route of the path made of them. */
  lemma {:induction false} RouteJoin(names: seq<bytes>)
    requires Proper(names)
    ensures Route(Join(names)) == names
  {
    if names != [] {
      var rest := names[1..];
      assert forall i | 0 <= i < |rest| :: rest[i] == names[i + 1];
      RouteJoin(rest);
      var s := Join(names);
      assert s == [SLASH] + (names[0] + Join(rest)) && s[1..] == names[0] + Join(rest);
      RouteName(names[0], Join(rest));
    }
  }

  /** The path of a node below the ancestor at depth d. */
  lemma {:induction false} PathBelow(b: Body, k: nat, d: nat)
    requires k < Count(b) && d <= Depth(b, k)
    ensures PathOf(b, k) == Upto(b, k, d + 1) + Trail(NamesBelow(b, k, d))
    decreases Depth(b, k) - d
  {
    hide PathOf, Upto;
    if d == Depth(b, k) {
      PathIs(b, k);
      assert Trail([]) == [];
    } else {
      PathBelow(b, k, d + 1);
      PathAnc(b, k, d + 1);
      var n, names := NodeAt(b, Anc(b, k, d + 1)).name, NamesBelow(b, k, d + 1);
      assert ([n] + names)[1..] == names;
      assert Upto(b, k, d + 1) + (n + [SLASH] + Trail(names)) == Upto(b, k, d + 1) + n + [SLASH] + Trail(names);
    }
  }

  /** Every name below the root is a path component. */
  predicate ProperNames(b: Body) {
    match b
    case Close => true
    case Eof => true
    case Nop(r) => ProperNames(r)
    case Prop(_, _, _, r) => ProperNames(r)
    case Sub(n, _, c, r) => n != [] && SLASH !in n && ProperNames(c) && ProperNames(r)
  }

  lemma {:induction false} ProperAt(b: Body, k: nat)
    requires k < Count(b) && ProperNames(b)
    ensures NodeAt(b, k).name != [] && SLASH !in NodeAt(b, k).name
    decreases b
  {
    match b
    case Nop(r) => ProperAt(r, k);
    case Prop(_, _, _, r) => ProperAt(r, k);
    case Sub(_, _, c, r) =>
      if k == 0 {
      } else if k <= Count(c) {
        ProperAt(c, k - 1);
      } else {
        ProperAt(r, k - 1 - Count(c));
      }
  }

  lemma {:induction false} NamesProper(top: Body, k: nat, d: nat)
    requires Rooted(top) && ProperNames(top.body) && k < Count(top) && d <= Depth(top, k)
    ensures Proper(NamesBelow(top, k, d))
    decreases Depth(top, k) - d
  {
    if d < Depth(top, k) {
      NamesProper(top, k, d + 1);
      var a := Anc(top, k, d + 1);
      ProperAt(top.body, a - 1);
      assert NodeAt(top, a) == NodeAt(top.body, a - 1);
      ProperMore(NodeAt(top, a).name, NamesBelow(top, k, d + 1));
    }
  }

  lemma ProperMore(n: bytes, names: seq<bytes>)
    requires n != [] && SLASH !in n && Proper(names)
    ensures Proper([n] + names)
  {
  }

  /** The string fdt_get_path writes is taken apart into the names of the node and its ancestors. */
  lemma {:induction false} PathRoute(top: Body, k: nat)
    requires Rooted(top) && top.name == [] && ProperNames(top.body) && k < Count(top)
    ensures PathString(top, k)[0] == SLASH && Route(PathString(top, k)) == NamesBelow(top, k, 0)
  {
    hide PathOf, Route, NamesBelow;
    var names := NamesBelow(top, k, 0);
    PathBelow(top, k, 0);
    PathAnc(top, k, 0);
    RootAnc(top, k);
    assert Upto(top, k, 1) == [SLASH];
    TrailJoin(names);
    NamesProper(top, k, 0);
    RouteJoin(names);
    var s := PathString(top, k);
    if names == [] {
      assert s == [SLASH];
      RouteSlash(s, 0);
      assert s[0..] == s && s[1..] == Join(names);
    } else {
      assert PathOf(top, k)[..|PathOf(top, k)| - 1] == Join(names);
      assert Join(names) == [SLASH] + names[0] + Join(names[1..]);
    }
  }

  // ---------------------------------------------------------------------------
  // When a path leads back to its node
  // ---------------------------------------------------------------------------

  /** Some sibling in front of the i-th node of c, which stands on the outermost level of c, is found by its name. */
  ghost predicate Shadowed(c: Body, i: nat)
    requires i < Count(c)
  {
    exists j | 0 <= j < i :: Depth(c, j) == 0 && NameEq(NodeAt(c, j).name, NodeAt(c, i).name)
  }

  lemma NameEqSelf(n: bytes)
    ensures NameEq(n, n)
  {
  }

  /** The search by name stops at the first match and not before. */
  lemma {:induction false} FindKidFirst(c: Body, s: bytes, i: nat)
    requires i < Count(c) && Depth(c, i) == 0 && NameEq(NodeAt(c, i).name, s)
    ensures var f := FindKid(c, s);
      && f.At? && f.pos <= i
      && (f.pos == i <==> forall j | 0 <= j < i :: Depth(c, j) == 0 ==> !NameEq(NodeAt(c, j).name, s))
    decreases c
  {
    hide NameEq, FindKid;
    FindKidNode(c, s);
    FindKidMin(c, s, i);
    forall j | 0 <= j < i && Depth(c, j) == 0 && NameEq(NodeAt(c, j).name, s)
      ensures FindKid(c, s).pos <= j
    {
      FindKidMin(c, s, j);
    }
  }

  lemma {:induction false} FindKidMin(c: Body, s: bytes, i: nat)
    requires i < Count(c) && Depth(c, i) == 0 && NameEq(NodeAt(c, i).name, s)
    ensures FindKid(c, s).At? && FindKid(c, s).pos <= i
    decreases c
  {
    hide NameEq;
    match c
    case Nop(r) => FindKidMin(r, s, i);
    case Prop(_, _, _, r) => FindKidMin(r, s, i);
    case Sub(_, _, d, r) =>
      if i > 0 {
        FindKidMin(r, s, i - 1 - Count(d));
      }
  }

  lemma {:induction false} NotShadowed(c: Body, i: nat)
    requires i < Count(c) && Depth(c, i) == 0
    ensures FindKid(c, NodeAt(c, i).name) == At(i) <==> !Shadowed(c, i)
    ensures FindKid(c, NodeAt(c, i).name).At?
  {
    hide NameEq, FindKid;
    var s := NodeAt(c, i).name;
    NameEqSelf(s);
    FindKidFirst(c, s, i);
    if Shadowed(c, i) {
      var j :| 0 <= j < i && Depth(c, j) == 0 && NameEq(NodeAt(c, j).name, s);
      FindKidMin(c, s, j);
    } else {
      assert forall j | 0 <= j < i :: Depth(c, j) == 0 ==> !NameEq(NodeAt(c, j).name, s);
    }
  }

  /** One level of Anc. */
  lemma {:induction false} AncHead(b: Body, k: nat, d: nat)
    requires k < Count(b) && d <= Depth(b, k)
    ensures match b
      case Nop(r) => d <= Depth(r, k) && Anc(b, k, d) == Anc(r, k, d)
      case Prop(_, _, _, r) => d <= Depth(r, k) && Anc(b, k, d) == Anc(r, k, d)
      case Sub(_, _, c, r) =>
        if k == 0 then d == 0 && Anc(b, k, d) == 0
        else if k <= Count(c) then (d > 0 ==> d - 1 <= Depth(c, k - 1)) && Anc(b, k, d) == if d == 0 then 0 else 1 + Anc(c, k - 1, d - 1)
        else d <= Depth(r, k - 1 - Count(c)) && Anc(b, k, d) == 1 + Count(c) + Anc(r, k - 1 - Count(c), d)
  {
  }

  lemma {:induction false} AncAnc(b: Body, k: nat, e: nat, d: nat)
    requires k < Count(b) && d <= e <= Depth(b, k)
    ensures Anc(b, Anc(b, k, e), d) == Anc(b, k, d)
    decreases b
  {
    hide Anc, Depth;
    AncHead(b, k, e);
    AncHead(b, k, d);
    AncHead(b, Anc(b, k, e), d);
    match b
    case Nop(r) => AncAnc(r, k, e, d);
    case Prop(_, _, _, r) => AncAnc(r, k, e, d);
    case Sub(_, _, c, r) =>
      if 0 < k <= Count(c) && d > 0 {
        AncAnc(c, k - 1, e - 1, d - 1);
      } else if k > Count(c) {
        AncAnc(r, k - 1 - Count(c), e, d);
      }
  }

  /** Whatever is reached by following names lies below the start. */
  lemma {:induction false} DescendBelow(b: Body, k: nat, names: seq<bytes>)
    requires k < Count(b)
    ensures var r := Descend(b, k, names);
      r >= 0 ==> Depth(b, k) <= Depth(b, r) && Anc(b, r, Depth(b, k)) == k
    decreases |names|
  {
    hide FindKid, Anc, Depth;
    SelfAnc(b, k);
    if names != [] {
      var f := FindKid(NodeAt(b, k).body, names[0]);
      FindKidNode(NodeAt(b, k).body, names[0]);
      if f.At? {
        var k' := k + 1 + f.pos;
        OffBelow(b, k, f.pos);
        AncBelow(b, k, f.pos);
        DescendBelow(b, k', names[1..]);
        var r := Descend(b, k', names[1..]);
        if r >= 0 {
          AncAnc(b, r, Depth(b, k'), Depth(b, k));
        }
      }
    }
  }

  /** The ancestor at depth e is a child of the one above it. */
  lemma {:induction false} AncChild(b: Body, k: nat, e: nat)
    requires k < Count(b) && 0 < e <= Depth(b, k)
    ensures var p, a := Anc(b, k, e - 1), Anc(b, k, e);
      && p < a <= p + Count(NodeAt(b, p).body) && Depth(NodeAt(b, p).body, a - p - 1) == 0
      && NodeAt(b, a) == NodeAt(NodeAt(b, p).body, a - p - 1)
  {
    hide Depth, Anc;
    var p, a := Anc(b, k, e - 1), Anc(b, k, e);
    AncAnc(b, k, e, e - 1);
    ParentIff(b, p, a);
    HereBelow(b, Bottom, p, a - p - 1);
  }

  /** The ancestor of the k-th node at depth e is not the first among its siblings that its name finds. */
  ghost predicate Hidden(top: Body, k: nat, e: nat)
    requires k < Count(top) && 0 < e <= Depth(top, k)
  {
    AncChild(top, k, e);
    Shadowed(NodeAt(top, Anc(top, k, e - 1)).body, Anc(top, k, e) - Anc(top, k, e - 1) - 1)
  }

  /** Following the names of a node leads to it exactly when no name on the way is taken earlier. */
  lemma {:induction false} DescendIff(top: Body, k: nat, d: nat)
    requires k < Count(top) && d <= Depth(top, k)
    ensures Descend(top, Anc(top, k, d), NamesBelow(top, k, d)) == k <==> forall e | d < e <= Depth(top, k) :: !Hidden(top, k, e)
    decreases Depth(top, k) - d
  {
    hide FindKid, Anc, Depth, Shadowed, Hidden, Off;
    if d == Depth(top, k) {
      SelfAnc(top, k);
    } else {
      DescendIff(top, k, d + 1);
      AncChild(top, k, d + 1);
      DescendStep(top, k, d);
    }
  }

  lemma {:induction false} DescendOne(b: Body, k: nat, name: bytes, rest: seq<bytes>)
    requires k < Count(b)
    ensures match FindKid(NodeAt(b, k).body, name)
      case Absent => Descend(b, k, [name] + rest) == NOTFOUND
      case At(i) =>
        && i < Count(NodeAt(b, k).body) && k + 1 + i < Count(b) && Depth(b, k + 1 + i) == Depth(b, k) + 1
        && Descend(b, k, [name] + rest) == Descend(b, k + 1 + i, rest)
  {
    hide FindKid, Depth, Off;
    FindKidNode(NodeAt(b, k).body, name);
    assert ([name] + rest)[1..] == rest;
    match FindKid(NodeAt(b, k).body, name)
    case Absent =>
    case At(i) => OffBelow(b, k, i);
  }

  lemma {:induction false} DescendStep(top: Body, k: nat, d: nat)
    requires k < Count(top) && d < Depth(top, k)
    ensures if Hidden(top, k, d + 1) then Descend(top, Anc(top, k, d), NamesBelow(top, k, d)) != k
            else Descend(top, Anc(top, k, d), NamesBelow(top, k, d)) == Descend(top, Anc(top, k, d + 1), NamesBelow(top, k, d + 1))
  {
    hide FindKid, Anc, Depth, Shadowed, Off, Descend;
    var a, c := Anc(top, k, d), Anc(top, k, d + 1);
    AncChild(top, k, d + 1);
    var body, i := NodeAt(top, a).body, c - a - 1;
    var name, rest := NodeAt(top, c).name, NamesBelow(top, k, d + 1);
    NotShadowed(body, i);
    DescendOne(top, a, name, rest);
    DescendBelow(top, a + 1 + FindKid(body, name).pos, rest);
  }

  /** Paths are inverse to nodes: the path of a node leads back to it exactly when neither it nor one of its
      ancestors has an earlier sibling of the same name, or of that name with a unit address. */
  lemma {:induction false} PathInverse(top: Body, k: nat)
    requires Rooted(top) && top.name == [] && ProperNames(top.body) && k < Count(top)
    ensures PathString(top, k)[0] == SLASH
    ensures Descend(top, 0, Route(PathString(top, k))) == k <==> forall e | 0 < e <= Depth(top, k) :: !Hidden(top, k, e)
  {
    hide Anc, Depth, Hidden, Descend, Route, NamesBelow;
    PathRoute(top, k);
    DescendIff(top, k, 0);
    RootAnc(top, k);
  }

  // ---------------------------------------------------------------------------
  // fdt_path_offset
  // ---------------------------------------------------------------------------

  /** "/aliases" */
  const ALIASES: bytes := [47, 97, 108, 105, 97, 115, 101, 115]

  datatype Alias = NoAlias | Alias(val: bytes)

  /** The value of the property called name of the node /aliases. */
  function AliasOf(top: Body, strs: bytes, name: bytes): Alias
    requires Count(top) > 0
  {
    var a := Onwards(top, 0, ALIASES);
    if a < 0 then NoAlias
    else
      var c := NodeAt(top, a).body;
      FindPropMark(c, strs, name);
      match FindProp(c, strs, name)
      case Absent => NoAlias
      case At(po) => Alias(From(c, po).val)
  }

  /** The string at the start of a value. */
  function CString(val: bytes): bytes {
    val[..NulFrom(val, 0)]
  }

  /** An alias that is there is a NUL-terminated absolute path. */
  predicate AliasFits(top: Body, strs: bytes, path: bytes)
    requires Count(top) > 0
  {
    var a := AliasOf(top, strs, path[..NextSlash(path)]);
    a.Alias? ==> NulFrom(a.val, 0) < |a.val| && CString(a.val) != [] && CString(a.val)[0] == SLASH
  }

  /** The node a path means, or the error. */
  function NodeOfPath(top: Body, strs: bytes, path: bytes): (r: int)
    requires Count(top) > 0 && path != []
    ensures r < Count(top)
  {
    if path[0] == SLASH then Onwards(top, 0, path)
    else
      match AliasOf(top, strs, path[..NextSlash(path)])
      case NoAlias => BADPATH
      case Alias(val) => Onwards(top, Onwards(top, 0, CString(val)), path[NextSlash(path)..])
  }

  /** The string in a property of the k-th node. */
  method PropString(fdt: array<byte>, prop: nat, ghost st: bytes, ghost p: Body) returns (s: bytes)
    requires Ready(fdt[..], st) && fdt.Length >= HEADER_SIZE && PropBytes(st, prop, p) && p.Prop?
    requires NulFrom(p.val, 0) < |p.val|
    ensures s == CString(p.val) && 0 !in s && |s| < |st|
  {
    hide Ready, Hdr, NulFrom, Align4, PropHead;
    var at := GetHdr(fdt, OffStruct) + prop + 12;
    ghost var z := NulFrom(p.val, 0);
    PropValue(st, prop, p);
    ReadySlice(fdt[..], st, prop + 12, prop + 12 + |p.val|);
    assert fdt[..][at..at + |p.val|] == p.val;
    NulShift(fdt[..], at, at + |p.val|, 0);
    var n := StrLen(fdt, at);
    s := fdt[at..at + n];
    SliceSlice(fdt[..], at, at + |p.val|, 0, z);
    assert p.val[0..z] == p.val[..z] && fdt[..][at..at + z] == s;
  }

  lemma PropValue(st: bytes, o: nat, p: Body)
    requires PropBytes(st, o, p)
    ensures o + 12 + |p.val| <= |st| && st[o + 12..o + 12 + |p.val|] == p.val
  {
    hide PropHead;
    var d := st[o + 12..o + PropSize(p.val)];
    assert d[0..|p.val|] == p.val;
    SliceSlice(st, o + 12, o + PropSize(p.val), 0, |p.val|);
  }

  lemma {:induction false} RootStart(st: bytes, top: Body)
    requires On(st, 0, Frame(top, Bottom)) && top.Sub?
    ensures Count(top) > 0 && AtStep(st, top, 0, 0)
  {
    hide On;
  }

  /** fdt_path_offset. */
  method PathOffset(fdt: array<byte>, path: bytes, ghost st: bytes, ghost strs: bytes, ghost top: Body) returns (r: int)
    requires Ready(fdt[..], st) && Strings(fdt[..], strs) && On(st, 0, Frame(top, Bottom)) && top.Sub? && Named(top, strs)
    requires path != [] && 0 !in path && |path| < TWO31 - 5
    requires path[0] != SLASH ==> AliasFits(top, strs, path) && |st| < TWO31 - 5
    ensures fdt.Length >= HEADER_SIZE
    ensures CheckErr(Hdr(fdt[..])) != 0 ==> r == CheckErr(Hdr(fdt[..]))
    ensures CheckErr(Hdr(fdt[..])) == 0 ==> r == OffsetOf(top, NodeOfPath(top, strs, path))
    decreases if path[0] == SLASH then 0 else 2
  {
    hide Ready, Strings, Hdr, CheckErr, On, Named, AliasOf, Route, Descend, NextSlash, NulFrom;
    ReadySize(fdt[..], st);
    RootStart(st, top);
    var err := CheckHeader(fdt);
    if err != 0 {
      return err;
    }
    if path[0] == SLASH {
      r := Follow(fdt, path, 0, 0, st, top, 0);
      assert path[0..] == path;
      return;
    }
    var q := StrChr(path, SLASH);
    q := if q == -1 then |path| else q;
    assert path[..|path|] == path;
    NextSlashIs(path, q);
    var found, alias := FindAlias(fdt, path[..q], st, strs, top);
    if !found {
      return BADPATH;
    }
    r := PathOffset(fdt, alias, st, strs, top);
    r := Follow(fdt, path, q, r, st, top, Onwards(top, 0, alias));
  }

  /** fdt_get_alias_namelen: the string an alias stands for. */
  method FindAlias(fdt: array<byte>, name: bytes, ghost st: bytes, ghost strs: bytes, ghost top: Body)
    returns (found: bool, alias: bytes)
    requires Ready(fdt[..], st) && Strings(fdt[..], strs) && On(st, 0, Frame(top, Bottom)) && top.Sub? && Named(top, strs)
    requires name != [] && fdt.Length >= HEADER_SIZE && CheckErr(Hdr(fdt[..])) == 0
    requires Count(top) > 0
    requires var a := AliasOf(top, strs, name); a.Alias? ==> NulFrom(a.val, 0) < |a.val|
    ensures found <==> AliasOf(top, strs, name).Alias?
    ensures found ==> alias == CString(AliasOf(top, strs, name).val) && 0 !in alias && |alias| < |st|
    decreases 1
  {
    hide Ready, Strings, Hdr, CheckErr, On, Named, Route, Descend, NulFrom, TagAt, InNode, FindProp, From, Mark;
    var aliasoffset := PathOffset(fdt, ALIASES, st, strs, top);
    if aliasoffset < 0 {
      return false, [];
    }
    ghost var a := Onwards(top, 0, ALIASES);
    HereOn(st, 0, top, Bottom, a);
    NodeIsRef(st, aliasoffset, Here(top, Bottom, a));
    NamedNode(top, strs, a);
    NamedBody(NodeAt(top, a), strs);
    var prop, len := GetProperty(fdt, aliasoffset, name, st, strs, Here(top, Bottom, a));
    if prop == -1 {
      return false, [];
    }
    ghost var p := From(NodeAt(top, a).body, FindProp(NodeAt(top, a).body, strs, name).pos);
    InNodeBytes(st, prop, p, Frame(NodeAt(top, a).rest, Here(top, Bottom, a).up));
    alias := PropString(fdt, prop, st, p);
    return true, alias;
  }

  // ---------------------------------------------------------------------------
  // There and back
  // ---------------------------------------------------------------------------

  lemma {:induction false} PathClean(b: Body, top: bool, k: nat)
    requires k < Count(b) && Wf(b, top)
    ensures 0 !in PathOf(b, k) && PathOf(b, k) != []
    decreases b
  {
    match b
    case Nop(r) => PathClean(r, top, k);
    case Prop(_, _, _, r) => PathClean(r, top, k);
    case Sub(_, _, c, r) =>
      if k == 0 {
      } else if k <= Count(c) {
        PathClean(c, false, k - 1);
      } else {
        PathClean(r, top, k - 1 - Count(c));
      }
  }

  /** The path written is a string: no NUL is in it. */
  lemma {:induction false} PathIsString(top: Body, k: nat)
    requires k < Count(top) && Wf(top, true)
    ensures 0 !in PathString(top, k) && PathString(top, k) != [] && |PathString(top, k)| <= |PathOf(top, k)|
  {
    hide PathOf;
    PathClean(top, true, k);
  }

  lemma {:induction false} ProperNoSlash(b: Body)
    requires ProperNames(b)
    ensures NoSlash(b)
  {
    match b
    case Close =>
    case Eof =>
    case Nop(r) => ProperNoSlash(r);
    case Prop(_, _, _, r) => ProperNoSlash(r);
    case Sub(_, _, c, r) =>
      ProperNoSlash(c);
      ProperNoSlash(r);
  }

  /** fdt_get_path and then fdt_path_offset on what it wrote: with room for the path this ends at the node it started
      from exactly when nothing on the way is hidden. */
  method ThereAndBack(fdt: array<byte>, nodeoffset: int, buf: array<byte>, buflen: int, ghost st: bytes, ghost strs: bytes,
                      ghost top: Body, ghost k: nat)
    returns (err: int, r: int)
    requires Ready(fdt[..], st) && Strings(fdt[..], strs) && CheckErr(Hdr(fdt[..])) == 0
    requires Numbered(st, top, nodeoffset, k) && Wf(top, true) && Named(top, strs) && top.name == [] && ProperNames(top.body)
    requires fdt != buf && buflen <= buf.Length && buflen < TWO31 - 5
    modifies buf
    ensures k < Count(top)
    ensures if buflen < 2 || |PathOf(top, k)| > buflen then err == NOSPACE
            else err == 0 && (r == nodeoffset <==> forall e | 0 < e <= Depth(top, k) :: !Hidden(top, k, e))
  {
    hide Ready, Strings, Hdr, CheckErr, On, Named, Wf, Route, Descend, NulFrom, PathOf, PathString, Hidden, Off, Count, ProperNames, NoSlash;
    r := 0;
    ProperNoSlash(top.body);
    err := GetPath(fdt, nodeoffset, buf, buflen, st, top, k);
    if err != 0 {
      return;
    }
    PathIsString(top, k);
    PathInverse(top, k);
    ghost var s := PathString(top, k);
    StringThere(buf[..], s);
    var n := StrLen(buf, 0);
    var path := buf[..n];
    assert path == s;
    r := PathOffset(fdt, path, st, strs, top);
    SameOffset(top, k, Descend(top, 0, Route(s)), nodeoffset);
  }

  lemma StringThere(mem: bytes, s: bytes)
    requires |s| < |mem| && mem[..|s| + 1] == s + [0] && 0 !in s
    ensures NulFrom(mem, 0) == |s| && mem[..|s|] == s
  {
    assert mem[..|s|] == mem[..|s| + 1][..|s|] == s;
    assert mem[|s|] == mem[..|s| + 1][|s|];
    NulAt(mem, 0, s);
  }

  lemma {:induction false} SameOffset(top: Body, k: nat, j: int, offset: int)
    requires k < Count(top) && j < Count(top) && Off(top, k) == offset && (j < 0 ==> j == NOTFOUND)
    ensures OffsetOf(top, j) == offset <==> j == k
  {
    hide Off, Count;
    OffNatural(top, k);
    if 0 <= j < k {
      OffMonotone(top, j, k);
    } else if j > k {
      OffMonotone(top, k, j);
    }
  }

  /** A root with the children "a@1" and "a". */
  function TwoChildren(): Body {
    Sub([], [0, 0, 0], Sub([97, AT, 49], [], Close, Sub([97], [0, 0], Close, Close)), Eof)
  }

  /** The path of the second one leads to the first. */
  lemma {:induction false} HiddenSibling()
    ensures var top := TwoChildren();
      && Rooted(top) && Wf(top, true) && top.name == [] && ProperNames(top.body) && Count(top) == 3
      && NodeAt(top, 1).name == [97, AT, 49] && NodeAt(top, 2).name == [97]
      && Descend(top, 0, Route(PathString(top, 2))) == 1
  {
    hide PathString, Descend, Route, Off, FindKid, Anc, Wf;
    var top := TwoChildren();
    TwoFormed();
    assert Count(top.body) == 2 && Count(top) == 3 && Depth(top, 2) == 1;
    PathRoute(top, 2);
    SelfAnc(top, 2);
    SecondNames(top);
    FirstMatches();
    DescendOne(top, 0, [97], []);
    DescendNone(top, 1);
  }

  lemma TwoFormed()
    ensures var top := TwoChildren(); Rooted(top) && Wf(top, true) && ProperNames(top.body)
  {
    assert Align4(1) == 4 && Align4(2) == 4 && Align4(4) == 4;
  }

  lemma SecondNames(top: Body)
    requires Count(top) == 3 && Depth(top, 2) == 1 && Anc(top, 2, 1) == 2 && NodeAt(top, 2).name == [97]
    ensures NamesBelow(top, 2, 0) == [[97]] + []
  {
    hide Anc, Depth, Count, NodeAt;
  }

  lemma DescendNone(top: Body, k: nat)
    requires k < Count(top)
    ensures Descend(top, k, []) == k
  {
    hide Count;
  }

  lemma {:induction false} FirstMatches()
    ensures FindKid(TwoChildren().body, [97]) == At(0)
  {
    hide NameEq;
    UnitName([97], [49]);
    assert [97] + [AT] + [49] == [97, AT, 49];
  }

  lemma UnitName(name: bytes, unit: bytes)
    requires AT !in name
    ensures NameEq(name + [AT] + unit, name)
  {
    assert (name + [AT] + unit)[..|name|] == name;
  }
}
