/** Paths: fdt_get_path writes the path of a node, fdt_path_offset finds the node of a path
    (lib/libfdt/fdt_ro.c). */
module Paths {
  import opened Bytes
  import opened Memory
  import opened Blob
  import opened Structure
  import opened Lexer
  import opened Nodes
  import opened Walk
  import opened Ancestors
  import opened RwNodes

  const SLASH: byte := 47

  /** The names from the outermost level down to the k-th node, each followed by a slash. */
  function PathOf(b: Body, k: nat): (p: bytes)
    requires k < Count(b)
    ensures |p| > 0 && p[|p| - 1] == SLASH
  {
    match b
    case Nop(r) => PathOf(r, k)
    case Prop(_, _, _, r) => PathOf(r, k)
    case Sub(n, _, c, r) =>
      if k == 0 then n + [SLASH]
      else if k <= Count(c) then n + [SLASH] + PathOf(c, k - 1)
      else PathOf(r, k - 1 - Count(c))
  }

  predicate NoSlash(b: Body) {
    match b
    case Close => true
    case Eof => true
    case Nop(r) => NoSlash(r)
    case Prop(_, _, _, r) => NoSlash(r)
    case Sub(n, _, c, r) => SLASH !in n && NoSlash(c) && NoSlash(r)
  }

  lemma {:induction false} NoSlashAt(b: Body, k: nat)
    requires k < Count(b) && NoSlash(b)
    ensures SLASH !in NodeAt(b, k).name
    decreases b
  {
    match b
    case Nop(r) => NoSlashAt(r, k);
    case Prop(_, _, _, r) => NoSlashAt(r, k);
    case Sub(_, _, c, r) =>
      if k == 0 {
      } else if k <= Count(c) {
        NoSlashAt(c, k - 1);
      } else {
        NoSlashAt(r, k - 1 - Count(c));
      }
  }

  /** The path of the ancestor at depth d - 1; nothing for d == 0. */
  function Upto(b: Body, k: nat, d: nat): bytes
    requires k < Count(b) && d <= Depth(b, k) + 1
  {
    if d == 0 then [] else PathOf(b, Anc(b, k, d - 1))
  }

  lemma {:induction false} UptoFirst(b: Body, k: nat, d: nat)
    requires b.Sub? && 0 < k <= Count(b.body) && d <= Depth(b.body, k - 1) + 1
    ensures Upto(b, k, d + 1) == b.name + [SLASH] + Upto(b.body, k - 1, d)
  {
    hide PathOf;
    PathHead(b, Anc(b, k, d));
    if d == 0 {
      assert b.name + [SLASH] + [] == b.name + [SLASH];
    }
  }

  lemma {:induction false} PathHead(b: Body, k: nat)
    requires k < Count(b)
    ensures match b
      case Sub(n, _, c, r) =>
        PathOf(b, k) == if k == 0 then n + [SLASH]
                        else if k <= Count(c) then n + [SLASH] + PathOf(c, k - 1)
                        else PathOf(r, k - 1 - Count(c))
      case Nop(r) => PathOf(b, k) == PathOf(r, k)
      case Prop(_, _, _, r) => PathOf(b, k) == PathOf(r, k)
  {
  }

  lemma {:induction false} UptoLater(b: Body, k: nat, d: nat)
    requires k < Count(b) && d <= Depth(b, k) + 1
    requires if b.Sub? then k > Count(b.body) else true
    ensures var k' := if b.Sub? then k - 1 - Count(b.body) else k;
      && !b.Close? && !b.Eof? && k' < Count(b.rest) && Depth(b.rest, k') == Depth(b, k)
      && Upto(b, k, d) == Upto(b.rest, k', d)
  {
    hide PathOf;
    if d > 0 {
      PathHead(b, Anc(b, k, d - 1));
    }
  }

  /** A path is the path of the parent and one more name. */
  lemma {:induction false} PathAnc(b: Body, k: nat, d: nat)
    requires k < Count(b) && d <= Depth(b, k)
    ensures Upto(b, k, d + 1) == Upto(b, k, d) + NodeAt(b, Anc(b, k, d)).name + [SLASH]
    decreases b
  {
    hide PathOf, Upto;
    if b.Sub? && k == 0 {
      PathRoot(b, k);
    } else if b.Sub? && k <= Count(b.body) {
      if d == 0 {
        PathRoot(b, k);
      } else {
        PathAnc(b.body, k - 1, d - 1);
        UptoFirst(b, k, d);
        UptoFirst(b, k, d - 1);
      }
    } else {
      UptoLater(b, k, d);
      UptoLater(b, k, d + 1);
      PathAnc(b.rest, if b.Sub? then k - 1 - Count(b.body) else k, d);
    }
  }

  lemma {:induction false} PathRoot(b: Body, k: nat)
    requires b.Sub? && k <= Count(b.body)
    ensures Depth(b, k) >= 0 && Anc(b, k, 0) == 0 && Upto(b, k, 0) == [] && Upto(b, k, 1) == b.name + [SLASH]
  {
  }

  /** Neighbours in document order share the path of every common ancestor. */
  lemma {:induction false} UptoNext(b: Body, k: nat, d: nat)
    requires k + 1 < Count(b) && d <= Depth(b, k + 1) && d <= Depth(b, k) + 1
    ensures Upto(b, k + 1, d) == Upto(b, k, d)
  {
    if d > 0 {
      AncNext(b, k, d - 1);
    }
  }

  /** The inner loops of fdt_get_path: one name is taken back. */
  method PopName(buf: array<byte>, p: nat, ghost parent: bytes, ghost name: bytes) returns (r: nat)
    requires p <= buf.Length && buf[..p] == parent + name + [SLASH]
    requires parent != [] && parent[|parent| - 1] == SLASH && SLASH !in name
    ensures r == |parent|
  {
    r := p - 1;
    assert buf[|parent| - 1] == buf[..p][|parent| - 1] == SLASH;
    while buf[r - 1] != SLASH
      invariant |parent| <= r <= |parent| + |name|
      decreases r
    {
      r := r - 1;
      if r > |parent| {
        assert buf[r - 1] == buf[..p][r - 1] == name[r - 1 - |parent|];
      }
    }
  }

  /** State of fdt_get_path behind the j-th node: the buffer holds the longest prefix of its path that fits;
      at the start (j == -1) it is empty. */
  ghost predicate Held(top: Body, j: int, c: bytes, pdepth: int, buflen: nat) {
    if j < 0 then c == [] && pdepth == 0
    else
      && j < Count(top) && 0 <= pdepth <= Depth(top, j) + 1
      && c == Upto(top, j, pdepth) && |c| <= buflen
      && (pdepth <= Depth(top, j) ==> |Upto(top, j, pdepth + 1)| > buflen)
  }

  /** The string that fdt_get_path writes: no slash at the end, but for the root of an empty name. */
  function PathString(b: Body, k: nat): bytes
    requires k < Count(b)
  {
    var p := PathOf(b, k);
    if |p| > 1 then p[..|p| - 1] else p
  }

  /** After the names that the next node does not share are taken back, ... */
  ghost predicate Popped(top: Body, j: nat, c: bytes, pdepth: int, buflen: nat) {
    && j < Count(top) && 0 <= pdepth <= Depth(top, j)
    && c == Upto(top, j, pdepth) && |c| <= buflen
    && (pdepth < Depth(top, j) ==> |Upto(top, j, pdepth + 1)| > buflen)
  }

  lemma {:induction false} PopStart(top: Body, c: bytes, buflen: nat)
    requires Rooted(top) && c == []
    ensures Popped(top, 0, c, 0, buflen)
  {
  }

  lemma {:induction false} DepthNext(top: Body, j: nat)
    requires Rooted(top) && j + 1 < Count(top)
    ensures 1 <= Depth(top, j + 1) <= Depth(top, j) + 1
  {
    if Depth(top, j + 1) > 0 {
      AncNext(top, j, Depth(top, j + 1) - 1);
    }
  }

  /** One name less. */
  lemma {:induction false} PopStep(top: Body, j: nat, pdepth: int)
    requires Rooted(top) && NoSlash(top.body) && j < Count(top) && 2 <= pdepth <= Depth(top, j) + 1
    ensures var parent, name := Upto(top, j, pdepth - 1), NodeAt(top, Anc(top, j, pdepth - 1)).name;
      && Upto(top, j, pdepth) == parent + name + [SLASH]
      && parent != [] && parent[|parent| - 1] == SLASH && SLASH !in name
  {
    hide PathOf;
    PathAnc(top, j, pdepth - 1);
    NameBelow(top, Anc(top, j, pdepth - 1));
  }

  lemma {:induction false} NameBelow(top: Body, k: nat)
    requires Rooted(top) && NoSlash(top.body) && k < Count(top) && Depth(top, k) > 0
    ensures SLASH !in NodeAt(top, k).name
  {
    NoSlashAt(top.body, k - 1);
  }

  /** ... the buffer is ready for the next one. */
  lemma {:induction false} HeldNext(top: Body, j: nat, c0: bytes, pdepth0: int, c: bytes, pdepth: int, buflen: nat)
    requires Rooted(top) && Held(top, j, c0, pdepth0, buflen) && j + 1 < Count(top)
    requires pdepth == if pdepth0 <= Depth(top, j + 1) then pdepth0 else Depth(top, j + 1)
    requires pdepth <= Depth(top, j) + 1 && c == Upto(top, j, pdepth) && |c| <= buflen
    ensures Popped(top, j + 1, c, pdepth, buflen)
  {
    hide Upto;
    DepthNext(top, j);
    UptoNext(top, j, pdepth);
    if pdepth < Depth(top, j + 1) {
      UptoNext(top, j, pdepth + 1);
    }
  }

  lemma {:induction false} PathIs(top: Body, j: nat)
    requires j < Count(top)
    ensures PathOf(top, j) == Upto(top, j, Depth(top, j)) + NodeAt(top, j).name + [SLASH]
    ensures Upto(top, j, Depth(top, j) + 1) == PathOf(top, j)
  {
    hide PathOf;
    PathAnc(top, j, Depth(top, j));
    SelfAnc(top, j);
  }

  /** The while loop of fdt_get_path that takes names back. */
  method PopNames(buf: array<byte>, p: nat, pdepth: int, depth: int, ghost top: Body, ghost j: int, ghost buflen: nat)
    returns (p': nat, pdepth': int)
    requires Rooted(top) && NoSlash(top.body) && p <= buf.Length
    requires -1 <= j < Count(top) - 1 && Held(top, j, buf[..p], pdepth, buflen) && depth == Depth(top, j + 1)
    ensures p' <= p && Popped(top, j + 1, buf[..p'], pdepth', buflen)
  {
    hide PathOf, Upto, Anc;
    p', pdepth' := p, pdepth;
    if j >= 0 {
      DepthNext(top, j);
    }
    while pdepth' > depth
      invariant p' <= p && (if pdepth <= depth then pdepth else depth) <= pdepth' <= pdepth
      invariant if j < 0 then p' == p else buf[..p'] == Upto(top, j, pdepth')
      decreases pdepth'
    {
      PopStep(top, j, pdepth');
      p' := PopName(buf, p', Upto(top, j, pdepth' - 1), NodeAt(top, Anc(top, j, pdepth' - 1)).name);
      pdepth' := pdepth' - 1;
    }
    if j < 0 {
      PopStart(top, buf[..p'], buflen);
    } else {
      HeldNext(top, j, buf[..p], pdepth, buf[..p'], pdepth', buflen);
    }
  }

  /** The part of the loop body that adds a name if it fits. */
  method PushName(fdt: array<byte>, buf: array<byte>, p: nat, pdepth: int, offset: int, depth: int, buflen: nat,
                  ghost st: bytes, ghost cur: Stack, ghost top: Body, ghost j: nat)
    returns (p': nat, pdepth': int)
    requires Ready(fdt[..], st) && NodeRef(st, offset, cur) && !BadNode(st, offset) && fdt != buf
    requires fdt.Length >= HEADER_SIZE && CheckErr(Hdr(fdt[..])) == 0
    requires j < Count(top) && depth == Depth(top, j) && cur.b == NodeAt(top, j)
    requires p <= buflen <= buf.Length && Popped(top, j, buf[..p], pdepth, buflen)
    modifies buf
    ensures p' <= buflen && Held(top, j, buf[..p'], pdepth', buflen)
  {
    hide Ready, Hdr, On, TagAt, BadNode, CheckErr, PathOf, Upto;
    p', pdepth' := p, pdepth;
    if pdepth >= depth {
      PathIs(top, j);
      var at, namelen := GetName(fdt, offset, st, cur);
      if p + namelen + 1 <= buflen {
        var name := GetHdr(fdt, OffStruct) + at;
        ReadySlice(fdt[..], st, at, at + namelen);
        MemCpy(buf, p, fdt[name..name + namelen]);
        p' := p + namelen;
        buf[p'] := SLASH;
        p' := p' + 1;
        pdepth' := pdepth + 1;
        assert buf[..p'] == Upto(top, j, pdepth) + cur.b.name + [SLASH];
      }
    }
  }

  lemma ReadySlice(s: bytes, st: bytes, lo: nat, hi: nat)
    requires Ready(s, st) && lo <= hi <= |st|
    ensures Hdr(s).offStruct + hi <= |s| && s[Hdr(s).offStruct + lo..Hdr(s).offStruct + hi] == st[lo..hi]
  {
    hide Hdr;
    assert s[0..] == s;
    StruSlice(s, 0, lo, hi);
  }

  /** The end of fdt_get_path: the slash at the end makes way for the NUL, but for the root's. */
  method EndPath(buf: array<byte>, p: nat, buflen: nat, ghost path: bytes)
    requires 2 <= buflen <= buf.Length && 0 < p <= buflen && buf[..p] == path
    modifies buf
    ensures var s := if |path| > 1 then path[..|path| - 1] else path;
      |s| + 1 <= buflen && buf[..|s| + 1] == s + [0]
  {
    var q := p;
    if q > 1 {
      q := q - 1;
    }
    assert buf[..q] == buf[..p][..q];
    buf[q] := 0;
    assert buf[..q + 1] == buf[..q] + [0];
  }

  lemma {:induction false} HeldPath(top: Body, j: nat, c: bytes, pdepth: int, buflen: nat)
    requires Held(top, j, c, pdepth, buflen)
    ensures pdepth < Depth(top, j) + 1 ==> |PathOf(top, j)| > buflen
    ensures pdepth >= Depth(top, j) + 1 ==> |PathOf(top, j)| <= buflen && c == PathOf(top, j)
  {
    hide PathOf;
    PathIs(top, j);
    if pdepth < Depth(top, j) + 1 {
      UptoLonger(top, j, pdepth + 1, Depth(top, j) + 1);
    }
  }

  lemma {:induction false} UptoLonger(b: Body, k: nat, d: nat, e: nat)
    requires k < Count(b) && d <= e <= Depth(b, k) + 1
    ensures |Upto(b, k, d)| <= |Upto(b, k, e)|
    decreases e
  {
    hide Upto;
    if d < e {
      PathAnc(b, k, e - 1);
      UptoLonger(b, k, d, e - 1);
    }
  }

  /** fdt_get_path: succeeds exactly when the buffer has room for the path and its NUL. An offset behind the
      root node is left out: the code would then take back more names than there are. */
  method GetPath(fdt: array<byte>, nodeoffset: int, buf: array<byte>, buflen: int, ghost st: bytes, ghost top: Body, ghost k: int)
    returns (r: int)
    requires Ready(fdt[..], st) && Numbered(st, top, nodeoffset, k) && NoSlash(top.body)
    requires fdt != buf && buflen <= buf.Length
    requires k >= 0 || nodeoffset < EndOff(top, 0)
    modifies buf
    ensures fdt.Length >= HEADER_SIZE
    ensures if CheckErr(Hdr(fdt[..])) != 0 then r == CheckErr(Hdr(fdt[..]))
            else if buflen < 2 then r == NOSPACE
            else if k < 0 then r == BADOFFSET
            else if |PathOf(top, k)| > buflen then r == NOSPACE
            else
              && r == 0 && |PathString(top, k)| + 1 <= buflen
              && buf[..|PathString(top, k)| + 1] == PathString(top, k) + [0]
  {
    hide Hdr, Ready, On, AtNode, TagAt, NextStop, NodeRef, BadNode, EndOff, Held, Popped, PathOf, CheckErr, RootScan,
      Numbered, NoSlash;
    ReadySize(fdt[..], st);
    var err := CheckHeader(fdt);
    if err != 0 {
      return err;
    }
    if buflen < 2 {
      return NOSPACE;
    }
    var offset, depth, pdepth, p := 0, 0, 0, 0;
    ghost var j: nat := 0;
    ghost var cur := Frame(top, Bottom);
    NumberedRoot(st, top, nodeoffset, k);
    RootScanStart(st, top);
    HeldNone(top, buf[..p], buflen);
    while offset >= 0 && offset <= nodeoffset
      invariant 0 <= p <= buflen && j <= Count(top)
      invariant offset >= 0 && RootScan(st, top, offset, depth, j, cur)
      invariant k >= 0 ==> j <= k
      invariant j == Count(top) ==> offset > nodeoffset
      invariant Held(top, j - 1, buf[..p], pdepth, buflen)
      invariant Ready(fdt[..], st) && CheckErr(Hdr(fdt[..])) == 0
      decreases Count(top) - j
    {
      RootScanOrder(st, top, offset, depth, j, cur, nodeoffset, k);
      RootScanStep(st, top, offset, depth, j, cur);
      RootScanNode(st, top, offset, depth, j, cur);
      p, pdepth := PopNames(buf, p, pdepth, depth, top, j - 1, buflen);
      p, pdepth := PushName(fdt, buf, p, pdepth, offset, depth, buflen, st, cur, top, j);
      HeldPath(top, j, buf[..p], pdepth, buflen);
      if offset == nodeoffset {
        if pdepth < depth + 1 {
          return NOSPACE;
        }
        EndPath(buf, p, buflen, PathOf(top, j));
        return 0;
      }
      ghost var o, d, c := offset, depth, cur;
      offset, depth, cur := NextNode(fdt, offset, depth, true, st, cur);
      RootScanNext(st, top, o, d, j, c, offset, depth, cur);
      j := j + 1;
      RootScanEnd(st, top, offset, depth, j, cur, nodeoffset, k);
    }
    if nodeoffset >= 0 {
      RootScanPast(st, top, offset, depth, j, cur, nodeoffset, k);
    } else {
      NumberedNegative(st, top, nodeoffset, k);
    }
    return if offset == NOTFOUND || offset >= 0 then BADOFFSET else if offset == BADOFFSET then BADSTRUCTURE else offset;
  }

  lemma HeldNone(top: Body, c: bytes, buflen: nat)
    requires c == []
    ensures Held(top, -1, c, 0, buflen)
  {
  }

  lemma {:induction false} NumberedRoot(st: bytes, top: Body, o: int, k: int)
    requires Numbered(st, top, o, k)
    ensures Rooted(top) && On(st, 0, Frame(top, Bottom)) && -1 <= k < Count(top)
  {
    hide On;
  }

  lemma {:induction false} NumberedNegative(st: bytes, top: Body, o: int, k: int)
    requires Numbered(st, top, o, k) && o < 0
    ensures k < 0
  {
    hide On;
  }

  lemma {:induction false} RootScanNode(st: bytes, top: Body, o: int, depth: int, j: nat, cur: Stack)
    requires RootScan(st, top, o, depth, j, cur) && j < Count(top)
    ensures o == Off(top, j) && depth == Depth(top, j) && cur.Frame? && cur.b == NodeAt(top, j)
  {
    hide On;
  }

  lemma {:induction false} RootScanEnd(st: bytes, top: Body, o: int, depth: int, j: nat, cur: Stack, nodeoffset: int, k: int)
    requires RootScan(st, top, o, depth, j, cur) && Numbered(st, top, nodeoffset, k)
    requires k >= 0 || nodeoffset < EndOff(top, 0)
    requires k >= 0 ==> j <= k
    ensures j == Count(top) ==> o > nodeoffset
  {
    hide On, EndOff;
  }
}
