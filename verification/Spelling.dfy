/** A board's tree spelled out: names with and without unit addresses, absolute paths and aliases
    (sections 2.2.1 and 3.3 of the Devicetree Specification). */
module Spelling {
  import opened Bytes
  import opened Structure
  import opened Trees
  import opened Attrs
  import opened Subnodes
  import opened Rw
  import opened RwNodes
  import opened PathLookup
  import opened Shapes

  /** A node answers to its name, and to what stands in front of an '@' in it. */
  lemma NameAnswers(node: bytes, s: bytes)
    ensures NameEq(node, s) <==> node == s || (64 !in s && exists unit: bytes :: node == s + [64] + unit)
  {
    if NameEq(node, s) && node != s {
      assert node == s + [64] + node[|s| + 1..];
    }
    if unit: bytes :| node == s + [64] + unit {
      assert node[..|s|] == s;
    }
  }

  /** A path is its names, each behind a slash. */
  lemma PathStep(name: bytes, rest: bytes)
    requires name != [] && 47 !in name && (rest == [] || rest[0] == 47)
    ensures Route([47] + name + rest) == [name] + Route(rest) && Route(name + rest) == [name] + Route(rest)
  {
    hide Route;
    var path := [47] + name + rest;
    assert path[0..] == path && path[1..] == name + rest;
    RouteSlash(path, 0);
    RouteName(name, rest);
  }

  lemma RouteEnd()
    ensures Route([]) == []
  {
  }

  /** One name. */
  lemma PathOne(a: bytes)
    requires a != [] && 47 !in a
    ensures Route([47] + a) == [a]
  {
    hide Route;
    RouteEnd();
    PathStep(a, []);
    assert [47] + a + [] == [47] + a && [a] + [] == [a];
  }

  /** Two names. */
  lemma PathTwo(a: bytes, b: bytes)
    requires a != [] && 47 !in a && b != [] && 47 !in b
    ensures Route([47] + a + ([47] + b)) == [a, b]
  {
    hide Route;
    PathOne(b);
    PathStep(a, [47] + b);
    assert [a] + [b] == [a, b];
  }

  /** Names behind names. */
  lemma {:induction false} RouteConcat(s: bytes, rest: bytes)
    requires rest == [] || rest[0] == 47
    ensures Route(s + rest) == Route(s) + Route(rest)
    decreases |s|
  {
    if s == [] {
      assert s + rest == rest;
    } else if s[0] == 47 {
      assert (s + rest)[1..] == s[1..] + rest;
      RouteConcat(s[1..], rest);
    } else {
      hide Route;
      var e := NextSlash(s);
      var name, more := s[..e], s[e..];
      assert s == name + more && s + rest == name + (more + rest);
      RouteName(name, more);
      RouteName(name, more + rest);
      RouteConcat(more, rest);
      assert [name] + Route(more) + Route(rest) == [name] + (Route(more) + Route(rest));
    }
  }

  lemma {:induction false} ReachConcat(f: Forest, k: nat, a: seq<bytes>, b: seq<bytes>)
    requires k < Total(f)
    ensures Reach(f, k, a + b) == if Reach(f, k, a) < 0 then -1 else Reach(f, Reach(f, k, a), b)
    decreases |a|
  {
    hide NodeOf, FindChild, Total;
    if a == [] {
      assert a + b == b;
    } else {
      assert (a + b)[0] == a[0] && (a + b)[1..] == a[1..] + b;
      FoundInside(NodeOf(f, k).kids, a[0]);
      KidsInside(f, k);
      match FindChild(NodeOf(f, k).kids, a[0])
      case Absent =>
      case At(i) => ReachConcat(f, k + 1 + i, a[1..], b);
    }
  }

  lemma AliasesText(path: bytes)
    requires path == Ascii("/aliases")
    ensures path == [47] + Ascii("aliases") == ALIASES && 47 !in Ascii("aliases")
  {
  }

  lemma AliasesPath()
    ensures Route(Ascii("/aliases")) == [Ascii("aliases")] && ALIASES == Ascii("/aliases")
  {
    hide Ascii, Route, ALIASES;
    AliasesText(Ascii("/aliases"));
    PathOne(Ascii("aliases"));
  }

  /** A path that begins with a name means what it means with the alias in place of the name: the string of that name
      in the node /aliases. Without that node or that property it is an error. */
  lemma {:induction false} AliasMeans(f: Forest, name: bytes, rest: bytes, path: bytes)
    requires Total(f) > 0 && name != [] && 47 !in name && (rest == [] || rest[0] == 47)
    requires path != [] && path[0] == 47 && 0 !in path
    ensures var a := Reach(f, 0, [Ascii("aliases")]);
      && (a < 0 || ValueOf(PropsOf(f, a), name) == NoVal ==> PathIn(f, name + rest) == -5)
      && (a >= 0 && ValueOf(PropsOf(f, a), name) == Is(path + [0]) ==> PathIn(f, name + rest) == PathIn(f, path + rest))
  {
    hide Route, Reach, NodeOf, Total, ValueOf, Ascii, NulFrom;
    AliasesPath();
    assert (name + rest)[..|name|] == name && (name + rest)[|name|..] == rest;
    NextSlashIs(name + rest, |name|);
    NulAt(path + [0], 0, path);
    RouteConcat(path, rest);
    ReachConcat(f, 0, Route(path), Route(rest));
  }

  /** /aliases with serial0 = "/soc/uart", and /soc@01c00000/uart@0. */
  function BoardTree(): Forest {
    Tree([], [], Tree(Ascii("aliases"), [PropVal(Ascii("serial0"), Ascii("/soc/uart") + [0])], Nil,
                      Tree(Ascii("soc@01c00000"), [], Tree(Ascii("uart@0"), [], Nil, Nil), Nil)), Nil)
  }

  lemma UnitNames()
    ensures NameEq(Ascii("soc@01c00000"), Ascii("soc")) && NameEq(Ascii("uart@0"), Ascii("uart"))
    ensures NameEq(Ascii("soc@01c00000"), Ascii("soc@01c00000")) && NameEq(Ascii("aliases"), Ascii("aliases"))
    ensures !NameEq(Ascii("aliases"), Ascii("soc")) && !NameEq(Ascii("soc@01c00000"), Ascii("soc@0")) && !NameEq(Ascii("aliases"), Ascii("soc@0"))
  {
    assert Ascii("soc@01c00000") == Ascii("soc") + [64] + Ascii("01c00000");
    assert Ascii("uart@0") == Ascii("uart") + [64] + Ascii("0");
    assert Ascii("soc@0")[3] == 64;
    hide Ascii;
    NameAnswers(Ascii("soc@01c00000"), Ascii("soc"));
    NameAnswers(Ascii("uart@0"), Ascii("uart"));
  }

  /** Where the names lead. */
  lemma BoardReach(f: Forest, al: bytes, soc: bytes, uart: bytes, ps: seq<PropVal>, s: bytes, u: bytes)
    requires f == Tree([], [], Tree(al, ps, Nil, Tree(soc, [], Tree(uart, [], Nil, Nil), Nil)), Nil)
    requires NameEq(al, al) && !NameEq(al, s) && NameEq(soc, s) && NameEq(uart, u)
    ensures Total(f) == 4 && NodeOf(f, 1).name == al && NodeOf(f, 1).props == ps
    ensures Reach(f, 0, [al]) == 1 && Reach(f, 0, [s, u]) == 3
  {
    hide NameEq;
    var low := Tree(uart, [], Nil, Nil);
    var mid := Tree(soc, [], low, Nil);
    var kids := Tree(al, ps, Nil, mid);
    assert Total(Nil) == 0 && Total(low) == 1 && Total(mid) == 2 && Total(kids) == 3;
    assert NodeOf(f, 0) == f && NodeOf(f, 1) == kids && NodeOf(kids, 1) == mid && NodeOf(f, 2) == mid;
    assert FindChild(kids, al) == At(0) && FindChild(mid, s) == At(0) && FindChild(kids, s) == At(1) && FindChild(low, u) == At(0);
    assert [s, u][1..] == [u] && [u][1..] == [] && [al][1..] == [];
    assert Reach(f, 3, []) == 3 && Reach(f, 1, []) == 1;
    assert Reach(f, 2, [u]) == 3;
  }

  lemma BoardText(path: bytes)
    requires path == Ascii("/soc/uart")
    ensures path == [47] + Ascii("soc") + ([47] + Ascii("uart")) && 47 !in Ascii("soc") && 47 !in Ascii("uart")
    ensures path != [] && path[0] == 47 && 0 !in path
  {
  }

  lemma BoardPath(path: bytes)
    requires path == Ascii("/soc/uart")
    ensures Route(path) == [Ascii("soc"), Ascii("uart")] && path != [] && path[0] == 47 && 0 !in path
  {
    hide Ascii, Route;
    BoardText(path);
    PathTwo(Ascii("soc"), Ascii("uart"));
  }

  lemma BoardNames(name: bytes)
    requires name == Ascii("serial0")
    ensures |name| == 7 && 47 !in name
  {
  }

  /** The alias leads where its path leads: to uart@0 below soc@01c00000. */
  lemma {:induction false} AliasLeads()
    ensures var f := BoardTree();
      Total(f) == 4 && PathIn(f, Ascii("/soc/uart")) == 3 && PathIn(f, Ascii("serial0")) == 3 && PathIn(f, Ascii("/aliases")) == 1
  {
    hide Route, Reach, NameEq, Ascii, NodeOf, Total;
    var f, path, name := BoardTree(), Ascii("/soc/uart"), Ascii("serial0");
    BoardPath(path);
    BoardNames(name);
    UnitNames();
    AliasesPath();
    BoardReach(f, Ascii("aliases"), Ascii("soc@01c00000"), Ascii("uart@0"), f.kids.props, Ascii("soc"), Ascii("uart"));
    OneValue(name, path + [0]);
    AliasMeans(f, name, [], path);
    assert name + [] == name && path + [] == path;
    assert Ascii("/aliases")[0] == 47;
  }

  lemma OneValue(name: bytes, val: bytes)
    ensures ValueOf([PropVal(name, val)], name) == Is(val)
  {
  }
}
