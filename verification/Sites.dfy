/** A tree in which one node gets new first children, and these and one later node get properties: what
    fdt_add_pinctrl_group keeps of the rest (src/fdt_tools.c). */
module Sites {
  import opened Bytes
  import opened Blob
  import opened Structure
  import opened Trees
  import opened Attrs
  import opened Subnodes
  import opened Rw
  import opened RwNodes
  import opened Paths
  import opened PathLookup
  import opened Stores
  import opened Shapes
  import opened Groups

  /** The tree as it was, the node that gets the groups, and the device. */
  datatype Site = Site(f: Forest, k: nat, d: nat)

  /** The groups so far, oldest first, and the device's properties. */
  datatype State = State(names: seq<bytes>, groups: seq<seq<PropVal>>, dev: seq<PropVal>)

  /** The device comes after the node of the groups; it may be below it. */
  ghost predicate ValidSite(w: Site) {
    w.k < w.d < Total(w.f)
  }

  /** f with new first children for its k-th node, the last one in front. */
  function AddAll(f: Forest, k: nat, names: seq<bytes>): (r: Forest)
    requires k < Total(f)
    ensures Total(r) == Total(f) + |names|
  {
    if names == [] then f
    else
      var m := |names| - 1;
      TotalAdd(AddAll(f, k, names[..m]), k, names[m]);
      AddChild(AddAll(f, k, names[..m]), k, names[m])
  }

  /** What the properties of the i-th node should be. */
  function Want(w: Site, st: State, i: nat): seq<PropVal>
    requires |st.groups| == |st.names| && w.k < Total(w.f) && i < Total(w.f) + |st.names|
  {
    var m := |st.names|;
    if i <= w.k then PropsOf(w.f, i)
    else if i <= w.k + m then st.groups[w.k + m - i]
    else if i - m == w.d then st.dev
    else PropsOf(w.f, i - m)
  }

  /** g is the site's tree with the groups and the properties of st, and nothing else changed. */
  ghost predicate Holds(w: Site, st: State, g: Forest) {
    && ValidSite(w) && |st.groups| == |st.names|
    && Total(g) == Total(w.f) + |st.names|
    && Bare(g) == AddAll(Bare(w.f), w.k, st.names)
    && forall i | 0 <= i < Total(g) :: PropsOf(g, i) == Want(w, st, i)
  }

  lemma {:induction false} HoldsStart(w: Site)
    requires ValidSite(w)
    ensures Holds(w, State([], [], PropsOf(w.f, w.d)), w.f)
  {
    hide NodeOf, Total;
  }

  function NewGroupState(st: State, name: bytes): State {
    State(st.names + [name], st.groups + [[]], st.dev)
  }

  lemma {:induction false} HoldsAdd(w: Site, st: State, g: Forest, name: bytes)
    requires Holds(w, st, g)
    ensures w.k < Total(g) && Holds(w, NewGroupState(st, name), AddChild(g, w.k, name))
  {
    hide NodeOf, Total, AddChild, Bare;
    var st', g', m := NewGroupState(st, name), AddChild(g, w.k, name), |st.names|;
    BareAdd(g, w.k, name);
    assert st'.names[..m] == st.names;
    TotalAdd(g, w.k, name);
    NodeAdded(g, w.k, name);
    forall i | 0 <= i < Total(g')
      ensures PropsOf(g', i) == Want(w, st', i)
    {
      if i != w.k + 1 {
        var j := if i <= w.k then i else i - 1;
        NodeOfAdd(g, w.k, name, j);
        assert PropsOf(g, j) == Want(w, st, j);
      }
    }
  }

  /** The node of the j-th group. */
  function GroupNode(w: Site, st: State, j: nat): nat
    requires j < |st.names|
  {
    w.k + |st.names| - j
  }

  function DeviceNode(w: Site, st: State): nat {
    w.d + |st.names|
  }

  lemma {:induction false} HoldsGroup(w: Site, st: State, g: Forest, j: nat, ps: seq<PropVal>)
    requires Holds(w, st, g) && j < |st.names|
    ensures GroupNode(w, st, j) < Total(g) && PropsOf(g, GroupNode(w, st, j)) == st.groups[j]
    ensures Holds(w, st.(groups := st.groups[j := ps]), WithProps(g, GroupNode(w, st, j), ps))
  {
    hide NodeOf, Total, Bare;
    var i, st' := GroupNode(w, st, j), st.(groups := st.groups[j := ps]);
    var g' := WithProps(g, i, ps);
    BareWithProps(g, i, ps);
    ReplaceProps(g, i, ps, i);
    forall x | 0 <= x < Total(g')
      ensures PropsOf(g', x) == Want(w, st', x)
    {
      ReplaceProps(g, i, ps, x);
    }
  }

  lemma {:induction false} HoldsDevice(w: Site, st: State, g: Forest, ps: seq<PropVal>)
    requires Holds(w, st, g)
    ensures DeviceNode(w, st) < Total(g) && PropsOf(g, DeviceNode(w, st)) == st.dev
    ensures Holds(w, st.(dev := ps), WithProps(g, DeviceNode(w, st), ps))
  {
    hide NodeOf, Total, Bare;
    var i, st' := DeviceNode(w, st), st.(dev := ps);
    var g' := WithProps(g, i, ps);
    BareWithProps(g, i, ps);
    ReplaceProps(g, i, ps, i);
    forall x | 0 <= x < Total(g')
      ensures PropsOf(g', x) == Want(w, st', x)
    {
      ReplaceProps(g, i, ps, x);
    }
  }

  // ---------------------------------------------------------------------------
  // Finding groups
  // ---------------------------------------------------------------------------

  /** The children of the node of the groups. */
  function Chain(names: seq<bytes>, base: Forest): (r: Forest)
    ensures Total(r) == Total(base) + |names|
  {
    if names == [] then base else Tree(names[|names| - 1], [], Nil, Chain(names[..|names| - 1], base))
  }

  lemma {:induction false} ChainAll(f: Forest, k: nat, names: seq<bytes>)
    requires k < Total(f)
    ensures NodeOf(AddAll(f, k, names), k).kids == Chain(names, NodeOf(f, k).kids)
  {
    hide NodeOf, AddChild, Total;
    if names != [] {
      var m := |names| - 1;
      ChainAll(f, k, names[..m]);
      NodeOfAdd(AddAll(f, k, names[..m]), k, names[m], k);
    }
  }

  lemma {:induction false} ChainHead(names: seq<bytes>, base: Forest, s: bytes)
    requires names != []
    ensures var init := names[..|names| - 1];
      var r := FindChild(Chain(init, base), s);
      FindChild(Chain(names, base), s) ==
      if NameEq(names[|names| - 1], s) then At(0) else if r.At? then At(1 + r.pos) else Absent
  {
    hide NameEq;
    assert Total(Nil) == 0;
  }

  lemma {:induction false} NotInChain(names: seq<bytes>, base: Forest, s: bytes)
    requires (forall j | 0 <= j < |names| :: !NameEq(names[j], s)) && FindChild(base, s) == Absent
    ensures FindChild(Chain(names, base), s) == Absent
  {
    hide NameEq, FindChild;
    if names != [] {
      ChainHead(names, base, s);
      NotInChain(names[..|names| - 1], base, s);
    }
  }

  lemma {:induction false} InChain(names: seq<bytes>, base: Forest, s: bytes, i: nat)
    requires i < |names| && NameEq(names[i], s) && forall j | i < j < |names| :: !NameEq(names[j], s)
    ensures FindChild(Chain(names, base), s) == At(|names| - 1 - i)
  {
    hide NameEq, FindChild;
    ChainHead(names, base, s);
    if i < |names| - 1 {
      InChain(names[..|names| - 1], base, s, i);
    }
  }

  /** The j-th of the nodes added, counted from the oldest. */
  lemma {:induction false} AddedNode(f: Forest, k: nat, names: seq<bytes>, j: nat)
    requires k < Total(f) && j < |names|
    ensures NodeOf(AddAll(f, k, names), k + |names| - j).name == names[j]
  {
    hide NodeOf, AddChild, Total;
    var m := |names| - 1;
    var g := AddAll(f, k, names[..m]);
    NodeAdded(g, k, names[m]);
    if j < m {
      AddedNode(f, k, names[..m], j);
      NodeOfAdd(g, k, names[m], k + m - j);
    }
  }

  lemma {:induction false} GroupNamed(w: Site, st: State, g: Forest, j: nat)
    requires Holds(w, st, g) && j < |st.names|
    ensures GroupNode(w, st, j) < Total(g) && NodeOf(g, GroupNode(w, st, j)).name == st.names[j]
  {
    hide NodeOf, AddAll, Total, Want;
    BareNode(g, GroupNode(w, st, j));
    AddedNode(Bare(w.f), w.k, st.names, j);
  }

  /** The names of the groups of these classes. */
  function NamesOf(device: bytes, cs: seq<Class>): (ns: seq<bytes>)
    ensures |ns| == |cs|
  {
    seq(|cs|, i requires 0 <= i < |cs| => GroupName(device, cs[i]))
  }

  /** No child of the k-th node is taken for a group of the device. */
  ghost predicate NoGroups(w: Site, device: bytes)
    requires w.k < Total(w.f)
  {
    forall c: Class | Normal(c) :: FindChild(NodeOf(w.f, w.k).kids, GroupName(device, c)) == Absent
  }

  /** Searching for the name of a class finds its group, or nothing if it has none yet. */
  lemma {:induction false} FindGroup(w: Site, st: State, g: Forest, device: bytes, cs: seq<Class>, c: Class)
    requires Holds(w, st, g) && NoGroups(w, device) && st.names == NamesOf(device, cs)
    requires Normal(c) && Distinct(cs) && forall i | 0 <= i < |cs| :: Normal(cs[i])
    ensures w.k < Total(g)
    ensures var r := FindChild(NodeOf(g, w.k).kids, GroupName(device, c));
      && (c !in cs ==> r == Absent)
      && forall j | 0 <= j < |cs| :: cs[j] == c ==> r == At(|cs| - 1 - j)
  {
    hide NodeOf, Total, FindChild, NameEq, GroupName, AddAll, Chain;
    var s, base := GroupName(device, c), NodeOf(Bare(w.f), w.k).kids;
    KidsFound(g, w.k, s);
    KidsFound(w.f, w.k, s);
    ChainAll(Bare(w.f), w.k, st.names);
    forall j | 0 <= j < |cs|
      ensures NameEq(st.names[j], s) <==> cs[j] == c
    {
      GroupNameEq(device, c, cs[j]);
    }
    if c in cs {
      var j :| 0 <= j < |cs| && cs[j] == c;
      InChain(st.names, base, s, j);
    } else {
      NotInChain(st.names, base, s);
    }
  }

  lemma {:induction false} KidsFound(f: Forest, k: nat, s: bytes)
    requires k < Total(f)
    ensures FindChild(NodeOf(f, k).kids, s) == FindChild(NodeOf(Bare(f), k).kids, s)
  {
    hide NodeOf, FindChild;
    BareNode(f, k);
    BareChild(NodeOf(f, k).kids, s);
  }

  // ---------------------------------------------------------------------------
  // Finding the device
  // ---------------------------------------------------------------------------

  function Far(k: nat, m: nat, x: nat): nat {
    if x <= k then x else x + m
  }

  /** The same names lead to the same node, whatever was added that is not in the way. */
  lemma {:induction false} ReachAll(f: Forest, k: nat, names: seq<bytes>, x: nat, route: seq<bytes>)
    requires k < Total(f) && x < Total(f) && Reach(f, x, route) >= 0
    requires forall n | n in names :: !Blocked(f, k, n, x, route)
    ensures var g, y := AddAll(f, k, names), Far(k, |names|, x);
      Reach(g, y, route) == Far(k, |names|, Reach(f, x, route)) && Exit(g, k, y, route) == Exit(f, k, x, route)
    decreases |names|
  {
    hide NodeOf, AddChild, Total, Reach, Exit, NameEq;
    if names != [] {
      var m := |names| - 1;
      ReachAll(f, k, names[..m], x, route);
      assert names[m] in names;
      ReachAdd(AddAll(f, k, names[..m]), k, names[m], Far(k, m, x), route);
    }
  }

  lemma {:induction false} ReachHolds(w: Site, st: State, g: Forest, x: nat, route: seq<bytes>)
    requires Holds(w, st, g) && x < Total(w.f) && Reach(w.f, x, route) >= 0
    requires forall n | n in st.names :: !Blocked(w.f, w.k, n, x, route)
    ensures Far(w.k, |st.names|, x) < Total(g)
    ensures Reach(g, Far(w.k, |st.names|, x), route) == Far(w.k, |st.names|, Reach(w.f, x, route))
  {
    hide NodeOf, AddAll, Total, Reach, Want, Exit, NameEq;
    ReachBare(w.f, x, route);
    ReachBare(g, Far(w.k, |st.names|, x), route);
    ExitBare(w.f, w.k, x, route);
    ReachAll(Bare(w.f), w.k, st.names, x, route);
  }

  /** The new groups are no obstacle: the node that gets them is not left by a name that the device's own begins with,
      up to an '@'. */
  predicate Free(w: Site, device: bytes, x: nat, route: seq<bytes>)
    requires x < Total(w.f)
  {
    match Exit(w.f, w.k, x, route) case NoVal => true case Is(s) => !Answers(device, s)
  }

  /** Names of groups of the device. */
  ghost predicate GroupNames(device: bytes, names: seq<bytes>) {
    forall n | n in names :: exists c: Class :: Normal(c) && n == GroupName(device, c)
  }

  /** A group is in the way exactly if the way is not free. */
  lemma {:induction false} GroupBlocks(w: Site, device: bytes, c: Class, x: nat, route: seq<bytes>)
    requires w.k < Total(w.f) && x < Total(w.f) && Reach(w.f, x, route) >= 0 && NoGroups(w, device) && Normal(c)
    ensures Blocked(w.f, w.k, GroupName(device, c), x, route) <==> !Free(w, device, x, route)
  {
    hide NodeOf, Total, Reach, Exit, FindChild, GroupName, NameEq, Answers;
    if Exit(w.f, w.k, x, route).Is? {
      ExitFound(w.f, w.k, x, route);
      GroupAnswers(device, c, Exit(w.f, w.k, x, route).v);
    }
  }

  lemma {:induction false} FreeOpen(w: Site, device: bytes, names: seq<bytes>, x: nat, route: seq<bytes>)
    requires w.k < Total(w.f) && x < Total(w.f) && Reach(w.f, x, route) >= 0 && NoGroups(w, device)
    requires GroupNames(device, names) && Free(w, device, x, route)
    ensures forall n | n in names :: !Blocked(w.f, w.k, n, x, route)
  {
    hide NodeOf, Total, Reach, NoGroups, GroupName, Blocked, Free;
    forall n | n in names
      ensures !Blocked(w.f, w.k, n, x, route)
    {
      var c: Class :| Normal(c) && n == GroupName(device, c);
      GroupBlocks(w, device, c, x, route);
    }
  }

  /** Outside the subtree of the pin controller nothing is in the way. */
  lemma {:induction false} OutsideFree(w: Site, device: bytes, x: nat, route: seq<bytes>)
    requires w.k < Total(w.f) && x < Total(w.f)
    requires var t := Reach(w.f, x, route); t >= 0 && !(w.k < t <= w.k + Total(NodeOf(w.f, w.k).kids))
    ensures Free(w, device, x, route)
  {
    hide NodeOf, Total, Reach, Exit, Answers;
    if Exit(w.f, w.k, x, route).Is? {
      ExitFound(w.f, w.k, x, route);
    }
  }

  /** The path leads to the device; an alias it starts with is an absolute path, and not kept in the device. */
  ghost predicate Resolves(w: Site, path: bytes) {
    && ValidSite(w) && path != [] && PathIn(w.f, path) == w.d
    && (path[0] != SLASH ==>
          && Reach(w.f, 0, Route(ALIASES)) != w.d
          && match AliasIn(w.f, path[..NextSlash(path)])
             case NoVal => true
             case Is(v) => NulFrom(v, 0) < |v| && CString(v) != [] && CString(v)[0] == SLASH)
  }

  /** Nothing on the path is hidden by the new groups. */
  ghost predicate Open(w: Site, device: bytes, path: bytes)
    requires Resolves(w, path)
  {
    if path[0] == SLASH then Free(w, device, 0, Route(path))
    else
      && Free(w, device, 0, Route(ALIASES))
      && match AliasIn(w.f, path[..NextSlash(path)])
         case NoVal => true
         case Is(v) =>
           && Free(w, device, 0, Route(CString(v)))
           && var x := Reach(w.f, 0, Route(CString(v)));
           x >= 0 ==> Free(w, device, x, Route(path[NextSlash(path)..]))
  }

  ghost predicate Leads(w: Site, device: bytes, path: bytes) {
    Resolves(w, path) && Open(w, device, path) && NoGroups(w, device)
  }

  lemma {:induction false} AliasHolds(w: Site, st: State, g: Forest, device: bytes, name: bytes)
    requires Holds(w, st, g) && NoGroups(w, device) && GroupNames(device, st.names)
    requires Reach(w.f, 0, Route(ALIASES)) >= 0 && Reach(w.f, 0, Route(ALIASES)) != w.d && Free(w, device, 0, Route(ALIASES))
    ensures Total(g) > 0 && AliasIn(g, name) == AliasIn(w.f, name)
  {
    hide NodeOf, AddAll, Total, Reach, Route, ValueOf, NoGroups, GroupNames, Free, Blocked, Bare;
    FreeOpen(w, device, st.names, 0, Route(ALIASES));
    ReachHolds(w, st, g, 0, Route(ALIASES));
  }

  /** The same path still leads to the device. */
  lemma {:induction false} PathHolds(w: Site, st: State, g: Forest, device: bytes, path: bytes)
    requires Holds(w, st, g) && Leads(w, device, path) && GroupNames(device, st.names)
    ensures Total(g) > 0 && PathIn(g, path) == DeviceNode(w, st)
    ensures path[0] != SLASH ==> AliasIn(g, path[..NextSlash(path)]) == AliasIn(w.f, path[..NextSlash(path)])
  {
    hide NodeOf, AddAll, Total, Reach, Route, NextSlash, CString, NulFrom, AliasIn, Want, Bare, NoGroups, GroupNames, Free, Blocked;
    if path[0] == SLASH {
      FreeOpen(w, device, st.names, 0, Route(path));
      ReachHolds(w, st, g, 0, Route(path));
    } else {
      AliasThere(w, path);
      AliasHolds(w, st, g, device, path[..NextSlash(path)]);
      AliasLeads(w, st, g, device, path);
    }
  }

  lemma AliasThere(w: Site, path: bytes)
    requires Resolves(w, path) && path[0] != SLASH
    ensures Reach(w.f, 0, Route(ALIASES)) >= 0
  {
    hide NodeOf, Total, Reach, Route, NextSlash, CString, NulFrom, ValueOf;
  }

  lemma {:induction false} AliasLeads(w: Site, st: State, g: Forest, device: bytes, path: bytes)
    requires Holds(w, st, g) && Leads(w, device, path) && path[0] != SLASH && GroupNames(device, st.names)
    requires Total(g) > 0 && AliasIn(g, path[..NextSlash(path)]) == AliasIn(w.f, path[..NextSlash(path)])
    ensures PathIn(g, path) == DeviceNode(w, st)
  {
    hide NodeOf, AddAll, Total, Reach, Route, NextSlash, CString, NulFrom, AliasIn, Want, Bare, NoGroups, GroupNames, Free, Blocked;
    var v := AliasIn(w.f, path[..NextSlash(path)]).v;
    var x := Reach(w.f, 0, Route(CString(v)));
    var rest := Route(path[NextSlash(path)..]);
    FreeOpen(w, device, st.names, 0, Route(CString(v)));
    FreeOpen(w, device, st.names, x, rest);
    ReachHolds(w, st, g, 0, Route(CString(v)));
    ReachHolds(w, st, g, x, rest);
  }

  /** After the first group was added the device's absolute path leads to it if and only if the way is free; if it is not,
      it leads to the group or nowhere. */
  lemma {:induction false} HiddenDevice(w: Site, st: State, g: Forest, device: bytes, c: Class, path: bytes)
    requires Holds(w, st, g) && NoGroups(w, device) && Normal(c) && st.names == [GroupName(device, c)]
    requires Resolves(w, path) && path[0] == SLASH
    ensures Total(g) > 0
    ensures PathIn(g, path) == DeviceNode(w, st) <==> Open(w, device, path)
    ensures !Open(w, device, path) ==> PathIn(g, path) == NOTFOUND || PathIn(g, path) == GroupNode(w, st, 0)
  {
    hide NodeOf, Total, Reach, Route, Exit, NameEq, NoGroups, Want, Free, Blocked, AddChild, GroupName, AliasIn;
    var name, route := GroupName(device, c), Route(path);
    GroupBlocks(w, device, c, 0, route);
    ReachBare(w.f, 0, route);
    ReachBare(g, 0, route);
    BlockedBare(w.f, w.k, name, 0, route);
    OneAdded(Bare(w.f), w.k, name);
    ReachAdd(Bare(w.f), w.k, name, 0, route);
  }

  /** A root with the pin controller "p", and the node "m" of the device "m@1" below that. */
  function MatchingSite(): Site {
    Site(Tree([], [], Tree([112], [], Tree([109], [], Nil, Nil), Nil), Nil), 1, 2)
  }

  /** There "/p/m" leads to the device, no group is there yet, and the first one is in the way. */
  lemma {:induction false} MatchingHidden()
    ensures var w, device, path := MatchingSite(), [109, AT, 49], [SLASH, 112, SLASH, 109];
      Resolves(w, path) && NoGroups(w, device) && !Open(w, device, path)
  {
    hide Route, GroupName, Answers;
    var w, device, path := MatchingSite(), [109, AT, 49], [SLASH, 112, SLASH, 109];
    MatchingRoute(path);
    var kids := Tree([109], [], Nil, Nil);
    assert Total(Nil) == 0 && Total(kids) == 1 && Total(w.f) == 3 && NodeOf(w.f, 0) == w.f && NodeOf(w.f, 1).kids == kids;
    MatchingReach(w.f, [112], [109]);
    MatchingAnswers(device);
    forall c: Class | Normal(c)
      ensures FindChild(kids, GroupName(device, c)) == Absent
    {
      LongGroup(device, c);
    }
  }

  lemma MatchingRoute(path: bytes)
    requires path == [SLASH, 112, SLASH, 109]
    ensures Route(path) == [[112], [109]]
  {
    hide Route;
    assert path[0..] == path && path[1..] == [112] + [SLASH, 109] && [SLASH, 109][1..] == [109] + [] && [SLASH, 109][0..] == [SLASH, 109];
    RouteSlash(path, 0);
    RouteName([112], [SLASH, 109]);
    RouteSlash([SLASH, 109], 0);
    RouteName([109], []);
    RouteNone();
    assert [[112]] + ([[109]] + []) == [[112], [109]];
  }

  lemma RouteNone()
    ensures Route([]) == []
  {
  }

  lemma MatchingReach(f: Forest, a: bytes, b: bytes)
    requires f == Tree([], [], Tree(a, [], Tree(b, [], Nil, Nil), Nil), Nil)
    ensures Total(f) == 3 && Reach(f, 0, [a, b]) == 2 && Exit(f, 1, 0, [a, b]) == Is(b)
  {
    var kids := Tree(b, [], Nil, Nil);
    var p := Tree(a, [], kids, Nil);
    assert Total(Nil) == 0 && Total(kids) == 1 && Total(p) == 2;
    assert NodeOf(f, 0) == f && NodeOf(f, 1) == p;
    assert FindChild(p, a) == At(0) && FindChild(kids, b) == At(0);
    assert [a, b][1..] == [b] && [b][1..] == [];
    assert Reach(f, 2, []) == 2;
    assert Reach(f, 1, [b]) == 2;
  }

  lemma MatchingAnswers(device: bytes)
    requires device == [109, AT, 49]
    ensures Answers(device, [109])
  {
    assert [109] + [AT] == device[..2];
  }

  /** The child "m" does not answer to the longer name of a group. */
  lemma LongGroup(device: bytes, c: Class)
    requires |device| >= 1
    ensures !NameEq([109], GroupName(device, c))
  {
    hide PullTag, DriveTag;
    assert |GroupName(device, c)| >= 16;
  }

  lemma BlockedBare(f: Forest, k: nat, name: bytes, x: nat, route: seq<bytes>)
    requires x < Total(f)
    ensures Blocked(Bare(f), k, name, x, route) <==> Blocked(f, k, name, x, route)
  {
    hide Bare, Exit, NameEq, Total;
    ExitBare(f, k, x, route);
  }

  lemma OneAdded(f: Forest, k: nat, name: bytes)
    requires k < Total(f)
    ensures AddAll(f, k, [name]) == AddChild(f, k, name)
  {
    hide AddChild, Total;
    assert [name][..0] == [];
  }
}
