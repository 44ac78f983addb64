/** fdt_add_pinctrl_group (src/fdt_tools.c): the gpios of a device are put into groups below the pin
    controller, one group for each class, and the groups are registered with the device. The offsets of the
    pin controller and of the group are held across all the edits. */
module Pinctrl {
  import opened Bytes
  import opened Blob
  import opened Structure
  import opened Lexer
  import opened Nodes
  import opened Trees
  import opened Attrs
  import opened Walk
  import opened Lookup
  import opened Subnodes
  import opened Edits
  import opened Rw
  import opened RwNodes
  import opened Paths
  import opened PathLookup
  import opened Stores
  import opened Phandles
  import opened Shapes
  import opened Groups
  import opened Sites
  import opened Boards
  import opened Outcomes
  import opened Budgets

  /** The i-th node stands at offset. */
  ghost predicate Stands(top: Body, i: nat, offset: int) {
    i < Count(top) && offset == Off(top, i)
  }

  /** The blob holds the site's tree with the groups, the properties, the strings block and the free bytes of b. */
  ghost predicate Live(s: bytes, top: Body, w: Site, b: Board) {
    && Encodes(s, top) && Stands(top, 0, 0) && Holds(w, b.st, TreeOf(s, top))
    && View(s).strs == b.strs && Slack(Hdr(s)) == b.room
  }

  lemma {:induction false} KeepsStand(top: Body, top': Body, k: nat, i: nat, offset: int)
    requires KeepsUpTo(top, top', k) && Stands(top, i, offset) && i <= k
    ensures Stands(top', i, offset)
  {
    hide Count, Off;
  }

  lemma {:induction false} StandsTarget(s: bytes, top: Body, i: nat, offset: int)
    requires Encodes(s, top) && Stands(top, i, offset)
    ensures Target(View(s).stru, top, offset, i) && Total(TreeOf(s, top)) == Count(top)
  {
    hide Hdr, View, Encodes, Erase, Ordered, On, Count, Off, Target, Total;
    EncodesReady(s, top);
    NodeIsTarget(View(s).stru, top, offset, i);
    TreeCount(s, top);
  }

  lemma LiveParts(s: bytes, top: Body, w: Site, b: Board)
    requires Live(s, top, w, b)
    ensures Encodes(s, top) && Layout(s) && |s| >= HEADER_SIZE && Stands(top, 0, 0) && Holds(w, b.st, TreeOf(s, top))
    ensures View(s).strs == b.strs && Slack(Hdr(s)) == b.room
    ensures w.k < Total(w.f) && Even(b) && Total(TreeOf(s, top)) == Total(w.f) + |b.st.names|
  {
    hide Hdr, View, Erase, Off, Count, NodeOf, Total, Bare, AddAll, PropsOf;
  }

  lemma {:induction false} GroupIs(s: bytes, top: Body, w: Site, b: Board, j: nat)
    requires Live(s, top, w, b) && j < |b.st.groups|
    ensures Encodes(s, top) && Layout(s) && Even(b) && GroupNode(w, b.st, j) < Total(TreeOf(s, top))
    ensures StoreOf(s, top, GroupNode(w, b.st, j)) == GroupStore(b, j)
  {
    hide Hdr, View, Encodes, Erase, Ordered, Count, Off, Holds, Total, PropsOf, Stands, Slack, WithProps;
    LiveParts(s, top, w, b);
    HoldsGroup(w, b.st, TreeOf(s, top), j, []);
  }

  lemma {:induction false} DeviceIs(s: bytes, top: Body, w: Site, b: Board)
    requires Live(s, top, w, b)
    ensures Encodes(s, top) && Layout(s) && DeviceNode(w, b.st) < Total(TreeOf(s, top))
    ensures StoreOf(s, top, DeviceNode(w, b.st)) == DevStore(b)
  {
    hide Hdr, View, Encodes, Erase, Ordered, Count, Off, Holds, Total, PropsOf, Stands, Slack, WithProps;
    LiveParts(s, top, w, b);
    HoldsDevice(w, b.st, TreeOf(s, top), []);
  }

  /** Edits of a group's properties change that group on the board. */
  lemma {:induction false} GroupEdited(s: bytes, top: Body, s': bytes, top': Body, w: Site, b: Board, j: nat, a: Store)
    requires Live(s, top, w, b) && j < |b.st.groups| == |b.st.names| && Edited(s, top, s', top', GroupNode(w, b.st, j), a)
    ensures Live(s', top', w, WithGroup(b, j, a)) && KeepsUpTo(top, top', GroupNode(w, b.st, j))
  {
    hide Hdr, View, Encodes, Erase, Ordered, Count, Off, Holds, Total, PropsOf, Stands, Slack, WithProps, KeepsUpTo;
    LiveParts(s, top, w, b);
    HoldsGroup(w, b.st, TreeOf(s, top), j, a.props);
    KeepsStand(top, top', GroupNode(w, b.st, j), 0, 0);
  }

  lemma {:induction false} DeviceEdited(s: bytes, top: Body, s': bytes, top': Body, w: Site, b: Board, a: Store)
    requires Live(s, top, w, b) && Edited(s, top, s', top', DeviceNode(w, b.st), a)
    ensures Live(s', top', w, WithDev(b, a)) && KeepsUpTo(top, top', DeviceNode(w, b.st))
  {
    hide Hdr, View, Encodes, Erase, Ordered, Count, Off, Holds, Total, PropsOf, Stands, Slack, WithProps, KeepsUpTo;
    LiveParts(s, top, w, b);
    HoldsDevice(w, b.st, TreeOf(s, top), a.props);
    KeepsStand(top, top', DeviceNode(w, b.st), 0, 0);
  }

  /** A property of the j-th group is set or extended. */
  method PutGroup(fdt: array<byte>, offset: int, name: bytes, val: bytes, append: bool,
                  ghost w: Site, ghost b: Board, ghost top: Body, ghost j: nat)
    returns (err: int, ghost top': Body)
    requires Live(fdt[..], top, w, b) && j < |b.st.groups| == |b.st.names| && Stands(top, GroupNode(w, b.st, j), offset)
    requires name != [] && 0 !in name && |val| <= 56
    modifies fdt
    ensures var r := OnGroup(b, j, name, val, append);
      && Live(fdt[..], top', w, r.0) && err == r.1
      && GroupNode(w, r.0.st, j) == GroupNode(w, b.st, j)
    ensures KeepsUpTo(top, top', GroupNode(w, b.st, j)) && Stands(top', GroupNode(w, b.st, j), offset)
  {
    hide Hdr, View, Encodes, Erase, Ordered, Count, Off, Holds, Target, PutOn, Total, PropsOf, KeepsUpTo, Stands, Live, Edited, StoreOf, Slack;
    ghost var s, i := fdt[..], GroupNode(w, b.st, j);
    GroupIs(s, top, w, b, j);
    StandsTarget(s, top, i, offset);
    LiveParts(s, top, w, b);
    EncodesEditable(s, top);
    err, top' := PutProp(fdt, offset, name, val, append, top, i);
    GroupEdited(s, top, fdt[..], top', w, b, j, PutOn(GroupStore(b, j), name, val, append).0);
    KeepsStand(top, top', i, i, offset);
  }

  /** A property of the device is set or extended. */
  method PutDevice(fdt: array<byte>, offset: int, name: bytes, val: bytes, append: bool,
                   ghost w: Site, ghost b: Board, ghost top: Body)
    returns (err: int, ghost top': Body)
    requires Live(fdt[..], top, w, b) && Stands(top, DeviceNode(w, b.st), offset)
    requires name != [] && 0 !in name && |val| <= 56
    modifies fdt
    ensures var r := OnDevice(b, name, val, append);
      Live(fdt[..], top', w, r.0) && err == r.1
    ensures KeepsUpTo(top, top', DeviceNode(w, b.st))
  {
    hide Hdr, View, Encodes, Erase, Ordered, Count, Off, Holds, Target, PutOn, Total, PropsOf, KeepsUpTo, Stands, Live, Edited, StoreOf, Slack;
    ghost var s, i := fdt[..], DeviceNode(w, b.st);
    DeviceIs(s, top, w, b);
    StandsTarget(s, top, i, offset);
    LiveParts(s, top, w, b);
    EncodesEditable(s, top);
    err, top' := PutProp(fdt, offset, name, val, append, top, i);
    DeviceEdited(s, top, fdt[..], top', w, b, PutOn(DevStore(b), name, val, append).0);
  }

  /** The new group is the node's first child. */
  method AddGroup(fdt: array<byte>, pctrl: int, name: bytes, ghost w: Site, ghost b: Board, ghost top: Body)
    returns (r: int, ghost top': Body)
    requires Live(fdt[..], top, w, b) && Stands(top, w.k, pctrl)
    requires w.k < Total(TreeOf(fdt[..], top)) && FindChild(NodeOf(TreeOf(fdt[..], top), w.k).kids, name) == Absent
    requires name != [] && 0 !in name && |name| < 64
    modifies fdt
    ensures var a := AddNode(b, name);
      Live(fdt[..], top', w, a.0) && if a.1 == 0 then r >= 0 && Stands(top', w.k + 1, r) else r == a.1
    ensures Stands(top', w.k, pctrl)
  {
    hide Hdr, View, Encodes, Erase, Ordered, Count, Off, Holds, Target, Total, NodeOf, AddChild, RwErr, Grown, Shifted, FindChild, Align4,
      BeginSize, Slack;
    ghost var s := fdt[..];
    LiveParts(s, top, w, b);
    StandsTarget(s, top, w.k, pctrl);
    EncodesEditable(s, top);
    r, top' := RwNodes.AddSubnode(fdt, pctrl, name, top, w.k);
    HoldsAdd(w, b.st, TreeOf(s, top), name);
    AddedLive(s, fdt[..], top, top', pctrl, name, r, w, b);
  }

  lemma {:induction false} AddedLive(s: bytes, s': bytes, top: Body, top': Body, pctrl: int, name: bytes, r: int, w: Site, b: Board)
    requires Live(s, top, w, b) && Stands(top, w.k, pctrl)
    requires w.k < Total(TreeOf(s, top)) && FindChild(NodeOf(TreeOf(s, top), w.k).kids, name) == Absent
    requires Holds(w, NewGroupState(b.st, name), AddChild(TreeOf(s, top), w.k, name))
    requires w.k < Count(top) && ChildAdded(View(s), s', top, top', w.k, name, r)
    ensures var a := AddNode(b, name);
      Live(s', top', w, a.0) && if a.1 == 0 then r >= 0 && Stands(top', w.k + 1, r) else r == a.1
    ensures Stands(top', w.k, pctrl)
  {
    hide Hdr, View, Encodes, Erase, Ordered, Count, Off, Holds, Total, NodeOf, AddChild, RwErr, Grown, FindChild, Shifted, Slack,
      Stands, BeginSize, Size, Flat, Wf, Named, Blocks, Ready, On, Strings, CheckErr;
    LiveParts(s, top, w, b);
    EncodesReady(s, top);
    StringsFit(s);
    var v := View(s);
    if BeginSize(name) + 4 > Slack(v.hdr) {
      GrownTree(v, s', 0, top, v.strs);
      GrownStrings(v, s', 0, top, v.strs);
    } else {
      GrownTree(v, s', BeginSize(name) + 4, top', v.strs);
      GrownStrings(v, s', BeginSize(name) + 4, top', v.strs);
      ShiftStands(top, top', w.k, BeginSize(name) + 4, 0, 0);
      ShiftStands(top, top', w.k, BeginSize(name) + 4, w.k, pctrl);
      StandsAt(top', w.k + 1, r);
      OffNatural(top', w.k + 1);
    }
  }

  lemma {:induction false} ShiftStands(top: Body, top': Body, k: nat, delta: int, i: nat, offset: int)
    requires Shifted(top, top', k + 1, 0, 1, delta) && Stands(top, i, offset) && i <= k
    ensures Stands(top', i, offset)
  {
    hide Count, Off;
  }

  lemma {:induction false} StandsAt(top: Body, i: nat, offset: int)
    requires i < Count(top) && offset == Off(top, i)
    ensures Stands(top, i, offset)
  {
  }

  /** fdt_subnode_offset on a node of the tree. */
  method FindNode(fdt: array<byte>, parent: int, name: bytes, ghost top: Body, ghost k: nat) returns (r: int)
    requires Encodes(fdt[..], top) && Stands(top, k, parent) && name != [] && 0 !in name && |name| < 64
    ensures k < Total(TreeOf(fdt[..], top))
    ensures match FindChild(NodeOf(TreeOf(fdt[..], top), k).kids, name)
      case Absent => r == NOTFOUND
      case At(i) => Stands(top, k + 1 + i, r)
  {
    hide Hdr, View, Encodes, Erase, Ordered, Count, Off, Target, Total, NodeOf, RwErr, FindChild, FindKid, Ready, On, TagAt,
      BadNode, BeginSize, CheckErr;
    ghost var s := fdt[..];
    StandsTarget(s, top, k, parent);
    EncodesReady(s, top);
    ghost var st := View(s).stru;
    TargetRef(st, top, parent, k);
    KidsOf(top, k, View(s).strs, name);
    r := SubnodeOffset(fdt, parent, name, st, Here(top, Bottom, k));
    if r != NOTFOUND {
      FindKidNode(NodeAt(top, k).body, name);
      OffBelow(top, k, FindKid(NodeAt(top, k).body, name).pos);
    }
  }

  /** A path means the same in the blob and in its tree; an alias it starts with is an absolute path. */
  ghost predicate PathFits(f: Forest, path: bytes)
    requires Total(f) > 0
  {
    && path != [] && 0 !in path && |path| < TWO31 - 5
    && (path[0] != SLASH ==>
          match AliasIn(f, path[..NextSlash(path)])
          case NoVal => true
          case Is(v) => NulFrom(v, 0) < |v| && CString(v) != [] && CString(v)[0] == SLASH)
  }

  /** fdt_path_offset on the tree. */
  method FindPath(fdt: array<byte>, path: bytes, ghost top: Body) returns (r: int)
    requires Encodes(fdt[..], top) && Stands(top, 0, 0) && Total(TreeOf(fdt[..], top)) > 0 && PathFits(TreeOf(fdt[..], top), path)
    ensures var x := PathIn(TreeOf(fdt[..], top), path); if x < 0 then r == x else Stands(top, x, r)
  {
    hide Hdr, View, Encodes, Erase, Ordered, Count, Total, Ready, On, Strings, Named, Wf, PathIn, AliasIn, AliasOf,
      NodeOfPath, NextSlash, CString, NulFrom, CheckErr;
    ghost var s := fdt[..];
    EncodesReady(s, top);
    EncodesEditable(s, top);
    RootFirst(top);
    PathSame(top, View(s).strs, path);
    if path[0] != SLASH {
      AliasSame(top, View(s).strs, path[..NextSlash(path)]);
    }
    r := PathOffset(fdt, path, View(s).stru, View(s).strs, top);
  }

  lemma {:induction false} RootFirst(top: Body)
    requires Stands(top, 0, 0)
    ensures top.Sub?
  {
  }

  /** The device is found again after every edit. */
  method FindDevice(fdt: array<byte>, path: bytes, ghost w: Site, ghost device: bytes, ghost b: Board, ghost top: Body) returns (r: int)
    requires Live(fdt[..], top, w, b) && Leads(w, device, path) && GroupNames(device, b.st.names) && 0 !in path && |path| < TWO31 - 5
    ensures Stands(top, DeviceNode(w, b.st), r)
  {
    hide Hdr, View, Encodes, Erase, Ordered, Count, Off, Holds, Total, PathIn, AliasIn, NextSlash, CString, NulFrom, Reach, Route, NodeOf, Slack;
    LiveParts(fdt[..], top, w, b);
    PathHolds(w, b.st, TreeOf(fdt[..], top), device, path);
    r := FindPath(fdt, path, top);
  }

  /** What fdt_create_phandle makes of the j-th group. */
  lemma {:induction false} MadeLive(s: bytes, s': bytes, top: Body, top': Body, w: Site, b: Board, j: nat, r: u32)
    requires Live(s, top, w, b) && j < |b.st.names| == |b.st.groups| && PhandleMade(s, top, s', top', GroupNode(w, b.st, j), r)
    ensures w.k < Total(w.f) && Live(s', top', w, Give(w, b, j).0) && r == Give(w, b, j).1
    ensures KeepsUpTo(top, top', GroupNode(w, b.st, j))
  {
    hide Hdr, View, Encodes, Erase, Ordered, Count, Off, Holds, Total, KeepsUpTo, Slack, Phandle, NextPhandle, Live, Edited, SetBoth, Stands, Next;
    LiveParts(s, top, w, b);
    GroupIs(s, top, w, b, j);
    NextIs(w, b.st, TreeOf(s, top));
    KeepsSelf(top, GroupNode(w, b.st, j));
    if Phandle(b.st.groups[j]) == 0 {
      GroupEdited(s, top, s', top', w, b, j, SetBoth(GroupStore(b, j), Next(w, b.st)).0);
    }
  }

  /** fdt_create_phandle on the j-th group. */
  method MakePhandle(fdt: array<byte>, offset: int, ghost w: Site, ghost b: Board, ghost top: Body, ghost j: nat)
    returns (r: u32, ghost top': Body)
    requires Live(fdt[..], top, w, b) && j < |b.st.names| == |b.st.groups| && Stands(top, GroupNode(w, b.st, j), offset)
    modifies fdt
    ensures w.k < Total(w.f) && Live(fdt[..], top', w, Give(w, b, j).0) && r == Give(w, b, j).1
    ensures KeepsUpTo(top, top', GroupNode(w, b.st, j))
  {
    hide Hdr, View, Encodes, Erase, Ordered, Count, Off, Holds, Total, PropsOf, KeepsUpTo, Slack, Stands, PhandleMade, Target, Live, Give;
    ghost var s := fdt[..];
    LiveParts(s, top, w, b);
    StandsTarget(s, top, GroupNode(w, b.st, j), offset);
    r, top' := CreatePhandle(fdt, offset, top, GroupNode(w, b.st, j));
    MadeLive(s, fdt[..], top, top', w, b, j, r);
  }

  // ---------------------------------------------------------------------------
  // A new group
  // ---------------------------------------------------------------------------

  lemma KeepsLess(top: Body, top': Body, k: nat, i: nat)
    requires KeepsUpTo(top, top', k) && i <= k
    ensures KeepsUpTo(top, top', i)
  {
    hide Off, Count;
  }

  lemma GoodNames(n: nat)
    ensures DRIVE != [] && 0 !in DRIVE && PULL != [] && 0 !in PULL && FUNCTION != [] && 0 !in FUNCTION
    ensures PINS != [] && 0 !in PINS && NAMES != [] && 0 !in NAMES && |DEFAULT| <= 56
    ensures PinctrlName(n) != [] && 0 !in PinctrlName(n)
  {
  }

  /** The three properties a new group starts with; the code does not look at the results. */
  method FillGroup(fdt: array<byte>, offset: int, device: bytes, c: Class, ghost w: Site, ghost b: Board, ghost top: Body, ghost j: nat)
    returns (ghost top': Body)
    requires Live(fdt[..], top, w, b) && j < |b.st.names| == |b.st.groups| && Stands(top, GroupNode(w, b.st, j), offset)
    requires |device| <= 34
    modifies fdt
    ensures Live(fdt[..], top', w, Fill(b, j, device, c)) && KeepsUpTo(top, top', GroupNode(w, b.st, j))
  {
    hide Live, Holds, KeepsUpTo, Stands, Cell, OnGroup, DRIVE, PULL, FUNCTION, PinctrlName, GroupNode, PINS, NAMES, DEFAULT,
      Even, WithGroup;
    GoodNames(|device|);
    ghost var i := GroupNode(w, b.st, j);
    ghost var top1, top2;
    var err;
    err, top1 := PutGroup(fdt, offset, DRIVE, Cell(c.drive), false, w, b, top, j);
    ghost var b1 := OnGroup(b, j, DRIVE, Cell(c.drive), false).0;
    err, top2 := PutGroup(fdt, offset, PULL, Cell(c.pull), false, w, b1, top1, j);
    ghost var b2 := OnGroup(b1, j, PULL, Cell(c.pull), false).0;
    KeepsTrans(top, top1, top2, i);
    err, top' := PutGroup(fdt, offset, FUNCTION, device + [0], false, w, b2, top2, j);
    KeepsTrans(top, top2, top', i);
  }

  /** Every group comes before the device. */
  lemma SiteOrder(s: bytes, top: Body, w: Site, b: Board)
    requires Live(s, top, w, b)
    ensures w.k < Total(w.f) && Even(b)
    ensures forall j | 0 <= j < |b.st.names| :: w.k < GroupNode(w, b.st, j) < DeviceNode(w, b.st)
  {
    hide Hdr, View, Encodes, Erase, Off, Count, Bare, AddAll, PropsOf, NodeOf, Total;
  }

  /** The device is looked up anew and one of its properties set or extended; groups stay where they are. */
  method PutFound(fdt: array<byte>, parentPath: bytes, name: bytes, val: bytes, append: bool,
                  ghost w: Site, ghost device: bytes, ghost b: Board, ghost top: Body, ghost j: nat)
    returns (err: int, ghost top': Body)
    requires Live(fdt[..], top, w, b) && j < |b.st.names| == |b.st.groups|
    requires Leads(w, device, parentPath) && GroupNames(device, b.st.names) && 0 !in parentPath && |parentPath| < TWO31 - 5
    requires name != [] && 0 !in name && |val| <= 56
    modifies fdt
    ensures var r := OnDevice(b, name, val, append);
      Live(fdt[..], top', w, r.0) && err == r.1
    ensures KeepsUpTo(top, top', GroupNode(w, b.st, j))
  {
    hide Live, Holds, KeepsUpTo, Stands, OnDevice, Hdr, Leads, Encodes, View, Erase;
    SiteOrder(fdt[..], top, w, b);
    var parentOffset := FindDevice(fdt, parentPath, w, device, b, top);
    err, top' := PutDevice(fdt, parentOffset, name, val, append, w, b, top);
    KeepsLess(top, top', DeviceNode(w, b.st), GroupNode(w, b.st, j));
  }

  /** The group gets a phandle, and the device its name and its phandle; results are not looked at. */
  method RegisterGroup(fdt: array<byte>, offset: int, parentPath: bytes, ngroup: nat, ghost w: Site, ghost device: bytes, ghost b: Board,
                       ghost top: Body, ghost j: nat)
    returns (ghost top': Body)
    requires Live(fdt[..], top, w, b) && j < |b.st.names| == |b.st.groups| && Stands(top, GroupNode(w, b.st, j), offset)
    requires Leads(w, device, parentPath) && GroupNames(device, b.st.names) && 0 !in parentPath && |parentPath| < TWO31 - 5
    modifies fdt
    ensures w.k < Total(w.f) && Live(fdt[..], top', w, Register(w, b, j, ngroup)) && KeepsUpTo(top, top', GroupNode(w, b.st, j))
  {
    hide Live, Holds, KeepsUpTo, Stands, Cell, OnDevice, Give, Leads, GroupNames, NAMES, DEFAULT, Total;
    GoodNames(ngroup);
    SiteOrder(fdt[..], top, w, b);
    ghost var i := GroupNode(w, b.st, j);
    ghost var top1, top2;
    var err;
    err, top1 := PutFound(fdt, parentPath, NAMES, DEFAULT, true, w, device, b, top, j);
    ghost var b1 := OnDevice(b, NAMES, DEFAULT, true).0;
    KeepsStand(top, top1, i, i, offset);
    var prop := Cat(PINCTRL, (48 + ngroup) % 0x100);
    var phandle;
    phandle, top2 := MakePhandle(fdt, offset, w, b1, top1, j);
    ghost var b2 := Give(w, b1, j).0;
    KeepsTrans(top, top1, top2, i);
    err, top' := PutFound(fdt, parentPath, prop, Cell(phandle), false, w, device, b2, top2, j);
    KeepsTrans(top, top2, top', i);
  }

  /** A group that is missing is added, filled and registered. */
  method MakeGroup(fdt: array<byte>, pctrl: int, c: Class, device: bytes, parentPath: bytes, ngroup: nat,
                   ghost w: Site, ghost b: Board, ghost top: Body)
    returns (r: int, ghost top': Body)
    requires Live(fdt[..], top, w, b) && Stands(top, w.k, pctrl) && |b.st.names| == |b.st.groups| == ngroup
    requires w.k < Total(TreeOf(fdt[..], top)) && FindChild(NodeOf(TreeOf(fdt[..], top), w.k).kids, GroupName(device, c)) == Absent
    requires 0 !in device && |device| <= 34 && Normal(c)
    requires Leads(w, device, parentPath) && GroupNames(device, b.st.names) && 0 !in parentPath && |parentPath| < TWO31 - 5
    modifies fdt
    ensures w.k < Total(w.f)
    ensures var a := NewGroup(w, b, device, c);
      Live(fdt[..], top', w, a.0) && if a.1 == 0 then r >= 0 && Stands(top', w.k + 1, r) else r == a.1
    ensures Stands(top', w.k, pctrl)
  {
    hide Live, Holds, KeepsUpTo, Stands, Cell, Hdr, Leads, Encodes, View, Erase, Total, NodeOf, FindChild, TreeOf, AddNode, Fill, Register,
      GroupName, GroupNames;
    SiteOrder(fdt[..], top, w, b);
    NameShort(device, c);
    var name := GroupName(device, c);
    r, top' := AddGroup(fdt, pctrl, name, w, b, top);
    NodeSizes(b, name);
    GroupNamesMore(device, b.st.names, c);
    if r < 0 {
      return;
    }
    ghost var k, b1, top1 := w.k, AddNode(b, name).0, top';
    ghost var top2;
    top2 := FillGroup(fdt, r, device, c, w, b1, top1, ngroup);
    ghost var b2 := Fill(b1, ngroup, device, c);
    KeepsStand(top1, top2, k + 1, k + 1, r);
    KeepsStand(top1, top2, k + 1, k, pctrl);
    top' := RegisterGroup(fdt, r, parentPath, ngroup, w, device, b2, top2, ngroup);
    KeepsStand(top2, top', k + 1, k + 1, r);
    KeepsStand(top2, top', k + 1, k, pctrl);
  }

  lemma GroupNamesMore(device: bytes, names: seq<bytes>, c: Class)
    requires GroupNames(device, names) && Normal(c)
    ensures GroupNames(device, names + [GroupName(device, c)])
  {
    hide GroupName, Normal;
  }

  lemma NodeSizes(b: Board, name: bytes)
    requires Even(b)
    ensures var a := AddNode(b, name);
      && Even(a.0) && (a.1 == 0 || (a.1 == NOSPACE && a.0 == b))
      && (a.1 == 0 ==> a.0.st.names == b.st.names + [name])
  {
    hide BeginSize;
  }

  lemma NameShort(device: bytes, c: Class)
    requires 0 !in device && |device| <= 34
    ensures var n := GroupName(device, c); n != [] && 0 !in n && |n| < 64
  {
  }

  // ---------------------------------------------------------------------------
  // One gpio
  // ---------------------------------------------------------------------------

  /** The name of a gpio's group; pull and drive values without a name are cleared in the array. */
  method BuildName(gpios: array<Gpio>, i: nat, device: bytes) returns (name: bytes)
    requires i < gpios.Length
    modifies gpios
    ensures name == GroupName(device, ClassOf(old(gpios[i])))
    ensures var pull, drive := old(gpios[i]).pull, old(gpios[i]).drive;
      name == device + Ascii("_pins_babelfish") +
              ((if pull == 1 then Ascii("_pullup") else if pull == 2 then Ascii("_pulldown") else []) +
               (if drive == 1 then Ascii("_20mA") else if drive == 2 then Ascii("_30mA") else if drive == 3 then Ascii("_40mA") else []))
    ensures gpios[..] == old(gpios[..])[i := Norm(old(gpios[i]))]
  {
    hide Ascii;
    ghost var was := gpios[i];
    ghost var c := ClassOf(was);
    GroupText(device, was);
    var base := device + PINS_TAG;
    name := base;
    if gpios[i].pull == 1 {
      name := name + PULLUP;
    } else if gpios[i].pull == 2 {
      name := name + PULLDOWN;
    } else {
      gpios[i] := gpios[i].(pull := 0);
    }
    assert name == base + PullTag(c.pull) && gpios[i] == was.(pull := c.pull);
    if gpios[i].drive == 1 {
      name := name + MA20;
    } else if gpios[i].drive == 2 {
      name := name + MA30;
    } else if gpios[i].drive == 3 {
      name := name + MA40;
    } else {
      gpios[i] := gpios[i].(drive := 0);
    }
    assert name == base + PullTag(c.pull) + DriveTag(c.drive);
    Assoc(base, PullTag(c.pull), DriveTag(c.drive));
  }

  /** The groups stand for the classes cs, in their order. */
  ghost predicate Classed(w: Site, device: bytes, cs: seq<Class>, st: State) {
    && ValidSite(w) && NoGroups(w, device) && |st.groups| == |st.names| && st.names == NamesOf(device, cs)
    && Distinct(cs) && forall i | 0 <= i < |cs| :: Normal(cs[i])
  }

  lemma {:induction false} ClassedMore(w: Site, device: bytes, cs: seq<Class>, st: State, c: Class, st': State)
    requires Classed(w, device, cs, st) && Normal(c) && |st'.groups| == |st'.names|
    requires st'.names == st.names + if c in cs then [] else [GroupName(device, c)]
    ensures Classed(w, device, Including(cs, c), st')
  {
    hide GroupName, NoGroups, ValidSite;
  }

  lemma {:induction false} ClassedFind(w: Site, device: bytes, cs: seq<Class>, st: State, g: Forest, c: Class)
    requires Classed(w, device, cs, st) && Holds(w, st, g) && Normal(c)
    ensures w.k < Total(g) && |cs| == |st.names| == |st.groups|
    ensures var r := FindChild(NodeOf(g, w.k).kids, GroupName(device, c));
      if c in cs then r == At(|cs| - 1 - Place(cs, c)) else r == Absent
  {
    hide NodeOf, Total, FindChild, GroupName, AddAll, Holds, NoGroups;
    FindGroup(w, st, g, device, cs, c);
  }

  lemma {:induction false} ClassedNames(w: Site, device: bytes, cs: seq<Class>, st: State)
    requires Classed(w, device, cs, st)
    ensures GroupNames(device, st.names)
  {
    hide GroupName, NoGroups, ValidSite, Normal;
    forall n | n in st.names
      ensures exists c: Class :: Normal(c) && n == GroupName(device, c)
    {
      var i :| 0 <= i < |st.names| && st.names[i] == n;
      assert n == GroupName(device, cs[i]);
    }
  }

  lemma ClassedSizes(w: Site, device: bytes, cs: seq<Class>, st: State)
    requires Classed(w, device, cs, st)
    ensures w.k < Total(w.f) && |cs| == |st.names| == |st.groups|
  {
    hide NoGroups, GroupName, NodeOf, Total;
  }

  /** The group of class c is found, or added. */
  method EnsureGroup(fdt: array<byte>, pctrl: int, name: bytes, c: Class, device: bytes, parentPath: bytes, ngroup: nat,
                     ghost w: Site, ghost b: Board, ghost cs: seq<Class>, ghost top: Body)
    returns (r: int, ngroup': nat, ghost top': Body)
    requires Live(fdt[..], top, w, b) && Stands(top, w.k, pctrl) && Classed(w, device, cs, b.st) && |cs| == ngroup
    requires Normal(c) && name == GroupName(device, c) && 0 !in device && |device| <= 34
    requires Leads(w, device, parentPath) && 0 !in parentPath && |parentPath| < TWO31 - 5
    modifies fdt
    ensures w.k < Total(w.f) && Even(b) && |cs| == |b.st.names| && Stands(top', w.k, pctrl)
    ensures var a := Ensure(w, b, device, cs, c);
      && Live(fdt[..], top', w, a.0)
      && if a.1 != 0 then r == a.1
         else
           && ngroup' == |Including(cs, c)| == |a.0.st.names|
           && Stands(top', GroupNode(w, a.0.st, Place(Including(cs, c), c)), r) && r >= 0
  {
    hide Live, Holds, Stands, Hdr, Leads, Encodes, View, Erase, NodeOf, FindChild, Total, TreeOf, GroupName, Classed, Normal, NewGroup;
    ngroup', top' := ngroup, top;
    LiveParts(fdt[..], top, w, b);
    ClassedFind(w, device, cs, b.st, TreeOf(fdt[..], top), c);
    ClassedSizes(w, device, cs, b.st);
    NameShort(device, c);
    r := FindNode(fdt, pctrl, name, top, w.k);
    if c in cs {
      StandsNatural(top, GroupNode(w, b.st, Place(cs, c)), r);
    } else {
      PlaceNew(cs, c);
    }
    if r < 0 {
      ClassedNames(w, device, cs, b.st);
      r, top' := MakeGroup(fdt, pctrl, c, device, parentPath, ngroup, w, b, top);
      if r < 0 {
        return;
      }
      ngroup' := ngroup + 1;
    }
  }

  lemma StandsNatural(top: Body, i: nat, offset: int)
    requires Stands(top, i, offset)
    ensures offset >= 0
  {
    hide Off, Count;
  }

  /** The string of a gpio's pin, put together character by character. */
  method PinString(g: Gpio) returns (pin: bytes)
    ensures pin == Pin(g)
    ensures 1 <= g.port <= 26 && g.portNum < 100 ==>
      |pin| == 4 && pin[0] == 80 && pin[1] - 64 == g.port && 10 * (pin[2] - 48) + (pin[3] - 48) == g.portNum
  {
    pin := [80];
    var idx: byte := (65 + g.port - 1) % TWO32 % 0x100;
    pin := Cat(pin, idx);
    idx := (48 + g.portNum / 10) % 0x100;
    pin := Cat(pin, idx);
    idx := (48 + g.portNum % 10) % 0x100;
    pin := Cat(pin, idx);
  }

  lemma ClassNormal(g: Gpio)
    ensures Normal(ClassOf(g)) && ClassOf(Norm(g)) == ClassOf(g) && Pin(Norm(g)) == Pin(g)
  {
  }

  /** The part of the loop of fdt_add_pinctrl_group for the i-th gpio; the groups so far are those of cs. */
  method AddGpio(fdt: array<byte>, pctrl: int, gpios: array<Gpio>, i: nat, device: bytes, parentPath: bytes, ngroup: nat,
                 ghost w: Site, ghost b: Board, ghost cs: seq<Class>, ghost top: Body)
    returns (r: int, ngroup': nat, ghost top': Body)
    requires Live(fdt[..], top, w, b) && Stands(top, w.k, pctrl) && Classed(w, device, cs, b.st) && ngroup == |cs|
    requires i < gpios.Length && 0 !in device && |device| <= 34
    requires Leads(w, device, parentPath) && 0 !in parentPath && |parentPath| < TWO31 - 5
    modifies fdt, gpios
    ensures gpios[..] == old(gpios[..])[i := Norm(old(gpios[i]))]
    ensures w.k < Total(w.f) && Even(b) && |cs| == |b.st.names|
    ensures var (b', err) := Handle(w, b, device, cs, old(gpios[i]));
      && Live(fdt[..], top', w, b') && (if err < 0 then r == err else r == err == 0)
      && (err == 0 ==>
            && Stands(top', w.k, pctrl) && ngroup' == |Including(cs, ClassOf(old(gpios[i])))|
            && Classed(w, device, Including(cs, ClassOf(old(gpios[i]))), b'.st))
  {
    hide Live, Holds, Stands, Hdr, Leads, Encodes, View, Erase, GroupName, Classed, NewProps, KeepsUpTo, Pin, Normal, PINS, Ensure,
      OnGroup, Total;
    ghost var g, c := gpios[i], ClassOf(gpios[i]);
    ClassNormal(g);
    GoodNames(i);
    LiveParts(fdt[..], top, w, b);
    ClassedSizes(w, device, cs, b.st);
    var name := BuildName(gpios, i, device);
    var offset;
    ghost var top1;
    offset, ngroup', top1 := EnsureGroup(fdt, pctrl, name, ClassOf(gpios[i]), device, parentPath, ngroup, w, b, cs, top);
    ghost var b1 := Ensure(w, b, device, cs, c).0;
    top' := top1;
    if offset < 0 {
      return offset, ngroup', top1;
    }
    var pin := PinString(gpios[i]);
    ghost var j := Place(Including(cs, c), c);
    var err;
    err, top' := PutGroup(fdt, offset, PINS, pin + [0], true, w, b1, top1, j);
    KeepsStand(top1, top', GroupNode(w, b1.st, j), w.k, pctrl);
    ClassedMore(w, device, cs, b.st, c, OnGroup(b1, j, PINS, Pin(g) + [0], true).0.st);
    r := 0;
  }

  // ---------------------------------------------------------------------------
  // All gpios
  // ---------------------------------------------------------------------------

  /** The site that the two paths name. */
  function SiteOf(f: Forest, pinctrlPath: bytes, parentPath: bytes): Site
    requires Total(f) > 0 && pinctrlPath != [] && parentPath != []
    requires PathIn(f, pinctrlPath) >= 0 && PathIn(f, parentPath) >= 0
  {
    Site(f, PathIn(f, pinctrlPath), PathIn(f, parentPath))
  }

  /** The board before the first gpio. */
  function FirstBoard(s: bytes, w: Site): (b: Board)
    requires Layout(s) && w.d < Total(w.f)
    ensures Even(b) && b.st.names == []
  {
    Board(State([], [], PropsOf(w.f, w.d)), View(s).strs, Slack(Hdr(s)))
  }

  /** What a caller sees to: the paths are proper; the device comes behind the pin controller and is none of
      its subnodes; there are no groups of the device yet. */
  ghost predicate Suited(f: Forest, pinctrlPath: bytes, parentPath: bytes, device: bytes) {
    && Total(f) > 0 && PathFits(f, pinctrlPath) && PathFits(f, parentPath)
    && (PathIn(f, pinctrlPath) >= 0 ==>
          && PathIn(f, parentPath) >= 0
          && var w := SiteOf(f, pinctrlPath, parentPath);
          Leads(w, device, parentPath) && NoGroups(w, device))
  }

  /** The first m gpios of the array have been normalised. */
  ghost predicate Cleared(gpios: seq<Gpio>, gs: seq<Gpio>, m: nat) {
    m <= |gs| && gpios == NormAll(gs[..m]) + gs[m..]
  }

  lemma ClearedNext(gpios: seq<Gpio>, gs: seq<Gpio>, m: nat)
    requires Cleared(gpios, gs, m) && m < |gs|
    ensures |gpios| == |gs| && gpios[m] == gs[m] && Cleared(gpios[m := Norm(gpios[m])], gs, m + 1)
    ensures gs[..m] + [gs[m]] == gs[..m + 1]
  {
    hide Norm;
  }

  /** fdt_add_pinctrl_group. The blob ends up with the tree, the strings block and the free bytes of the board that All
      computes, and the result is its result, with or without room: only the groups and the device's properties have
      changed, and gpios that were looked at have been normalised. It returns 0 with all groups as they should be
      if and only if the free bytes cover what is needed. */
  method AddPinctrlGroup(fdt: array<byte>, pinctrlPath: bytes, parentPath: bytes, gpios: array<Gpio>, device: bytes, ghost top: Body)
    returns (r: int, ghost top': Body)
    requires Encodes(fdt[..], top) && Stands(top, 0, 0) && Suited(TreeOf(fdt[..], top), pinctrlPath, parentPath, device)
    requires 0 !in device && |device| <= 34
    modifies fdt, gpios
    ensures var f, gs := old(TreeOf(fdt[..], top)), old(gpios[..]);
      if PathIn(f, pinctrlPath) < 0 then r == PathIn(f, pinctrlPath) && fdt[..] == old(fdt[..]) && gpios[..] == gs
      else
        var w := SiteOf(f, pinctrlPath, parentPath);
        var a := All(w, FirstBoard(old(fdt[..]), w), device, gs);
        && Live(fdt[..], top', w, a.0) && r == a.1
        && Cleared(gpios[..], gs, if r == 0 then |gs| else a.2 + 1)
        && (r == 0 && (exists phs :: Filled(w, device, gs, Order(gs), phs, a.0.st)) <==>
            Needed(old(View(fdt[..]).strs), PropsOf(f, w.d), device, gs) <= old(Slack(Hdr(fdt[..]))))
  {
    hide Live, Holds, Stands, Hdr, Leads, Encodes, View, Erase, Order, Norm, Cleared, PathIn, Total, NoGroups, Classed, NamesOf,
      NodeOf, PathFits, All, Handle, Slack, PropsOf, ClassOf, Including,
      Filled, Needed;
    top' := top;
    EncodesLayout(fdt[..], top);
    ghost var f := TreeOf(fdt[..], top);
    SuitedParts(f, pinctrlPath, parentPath, device);
    r := FindPath(fdt, pinctrlPath, top);
    if r < 0 {
      if PathIn(f, pinctrlPath) >= 0 {
        StandsNatural(top, PathIn(f, pinctrlPath), r);
      }
      return;
    }
    ghost var gs, w, s0 := gpios[..], SiteOf(f, pinctrlPath, parentPath), fdt[..];
    Begin(s0, top, w, parentPath, device);
    NothingCleared(gs);
    ghost var b0 := FirstBoard(s0, w);
    ghost var b := b0;
    SpaceNeeded(w, b0, device, gs);
    var pctrl := r;
    var ngroup, i := 0, 0;
    while i < gpios.Length
      invariant 0 <= i <= gpios.Length == |gs| && Cleared(gpios[..], gs, i)
      invariant Live(fdt[..], top', w, b) && Stands(top', w.k, pctrl) && Classed(w, device, Order(gs[..i]), b.st)
      invariant ngroup == |Order(gs[..i])| && All(w, b0, device, gs[..i]) == (b, 0, i)
    {
      ClearedNext(gpios[..], gs, i);
      AllMore(w, b0, device, gs[..i], gs[i]);
      OrderMore(gs[..i], gs[i]);
      r, ngroup, top' := AddGpio(fdt, pctrl, gpios, i, device, parentPath, ngroup, w, b, Order(gs[..i]), top');
      ghost var b' := Handle(w, b, device, Order(gs[..i]), gs[i]).0;
      b := b';
      if r < 0 {
        AllStuck(w, b0, device, gs, i + 1);
        return;
      }
      i := i + 1;
    }
    assert gs[..i] == gs;
    return 0, top';
  }

  lemma {:induction false} Begin(s: bytes, top: Body, w: Site, path: bytes, device: bytes)
    requires Encodes(s, top) && Stands(top, 0, 0) && w.f == TreeOf(s, top) && Leads(w, device, path) && w.k < Total(w.f) && NoGroups(w, device)
    ensures ValidSite(w) && w.d < Total(w.f) && Layout(s)
    ensures Live(s, top, w, FirstBoard(s, w)) && Classed(w, device, Order([]), FirstBoard(s, w).st)
    ensures All(w, FirstBoard(s, w), device, []) == (FirstBoard(s, w), 0, 0)
    ensures Slack(Hdr(s)) >= 0
  {
    hide Hdr, View, Erase, Holds, PathIn, AliasIn, Encodes, Off, Count, NodeOf, Total, Slack;
    EncodesReady(s, top);
    StringsFit(s);
    HoldsStart(w);
  }

  lemma EncodesLayout(s: bytes, top: Body)
    requires Encodes(s, top)
    ensures Layout(s) && |s| >= HEADER_SIZE
  {
    hide Hdr, View;
  }

  lemma SuitedParts(f: Forest, pinctrlPath: bytes, parentPath: bytes, device: bytes)
    requires Suited(f, pinctrlPath, parentPath, device)
    ensures Total(f) > 0 && pinctrlPath != [] && PathFits(f, pinctrlPath)
    ensures parentPath != [] && 0 !in parentPath && |parentPath| < TWO31 - 5
    ensures PathIn(f, pinctrlPath) >= 0 ==>
              && PathIn(f, parentPath) >= 0
              && var w := SiteOf(f, pinctrlPath, parentPath);
              w.f == f && w.k < Total(f) && w.d < Total(f) && Leads(w, device, parentPath) && NoGroups(w, device)
  {
    hide PathIn, Total, AliasIn, Leads, NoGroups;
  }

  lemma NothingCleared(gs: seq<Gpio>)
    ensures Cleared(gs, gs, 0) && gs[..0] == []
  {
    assert NormAll(gs[..0]) + gs[0..] == gs;
  }

  // ---------------------------------------------------------------------------
  // A device in front of the pin controller
  // ---------------------------------------------------------------------------

  /** Why the device has to come behind the pin controller: after an edit of the d-th node that moves the nodes behind
      it, the held offset of such a node denotes the i-th node exactly when that one was as far in front of it. */
  lemma {:induction false} HeldOffset(top: Body, top': Body, d: nat, delta: int, k: nat, i: nat)
    requires MovedBy(top, top', d, delta) && d < k < Count(top) && i < Count(top)
    ensures Stands(top', i, Off(top, k)) <==> d < i && Off(top, i) == Off(top, k) - delta
  {
    hide Off, Count;
    if i <= d {
      OffMonotone(top, i, k);
    }
  }

  /** What the loop then does with a held offset of a group that denotes no node: the group gets no phandle, and no pin. */
  method StaleGroup(fdt: array<byte>, offset: int, pin: bytes, ghost top: Body) returns (phandle: u32, err: int)
    requires Encodes(fdt[..], top) && Target(View(fdt[..]).stru, top, offset, -1) && |pin| <= 4
    modifies fdt
    ensures phandle == 0 && err == BADOFFSET
    ensures Encodes(fdt[..], top) && TreeOf(fdt[..], top) == old(TreeOf(fdt[..], top))
  {
    hide Hdr, View, Encodes, Erase, Ordered, Total, PropsOf, PhandleMade, Target, PINS;
    GoodNames(|pin|);
    EncodesReady(fdt[..], top);
    ghost var top1;
    phandle, top1 := CreatePhandle(fdt, offset, top, -1);
    EncodesReady(fdt[..], top);
    EncodesEditable(fdt[..], top);
    err, top1 := PutProp(fdt, offset, PINS, pin + [0], true, top, -1);
  }

  /** And with that of the pin controller: the group of the next gpio is not found and cannot be added, which ends the loop. */
  method StaleController(fdt: array<byte>, pctrl: int, name: bytes, ghost top: Body) returns (found: int, r: int)
    requires Encodes(fdt[..], top) && Target(View(fdt[..]).stru, top, pctrl, -1) && pctrl >= 0
    requires name != [] && 0 !in name && |name| < 64
    modifies fdt
    ensures found == r == BADOFFSET
    ensures Encodes(fdt[..], top) && TreeOf(fdt[..], top) == old(TreeOf(fdt[..], top))
  {
    hide Hdr, View, Encodes, Erase, Ordered, Total, Target, Ready, On, TagAt, BadNode, RwErr, CheckErr, FindKid, Grown;
    ghost var s := fdt[..];
    EncodesReady(s, top);
    EncodesEditable(s, top);
    TargetRef(View(s).stru, top, pctrl, -1);
    found := SubnodeOffset(fdt, pctrl, name, View(s).stru, Bottom);
    ghost var top1;
    r, top1 := RwNodes.AddSubnode(fdt, pctrl, name, top, -1);
    GrownTree(View(s), fdt[..], 0, top, View(s).strs);
  }
}
