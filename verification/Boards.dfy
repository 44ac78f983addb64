/** fdt_add_pinctrl_group as a function (src/fdt_tools.c): what it makes of the groups, the device's properties,
    the strings block and the free bytes, with or without enough room. */
module Boards {
  import opened Bytes
  import opened Structure
  import opened Trees
  import opened Blob
  import opened Rw
  import opened Stores
  import opened Phandles
  import opened Shapes
  import opened Groups
  import opened Sites

  /** The groups and the device, the strings block, and the free bytes. */
  datatype Board = Board(st: State, strs: bytes, room: int)

  predicate Even(b: Board) {
    |b.st.groups| == |b.st.names|
  }

  function SetGroup(st: State, j: nat, ps: seq<PropVal>): State
    requires j < |st.groups|
  {
    st.(groups := st.groups[j := ps])
  }

  function GroupStore(b: Board, j: nat): Store
    requires j < |b.st.groups|
  {
    Store(b.st.groups[j], b.strs, b.room)
  }

  function WithGroup(b: Board, j: nat, a: Store): (r: Board)
    requires j < |b.st.groups|
    ensures r.st.names == b.st.names && |r.st.groups| == |b.st.groups| && r.st.dev == b.st.dev
  {
    Board(SetGroup(b.st, j, a.props), a.strs, a.room)
  }

  function DevStore(b: Board): Store {
    Store(b.st.dev, b.strs, b.room)
  }

  function WithDev(b: Board, a: Store): (r: Board)
    ensures r.st.names == b.st.names && r.st.groups == b.st.groups
  {
    Board(b.st.(dev := a.props), a.strs, a.room)
  }

  /** A property of the j-th group, or of the device, is set or extended. */
  function OnGroup(b: Board, j: nat, name: bytes, val: bytes, append: bool): (r: (Board, int))
    requires j < |b.st.groups|
    ensures r.0.st.names == b.st.names && |r.0.st.groups| == |b.st.groups| && r.0.st.dev == b.st.dev
  {
    var (a, err) := PutOn(GroupStore(b, j), name, val, append);
    (WithGroup(b, j, a), err)
  }

  function OnDevice(b: Board, name: bytes, val: bytes, append: bool): (r: (Board, int))
    ensures r.0.st.names == b.st.names && r.0.st.groups == b.st.groups
  {
    var (a, err) := PutOn(DevStore(b), name, val, append);
    (WithDev(b, a), err)
  }

  /** A new node of this name, if it fits. */
  function AddNode(b: Board, name: bytes): (Board, int) {
    if BeginSize(name) + 4 > b.room then (b, NOSPACE)
    else (Board(NewGroupState(b.st, name), b.strs, b.room - (BeginSize(name) + 4)), 0)
  }

  /** The three properties of a new group; results are not looked at. */
  function Fill(b: Board, j: nat, device: bytes, c: Class): (r: Board)
    requires j < |b.st.groups|
    ensures r.st.names == b.st.names && |r.st.groups| == |b.st.groups| && r.st.dev == b.st.dev
  {
    var b1 := OnGroup(b, j, DRIVE, Cell(c.drive), false).0;
    var b2 := OnGroup(b1, j, PULL, Cell(c.pull), false).0;
    OnGroup(b2, j, FUNCTION, device + [0], false).0
  }

  /** The largest of the phandles of the first n nodes, as ints; at least 0. */
  function WantMax(w: Site, st: State, n: nat): (m: int)
    requires w.k < Total(w.f) && |st.groups| == |st.names| && n <= Total(w.f) + |st.names|
    ensures 0 <= m < TWO31
  {
    if n == 0 then 0
    else
      var m, v := WantMax(w, st, n - 1), Signed(Phandle(Want(w, st, n - 1)));
      if v > m then v else m
  }

  lemma {:induction false} WantMost(w: Site, st: State, n: nat)
    requires w.k < Total(w.f) && |st.groups| == |st.names| && n <= Total(w.f) + |st.names|
    ensures forall i | 0 <= i < n :: Signed(Phandle(Want(w, st, i))) <= WantMax(w, st, n)
    ensures WantMax(w, st, n) > 0 ==> exists i | 0 <= i < n :: Phandle(Want(w, st, i)) == WantMax(w, st, n)
  {
    hide Phandle, Want, Total, PropsOf;
    if n > 0 {
      WantMost(w, st, n - 1);
    }
  }

  /** The phandle that the next node without one gets. */
  function Next(w: Site, st: State): (v: u32)
    requires w.k < Total(w.f) && |st.groups| == |st.names|
    ensures v > 0
  {
    After(WantMax(w, st, Total(w.f) + |st.names|))
  }

  lemma {:induction false} WantMaxIs(w: Site, st: State, g: Forest, n: nat)
    requires Holds(w, st, g) && n <= Total(g)
    ensures w.k < Total(w.f) && |st.groups| == |st.names| && Total(g) == Total(w.f) + |st.names|
    ensures WantMax(w, st, n) == MaxPhandle(g, n)
    decreases n
  {
    hide Bare, AddAll, NodeOf, Total, Phandle, Want, PropsOf;
    if n > 0 {
      WantMaxIs(w, st, g, n - 1);
      assert PropsOf(g, n - 1) == Want(w, st, n - 1);
    }
  }

  /** fdt_alloc_phandle finds it in the tree. */
  lemma {:induction false} NextIs(w: Site, st: State, g: Forest)
    requires Holds(w, st, g)
    ensures w.k < Total(w.f) && |st.groups| == |st.names| && Next(w, st) == NextPhandle(g)
  {
    hide WantMax, MaxPhandle, After, Bare, AddAll, NodeOf, Total, Want, PropsOf;
    WantMaxIs(w, st, g, Total(g));
  }

  /** fdt_create_phandle on the j-th group. */
  function Give(w: Site, b: Board, j: nat): (r: (Board, u32))
    requires w.k < Total(w.f) && Even(b) && j < |b.st.groups|
    ensures r.0.st.names == b.st.names && |r.0.st.groups| == |b.st.groups| && r.0.st.dev == b.st.dev
  {
    if Phandle(b.st.groups[j]) != 0 then (b, Phandle(b.st.groups[j]))
    else
      var (a, ret) := SetBoth(GroupStore(b, j), Next(w, b.st));
      (WithGroup(b, j, a), if ret < 0 then 0 else Next(w, b.st))
  }

  /** The j-th group is registered with the device as its n-th. */
  function Register(w: Site, b: Board, j: nat, n: nat): (r: Board)
    requires w.k < Total(w.f) && Even(b) && j < |b.st.groups|
    ensures r.st.names == b.st.names && |r.st.groups| == |b.st.groups|
  {
    var b1 := OnDevice(b, NAMES, DEFAULT, true).0;
    var (b2, ph) := Give(w, b1, j);
    OnDevice(b2, PinctrlName(n), Cell(ph), false).0
  }

  /** A group for class c, as the n-th of the device. */
  function NewGroup(w: Site, b: Board, device: bytes, c: Class): (r: (Board, int))
    requires w.k < Total(w.f) && Even(b)
    ensures Even(r.0) && r.0.st.names == b.st.names + if r.1 == 0 then [GroupName(device, c)] else []
    ensures r.1 == 0 || r == (b, NOSPACE)
  {
    var (b1, err) := AddNode(b, GroupName(device, c));
    var n := |b.st.names|;
    if err != 0 then (b1, err) else (Register(w, Fill(b1, n, device, c), n, n), 0)
  }

  function AddPin(b: Board, j: nat, g: Gpio): (r: Board)
    requires j < |b.st.groups|
    ensures r.st.names == b.st.names && |r.st.groups| == |b.st.groups|
  {
    OnGroup(b, j, PINS, Pin(g) + [0], true).0
  }

  /** Place of a class in a list. */
  function Place(cs: seq<Class>, c: Class): (j: nat)
    requires c in cs
    ensures j < |cs| && cs[j] == c
  {
    if cs[0] == c then 0 else 1 + Place(cs[1..], c)
  }

  lemma PlaceNew(cs: seq<Class>, c: Class)
    requires c !in cs
    ensures Place(cs + [c], c) == |cs|
  {
    if cs != [] {
      PlaceNew(cs[1..], c);
      assert (cs + [c])[1..] == cs[1..] + [c];
    }
  }

  /** A group for class c, when the groups so far are those of the classes cs. */
  function Ensure(w: Site, b: Board, device: bytes, cs: seq<Class>, c: Class): (r: (Board, int))
    requires w.k < Total(w.f) && Even(b) && |cs| == |b.st.names|
    ensures Even(r.0) && (r.1 == 0 || r == (b, NOSPACE))
    ensures r.1 == 0 ==> r.0.st.names == b.st.names + if c in cs then [] else [GroupName(device, c)]
  {
    if c in cs then (b, 0) else NewGroup(w, b, device, c)
  }

  /** One gpio. */
  function Handle(w: Site, b: Board, device: bytes, cs: seq<Class>, g: Gpio): (r: (Board, int))
    requires w.k < Total(w.f) && Even(b) && |cs| == |b.st.names|
    ensures Even(r.0) && (r.1 == 0 || r == (b, NOSPACE))
    ensures r.1 == 0 ==> r.0.st.names == b.st.names + if ClassOf(g) in cs then [] else [GroupName(device, ClassOf(g))]
  {
    var c := ClassOf(g);
    var (b1, err) := Ensure(w, b, device, cs, c);
    if err != 0 then (b1, err) else (AddPin(b1, Place(Including(cs, c), c), g), 0)
  }

  /** All gpios in turn, up to the first node that does not fit: the board, the result, and how many were done. */
  function All(w: Site, b: Board, device: bytes, gs: seq<Gpio>): (r: (Board, int, nat))
    requires w.k < Total(w.f) && Even(b) && b.st.names == []
    ensures Even(r.0) && (if r.1 == 0 then r.2 == |gs| else r.1 == NOSPACE && r.2 < |gs|)
    ensures |r.0.st.names| == |Order(gs[..r.2])|
  {
    if gs == [] then (b, 0, 0)
    else
      var init, g := gs[..|gs| - 1], gs[|gs| - 1];
      var (b1, err, n) := All(w, b, device, init);
      OrderTaken(gs, n);
      if err != 0 then (b1, err, n)
      else
        var (b2, r) := Handle(w, b1, device, Order(init), g);
        if r != 0 then (b2, r, n) else (b2, 0, |gs|)
  }

  /** The classes of all but the last, and of all. */
  lemma OrderTaken(gs: seq<Gpio>, n: nat)
    requires gs != [] && n <= |gs| - 1
    ensures var init := gs[..|gs| - 1];
      && init[..n] == gs[..n] && init[..|init|] == init && gs[..|gs|] == gs
      && Order(gs) == Including(Order(init), ClassOf(gs[|gs| - 1]))
  {
    hide ClassOf;
  }

  /** One gpio more, when all before it were done. */
  lemma AllMore(w: Site, b: Board, device: bytes, gs: seq<Gpio>, g: Gpio)
    requires w.k < Total(w.f) && Even(b) && b.st.names == []
    ensures var a := All(w, b, device, gs);
      && (a.1 == 0 ==> |a.0.st.names| == |Order(gs)|)
      && All(w, b, device, gs + [g]) ==
         if a.1 != 0 then a
         else
           var (b', r) := Handle(w, a.0, device, Order(gs), g);
           (b', r, if r != 0 then |gs| else |gs| + 1)
  {
    hide Handle, Total, ClassOf;
    assert (gs + [g])[..|gs|] == gs && gs[..|gs|] == gs;
  }

  /** Nothing is done after a failure. */
  lemma {:induction false} AllStuck(w: Site, b: Board, device: bytes, gs: seq<Gpio>, n: nat)
    requires w.k < Total(w.f) && Even(b) && b.st.names == [] && n <= |gs| && All(w, b, device, gs[..n]).1 != 0
    ensures All(w, b, device, gs) == All(w, b, device, gs[..n])
  {
    hide Handle, Total;
    if n < |gs| {
      var init := gs[..|gs| - 1];
      assert init[..n] == gs[..n];
      AllStuck(w, b, device, init, n);
    } else {
      assert gs[..n] == gs;
    }
  }

  /** The groups are those of the classes seen, in the order of their first appearance. */
  lemma {:induction false} AllNames(w: Site, b: Board, device: bytes, gs: seq<Gpio>)
    requires w.k < Total(w.f) && Even(b) && b.st.names == []
    ensures var r := All(w, b, device, gs); r.0.st.names == NamesOf(device, Order(gs[..r.2]))
  {
    hide Handle, Total, ClassOf, GroupName;
    if gs != [] {
      var init := gs[..|gs| - 1];
      AllNames(w, b, device, init);
      OrderTaken(gs, All(w, b, device, init).2);
    }
  }
}
