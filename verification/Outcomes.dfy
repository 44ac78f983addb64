/** What fdt_add_pinctrl_group promises (src/fdt_tools.c): groups with their pins and phandles, to which the device refers. */
module Outcomes {
  import opened Bytes
  import opened Trees
  import opened Rw
  import opened Phandles
  import opened Shapes
  import opened Groups
  import opened Sites
  import opened Boards

  /** The largest phandle before any group was added. */
  function First(w: Site): (m: int)
    ensures 0 <= m < TWO31
  {
    MaxPhandle(w.f, Total(w.f))
  }

  /** The groups of the classes cs with the pins of the gpios gs, as they should be: each carries its phandle,
      and the device refers to them in the order of the classes. */
  ghost predicate Filled(w: Site, device: bytes, gs: seq<Gpio>, cs: seq<Class>, phs: seq<u32>, st: State) {
    && w.d < Total(w.f) && |cs| == |phs| == |st.groups|
    && st.names == NamesOf(device, cs)
    && (forall j | 0 <= j < |cs| :: phs[j] != 0 && st.groups[j] == GroupProps(device, cs[j], phs[j], Pins(gs, cs[j])))
    && st.dev == DevProps(PropsOf(w.f, w.d), phs)
    && (First(w) + 13 < TWO31 ==> forall j | 0 <= j < |phs| :: phs[j] == First(w) + 1 + j)
  }

  lemma {:induction false} FilledStart(w: Site, device: bytes)
    requires ValidSite(w)
    ensures Filled(w, device, [], [], [], State([], [], PropsOf(w.f, w.d)))
  {
    hide NodeOf, Total, MaxPhandle;
  }

  lemma FilledSizes(w: Site, device: bytes, gs: seq<Gpio>, cs: seq<Class>, phs: seq<u32>, st: State)
    requires Filled(w, device, gs, cs, phs, st)
    ensures w.d < Total(w.f) && |cs| == |phs| == |st.groups| == |st.names|
    ensures st.names == NamesOf(device, cs) && st.dev == DevProps(PropsOf(w.f, w.d), phs)
  {
    hide NodeOf, Total, First, GroupProps, Pins, NamesOf, DevProps;
  }

  // ---------------------------------------------------------------------------
  // Which phandles the groups get
  // ---------------------------------------------------------------------------

  /** The groups carry these phandles, and the device has the phandle it had. */
  ghost predicate Carry(w: Site, st: State, vs: seq<u32>) {
    && ValidSite(w) && |vs| == |st.groups| == |st.names| && Phandle(st.dev) == PhandleAt(w.f, w.d)
    && forall j | 0 <= j < |vs| :: Phandle(st.groups[j]) == vs[j]
  }

  lemma CarryHere(w: Site, st: State, vs: seq<u32>)
    requires ValidSite(w) && |vs| == |st.groups| == |st.names| && Phandle(st.dev) == Phandle(PropsOf(w.f, w.d))
    requires forall j | 0 <= j < |vs| :: Phandle(st.groups[j]) == vs[j]
    ensures Carry(w, st, vs)
  {
    hide Phandle, NodeOf, Total;
  }

  lemma CarrySizes(w: Site, st: State, vs: seq<u32>)
    requires Carry(w, st, vs)
    ensures w.k < Total(w.f) && |vs| == |st.groups| == |st.names|
  {
    hide Phandle, NodeOf, Total;
  }

  /** The phandle of every node is that of the node it was, or of its group. */
  lemma {:induction false} CarryWant(w: Site, st: State, vs: seq<u32>, i: nat)
    requires Carry(w, st, vs) && i < Total(w.f) + |st.names|
    ensures w.k < Total(w.f) && |vs| == |st.groups| == |st.names|
    ensures var m := |vs|;
      Phandle(Want(w, st, i)) ==
      if i <= w.k then PhandleAt(w.f, i) else if i <= w.k + m then vs[w.k + m - i] else PhandleAt(w.f, i - m)
  {
    hide Phandle, NodeOf, Total;
  }

  lemma {:induction false} CarryAt(w: Site, st: State, g: Forest, vs: seq<u32>, i: nat)
    requires Holds(w, st, g) && Carry(w, st, vs) && i < Total(g)
    ensures var m := |vs|;
      PhandleAt(g, i) == if i <= w.k then PhandleAt(w.f, i) else if i <= w.k + m then vs[w.k + m - i] else PhandleAt(w.f, i - m)
  {
    hide Phandle, Bare, AddAll, NodeOf, Total, Want;
    CarryWant(w, st, vs, i);
    assert PropsOf(g, i) == Want(w, st, i);
  }

  lemma {:induction false} CarryMax(w: Site, st: State, vs: seq<u32>, m: nat)
    requires Carry(w, st, vs) && First(w) <= m < TWO31
    requires forall j | 0 <= j < |vs| :: vs[j] <= m
    requires m == First(w) || exists j | 0 <= j < |vs| :: vs[j] == m
    ensures w.k < Total(w.f) && |vs| == |st.groups| == |st.names| && WantMax(w, st, Total(w.f) + |st.names|) == m
  {
    hide Phandle, NodeOf, Total, PhandleAt, Want, MaxPhandle, WantMax, Carry;
    CarrySizes(w, st, vs);
    var n := Total(w.f) + |st.names|;
    WantMost(w, st, n);
    forall i | 0 <= i < n
      ensures Signed(Phandle(Want(w, st, i))) <= m
    {
      CarryWant(w, st, vs, i);
    }
    if m > 0 {
      if m == First(w) {
        var x :| 0 <= x < Total(w.f) && PhandleAt(w.f, x) == m;
        CarryWant(w, st, vs, Far(w.k, |vs|, x));
        assert Signed(Phandle(Want(w, st, Far(w.k, |vs|, x)))) == m;
      } else {
        var j :| 0 <= j < |vs| && vs[j] == m;
        CarryWant(w, st, vs, w.k + |vs| - j);
        assert Signed(Phandle(Want(w, st, w.k + |vs| - j))) == m;
      }
    }
  }

  /** The board's state when the next group asks for its phandle. */
  function Asking(st: State, device: bytes, c: Class): State {
    State(st.names + [GroupName(device, c)], st.groups + [BaseProps(device, c)], AppendVal(st.dev, NAMES, DEFAULT))
  }

  /** The groups so far carry their phandles, and a new one carries none. */
  lemma {:induction false} FilledCarry(w: Site, st: State, device: bytes, gs: seq<Gpio>, cs: seq<Class>, phs: seq<u32>, c: Class)
    requires Filled(w, device, gs, cs, phs, st) && ValidSite(w)
    ensures Carry(w, Asking(st, device, c), phs + [0])
  {
    hide NodeOf, Total, MaxPhandle, BaseProps, GroupProps, Phandle, AppendVal, DevProps, Pins, GroupName, First, ValidSite, NAMES, DEFAULT;
    var st' := Asking(st, device, c);
    var vs := phs + [0];
    DevPhandle(PropsOf(w.f, w.d), phs);
    BaseFree(device, c);
    forall j | 0 <= j < |vs|
      ensures Phandle(st'.groups[j]) == vs[j]
    {
      if j < |phs| {
        GroupSays(device, cs[j], phs[j], Pins(gs, cs[j]));
      }
    }
    CarryHere(w, st', vs);
  }

  /** The phandle given to the next group is the next number. */
  lemma {:induction false} NextNumber(w: Site, st: State, device: bytes, gs: seq<Gpio>, cs: seq<Class>, phs: seq<u32>, c: Class)
    requires Filled(w, device, gs, cs, phs, st) && ValidSite(w) && |cs| <= 12 && First(w) + 13 < TWO31
    ensures w.k < Total(w.f) && |Asking(st, device, c).groups| == |Asking(st, device, c).names|
    ensures Next(w, Asking(st, device, c)) == First(w) + 1 + |phs|
  {
    hide NodeOf, Total, MaxPhandle, BaseProps, GroupProps, AppendVal, DevProps, Pins, NamesOf, Carry, ValidSite, NAMES, DEFAULT,
      First, Phandle, Want, WantMax, Asking, After;
    var st', vs := Asking(st, device, c), phs + [0];
    FilledCarry(w, st, device, gs, cs, phs, c);
    FilledSizes(w, device, gs, cs, phs, st);
    if phs != [] {
      assert vs[|phs| - 1] == First(w) + |phs|;
    }
    CarryMax(w, st', vs, First(w) + |phs|);
  }

  /** The state with one group more. */
  function Grouped(st: State, device: bytes, c: Class, ph: u32): State {
    State(st.names + [GroupName(device, c)], st.groups + [LinkedProps(device, c, ph)],
          SetVal(AppendVal(st.dev, NAMES, DEFAULT), PinctrlName(|st.names|), Cell(ph)))
  }

  /** A new group with the next phandle keeps all as it should be. */
  lemma {:induction false} FilledNew(w: Site, device: bytes, gs: seq<Gpio>, cs: seq<Class>, phs: seq<u32>, st: State, c: Class, ph: u32)
    requires Filled(w, device, gs, cs, phs, st) && ValidSite(w) && |cs| <= 12 && Pins(gs, c) == []
    requires w.k < Total(w.f) && |Asking(st, device, c).groups| == |Asking(st, device, c).names| && ph == Next(w, Asking(st, device, c))
    ensures Filled(w, device, gs, cs + [c], phs + [ph], Grouped(st, device, c, ph))
  {
    hide NodeOf, Total, MaxPhandle, BaseProps, LinkedProps, AppendVal, SetVal, PinctrlName, Pins, GroupName, Next, Asking, Cell, First, ValidSite;
    if First(w) + 13 < TWO31 {
      NextNumber(w, st, device, gs, cs, phs, c);
    }
    assert (phs + [ph])[..|phs|] == phs;
  }

  lemma PinsMore(gs: seq<Gpio>, g: Gpio, c: Class)
    ensures Pins(gs + [g], c) == if ClassOf(g) == c then Pins(gs, c) + (Pin(g) + [0]) else Pins(gs, c)
  {
    hide Pin, ClassOf;
    assert (gs + [g])[..|gs|] == gs;
  }

  /** A pin keeps it so. */
  lemma {:induction false} FilledPin(w: Site, device: bytes, gs: seq<Gpio>, cs: seq<Class>, phs: seq<u32>, st: State, j: nat, g: Gpio)
    requires Filled(w, device, gs, cs, phs, st) && Distinct(cs) && j < |cs| && cs[j] == ClassOf(g)
    ensures Filled(w, device, gs + [g], cs, phs, SetGroup(st, j, AppendVal(st.groups[j], PINS, Pin(g) + [0])))
  {
    hide NodeOf, Total, MaxPhandle, AppendVal, SetVal, DevProps, GroupProps, Pin, First, PINS, ClassOf;
    PinsBuilt(device, cs[j], phs[j], Pins(gs, cs[j]), Pin(g) + [0]);
    forall x | 0 <= x < |cs|
      ensures Pins(gs + [g], cs[x]) == if x == j then Pins(gs, cs[x]) + (Pin(g) + [0]) else Pins(gs, cs[x])
    {
      PinsMore(gs, g, cs[x]);
    }
  }

  // ---------------------------------------------------------------------------
  // What it means
  // ---------------------------------------------------------------------------

  lemma {:induction false} PinsSome(gs: seq<Gpio>, c: Class)
    requires c in Order(gs)
    ensures Pins(gs, c) != []
  {
    hide ClassOf, Pin;
    if ClassOf(gs[|gs| - 1]) != c {
      PinsSome(gs[..|gs| - 1], c);
    }
  }

  /** The j-th class to appear has a node of its name; it holds the pins of exactly the gpios of that class in
      their order, each as 'P', the letter of its port, two decimal digits and a NUL; and the device's j-th pinctrl
      property is the phandle of that node. For the first ten that property is "pinctrl-" with the decimal number j;
      for the other two, whatever had that name still has it. */
  lemma {:induction false} PinctrlMeaning(w: Site, device: bytes, gs: seq<Gpio>, phs: seq<u32>, st: State, g: Forest, j: nat)
    requires Holds(w, st, g) && Filled(w, device, gs, Order(gs), phs, st) && j < |Order(gs)|
    ensures var c, x, d := Order(gs)[j], GroupNode(w, st, j), DeviceNode(w, st);
      && x < Total(g) && d < Total(g) && w.d < Total(w.f)
      && NodeOf(g, x).name == GroupName(device, c)
      && ((forall h | h in gs :: Lettered(h)) ==> Lists(Pins(gs, c), OfClass(gs, c)))
      && PropsOf(g, x) ==
         [PropVal(Ascii("allwinner,pins"), Pins(gs, c)),
          PropVal(Ascii("linux,phandle"), Cell(PhandleAt(g, x))), PropVal(Ascii("phandle"), Cell(PhandleAt(g, x))),
          PropVal(Ascii("allwinner,function"), device + [0]),
          PropVal(Ascii("allwinner,pull"), Cell(c.pull)), PropVal(Ascii("allwinner,drive"), Cell(c.drive))]
      && PhandleAt(g, x) != 0
      && ValueOf(PropsOf(g, d), PinctrlName(j)) == Is(Cell(PhandleAt(g, x)))
      && ValueOf(PropsOf(g, d), Ascii("pinctrl-") + Decimal(j)) ==
         if j < 10 then Is(Cell(PhandleAt(g, x))) else ValueOf(PropsOf(w.f, w.d), Ascii("pinctrl-") + Decimal(j))
  {
    hide NodeOf, Total, Bare, AddAll, GroupProps, DevProps, PinctrlName, Pins, GroupName, Phandle, ValueOf, Cell, First, Order, PINS, PULL,
      DRIVE, FUNCTION, Decimal, NAMES, PINCTRL, Ascii, Lettered, Lists, OfClass;
    var cs := Order(gs);
    var c, x, d := cs[j], GroupNode(w, st, j), DeviceNode(w, st);
    DeviceWords();
    GroupNamed(w, st, g, j);
    OrderBound(gs);
    PinsSome(gs, c);
    GroupList(device, c, phs[j], Pins(gs, c));
    GroupPhandle(device, c, phs[j], Pins(gs, c));
    if forall h | h in gs :: Lettered(h) {
      PinsList(gs, c);
    }
    DevLinks(PropsOf(w.f, w.d), phs, j);
    NumberedName(j);
    if j >= 10 {
      forall i | 0 <= i < |phs|
        ensures PINCTRL + Decimal(j) != PinctrlName(i)
      {
        DecimalFree(j, i);
      }
      DecimalFree(j, j);
      DevOthers(PropsOf(w.f, w.d), phs, PINCTRL + Decimal(j));
    }
    assert PropsOf(g, x) == Want(w, st, x) && PropsOf(g, d) == Want(w, st, d);
  }

  /** The device's "pinctrl-names" has "default" once more for each group. */
  lemma {:induction false} PinctrlDefaults(w: Site, device: bytes, gs: seq<Gpio>, phs: seq<u32>, st: State, g: Forest)
    requires Holds(w, st, g) && Filled(w, device, gs, Order(gs), phs, st) && gs != []
    ensures w.d < Total(w.f) && DeviceNode(w, st) < Total(g)
    ensures var v := match ValueOf(PropsOf(w.f, w.d), Ascii("pinctrl-names")) case NoVal => [] case Is(v) => v;
      ValueOf(PropsOf(g, DeviceNode(w, st)), Ascii("pinctrl-names")) == Is(v + Repeat(Ascii("default") + [0], |Order(gs)|))
  {
    hide NodeOf, Total, Bare, AddAll, GroupProps, DevProps, Pins, GroupName, ValueOf, First, Order, NAMES, DEFAULT, Ascii, Repeat;
    DeviceWords();
    OrderBound(gs);
    OrderOnce(gs);
    assert ClassOf(gs[0]) in Order(gs);
    GroupNamed(w, st, g, 0);
    DevNames(PropsOf(w.f, w.d), phs);
    assert PropsOf(g, DeviceNode(w, st)) == Want(w, st, DeviceNode(w, st));
  }

  /** One gpio of each class. */
  function Twelve(): (gs: seq<Gpio>)
    ensures |gs| == 12
  {
    seq(12, i requires 0 <= i < 12 => Gpio(1, i, i % 4, i / 4))
  }

  lemma {:induction false} TwelveClasses()
    ensures |Order(Twelve())| == 12
  {
    hide Order;
    var gs := Twelve();
    forall i, j | 0 <= i < j < |gs|
      ensures ClassOf(gs[i]) != ClassOf(gs[j])
    {
      assert ClassOf(gs[i]) == Class(i / 4, i % 4) && ClassOf(gs[j]) == Class(j / 4, j % 4);
    }
    OrderAll(gs);
  }

  /** With twelve classes the eleventh group has its node, but a device without a property "pinctrl-10" gets none. */
  lemma {:induction false} EleventhLost(w: Site, device: bytes, phs: seq<u32>, st: State, g: Forest)
    requires Holds(w, st, g) && Filled(w, device, Twelve(), Order(Twelve()), phs, st)
    requires w.d < Total(w.f) && ValueOf(PropsOf(w.f, w.d), Ascii("pinctrl-") + Decimal(10)) == NoVal
    ensures |Order(Twelve())| == 12 && GroupNode(w, st, 10) < Total(g)
    ensures NodeOf(g, GroupNode(w, st, 10)).name == GroupName(device, Order(Twelve())[10])
    ensures DeviceNode(w, st) < Total(g) && ValueOf(PropsOf(g, DeviceNode(w, st)), Ascii("pinctrl-") + Decimal(10)) == NoVal
  {
    hide NodeOf, Total, Bare, AddAll, Filled, Holds, GroupName, Ascii, Decimal, ValueOf, Order, GroupNode, DeviceNode, PropsOf,
      Pins, OfClass, Lists, Lettered;
    TwelveClasses();
    hide Twelve;
    PinctrlMeaning(w, device, Twelve(), phs, st, g, 10);
  }

  /** The new phandles are numbered upwards from the largest one that was there, so all stay unique. */
  lemma {:induction false} PinctrlUnique(w: Site, device: bytes, gs: seq<Gpio>, phs: seq<u32>, st: State, g: Forest)
    requires Holds(w, st, g) && Filled(w, device, gs, Order(gs), phs, st)
    requires UniquePhandles(w.f) && First(w) + 13 < TWO31
    ensures UniquePhandles(g)
  {
    hide NodeOf, Total, Bare, AddAll, GroupProps, DevProps, PhandleAt, Phandle, Order, Want, MaxPhandle, Pins, GroupName, NamesOf;
    var cs := Order(gs);
    forall j | 0 <= j < |phs|
      ensures Phandle(st.groups[j]) == phs[j]
    {
      GroupSays(device, cs[j], phs[j], Pins(gs, cs[j]));
    }
    DevPhandle(PropsOf(w.f, w.d), phs);
    OrderBound(gs);
    HoldsSite(w, st, g);
    CarryHere(w, st, phs);
    forall a, b | 0 <= a < b < Total(g) && PhandleAt(g, a) == PhandleAt(g, b)
      ensures PhandleAt(g, a) == 0
    {
      CarryAt(w, st, g, phs, a);
      CarryAt(w, st, g, phs, b);
      CarryApart(w, phs, a, b);
    }
  }

  lemma HoldsSite(w: Site, st: State, g: Forest)
    requires Holds(w, st, g)
    ensures ValidSite(w)
  {
    hide NodeOf, Total, Bare, AddAll;
  }

  /** Old and new phandles do not meet. */
  lemma {:induction false} CarryApart(w: Site, vs: seq<u32>, a: nat, b: nat)
    requires w.k < Total(w.f) && a < b < Total(w.f) + |vs| && UniquePhandles(w.f) && First(w) + 13 < TWO31 && |vs| <= 12
    requires forall j | 0 <= j < |vs| :: vs[j] == First(w) + 1 + j
    ensures var m := |vs|;
      var p := if a <= w.k then PhandleAt(w.f, a) else if a <= w.k + m then vs[w.k + m - a] else PhandleAt(w.f, a - m);
      var q := if b <= w.k then PhandleAt(w.f, b) else if b <= w.k + m then vs[w.k + m - b] else PhandleAt(w.f, b - m);
      p == q ==> p == 0
  {
    hide PhandleAt, NodeOf, Total, MaxPhandle;
    var m := |vs|;
    var old_ := i => if i <= w.k then i else i - m;
    if !(w.k < a <= w.k + m) {
      assert Signed(PhandleAt(w.f, old_(a))) <= First(w);
    }
    if !(w.k < b <= w.k + m) {
      assert Signed(PhandleAt(w.f, old_(b))) <= First(w);
    }
  }
}
