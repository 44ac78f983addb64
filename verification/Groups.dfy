/** The pin groups of fdt_add_pinctrl_group (src/fdt_tools.c) as values: the class of a gpio, the name of its
    group, and what the properties of the groups and of the device should be in the end. */
module Groups {
  import opened Bytes
  import opened Trees
  import opened Subnodes
  import opened Stores
  import opened Phandles

  /** The struct gpio of include/fdt_tools.h. */
  datatype Gpio = Gpio(port: u32, portNum: u32, drive: u32, pull: u32)

  /** What tells groups apart: pull and drive, values that have no name counting as 0. */
  datatype Class = Class(pull: u32, drive: u32)

  function ClassOf(g: Gpio): (c: Class)
    ensures c.pull <= 2 && c.drive <= 3
  {
    Class(if g.pull <= 2 then g.pull else 0, if g.drive <= 3 then g.drive else 0)
  }

  function Norm(g: Gpio): Gpio {
    g.(pull := ClassOf(g).pull, drive := ClassOf(g).drive)
  }

  function NormAll(gs: seq<Gpio>): (r: seq<Gpio>)
    ensures |r| == |gs|
  {
    seq(|gs|, i requires 0 <= i < |gs| => Norm(gs[i]))
  }

  /** "_pins_babelfish" */
  const PINS_TAG: bytes := [95, 112, 105, 110, 115, 95, 98, 97, 98, 101, 108, 102, 105, 115, 104]
  /** "_pullup" */
  const PULLUP: bytes := [95, 112, 117, 108, 108, 117, 112]
  /** "_pulldown" */
  const PULLDOWN: bytes := [95, 112, 117, 108, 108, 100, 111, 119, 110]
  /** "_20mA", "_30mA" and "_40mA" */
  const MA20: bytes := [95, 50, 48, 109, 65]
  const MA30: bytes := [95, 51, 48, 109, 65]
  const MA40: bytes := [95, 52, 48, 109, 65]

  function PullTag(pull: u32): bytes {
    if pull == 1 then PULLUP else if pull == 2 then PULLDOWN else []
  }

  function DriveTag(drive: u32): bytes {
    if drive == 1 then MA20 else if drive == 2 then MA30 else if drive == 3 then MA40 else []
  }

  /** Name of the group of class c. */
  function GroupName(device: bytes, c: Class): bytes {
    device + PINS_TAG + (PullTag(c.pull) + DriveTag(c.drive))
  }

  /** The name of a gpio's group, spelled out. */
  lemma GroupText(device: bytes, g: Gpio)
    ensures GroupName(device, ClassOf(g)) == device + Ascii("_pins_babelfish") +
              ((if g.pull == 1 then Ascii("_pullup") else if g.pull == 2 then Ascii("_pulldown") else []) +
               (if g.drive == 1 then Ascii("_20mA") else if g.drive == 2 then Ascii("_30mA") else if g.drive == 3 then Ascii("_40mA") else []))
  {
    assert Ascii("_pins_babelfish") == PINS_TAG && Ascii("_pullup") == PULLUP && Ascii("_pulldown") == PULLDOWN;
    assert Ascii("_20mA") == MA20 && Ascii("_30mA") == MA30 && Ascii("_40mA") == MA40;
    hide PINS_TAG, PULLUP, PULLDOWN, MA20, MA30, MA40, Ascii;
  }

  predicate Normal(c: Class) {
    c.pull <= 2 && c.drive <= 3
  }

  /** The two tags tell pull and drive, and hold no '@'. */
  lemma TagsTell(c: Class, c': Class)
    requires Normal(c) && Normal(c')
    ensures PullTag(c.pull) + DriveTag(c.drive) == PullTag(c'.pull) + DriveTag(c'.drive) ==> c == c'
    ensures AT !in PullTag(c.pull) + DriveTag(c.drive)
  {
    var x, y := PullTag(c.pull) + DriveTag(c.drive), PullTag(c'.pull) + DriveTag(c'.drive);
    if x == y {
      assert |x| == |y|;
      assert c.pull == c'.pull && (c.drive == 0 <==> c'.drive == 0);
      if c.drive != 0 {
        var n := |PullTag(c.pull)|;
        assert x[n + 1] == DriveTag(c.drive)[1] && y[n + 1] == DriveTag(c'.drive)[1];
      }
    }
  }

  /** s is what the device's name begins with, up to an '@'. */
  predicate Answers(device: bytes, s: bytes) {
    AT !in s && s + [AT] <= device
  }

  /** Behind the device's name no '@' follows. */
  lemma TagsClean(device: bytes, c: Class, i: nat)
    requires Normal(c) && |device| <= i < |GroupName(device, c)|
    ensures GroupName(device, c)[i] != AT
  {
    hide PullTag, DriveTag;
    TagsTell(c, c);
    var tags := PINS_TAG + (PullTag(c.pull) + DriveTag(c.drive));
    assert GroupName(device, c) == device + tags;
    assert GroupName(device, c)[i] == tags[i - |device|];
    assert AT !in tags;
  }

  /** What the name of a group answers to besides itself. */
  lemma GroupAnswers(device: bytes, c: Class, s: bytes)
    requires Normal(c)
    ensures NameEq(GroupName(device, c), s) <==> s == GroupName(device, c) || Answers(device, s)
  {
    hide PullTag, DriveTag, PINS_TAG;
    var n := GroupName(device, c);
    if |device| <= |s| < |n| {
      TagsClean(device, c, |s|);
    } else if |s| < |n| {
      assert n[..|s|] == device[..|s|] && n[|s|] == device[|s|];
    }
    if Answers(device, s) {
      assert device[..|s| + 1][..|s|] == s && device[|s|] == AT;
      assert n[..|s|] == device[..|s|] == s && n[|s|] == AT;
    }
    if |s| < |device| && s == device[..|s|] && device[|s|] == AT {
      assert device[..|s| + 1] == s + [AT];
    }
  }

  /** The name of one class never finds the group of another. */
  lemma GroupNameEq(device: bytes, c: Class, c': Class)
    requires Normal(c) && Normal(c')
    ensures NameEq(GroupName(device, c'), GroupName(device, c)) <==> c == c'
  {
    hide PullTag, DriveTag;
    TagsTell(c, c');
    TagsTell(c', c);
    var x, y, pre := GroupName(device, c'), GroupName(device, c), device + PINS_TAG;
    var u, v := PullTag(c'.pull) + DriveTag(c'.drive), PullTag(c.pull) + DriveTag(c.drive);
    assert x[|pre|..] == u && y[|pre|..] == v;
    if |x| > |y| {
      assert x[|y|] == u[|y| - |pre|];
      assert x[|y|] in u;
    }
  }

  /** The classes once c has appeared. */
  function Including(cs: seq<Class>, c: Class): seq<Class> {
    if c in cs then cs else cs + [c]
  }

  /** The classes of a list of gpios in the order of their first appearance. */
  function Order(gs: seq<Gpio>): (cs: seq<Class>)
    ensures |cs| <= |gs|
  {
    if gs == [] then [] else Including(Order(gs[..|gs| - 1]), ClassOf(gs[|gs| - 1]))
  }

  lemma OrderMore(gs: seq<Gpio>, g: Gpio)
    ensures Order(gs + [g]) == Including(Order(gs), ClassOf(g))
  {
    hide ClassOf;
    assert (gs + [g])[..|gs|] == gs;
  }

  ghost predicate Distinct<T>(s: seq<T>) {
    forall i, j | 0 <= i < j < |s| :: s[i] != s[j]
  }

  /** Every class is listed once, and the list holds exactly the classes there are. */
  lemma {:induction false} OrderOnce(gs: seq<Gpio>)
    ensures Distinct(Order(gs))
    ensures forall c :: c in Order(gs) <==> exists i | 0 <= i < |gs| :: ClassOf(gs[i]) == c
  {
    hide ClassOf;
    if gs != [] {
      var init, c := gs[..|gs| - 1], ClassOf(gs[|gs| - 1]);
      OrderOnce(init);
      forall x
        ensures x in Order(gs) <==> exists i | 0 <= i < |gs| :: ClassOf(gs[i]) == x
      {
        if x in Order(init) {
          var i :| 0 <= i < |init| && ClassOf(init[i]) == x;
          assert ClassOf(gs[i]) == x;
        }
        if i :| 0 <= i < |gs| && ClassOf(gs[i]) == x && i < |init| {
          assert ClassOf(init[i]) == x;
        }
      }
    }
  }

  lemma {:induction false} OrderProper(gs: seq<Gpio>, c: Class)
    requires c in Order(gs)
    ensures Normal(c)
  {
    if ClassOf(gs[|gs| - 1]) != c {
      OrderProper(gs[..|gs| - 1], c);
    }
  }

  /** The pin strings of the gpios of class c in their order, each with its NUL. */
  function Pins(gs: seq<Gpio>, c: Class): bytes {
    if gs == [] then []
    else
      var g := gs[|gs| - 1];
      Pins(gs[..|gs| - 1], c) + if ClassOf(g) == c then Pin(g) + [0] else []
  }

  /** strncat of one character, which adds nothing when it is NUL. */
  function Cat(s: bytes, ch: byte): bytes {
    if ch == 0 then s else s + [ch]
  }

  /** The pin of a gpio: 'P', the letter of its port, and the two digits of its number, in 8 bits each. */
  function Pin(g: Gpio): (s: bytes)
    ensures 1 <= |s| <= 4 && 0 !in s
  {
    Cat(Cat(Cat([80], (64 + g.port) % 0x100), (48 + g.portNum / 10) % 0x100), 48 + g.portNum % 10)
  }

  /** Ports 1 to 26 have the letters A to Z, and two digits are enough for the number. */
  predicate Lettered(g: Gpio) {
    1 <= g.port <= 26 && g.portNum < 100
  }

  /** s spells the pin of g: 'P', the letter of the port, and two decimal digits. */
  predicate Spells(s: bytes, g: Gpio) {
    && |s| == 4 && s[0] == 80 && s[1] == 64 + g.port
    && 48 <= s[2] < 58 && 48 <= s[3] < 58 && g.portNum == 10 * (s[2] - 48) + (s[3] - 48)
  }

  lemma PinSpells(g: Gpio)
    requires Lettered(g)
    ensures Spells(Pin(g), g)
  {
  }

  /** Two gpios share a string only if port and number agree. */
  lemma PinTells(g: Gpio, h: Gpio)
    requires Lettered(g) && Lettered(h)
    ensures Pin(g) == Pin(h) <==> g.port == h.port && g.portNum == h.portNum
  {
    hide Pin;
    PinSpells(g);
    PinSpells(h);
    if g.port == h.port && g.portNum == h.portNum {
      SameSpelling(Pin(g), Pin(h), g, h);
    }
  }

  lemma SameSpelling(s: bytes, t: bytes, g: Gpio, h: Gpio)
    requires Spells(s, g) && Spells(t, h) && g.port == h.port && g.portNum == h.portNum
    ensures s == t
  {
  }

  /** The gpios of class c, in their order. */
  function OfClass(gs: seq<Gpio>, c: Class): (r: seq<Gpio>)
    ensures forall i | 0 <= i < |r| :: r[i] in gs && ClassOf(r[i]) == c
  {
    if gs == [] then []
    else
      var g := gs[|gs| - 1];
      OfClass(gs[..|gs| - 1], c) + if ClassOf(g) == c then [g] else []
  }

  /** v is the list of the pins of gs, each with its NUL. */
  ghost predicate Lists(v: bytes, gs: seq<Gpio>) {
    && |v| == 5 * |gs|
    && forall i | 0 <= i < |gs| :: Spells(v[5 * i..5 * i + 4], gs[i]) && v[5 * i + 4] == 0
  }

  lemma SpellsFour(s: bytes, g: Gpio)
    requires Spells(s, g)
    ensures |s| == 4
  {
  }

  lemma ListsMore(v: bytes, gs: seq<Gpio>, pin: bytes, g: Gpio)
    requires Lists(v, gs) && Spells(pin, g)
    ensures Lists(v + (pin + [0]), gs + [g])
  {
    hide Spells;
    var w, hs := v + (pin + [0]), gs + [g];
    assert |w| == 5 * |hs| by {
      SpellsFour(pin, g);
    }
    forall i | 0 <= i < |hs|
      ensures Spells(w[5 * i..5 * i + 4], hs[i]) && w[5 * i + 4] == 0
    {
      assert w[5 * i..5 * i + 4] == if i < |gs| then v[5 * i..5 * i + 4] else pin;
    }
  }

  /** The pins of a class are those of its gpios in their order. */
  lemma {:induction false} PinsList(gs: seq<Gpio>, c: Class)
    requires forall g | g in gs :: Lettered(g)
    ensures Lists(Pins(gs, c), OfClass(gs, c))
  {
    hide Pin, Spells, ClassOf;
    if gs != [] {
      var init, g := gs[..|gs| - 1], gs[|gs| - 1];
      PinsList(init, c);
      PinSpells(g);
      if ClassOf(g) == c {
        ListsMore(Pins(init, c), OfClass(init, c), Pin(g), g);
        assert OfClass(gs, c) == OfClass(init, c) + [g] && Pins(gs, c) == Pins(init, c) + (Pin(g) + [0]);
      } else {
        assert OfClass(gs, c) == OfClass(init, c) && Pins(gs, c) == Pins(init, c);
      }
    }
  }

  lemma {:induction false} PinsNone(gs: seq<Gpio>, c: Class)
    requires c !in Order(gs)
    ensures Pins(gs, c) == []
  {
    hide ClassOf, Pin;
    if gs != [] {
      PinsNone(gs[..|gs| - 1], c);
    }
  }

  /** "allwinner,drive" */
  const DRIVE: bytes := [97, 108, 108, 119, 105, 110, 110, 101, 114, 44, 100, 114, 105, 118, 101]
  /** "allwinner,pull" */
  const PULL: bytes := [97, 108, 108, 119, 105, 110, 110, 101, 114, 44, 112, 117, 108, 108]
  /** "allwinner,function" */
  const FUNCTION: bytes := [97, 108, 108, 119, 105, 110, 110, 101, 114, 44, 102, 117, 110, 99, 116, 105, 111, 110]
  /** "allwinner,pins" */
  const PINS: bytes := [97, 108, 108, 119, 105, 110, 110, 101, 114, 44, 112, 105, 110, 115]
  /** "pinctrl-names" */
  const NAMES: bytes := [112, 105, 110, 99, 116, 114, 108, 45, 110, 97, 109, 101, 115]
  /** "default" with its NUL */
  const DEFAULT: bytes := [100, 101, 102, 97, 117, 108, 116, 0]
  /** "pinctrl-" */
  const PINCTRL: bytes := [112, 105, 110, 99, 116, 114, 108, 45]

  /** The property names spelled out: those of a group, ... */
  lemma GroupWords()
    ensures FUNCTION == Ascii("allwinner,function") && PULL == Ascii("allwinner,pull")
    ensures DRIVE == Ascii("allwinner,drive") && PINS == Ascii("allwinner,pins")
  {
  }

  /** ... and those of the device. */
  lemma DeviceWords()
    ensures NAMES == Ascii("pinctrl-names") && PINCTRL == Ascii("pinctrl-") && DEFAULT == Ascii("default") + [0]
  {
  }

  /** "pinctrl-" and the digit of the j-th group. */
  function PinctrlName(j: nat): bytes {
    Cat(PINCTRL, (48 + j) % 0x100)
  }

  /** The properties of a group before its first pin. */
  function BaseProps(device: bytes, c: Class): seq<PropVal> {
    [PropVal(FUNCTION, device + [0]), PropVal(PULL, Cell(c.pull)), PropVal(DRIVE, Cell(c.drive))]
  }

  function LinkedProps(device: bytes, c: Class, ph: u32): seq<PropVal> {
    [PropVal(LINUX_PHANDLE, Cell(ph)), PropVal(PHANDLE, Cell(ph))] + BaseProps(device, c)
  }

  /** The properties of a group with these pins. */
  function GroupProps(device: bytes, c: Class, ph: u32, pins: bytes): seq<PropVal> {
    if pins == [] then LinkedProps(device, c, ph) else [PropVal(PINS, pins)] + LinkedProps(device, c, ph)
  }

  /** The properties of the device, dev at first, once the groups with these phandles are registered. */
  function DevProps(dev: seq<PropVal>, phs: seq<u32>): seq<PropVal> {
    if phs == [] then dev
    else
      var m := |phs| - 1;
      SetVal(AppendVal(DevProps(dev, phs[..m]), NAMES, DEFAULT), PinctrlName(m), Cell(phs[m]))
  }

  // ---------------------------------------------------------------------------
  // What the edits make of the property lists
  // ---------------------------------------------------------------------------

  predicate Lacks(ps: seq<PropVal>, name: bytes) {
    forall i | 0 <= i < |ps| :: ps[i].name != name
  }

  /** A property that is missing becomes the first. */
  lemma PutNew(ps: seq<PropVal>, name: bytes, val: bytes)
    requires Lacks(ps, name)
    ensures SetVal(ps, name, val) == AppendVal(ps, name, val) == [PropVal(name, val)] + ps
  {
    IndexIs(ps, name, |ps|);
  }

  /** Three new properties make a group. */
  lemma BaseBuilt(device: bytes, c: Class)
    ensures SetVal(SetVal(SetVal([], DRIVE, Cell(c.drive)), PULL, Cell(c.pull)), FUNCTION, device + [0]) == BaseProps(device, c)
  {
    hide Cell, SetVal;
    var p, q := PropVal(DRIVE, Cell(c.drive)), PropVal(PULL, Cell(c.pull));
    PutNew([], DRIVE, Cell(c.drive));
    assert |DRIVE| == 15 && |PULL| == 14 && |FUNCTION| == 18;
    PutNew([p], PULL, Cell(c.pull));
    PutNew([q, p], FUNCTION, device + [0]);
    assert [p] + [] == [p] && [q] + [p] == [q, p];
  }

  /** A new group has no phandle. */
  lemma BaseFree(device: bytes, c: Class)
    ensures Phandle(BaseProps(device, c)) == 0
  {
    hide Cell;
    var ps := BaseProps(device, c);
    assert |DRIVE| == 15 && |PULL| == 14 && |FUNCTION| == 18 && |PHANDLE| == 7 && |LINUX_PHANDLE| == 13;
    IndexIs(ps, PHANDLE, 3);
    IndexIs(ps, LINUX_PHANDLE, 3);
  }

  /** Two more properties give it one. */
  lemma LinkBuilt(device: bytes, c: Class, ph: u32)
    ensures SetVal(SetVal(BaseProps(device, c), PHANDLE, Cell(ph)), LINUX_PHANDLE, Cell(ph)) == LinkedProps(device, c, ph)
  {
    hide Cell, SetVal;
    var ps := BaseProps(device, c);
    assert |DRIVE| == 15 && |PULL| == 14 && |FUNCTION| == 18 && |PHANDLE| == 7 && |LINUX_PHANDLE| == 13;
    IndexIs(ps, PHANDLE, 3);
    IndexIs(ps, LINUX_PHANDLE, 3);
    PutNew(ps, PHANDLE, Cell(ph));
    PutNew([PropVal(PHANDLE, Cell(ph))] + ps, LINUX_PHANDLE, Cell(ph));
  }

  /** A pin more. */
  lemma PinsBuilt(device: bytes, c: Class, ph: u32, pins: bytes, pin: bytes)
    requires pin != []
    ensures AppendVal(GroupProps(device, c, ph, pins), PINS, pin) == GroupProps(device, c, ph, pins + pin)
  {
    hide Cell, AppendVal;
    var ps := LinkedProps(device, c, ph);
    assert |DRIVE| == 15 && |PULL| == 14 && |FUNCTION| == 18 && |PHANDLE| == 7 && |LINUX_PHANDLE| == 13 && |PINS| == 14;
    assert PINS[13] == 115 && PULL[13] == 108;
    if pins == [] {
      PutNew(ps, PINS, pin);
      assert [] + pin == pin;
    } else {
      AppendFirst(PINS, pins, ps, pin);
    }
  }

  lemma AppendFirst(name: bytes, val: bytes, ps: seq<PropVal>, more: bytes)
    ensures AppendVal([PropVal(name, val)] + ps, name, more) == [PropVal(name, val + more)] + ps
  {
    IndexIs([PropVal(name, val)] + ps, name, 0);
  }

  /** The phandle of a finished group. */
  lemma GroupPhandle(device: bytes, c: Class, ph: u32, pins: bytes)
    ensures Phandle(GroupProps(device, c, ph, pins)) == ph
  {
    hide Cell, Be32;
    assert |PHANDLE| == 7 && |LINUX_PHANDLE| == 13 && |PINS| == 14;
    assert Be32(Cell(ph), 0) == ph;
    IndexIs(GroupProps(device, c, ph, pins), PHANDLE, if pins == [] then 1 else 2);
  }

  /** Its phandle, its pins and its other properties. */
  lemma GroupSays(device: bytes, c: Class, ph: u32, pins: bytes)
    ensures var ps := GroupProps(device, c, ph, pins);
      && Phandle(ps) == ph
      && ValueOf(ps, PINS) == (if pins == [] then NoVal else Is(pins))
      && ValueOf(ps, FUNCTION) == Is(device + [0])
      && ValueOf(ps, PULL) == Is(Cell(c.pull)) && ValueOf(ps, DRIVE) == Is(Cell(c.drive))
  {
    hide Cell, Phandle;
    GroupPhandle(device, c, ph, pins);
    var ps := GroupProps(device, c, ph, pins);
    var i := if pins == [] then 0 else 1;
    assert |DRIVE| == 15 && |PULL| == 14 && |FUNCTION| == 18 && |PHANDLE| == 7 && |LINUX_PHANDLE| == 13 && |PINS| == 14;
    assert PINS[13] == 115 && PULL[13] == 108;
    IndexIs(ps, FUNCTION, i + 2);
    IndexIs(ps, PULL, i + 3);
    IndexIs(ps, DRIVE, i + 4);
    IndexIs(ps, PINS, if pins == [] then |ps| else 0);
  }

  /** All its properties, spelled out in their order. */
  lemma GroupList(device: bytes, c: Class, ph: u32, pins: bytes)
    requires pins != []
    ensures GroupProps(device, c, ph, pins) ==
      [PropVal(Ascii("allwinner,pins"), pins), PropVal(Ascii("linux,phandle"), Cell(ph)), PropVal(Ascii("phandle"), Cell(ph)),
       PropVal(Ascii("allwinner,function"), device + [0]), PropVal(Ascii("allwinner,pull"), Cell(c.pull)),
       PropVal(Ascii("allwinner,drive"), Cell(c.drive))]
  {
    hide Ascii, Cell, PINS, FUNCTION, PULL, DRIVE, PHANDLE, LINUX_PHANDLE;
    GroupWords();
    PhandleWords();
  }

  lemma PinctrlNames(i: nat, j: nat)
    requires i < 12 && j < 12
    ensures PinctrlName(i) == PINCTRL + [48 + i] && |PinctrlName(i)| == 9 && PinctrlName(i) != NAMES && 0 !in PinctrlName(i)
    ensures PinctrlName(i) == PinctrlName(j) ==> i == j
  {
    assert PinctrlName(i)[8] == 48 + i && PinctrlName(j)[8] == 48 + j;
  }

  /** A number as decimal digits. */
  function Decimal(j: nat): (d: bytes)
    ensures |d| >= 1 && (|d| == 1 <==> j < 10) && (j < 100 ==> |d| <= 2)
  {
    if j < 10 then [48 + j] else Decimal(j / 10) + [48 + j % 10]
  }

  /** The code's name for the j-th group is "pinctrl-" with the decimal number exactly below ten. */
  lemma NumberedName(j: nat)
    ensures PinctrlName(j) == PINCTRL + Decimal(j) <==> j < 10
  {
    if j < 10 {
      PinctrlNames(j, j);
    } else {
      assert |PinctrlName(j)| <= 9 < |PINCTRL + Decimal(j)|;
    }
  }

  /** From the eleventh group on, the decimal name is none of the names in use. */
  lemma DecimalFree(j: nat, i: nat)
    requires 10 <= j < 100
    ensures PINCTRL + Decimal(j) != PinctrlName(i) && PINCTRL + Decimal(j) != NAMES
  {
    assert |PinctrlName(i)| <= 9 && |PINCTRL + Decimal(j)| == 10 && |NAMES| == 13;
  }

  /** The device's j-th property names the j-th group's phandle. */
  lemma {:induction false} DevLinks(dev: seq<PropVal>, phs: seq<u32>, j: nat)
    requires j < |phs| <= 12
    ensures ValueOf(DevProps(dev, phs), PinctrlName(j)) == Is(Cell(phs[j]))
  {
    hide PinctrlName, SetVal, AppendVal, ValueOf, Cell;
    var m := |phs| - 1;
    var ps := DevProps(dev, phs[..m]);
    PinctrlNames(j, m);
    OtherValue(ps, NAMES, DEFAULT, PinctrlName(j));
    OtherValue(AppendVal(ps, NAMES, DEFAULT), PinctrlName(m), Cell(phs[m]), PinctrlName(j));
    if j < m {
      DevLinks(dev, phs[..m], j);
    }
  }

  /** s, n times. */
  function Repeat(s: bytes, n: nat): bytes {
    if n == 0 then [] else Repeat(s, n - 1) + s
  }

  /** The list of names has one more entry for each group. */
  lemma {:induction false} DevNames(dev: seq<PropVal>, phs: seq<u32>)
    requires 1 <= |phs| <= 12
    ensures var v := match ValueOf(dev, NAMES) case NoVal => [] case Is(v) => v;
      ValueOf(DevProps(dev, phs), NAMES) == Is(v + Repeat(DEFAULT, |phs|))
  {
    hide PinctrlName, SetVal, AppendVal, ValueOf, Cell, NAMES, DEFAULT;
    var m := |phs| - 1;
    var ps := DevProps(dev, phs[..m]);
    PinctrlNames(m, m);
    OtherValue(AppendVal(ps, NAMES, DEFAULT), PinctrlName(m), Cell(phs[m]), NAMES);
    AppendedValue(ps, NAMES, DEFAULT);
    var v := match ValueOf(dev, NAMES) case NoVal => [] case Is(v) => v;
    if m > 0 {
      DevNames(dev, phs[..m]);
      assert v + Repeat(DEFAULT, m) + DEFAULT == v + Repeat(DEFAULT, |phs|);
    } else {
      assert Repeat(DEFAULT, 0) == [] && Repeat(DEFAULT, 1) == [] + DEFAULT == DEFAULT;
      assert [] + DEFAULT == DEFAULT;
    }
  }

  /** All other properties of the device stay. */
  lemma {:induction false} DevOthers(dev: seq<PropVal>, phs: seq<u32>, other: bytes)
    requires |phs| <= 12 && other != NAMES && forall j | 0 <= j < |phs| :: other != PinctrlName(j)
    ensures ValueOf(DevProps(dev, phs), other) == ValueOf(dev, other)
  {
    hide PinctrlName, SetVal, AppendVal, ValueOf, Cell;
    if phs != [] {
      var m := |phs| - 1;
      var ps := DevProps(dev, phs[..m]);
      OtherValue(ps, NAMES, DEFAULT, other);
      OtherValue(AppendVal(ps, NAMES, DEFAULT), PinctrlName(m), Cell(phs[m]), other);
      DevOthers(dev, phs[..m], other);
    }
  }

  /** A node's phandle is decided by the values of two properties. */
  lemma PhandleValues(ps: seq<PropVal>, qs: seq<PropVal>)
    requires ValueOf(ps, PHANDLE) == ValueOf(qs, PHANDLE) && ValueOf(ps, LINUX_PHANDLE) == ValueOf(qs, LINUX_PHANDLE)
    ensures Phandle(ps) == Phandle(qs)
  {
    hide IndexOf, Be32;
  }

  lemma NotPhandle(j: nat)
    ensures NAMES != PHANDLE && NAMES != LINUX_PHANDLE && PinctrlName(j) != PHANDLE && PinctrlName(j) != LINUX_PHANDLE
  {
    assert |NAMES| == 13 && |PHANDLE| == 7 && |LINUX_PHANDLE| == 13 && 8 <= |PinctrlName(j)| <= 9;
    assert NAMES[0] == 112 && LINUX_PHANDLE[0] == 108;
  }

  /** Registering groups with the device leaves its own phandle alone. */
  lemma {:induction false} DevPhandle(dev: seq<PropVal>, phs: seq<u32>)
    ensures Phandle(DevProps(dev, phs)) == Phandle(AppendVal(DevProps(dev, phs), NAMES, DEFAULT)) == Phandle(dev)
  {
    hide PinctrlName, SetVal, AppendVal, ValueOf, Cell, Phandle, PHANDLE, LINUX_PHANDLE, NAMES, DEFAULT;
    var ps := DevProps(dev, phs);
    NotPhandle(0);
    OtherValue(ps, NAMES, DEFAULT, PHANDLE);
    OtherValue(ps, NAMES, DEFAULT, LINUX_PHANDLE);
    PhandleValues(AppendVal(ps, NAMES, DEFAULT), ps);
    if phs != [] {
      var m := |phs| - 1;
      var qs := AppendVal(DevProps(dev, phs[..m]), NAMES, DEFAULT);
      NotPhandle(m);
      OtherValue(qs, PinctrlName(m), Cell(phs[m]), PHANDLE);
      OtherValue(qs, PinctrlName(m), Cell(phs[m]), LINUX_PHANDLE);
      PhandleValues(ps, qs);
      DevPhandle(dev, phs[..m]);
    }
  }

  /** As many classes as gpios if no two share one. */
  lemma {:induction false} OrderAll(gs: seq<Gpio>)
    requires forall i, j | 0 <= i < j < |gs| :: ClassOf(gs[i]) != ClassOf(gs[j])
    ensures |Order(gs)| == |gs|
  {
    hide ClassOf;
    if gs != [] {
      var init := gs[..|gs| - 1];
      OrderAll(init);
      OrderOnce(init);
    }
  }

  /** There are twelve classes. */
  lemma {:induction false} OrderBound(gs: seq<Gpio>)
    ensures |Order(gs)| <= 12
  {
    var cs := Order(gs);
    OrderOnce(gs);
    var ids := seq(|cs|, i requires 0 <= i < |cs| => 4 * cs[i].pull + cs[i].drive);
    forall i | 0 <= i < |cs|
      ensures Normal(cs[i])
    {
      OrderProper(gs, cs[i]);
    }
    AtMost(ids, 12);
  }

  /** Distinct numbers below n are at most n. */
  lemma {:induction false} AtMost(s: seq<nat>, n: nat)
    requires Distinct(s) && forall i | 0 <= i < |s| :: s[i] < n
    ensures |s| <= n
    decreases n
  {
    if s != [] && s[0] < n {
      if i :| 0 <= i < |s| && s[i] == n - 1 {
        var t := s[..i] + s[i + 1..];
        assert Distinct(t);
        AtMost(t, n - 1);
      } else {
        AtMost(s, n - 1);
      }
    }
  }
}
