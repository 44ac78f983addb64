/** How many free bytes fdt_add_pinctrl_group needs (src/fdt_tools.c). It ignores the results of most edits, so with too
    little room it can return 0 and leave groups incomplete. */
module Budgets {
  import opened Bytes
  import opened Structure
  import opened Trees
  import opened Names
  import opened Rw
  import opened Stores
  import opened Phandles
  import opened Groups
  import opened Sites
  import opened Boards
  import opened Outcomes

  /** The strings block so far, the bytes spent, and the most that were ever spent. */
  datatype Bill = Bill(strs: bytes, spent: int, need: int)

  function Charge(bill: Bill, cost: int, strs: bytes): (r: Bill)
    ensures bill.need <= r.need && r.spent <= r.need
  {
    var spent := bill.spent + cost;
    Bill(strs, spent, if spent > bill.need then spent else bill.need)
  }

  /** A property whose value was old_ is set to size bytes, or extended by them. A new one takes a header, and its name is
      entered in the strings block unless it occurs there. */
  function Pay(bill: Bill, old_: Val, name: bytes, size: nat, append: bool): (r: Bill)
    ensures bill.need <= r.need && r.spent <= r.need
  {
    match old_
    case NoVal =>
      var t := Intern(bill.strs, name).0;
      Charge(bill, |t| - |bill.strs| + 12 + Align4(size), t)
    case Is(v) => Charge(bill, Align4(if append then |v| + size else size) - Align4(|v|), bill.strs)
  }

  /** The value of the device's list of names after n groups. */
  function NamesNow(dev: seq<PropVal>, n: nat): Val {
    if n == 0 then ValueOf(dev, NAMES)
    else match NamesNow(dev, n - 1) case NoVal => Is(DEFAULT) case Is(v) => Is(v + DEFAULT)
  }

  /** The three properties a group starts with, and the two of its phandle. */
  function FillBill(bill: Bill, device: bytes): (r: Bill)
    ensures bill.need <= r.need
  {
    Pay(Pay(Pay(bill, NoVal, DRIVE, 4, false), NoVal, PULL, 4, false), NoVal, FUNCTION, |device| + 1, false)
  }

  function GiveBill(bill: Bill): (r: Bill)
    ensures bill.need <= r.need && r.spent <= r.need
  {
    Pay(Pay(bill, NoVal, PHANDLE, 4, false), NoVal, LINUX_PHANDLE, 4, false)
  }

  /** The n-th group: its node, its properties, and what it adds to the device. */
  function GroupBill(bill: Bill, dev: seq<PropVal>, device: bytes, c: Class, n: nat): (r: Bill)
    ensures bill.need <= r.need && r.spent <= r.need
  {
    var b1 := FillBill(Charge(bill, BeginSize(GroupName(device, c)) + 4, bill.strs), device);
    var b2 := GiveBill(Pay(b1, NamesNow(dev, n), NAMES, 8, true));
    Pay(b2, ValueOf(dev, PinctrlName(n)), PinctrlName(n), 4, false)
  }

  function PinsNow(gs: seq<Gpio>, c: Class): Val {
    if Pins(gs, c) == [] then NoVal else Is(Pins(gs, c))
  }

  /** One gpio more. */
  function GpioBill(bill: Bill, dev: seq<PropVal>, device: bytes, gs: seq<Gpio>, g: Gpio): (r: Bill)
    ensures bill.need <= r.need
  {
    var c := ClassOf(g);
    var b1 := if c in Order(gs) then bill else GroupBill(bill, dev, device, c, |Order(gs)|);
    Pay(b1, PinsNow(gs, c), PINS, |Pin(g)| + 1, true)
  }

  function Bills(strs: bytes, dev: seq<PropVal>, device: bytes, gs: seq<Gpio>): Bill {
    if gs == [] then Bill(strs, 0, 0)
    else
      var init := gs[..|gs| - 1];
      GpioBill(Bills(strs, dev, device, init), dev, device, init, gs[|gs| - 1])
  }

  /** The free bytes that all the edits for gs take, from a strings block and the device's properties. */
  function Needed(strs: bytes, dev: seq<PropVal>, device: bytes, gs: seq<Gpio>): int {
    Bills(strs, dev, device, gs).need
  }

  // ---------------------------------------------------------------------------
  // What is there, as a number: every edit that fails leaves it short for good
  // ---------------------------------------------------------------------------

  function Weight(name: bytes, size: nat): nat {
    (if name == PINS then 0 else 1) + size
  }

  function Bulk(ps: seq<PropVal>): nat {
    if ps == [] then 0 else Weight(ps[0].name, |ps[0].val|) + Bulk(ps[1..])
  }

  function BulkAll(groups: seq<seq<PropVal>>): nat {
    if groups == [] then 0 else BulkAll(groups[..|groups| - 1]) + Bulk(groups[|groups| - 1])
  }

  function ListLen(dev: seq<PropVal>): nat {
    match ValueOf(dev, NAMES) case NoVal => 0 case Is(v) => |v|
  }

  /** How many of the first n properties of the device hold a cell. */
  function Links(dev: seq<PropVal>, n: nat): nat {
    if n == 0 then 0
    else Links(dev, n - 1) + match ValueOf(dev, PinctrlName(n - 1)) case NoVal => 0 case Is(v) => if |v| == 4 then 1 else 0
  }

  function Score(st: State, n: nat): nat {
    BulkAll(st.groups) + ListLen(st.dev) + Links(st.dev, n)
  }

  lemma {:induction false} BulkUpdate(ps: seq<PropVal>, i: nat, p: PropVal)
    requires i < |ps|
    ensures Bulk(ps[i := p]) == Bulk(ps) - Weight(ps[i].name, |ps[i].val|) + Weight(p.name, |p.val|)
  {
    hide Weight;
    if i == 0 {
      assert ps[0 := p][1..] == ps[1..];
    } else {
      assert ps[i := p][1..] == ps[1..][i - 1 := p];
      BulkUpdate(ps[1..], i - 1, p);
    }
  }

  lemma BulkFront(p: PropVal, ps: seq<PropVal>)
    ensures Bulk([p] + ps) == Weight(p.name, |p.val|) + Bulk(ps)
  {
    hide Weight;
    assert ([p] + ps)[1..] == ps;
  }

  /** A property that is set or extended adds at most its weight. */
  lemma BulkPut(ps: seq<PropVal>, name: bytes, val: bytes, append: bool)
    ensures Bulk(NewProps(ps, name, val, append)) <= Bulk(ps) + Weight(name, |val|)
  {
    hide IndexOf, Bulk, PINS;
    var i := IndexOf(ps, name);
    if i < |ps| {
      BulkUpdate(ps, i, PropVal(name, if append then ps[i].val + val else val));
    } else {
      BulkFront(PropVal(name, val), ps);
    }
  }

  lemma {:induction false} BulkAllUpdate(groups: seq<seq<PropVal>>, j: nat, ps: seq<PropVal>)
    requires j < |groups|
    ensures BulkAll(groups[j := ps]) == BulkAll(groups) - Bulk(groups[j]) + Bulk(ps)
  {
    hide Bulk;
    var m := |groups| - 1;
    if j == m {
      assert groups[j := ps][..m] == groups[..m];
    } else {
      assert groups[j := ps][..m] == groups[..m][j := ps];
      BulkAllUpdate(groups[..m], j, ps);
    }
  }

  lemma BulkAllMore(groups: seq<seq<PropVal>>, ps: seq<PropVal>)
    ensures BulkAll(groups + [ps]) == BulkAll(groups) + Bulk(ps)
  {
    hide Bulk;
    assert (groups + [ps])[..|groups|] == groups;
  }

  lemma {:induction false} LinksSame(dev: seq<PropVal>, dev': seq<PropVal>, n: nat)
    requires forall k | 0 <= k < n :: ValueOf(dev, PinctrlName(k)) == ValueOf(dev', PinctrlName(k))
    ensures Links(dev, n) == Links(dev', n)
  {
    hide ValueOf, PinctrlName;
    if n > 0 {
      LinksSame(dev, dev', n - 1);
    }
  }

  /** The device's list of names grows by one. */
  lemma {:induction false} DevNamed(dev: seq<PropVal>, n: nat)
    requires n <= 12
    ensures var dev' := AppendVal(dev, NAMES, DEFAULT);
      ListLen(dev') == ListLen(dev) + 8 && Links(dev', n) == Links(dev, n)
    ensures ValueOf(AppendVal(dev, NAMES, DEFAULT), NAMES) ==
            match ValueOf(dev, NAMES) case NoVal => Is(DEFAULT) case Is(v) => Is(v + DEFAULT)
  {
    hide PinctrlName, NAMES, SetVal, ValueOf, AppendVal;
    var dev' := AppendVal(dev, NAMES, DEFAULT);
    AppendedValue(dev, NAMES, DEFAULT);
    forall k | 0 <= k < n
      ensures ValueOf(dev, PinctrlName(k)) == ValueOf(dev', PinctrlName(k))
    {
      PinctrlNames(k, k);
      OtherValue(dev, NAMES, DEFAULT, PinctrlName(k));
    }
    LinksSame(dev, dev', n);
  }

  /** The device refers to one group more. */
  lemma {:induction false} DevLinked(dev: seq<PropVal>, n: nat, ph: u32)
    requires n < 12
    ensures var dev' := SetVal(dev, PinctrlName(n), Cell(ph));
      ListLen(dev') == ListLen(dev) && Links(dev', n + 1) == Links(dev, n) + 1
  {
    hide PinctrlName, NAMES, SetVal, ValueOf, AppendVal, Cell;
    var dev' := SetVal(dev, PinctrlName(n), Cell(ph));
    PinctrlNames(n, n);
    OtherValue(dev, PinctrlName(n), Cell(ph), NAMES);
    forall k | 0 <= k < n
      ensures ValueOf(dev, PinctrlName(k)) == ValueOf(dev', PinctrlName(k))
    {
      PinctrlNames(k, n);
      OtherValue(dev, PinctrlName(n), Cell(ph), PinctrlName(k));
    }
    LinksSame(dev, dev', n);
  }

  // ---------------------------------------------------------------------------
  // One edit
  // ---------------------------------------------------------------------------

  /** The edit succeeds exactly when the bill with it is covered. */
  lemma PutOnPay(a: Store, r0: int, bill: Bill, name: bytes, val: bytes, append: bool)
    requires bill.spent <= bill.need <= r0 && a.strs == bill.strs && a.room == r0 - bill.spent
    ensures var bill' := Pay(bill, ValueOf(a.props, name), name, |val|, append);
      var (a', err) := PutOn(a, name, val, append);
      if bill'.need <= r0 then err == 0 && a' == Store(NewProps(a.props, name, val, append), bill'.strs, r0 - bill'.spent)
      else err != 0
  {
    hide IndexOf, Intern, NewProps, Align4;
    PutOnCases(a, name, val, append);
  }

  lemma PutOnLeaves(a: Store, name: bytes, val: bytes, append: bool)
    requires a.room >= 0
    ensures var (a', err) := PutOn(a, name, val, append);
      a'.room >= 0 && a'.props == if err == 0 then NewProps(a.props, name, val, append) else a.props
  {
    hide IndexOf, Intern, NewProps, Align4, Growth;
  }

  /** A cell that cannot be stored was not there. */
  lemma CellRefused(a: Store, name: bytes, ph: u32)
    requires a.room >= 0 && PutOn(a, name, Cell(ph), false).1 != 0
    ensures match ValueOf(a.props, name) case NoVal => true case Is(v) => |v| != 4
  {
    hide IndexOf, Intern, NewProps, Cell;
    PutOnCases(a, name, Cell(ph), false);
  }

  /** As long as the bill is covered the board is the one that should be; as soon as it is not, the score is short of full. */
  ghost predicate Stage(b: Board, r0: int, bill: Bill, st: State, n: nat, full: int) {
    && b.room >= 0 && bill.spent <= bill.need
    && |b.st.groups| == |b.st.names| == |st.groups| == |st.names|
    && Score(b.st, n) <= full
    && if bill.need <= r0 then b == Board(st, bill.strs, r0 - bill.spent) else Score(b.st, n) < full
  }

  /** A property of the j-th group. */
  lemma {:induction false} GroupStage(b: Board, r0: int, bill: Bill, st: State, n: nat, full: int, j: nat, name: bytes, val: bytes, append: bool)
    requires Stage(b, r0, bill, st, n, full) && j < |st.groups| && val != []
    ensures j < |b.st.groups|
    ensures Pay(bill, ValueOf(st.groups[j], name), name, |val|, append).need <= r0 ==> OnGroup(b, j, name, val, append).1 == 0
    ensures Stage(OnGroup(b, j, name, val, append).0, r0, Pay(bill, ValueOf(st.groups[j], name), name, |val|, append),
                  SetGroup(st, j, NewProps(st.groups[j], name, val, append)), n, full + Weight(name, |val|))
  {
    hide PutOn, NewProps, ValueOf, Pay, ListLen, Links, Bulk, BulkAll, PINS;
    var a := GroupStore(b, j);
    var (a', err) := PutOn(a, name, val, append);
    PutOnLeaves(a, name, val, append);
    BulkPut(a.props, name, val, append);
    BulkAllUpdate(b.st.groups, j, a'.props);
    if bill.need <= r0 {
      PutOnPay(a, r0, bill, name, val, append);
    }
    if err != 0 {
      assert b.st.groups[j := b.st.groups[j]] == b.st.groups;
    }
  }

  /** The list of names of the device. */
  lemma {:induction false} NamesStage(b: Board, r0: int, bill: Bill, st: State, n: nat, full: int)
    requires Stage(b, r0, bill, st, n, full) && n <= 12
    ensures Stage(OnDevice(b, NAMES, DEFAULT, true).0, r0, Pay(bill, ValueOf(st.dev, NAMES), NAMES, 8, true),
                  st.(dev := AppendVal(st.dev, NAMES, DEFAULT)), n, full + 8)
  {
    hide PutOn, ValueOf, Pay, ListLen, Links, Bulk, BulkAll, NAMES, AppendVal, SetVal;
    var a := DevStore(b);
    PutOnLeaves(a, NAMES, DEFAULT, true);
    DevNamed(b.st.dev, n);
    if bill.need <= r0 {
      PutOnPay(a, r0, bill, NAMES, DEFAULT, true);
    }
  }

  /** The n-th property of the device. */
  lemma {:induction false} LinkStage(b: Board, r0: int, bill: Bill, st: State, n: nat, full: int, ph: u32)
    requires Stage(b, r0, bill, st, n, full) && n < 12
    ensures Stage(OnDevice(b, PinctrlName(n), Cell(ph), false).0, r0, Pay(bill, ValueOf(st.dev, PinctrlName(n)), PinctrlName(n), 4, false),
                  st.(dev := SetVal(st.dev, PinctrlName(n), Cell(ph))), n + 1, full + 1)
  {
    hide PutOn, ValueOf, Pay, ListLen, Bulk, BulkAll, NAMES, AppendVal, SetVal, PinctrlName, Cell;
    var a, name := DevStore(b), PinctrlName(n);
    PutOnLeaves(a, name, Cell(ph), false);
    DevLinked(b.st.dev, n, ph);
    if bill.need <= r0 {
      PutOnPay(a, r0, bill, name, Cell(ph), false);
    }
    if PutOn(a, name, Cell(ph), false).1 != 0 {
      CellRefused(a, name, ph);
    }
  }

  /** The new node. */
  lemma {:induction false} NodeStage(b: Board, r0: int, bill: Bill, st: State, n: nat, full: int, name: bytes)
    requires Stage(b, r0, bill, st, n, full)
    ensures var bill' := Charge(bill, BeginSize(name) + 4, bill.strs);
      var (b', err) := AddNode(b, name);
      if err != 0 then bill'.need > r0 else Stage(b', r0, bill', NewGroupState(st, name), n, full)
  {
    hide ListLen, Links, BulkAll, BeginSize;
    BulkAllMore(b.st.groups, []);
  }

  /** What should be there does not matter once the bill is not covered. */
  lemma StageLost(b: Board, r0: int, bill: Bill, st: State, n: nat, full: int, bill': Bill, st': State, full': int)
    requires Stage(b, r0, bill, st, n, full) && bill.need <= bill'.need && bill'.spent <= bill'.need && bill'.need > r0
    requires full <= full' && (full < full' || bill.need > r0) && |st'.groups| == |st'.names| == |st.names|
    ensures Stage(b, r0, bill', st', n, full')
  {
    hide Score;
  }

  // ---------------------------------------------------------------------------
  // A new group
  // ---------------------------------------------------------------------------

  lemma WeightsAre(device: bytes)
    ensures Weight(DRIVE, 4) == Weight(PULL, 4) == Weight(PHANDLE, 4) == Weight(LINUX_PHANDLE, 4) == 5
    ensures Weight(FUNCTION, |device + [0]|) == |device| + 2
    ensures DRIVE != PULL && DRIVE != FUNCTION && PULL != FUNCTION && PHANDLE != LINUX_PHANDLE
  {
    assert |DRIVE| == 15 && |PULL| == 14 && |FUNCTION| == 18 && |PHANDLE| == 7 && |LINUX_PHANDLE| == 13 && |PINS| == 14;
    assert PINS[13] == 115 && PULL[13] == 108;
  }

  /** The values the first three edits of a group meet. */
  lemma FillValues(device: bytes, c: Class)
    ensures ValueOf([], DRIVE) == NoVal
    ensures ValueOf(SetVal([], DRIVE, Cell(c.drive)), PULL) == NoVal
    ensures ValueOf(SetVal(SetVal([], DRIVE, Cell(c.drive)), PULL, Cell(c.pull)), FUNCTION) == NoVal
  {
    hide SetVal, Cell, DRIVE, PULL, FUNCTION;
    WeightsAre(device);
    var ps := SetVal([], DRIVE, Cell(c.drive));
    OtherValue([], DRIVE, Cell(c.drive), PULL);
    OtherValue([], DRIVE, Cell(c.drive), FUNCTION);
    OtherValue(ps, PULL, Cell(c.pull), FUNCTION);
  }

  lemma SetTwice(st: State, j: nat, ps: seq<PropVal>, qs: seq<PropVal>)
    requires j < |st.groups|
    ensures SetGroup(SetGroup(st, j, ps), j, qs) == SetGroup(st, j, qs)
  {
    assert st.groups[j := ps][j := qs] == st.groups[j := qs];
  }

  lemma {:induction false} FillStage(b: Board, r0: int, bill: Bill, st: State, n: nat, full: int, j: nat, device: bytes, c: Class)
    requires Stage(b, r0, bill, st, n, full) && j < |st.groups| && st.groups[j] == []
    ensures j < |b.st.groups|
    ensures Stage(Fill(b, j, device, c), r0, FillBill(bill, device), SetGroup(st, j, BaseProps(device, c)), n, full + |device| + 12)
  {
    hide Stage, OnGroup, ValueOf, Pay, SetVal, Cell, Weight, BaseProps, DRIVE, PULL, FUNCTION, PHANDLE, LINUX_PHANDLE;
    WeightsAre(device);
    StageParts(b, r0, bill, st, n, full);
    FillValues(device, c);
    BaseBuilt(device, c);
    var p1 := SetVal([], DRIVE, Cell(c.drive));
    var p2 := SetVal(p1, PULL, Cell(c.pull));
    var b1, b2 := OnGroup(b, j, DRIVE, Cell(c.drive), false).0, Pay(bill, NoVal, DRIVE, 4, false);
    GroupStage(b, r0, bill, st, n, full, j, DRIVE, Cell(c.drive), false);
    var st1 := SetGroup(st, j, p1);
    GroupStage(b1, r0, b2, st1, n, full + 5, j, PULL, Cell(c.pull), false);
    SetTwice(st, j, p1, p2);
    var b3, b4 := OnGroup(b1, j, PULL, Cell(c.pull), false).0, Pay(b2, NoVal, PULL, 4, false);
    var st2 := SetGroup(st, j, p2);
    GroupStage(b3, r0, b4, st2, n, full + 10, j, FUNCTION, device + [0], false);
    SetTwice(st, j, p2, BaseProps(device, c));
  }

  /** The second property on the way. */
  lemma {:induction false} LinuxStage(b: Board, r0: int, bill: Bill, st: State, n: nat, full: int, j: nat, v: u32)
    requires j < |st.groups| && ValueOf(st.groups[j], LINUX_PHANDLE) == NoVal
    requires Stage(b, r0, bill, SetGroup(st, j, SetVal(st.groups[j], PHANDLE, Cell(v))), n, full)
    ensures j < |b.st.groups|
    ensures Stage(OnGroup(b, j, LINUX_PHANDLE, Cell(v), false).0, r0, Pay(bill, NoVal, LINUX_PHANDLE, 4, false),
                  SetGroup(st, j, Linked(st.groups[j], v)), n, full + 5)
    ensures Pay(bill, NoVal, LINUX_PHANDLE, 4, false).need <= r0 ==> OnGroup(b, j, LINUX_PHANDLE, Cell(v), false).1 == 0
  {
    hide Stage, OnGroup, ValueOf, Pay, SetVal, Cell, Weight, PHANDLE, LINUX_PHANDLE;
    WeightsAre([]);
    var qs := SetVal(st.groups[j], PHANDLE, Cell(v));
    OtherValue(st.groups[j], PHANDLE, Cell(v), LINUX_PHANDLE);
    GroupStage(b, r0, bill, SetGroup(st, j, qs), n, full, j, LINUX_PHANDLE, Cell(v), false);
    SetTwice(st, j, qs, Linked(st.groups[j], v));
  }

  /** Both properties in a row are two edits of the group. */
  lemma GiveIs(w: Site, b: Board, j: nat)
    requires w.k < Total(w.f) && Even(b) && j < |b.st.groups| && Phandle(b.st.groups[j]) == 0
    ensures var v := Next(w, b.st);
      var (b1, r1) := OnGroup(b, j, PHANDLE, Cell(v), false);
      Give(w, b, j) ==
      if r1 < 0 then (b1, 0)
      else
        var (b2, r2) := OnGroup(b1, j, LINUX_PHANDLE, Cell(v), false);
        (b2, if r2 < 0 then 0 else v)
  {
    hide PutOn, Phandle, Next, Total, Cell, PHANDLE, LINUX_PHANDLE;
    var v := Next(w, b.st);
    var a := PutOn(GroupStore(b, j), PHANDLE, Cell(v), false).0;
    SetTwice(b.st, j, a.props, PutOn(a, LINUX_PHANDLE, Cell(v), false).0.props);
  }

  lemma {:induction false} GiveStage(w: Site, b: Board, r0: int, bill: Bill, st: State, n: nat, full: int, j: nat)
    requires w.k < Total(w.f) && Stage(b, r0, bill, st, n, full) && j < |st.groups| && Phandle(st.groups[j]) == 0
    requires ValueOf(st.groups[j], PHANDLE) == NoVal && ValueOf(st.groups[j], LINUX_PHANDLE) == NoVal
    ensures Even(b) && |st.groups| == |st.names| && j < |b.st.groups|
    ensures var v := Next(w, st);
      && Stage(Give(w, b, j).0, r0, GiveBill(bill), SetGroup(st, j, Linked(st.groups[j], v)), n, full + 10)
      && (GiveBill(bill).need <= r0 ==> Give(w, b, j).1 == v)
  {
    hide Stage, OnGroup, ValueOf, Pay, SetVal, Cell, Weight, PHANDLE, LINUX_PHANDLE, Next, Give, Phandle, Linked, Total;
    WeightsAre([]);
    StageParts(b, r0, bill, st, n, full);
    var v, v', qs := Next(w, st), Next(w, b.st), st.groups[j];
    var bill1 := Pay(bill, NoVal, PHANDLE, 4, false);
    var last := SetGroup(st, j, Linked(qs, v));
    if Phandle(b.st.groups[j]) != 0 {
      GiveKeeps(w, b, j);
      StageLost(b, r0, bill, st, n, full, GiveBill(bill), last, full + 10);
    } else {
      GiveIs(w, b, j);
      var (b1, r1) := OnGroup(b, j, PHANDLE, Cell(v'), false);
      GroupStage(b, r0, bill, st, n, full, j, PHANDLE, Cell(v'), false);
      var st1 := SetGroup(st, j, SetVal(qs, PHANDLE, Cell(v')));
      if r1 < 0 {
        StageLost(b1, r0, bill1, st1, n, full + 5, GiveBill(bill), last, full + 10);
      } else {
        LinuxStage(b1, r0, bill1, st, n, full + 5, j, v');
        if bill.need > r0 {
          var b2 := OnGroup(b1, j, LINUX_PHANDLE, Cell(v'), false).0;
          StageLost(b2, r0, GiveBill(bill), SetGroup(st, j, Linked(qs, v')), n, full + 10, GiveBill(bill), last, full + 10);
        }
      }
    }
  }

  lemma GiveKeeps(w: Site, b: Board, j: nat)
    requires w.k < Total(w.f) && Even(b) && j < |b.st.groups| && Phandle(b.st.groups[j]) != 0
    ensures Give(w, b, j).0 == b
  {
    hide Phandle, Total;
  }

  lemma StageParts(b: Board, r0: int, bill: Bill, st: State, n: nat, full: int)
    requires Stage(b, r0, bill, st, n, full)
    ensures Even(b) && |b.st.groups| == |b.st.names| == |st.groups| == |st.names| && b.room >= 0
    ensures bill.need <= r0 ==> b == Board(st, bill.strs, r0 - bill.spent)
    ensures bill.need > r0 ==> Score(b.st, n) < full
  {
    hide Score;
  }

  /** What a new group finds in the properties of the device. */
  lemma {:induction false} DevFinds(dev: seq<PropVal>, phs: seq<u32>)
    requires |phs| < 12
    ensures var ps, n := DevProps(dev, phs), |phs|;
      && ValueOf(ps, NAMES) == NamesNow(dev, n)
      && ValueOf(AppendVal(ps, NAMES, DEFAULT), PinctrlName(n)) == ValueOf(dev, PinctrlName(n))
  {
    hide PinctrlName, NAMES, DEFAULT, SetVal, ValueOf, AppendVal, DevProps, NamesNow;
    var ps, n := DevProps(dev, phs), |phs|;
    DevNames(dev, phs);
    PinctrlNames(n, n);
    OtherValue(ps, NAMES, DEFAULT, PinctrlName(n));
    forall j | 0 <= j < n
      ensures PinctrlName(n) != PinctrlName(j)
    {
      PinctrlNames(n, j);
    }
    DevOthers(dev, phs, PinctrlName(n));
  }

  lemma {:induction false} DevNames(dev: seq<PropVal>, phs: seq<u32>)
    requires |phs| <= 12
    ensures ValueOf(DevProps(dev, phs), NAMES) == NamesNow(dev, |phs|)
  {
    hide PinctrlName, NAMES, DEFAULT, SetVal, ValueOf, AppendVal, Cell;
    if phs != [] {
      var m := |phs| - 1;
      var ps := DevProps(dev, phs[..m]);
      DevNames(dev, phs[..m]);
      AppendedValue(ps, NAMES, DEFAULT);
      PinctrlNames(m, m);
      OtherValue(AppendVal(ps, NAMES, DEFAULT), PinctrlName(m), Cell(phs[m]), NAMES);
    }
  }

  lemma BaseValues(device: bytes, c: Class)
    ensures ValueOf(BaseProps(device, c), PHANDLE) == NoVal && ValueOf(BaseProps(device, c), LINUX_PHANDLE) == NoVal
  {
    hide Cell;
    var ps := BaseProps(device, c);
    assert |DRIVE| == 15 && |PULL| == 14 && |FUNCTION| == 18 && |PHANDLE| == 7 && |LINUX_PHANDLE| == 13;
    IndexIs(ps, PHANDLE, 3);
    IndexIs(ps, LINUX_PHANDLE, 3);
  }

  /** A group that has its first properties is registered. */
  lemma {:induction false} RegisterStage(w: Site, b: Board, r0: int, bill: Bill, st: State, n: nat, full: int, device: bytes, c: Class)
    requires w.k < Total(w.f) && n == |st.names| < 12
    requires Stage(b, r0, bill, State(st.names + [GroupName(device, c)], st.groups + [BaseProps(device, c)], st.dev), n, full)
    ensures Even(b) && n < |b.st.groups| && |Asking(st, device, c).groups| == |Asking(st, device, c).names|
    ensures var b1 := GiveBill(Pay(bill, ValueOf(st.dev, NAMES), NAMES, 8, true));
      var old_ := ValueOf(AppendVal(st.dev, NAMES, DEFAULT), PinctrlName(n));
      Stage(Register(w, b, n, n), r0, Pay(b1, old_, PinctrlName(n), 4, false),
            Grouped(st, device, c, Next(w, Asking(st, device, c))), n + 1, full + 19)
  {
    hide Stage, OnDevice, ValueOf, Pay, SetVal, AppendVal, Cell, BaseProps, LinkedProps, PHANDLE, LINUX_PHANDLE, NAMES, DEFAULT, Next, Give,
      Phandle, Linked, Total, PinctrlName, GroupName, GiveBill;
    var ps := BaseProps(device, c);
    var st0 := State(st.names + [GroupName(device, c)], st.groups + [ps], st.dev);
    StageParts(b, r0, bill, st0, n, full);
    NamesStage(b, r0, bill, st0, n, full);
    var b1, bill1, st1 := OnDevice(b, NAMES, DEFAULT, true).0, Pay(bill, ValueOf(st.dev, NAMES), NAMES, 8, true), Asking(st, device, c);
    BaseFree(device, c);
    BaseValues(device, c);
    GiveStage(w, b1, r0, bill1, st1, n, full + 8, n);
    LinkedIs(device, c, Next(w, st1));
    var v := Next(w, st1);
    var (b2, ph) := Give(w, b1, n);
    var st2 := SetGroup(st1, n, Linked(ps, v));
    var b3 := OnDevice(b2, PinctrlName(n), Cell(ph), false).0;
    LinkStage(b2, r0, GiveBill(bill1), st2, n, full + 18, ph);
    var st3 := st2.(dev := SetVal(st2.dev, PinctrlName(n), Cell(ph)));
    var bill3 := Pay(GiveBill(bill1), ValueOf(st2.dev, PinctrlName(n)), PinctrlName(n), 4, false);
    assert st2.groups == st.groups + [LinkedProps(device, c, v)];
    if GiveBill(bill1).need > r0 {
      StageLost(b3, r0, bill3, st3, n + 1, full + 19, bill3, Grouped(st, device, c, v), full + 19);
    }
  }

  lemma LinkedIs(device: bytes, c: Class, v: u32)
    ensures Linked(BaseProps(device, c), v) == LinkedProps(device, c, v)
  {
    hide SetVal, Cell, BaseProps, LinkedProps, PHANDLE, LINUX_PHANDLE;
    LinkBuilt(device, c, v);
  }

  /** A new group. */
  lemma {:induction false} GroupDone(w: Site, b: Board, r0: int, bill: Bill, st: State, full: int, device: bytes, c: Class, gs: seq<Gpio>,
                                     cs: seq<Class>, phs: seq<u32>)
    requires w.k < Total(w.f) && Filled(w, device, gs, cs, phs, st) && |cs| < 12 && Stage(b, r0, bill, st, |cs|, full)
    ensures Even(b) && w.d < Total(w.f) && |Asking(st, device, c).groups| == |Asking(st, device, c).names|
    ensures var (b', r) := NewGroup(w, b, device, c);
      var bill' := GroupBill(bill, PropsOf(w.f, w.d), device, c, |cs|);
      if r != 0 then bill'.need > r0
      else Stage(b', r0, bill', Grouped(st, device, c, Next(w, Asking(st, device, c))), |cs| + 1, full + |device| + 31)
  {
    hide Stage, ValueOf, Pay, AppendVal, BaseProps, NAMES, DEFAULT, Next, Total, PinctrlName, GroupName, FillBill, GiveBill, Fill, Register,
      Filled, DevProps, AddNode, NamesNow, PropsOf, Charge;
    FilledSizes(w, device, gs, cs, phs, st);
    var n, name := |cs|, GroupName(device, c);
    StageParts(b, r0, bill, st, n, full);
    DevFinds(PropsOf(w.f, w.d), phs);
    NodeStage(b, r0, bill, st, n, full, name);
    var (b1, r) := AddNode(b, name);
    var bill1, st1 := Charge(bill, BeginSize(name) + 4, bill.strs), NewGroupState(st, name);
    if r == 0 {
      FillStage(b1, r0, bill1, st1, n, full, n, device, c);
      assert SetGroup(st1, n, BaseProps(device, c)).groups == st.groups + [BaseProps(device, c)];
      StageParts(b1, r0, bill1, st1, n, full);
      RegisterStage(w, Fill(b1, n, device, c), r0, FillBill(bill1, device), st, n, full + |device| + 12, device, c);
    }
  }

  // ---------------------------------------------------------------------------
  // The full score
  // ---------------------------------------------------------------------------

  /** The score when nothing is missing, from a list of names of that length. */
  function Full(base: nat, device: bytes, gs: seq<Gpio>, cs: seq<Class>): nat {
    BulkFull(device, gs, cs) + base + 9 * |cs|
  }

  function BulkFull(device: bytes, gs: seq<Gpio>, cs: seq<Class>): nat {
    if cs == [] then 0
    else
      var m := |cs| - 1;
      BulkFull(device, gs, cs[..m]) + |device| + 22 + |Pins(gs, cs[m])|
  }

  lemma GroupBulk(device: bytes, c: Class, ph: u32, pins: bytes)
    ensures Bulk(GroupProps(device, c, ph, pins)) == |device| + 22 + |pins|
  {
    hide Bulk, Cell, Weight, PINS, PHANDLE, LINUX_PHANDLE, DRIVE, PULL, FUNCTION;
    WeightsAre(device);
    var d, p, f := PropVal(DRIVE, Cell(c.drive)), PropVal(PULL, Cell(c.pull)), PropVal(FUNCTION, device + [0]);
    var a, l := PropVal(PHANDLE, Cell(ph)), PropVal(LINUX_PHANDLE, Cell(ph));
    NoBulk();
    BulkFront(d, []);
    BulkFront(p, [d] + []);
    BulkFront(f, [p] + ([d] + []));
    BulkFront(a, [f] + ([p] + ([d] + [])));
    BulkFront(l, [a] + ([f] + ([p] + ([d] + []))));
    var base := [f] + ([p] + ([d] + []));
    assert base == BaseProps(device, c);
    assert [l] + ([a] + base) == [l, a] + base == LinkedProps(device, c, ph);
    BulkFront(PropVal(PINS, pins), LinkedProps(device, c, ph));
    PinsWeigh(|pins|);
  }

  lemma NoBulk()
    ensures Bulk([]) == 0
  {
  }

  lemma PinsWeigh(n: nat)
    ensures Weight(PINS, n) == n
  {
  }

  lemma {:induction false} BulkFilled(device: bytes, gs: seq<Gpio>, cs: seq<Class>, phs: seq<u32>, groups: seq<seq<PropVal>>)
    requires |cs| == |phs| == |groups|
    requires forall j | 0 <= j < |cs| :: groups[j] == GroupProps(device, cs[j], phs[j], Pins(gs, cs[j]))
    ensures BulkAll(groups) == BulkFull(device, gs, cs)
  {
    hide Bulk, GroupProps, Pins;
    if cs != [] {
      var m := |cs| - 1;
      BulkFilled(device, gs, cs[..m], phs[..m], groups[..m]);
      GroupBulk(device, cs[m], phs[m], Pins(gs, cs[m]));
    }
  }

  lemma {:induction false} DevScore(dev: seq<PropVal>, phs: seq<u32>)
    requires |phs| <= 12
    ensures ListLen(DevProps(dev, phs)) + Links(DevProps(dev, phs), |phs|) == ListLen(dev) + 9 * |phs|
  {
    hide PinctrlName, NAMES, DEFAULT, SetVal, AppendVal, Cell, ListLen, ValueOf;
    if phs != [] {
      var m := |phs| - 1;
      var ps := DevProps(dev, phs[..m]);
      DevScore(dev, phs[..m]);
      DevNamed(ps, m);
      DevLinked(AppendVal(ps, NAMES, DEFAULT), m, phs[m]);
    }
  }

  lemma {:induction false} FilledScore(w: Site, device: bytes, gs: seq<Gpio>, cs: seq<Class>, phs: seq<u32>, st: State)
    requires Filled(w, device, gs, cs, phs, st) && |cs| <= 12
    ensures w.d < Total(w.f) && Score(st, |cs|) == Full(ListLen(PropsOf(w.f, w.d)), device, gs, cs)
  {
    hide BulkAll, ListLen, Links, GroupProps, Pins, DevProps, PropsOf, Total, First, NamesOf, BulkFull;
    BulkFilled(device, gs, cs, phs, st.groups);
    DevScore(PropsOf(w.f, w.d), phs);
  }

  lemma FullNew(base: nat, device: bytes, gs: seq<Gpio>, c: Class)
    requires c !in Order(gs)
    ensures Full(base, device, gs, Order(gs) + [c]) == Full(base, device, gs, Order(gs)) + |device| + 31
  {
    hide Pins, Order;
    PinsNone(gs, c);
    assert (Order(gs) + [c])[..|Order(gs)|] == Order(gs);
  }

  /** A pin counts for one class. */
  lemma {:induction false} FullPin(device: bytes, gs: seq<Gpio>, g: Gpio, cs: seq<Class>)
    requires Distinct(cs)
    ensures BulkFull(device, gs + [g], cs) == BulkFull(device, gs, cs) + if ClassOf(g) in cs then |Pin(g)| + 1 else 0
  {
    hide Pins, ClassOf, Pin;
    if cs != [] {
      var m := |cs| - 1;
      FullPin(device, gs, g, cs[..m]);
      PinsMore(gs, g, cs[m]);
    }
  }

  // ---------------------------------------------------------------------------
  // All gpios
  // ---------------------------------------------------------------------------

  lemma FilledPins(w: Site, device: bytes, gs: seq<Gpio>, cs: seq<Class>, phs: seq<u32>, st: State, j: nat)
    requires Filled(w, device, gs, cs, phs, st) && j < |cs|
    ensures j < |st.groups| && ValueOf(st.groups[j], PINS) == PinsNow(gs, cs[j])
  {
    hide ValueOf, PINS, First, DevProps, NamesOf, Pins, GroupProps, Total, Phandle;
    GroupSays(device, cs[j], phs[j], Pins(gs, cs[j]));
  }

  /** One pin more. */
  lemma {:induction false} PinStage(w: Site, b: Board, r0: int, bill: Bill, st: State, full: int, device: bytes, gs: seq<Gpio>, cs: seq<Class>,
                                    phs: seq<u32>, j: nat, g: Gpio)
    requires Filled(w, device, gs, cs, phs, st) && Stage(b, r0, bill, st, |cs|, full) && j < |cs|
    ensures j < |b.st.groups| && j < |st.groups|
    ensures Stage(AddPin(b, j, g), r0, Pay(bill, PinsNow(gs, cs[j]), PINS, |Pin(g)| + 1, true),
                  SetGroup(st, j, AppendVal(st.groups[j], PINS, Pin(g) + [0])), |cs|, full + |Pin(g)| + 1)
  {
    hide Stage, ValueOf, Pay, AppendVal, SetVal, PINS, Filled, OnGroup, Pin, PinsNow, Weight;
    StageParts(b, r0, bill, st, |cs|, full);
    FilledPins(w, device, gs, cs, phs, st, j);
    GroupStage(b, r0, bill, st, |cs|, full, j, PINS, Pin(g) + [0], true);
    PinsWeigh(|Pin(g)| + 1);
  }

  /** What the account says after gs: what should be there and what is. */
  ghost predicate Accounted(w: Site, b: Board, r0: int, bill: Bill, device: bytes, gs: seq<Gpio>, phs: seq<u32>, st: State) {
    && w.d < Total(w.f) && Filled(w, device, gs, Order(gs), phs, st)
    && Stage(b, r0, bill, st, |Order(gs)|, Full(ListLen(PropsOf(w.f, w.d)), device, gs, Order(gs)))
  }

  /** The group is there. */
  lemma {:induction false} OldStep(w: Site, b: Board, r0: int, bill: Bill, device: bytes, gs: seq<Gpio>, phs: seq<u32>, st: State, g: Gpio)
    returns (st': State)
    requires w.k < Total(w.f) && Accounted(w, b, r0, bill, device, gs, phs, st) && ClassOf(g) in Order(gs)
    ensures Even(b) && |Order(gs)| == |b.st.names| && w.d < Total(w.f)
    ensures Handle(w, b, device, Order(gs), g).1 == 0
    ensures Accounted(w, Handle(w, b, device, Order(gs), g).0, r0, GpioBill(bill, PropsOf(w.f, w.d), device, gs, g), device, gs + [g], phs, st')
  {
    hide Stage, Pay, AppendVal, PINS, First, Pin, Pins, Total, ClassOf, Filled, Order, PropsOf, BulkFull, AddPin, PinsNow, ListLen;
    var cs, c := Order(gs), ClassOf(g);
    FilledSizes(w, device, gs, cs, phs, st);
    var full := Full(ListLen(PropsOf(w.f, w.d)), device, gs, cs);
    StageParts(b, r0, bill, st, |cs|, full);
    OrderMore(gs, g);
    OrderOnce(gs);
    var j := Place(cs, c);
    PinStage(w, b, r0, bill, st, full, device, gs, cs, phs, j, g);
    FilledPin(w, device, gs, cs, phs, st, j, g);
    FullPin(device, gs, g, cs);
    st' := SetGroup(st, j, AppendVal(st.groups[j], PINS, Pin(g) + [0]));
  }

  /** The group is new. */
  lemma {:induction false} NewStep(w: Site, b: Board, r0: int, bill: Bill, device: bytes, gs: seq<Gpio>, phs: seq<u32>, st: State, g: Gpio)
    returns (phs': seq<u32>, st': State)
    requires ValidSite(w) && w.k < Total(w.f) && Accounted(w, b, r0, bill, device, gs, phs, st) && ClassOf(g) !in Order(gs)
    ensures Even(b) && |Order(gs)| == |b.st.names| && w.d < Total(w.f)
    ensures var (b', r) := Handle(w, b, device, Order(gs), g);
      var bill' := GpioBill(bill, PropsOf(w.f, w.d), device, gs, g);
      if r != 0 then bill'.need > r0 else Accounted(w, b', r0, bill', device, gs + [g], phs', st')
  {
    hide Stage, Pay, AppendVal, PINS, First, Pin, Pins, Total, ClassOf, Filled, Order, PropsOf, BulkFull, AddPin, PinsNow, ListLen, GroupBill,
      NewGroup, Grouped, Asking, Next, ValidSite, Place, Full;
    var cs, c := Order(gs), ClassOf(g);
    FilledSizes(w, device, gs, cs, phs, st);
    var base := ListLen(PropsOf(w.f, w.d));
    var full := Full(base, device, gs, cs);
    StageParts(b, r0, bill, st, |cs|, full);
    OrderMore(gs, g);
    OrderBound(gs + [g]);
    OrderOnce(gs + [g]);
    PlaceNew(cs, c);
    PinsNone(gs, c);
    GroupDone(w, b, r0, bill, st, full, device, c, gs, cs, phs);
    phs', st' := phs, st;
    var (b1, r) := NewGroup(w, b, device, c);
    if r == 0 {
      var ph := Next(w, Asking(st, device, c));
      var bill1, st1 := GroupBill(bill, PropsOf(w.f, w.d), device, c, |cs|), Grouped(st, device, c, ph);
      FilledNew(w, device, gs, cs, phs, st, c, ph);
      FullNew(base, device, gs, c);
      PinStage(w, b1, r0, bill1, st1, full + |device| + 31, device, gs, cs + [c], phs + [ph], |cs|, g);
      FilledPin(w, device, gs, cs + [c], phs + [ph], st1, |cs|, g);
      FullAfter(base, device, gs, g, cs + [c]);
      phs', st' := phs + [ph], SetGroup(st1, |cs|, AppendVal(st1.groups[|cs|], PINS, Pin(g) + [0]));
    }
  }

  lemma FullAfter(base: nat, device: bytes, gs: seq<Gpio>, g: Gpio, cs: seq<Class>)
    requires Distinct(cs) && ClassOf(g) in cs
    ensures Full(base, device, gs + [g], cs) == Full(base, device, gs, cs) + |Pin(g)| + 1
  {
    hide BulkFull, Pin, ClassOf;
    FullPin(device, gs, g, cs);
  }

  /** The account over all gpios. */
  lemma {:induction false} Account(w: Site, b: Board, device: bytes, gs: seq<Gpio>) returns (phs: seq<u32>, st: State)
    requires ValidSite(w) && w.k < Total(w.f) && w.d < Total(w.f) && b.st == State([], [], PropsOf(w.f, w.d)) && b.room >= 0
    ensures var a, bill := All(w, b, device, gs), Bills(b.strs, PropsOf(w.f, w.d), device, gs);
      if a.1 != 0 then bill.need > b.room else Accounted(w, a.0, b.room, bill, device, gs, phs, st)
  {
    hide Total, PropsOf, ValidSite, Accounted, Handle, GpioBill, ClassOf, Order;
    if gs == [] {
      phs, st := [], b.st;
      AccountStart(w, b, device);
    } else {
      var m := |gs| - 1;
      var init, g := gs[..m], gs[m];
      phs, st := Account(w, b, device, init);
      AllMore(w, b, device, init, g);
      assert init + [g] == gs;
      var a, bill := All(w, b, device, init), Bills(b.strs, PropsOf(w.f, w.d), device, init);
      if a.1 == 0 {
        if ClassOf(g) in Order(init) {
          st := OldStep(w, a.0, b.room, bill, device, init, phs, st, g);
        } else {
          phs, st := NewStep(w, a.0, b.room, bill, device, init, phs, st, g);
        }
      }
    }
  }

  lemma {:induction false} AccountStart(w: Site, b: Board, device: bytes)
    requires ValidSite(w) && w.d < Total(w.f) && b.st == State([], [], PropsOf(w.f, w.d)) && b.room >= 0
    ensures Accounted(w, b, b.room, Bill(b.strs, 0, 0), device, [], [], b.st)
  {
    hide Total, PropsOf, ValidSite, Filled, ListLen;
    FilledStart(w, device);
  }

  /** fdt_add_pinctrl_group does all it should if and only if the free bytes cover the bill. */
  lemma {:induction false} SpaceNeeded(w: Site, b: Board, device: bytes, gs: seq<Gpio>)
    requires ValidSite(w) && w.k < Total(w.f) && w.d < Total(w.f) && b.st == State([], [], PropsOf(w.f, w.d)) && b.room >= 0
    ensures var a := All(w, b, device, gs);
      a.1 == 0 && (exists phs :: Filled(w, device, gs, Order(gs), phs, a.0.st)) <==>
      Needed(b.strs, PropsOf(w.f, w.d), device, gs) <= b.room
  {
    hide Total, PropsOf, ValidSite, Filled, ClassOf, Order, All, Bills, Full, ListLen, Score, Stage;
    var a, bill := All(w, b, device, gs), Bills(b.strs, PropsOf(w.f, w.d), device, gs);
    var phs, st := Account(w, b, device, gs);
    OrderBound(gs);
    if a.1 == 0 {
      StageParts(a.0, b.room, bill, st, |Order(gs)|, Full(ListLen(PropsOf(w.f, w.d)), device, gs, Order(gs)));
      if x :| Filled(w, device, gs, Order(gs), x, a.0.st) {
        FilledScore(w, device, gs, Order(gs), x, a.0.st);
      }
    }
  }

  /** One gpio, and room for its node alone: the result is 0, and the group is not as it should be. */
  lemma {:induction false} NodeAlone(w: Site, b: Board, device: bytes, g: Gpio)
    requires ValidSite(w) && w.k < Total(w.f) && w.d < Total(w.f) && b.st == State([], [], PropsOf(w.f, w.d))
    requires b.room == BeginSize(GroupName(device, ClassOf(g))) + 4
    ensures var a := All(w, b, device, [g]);
      a.1 == 0 && !exists phs :: Filled(w, device, [g], Order([g]), phs, a.0.st)
  {
    hide Total, PropsOf, ValidSite, Filled, ClassOf, GroupName, AddPin, Fill, Register, PinsNow, FUNCTION, PULL, PHANDLE, LINUX_PHANDLE,
      NAMES, PinctrlName, DRIVE, Intern, BeginSize, GiveBill, NamesNow, Place;
    var dev, c := PropsOf(w.f, w.d), ClassOf(g);
    SpaceNeeded(w, b, device, [g]);
    AllMore(w, b, device, [], g);
    assert [] + [g] == [g] && [g][..0] == [];
    var b1 := Charge(Bill(b.strs, 0, 0), BeginSize(GroupName(device, c)) + 4, b.strs);
    InternGrows(b.strs, DRIVE);
    assert Pay(b1, NoVal, DRIVE, 4, false).need > b.room;
    assert Bills(b.strs, dev, device, [g]) == GpioBill(Bills(b.strs, dev, device, []), dev, device, [], g);
  }

  lemma InternGrows(strs: bytes, name: bytes)
    ensures |strs| <= |Intern(strs, name).0| <= |strs| + |name| + 1
  {
  }

  // ---------------------------------------------------------------------------
  // A simple bound
  // ---------------------------------------------------------------------------

  predicate Within(bill: Bill, x: int) {
    bill.spent <= x && bill.need <= x
  }

  lemma PayBound(bill: Bill, old_: Val, name: bytes, size: nat, append: bool, x: int)
    requires Within(bill, x)
    ensures Within(Pay(bill, old_, name, size, append), x + |name| + size + 16)
  {
    hide Intern;
    InternGrows(bill.strs, name);
  }

  lemma NameLengths(n: nat)
    ensures |DRIVE| == 15 && |PULL| == 14 && |FUNCTION| == 18 && |PINS| == 14 && |NAMES| == 13 && |PHANDLE| == 7 && |LINUX_PHANDLE| == 13
    ensures |PinctrlName(n)| <= 9
  {
  }

  lemma {:induction false} GroupBound(bill: Bill, dev: seq<PropVal>, device: bytes, c: Class, n: nat, x: int)
    requires Within(bill, x) && |device| <= 34
    ensures Within(GroupBill(bill, dev, device, c, n), x + 350)
  {
    hide Pay, NamesNow, ValueOf, PinctrlName, DRIVE, PULL, FUNCTION, NAMES, PHANDLE, LINUX_PHANDLE;
    NameLengths(n);
    var b0 := Charge(bill, BeginSize(GroupName(device, c)) + 4, bill.strs);
    assert Within(b0, x + 75);
    PayBound(b0, NoVal, DRIVE, 4, false, x + 75);
    var b1 := Pay(b0, NoVal, DRIVE, 4, false);
    PayBound(b1, NoVal, PULL, 4, false, x + 110);
    var b2 := Pay(b1, NoVal, PULL, 4, false);
    PayBound(b2, NoVal, FUNCTION, |device| + 1, false, x + 144);
    var b3 := FillBill(b0, device);
    PayBound(b3, NamesNow(dev, n), NAMES, 8, true, x + 213);
    var b4 := Pay(b3, NamesNow(dev, n), NAMES, 8, true);
    PayBound(b4, NoVal, PHANDLE, 4, false, x + 250);
    var b5 := Pay(b4, NoVal, PHANDLE, 4, false);
    PayBound(b5, NoVal, LINUX_PHANDLE, 4, false, x + 277);
    PayBound(GiveBill(b4), ValueOf(dev, PinctrlName(n)), PinctrlName(n), 4, false, x + 310);
  }

  /** 390 bytes for each gpio are always enough. */
  lemma {:induction false} NeededBound(strs: bytes, dev: seq<PropVal>, device: bytes, gs: seq<Gpio>)
    requires |device| <= 34
    ensures Within(Bills(strs, dev, device, gs), 390 * |gs|) && Needed(strs, dev, device, gs) <= 390 * |gs|
  {
    hide Pay, GroupBill, Order, PINS, Pin, ClassOf, PinsNow;
    NameLengths(0);
    if gs != [] {
      var init, g := gs[..|gs| - 1], gs[|gs| - 1];
      NeededBound(strs, dev, device, init);
      var bill, x := Bills(strs, dev, device, init), 390 * |init|;
      var b1 := if ClassOf(g) in Order(init) then bill else GroupBill(bill, dev, device, ClassOf(g), |Order(init)|);
      if ClassOf(g) !in Order(init) {
        GroupBound(bill, dev, device, ClassOf(g), |Order(init)|, x);
      }
      PayBound(b1, PinsNow(init, ClassOf(g)), PINS, |Pin(g)| + 1, true, x + 350);
    }
  }
}
