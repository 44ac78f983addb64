/** The tree of sections and entries of a FEX script (lib/libfex/script.c), on circular lists. */
module Script {
  import opened Bytes
  import opened Memory
  import opened HookList

  datatype Value = Cell(v: u32) | Text(s: bytes) | Gpio(port: u32, num: u32, data: seq<u32>) | Null

  datatype Entry = Entry(name: bytes, value: Value)

  /** A section with the head of its list of entries. */
  class Section {
    const name: bytes
    const entries: Hook<Entry>

    constructor (name: bytes)
      ensures this.name == name && fresh(entries) && entries.item == None
      ensures entries.prev == entries && entries.next == entries
    {
      this.name := name;
      entries := new Hook<Entry>(None);
    }
  }

  /** Names are cut to 31 characters. */
  function CutName(name: bytes): (r: bytes)
    ensures |r| <= 31 && r <= name && (|name| <= 31 ==> r == name) && (|name| > 31 ==> |r| == 31)
  {
    if |name| > 31 then name[..31] else name
  }

  /** The entries es of a section, as its list holds them. */
  ghost predicate HoldsEntries(section: Section, es: seq<Hook<Entry>>)
    reads section.entries, es
  {
    Ring(section.entries, es) && forall i | 0 <= i < |es| :: es[i].item.Some?
  }

  function Items<T>(hooks: seq<Hook<T>>): (vs: seq<T>)
    requires forall i | 0 <= i < |hooks| :: hooks[i].item.Some?
    ensures |vs| == |hooks|
  {
    seq(|hooks|, i requires 0 <= i < |hooks| => hooks[i].item.value)
  }

  /** script_entry_append, with the allocation of the entry around it. */
  method AppendEntry(section: Section, name: bytes, value: Value, ghost es: seq<Hook<Entry>>) returns (e: Hook<Entry>)
    requires HoldsEntries(section, es)
    modifies section.entries, section.entries.prev
    ensures fresh(e) && e.item == Some(Entry(CutName(name), value))
    ensures HoldsEntries(section, es + [e])
  {
    e := new Hook<Entry>(Some(Entry(CutName(name), value)));
    Append(section.entries, e, es);
  }

  /** script_find_entry: the first entry of that name, or null. */
  method FindEntry(section: Section, name: bytes, ghost es: seq<Hook<Entry>>) returns (r: Hook?<Entry>, ghost i: nat)
    requires HoldsEntries(section, es)
    ensures i <= |es| && (forall j | 0 <= j < i :: Items(es)[j].name != name)
    ensures if i == |es| then r == null else r == es[i] && Items(es)[i].name == name
  {
    hide Ring;
    r := First(section.entries, es);
    i := 0;
    while r != null
      invariant i <= |es| && r == if i < |es| then es[i] else null
      invariant forall j | 0 <= j < i :: Items(es)[j].name != name
      decreases |es| - i
    {
      assert r == es[i] && Items(es)[i] == r.item.value;
      var diff := StrCmp(r.item.value.name, name);
      if diff == 0 {
        return;
      }
      r := Next(section.entries, r, es, i);
      i := i + 1;
    }
  }

  /** script_entry_delete: the entry leaves its list. */
  method DeleteEntry(e: Hook<Entry>, ghost section: Section, ghost es: seq<Hook<Entry>>, ghost i: nat)
    requires HoldsEntries(section, es) && i < |es| && es[i] == e
    modifies e.prev, e.next
    ensures HoldsEntries(section, Without(es, i))
  {
    hide Ring, Without;
    OnList(section.entries, es, i);
    var empty := Empty(e, section.entries, es);
    if !empty {
      Remove(e, section.entries, es, i);
    }
  }

  // ---------------------------------------------------------------------------
  // Sections
  // ---------------------------------------------------------------------------

  /** Two sections share no hook. */
  ghost predicate Apart(a: Section, es: seq<Hook<Entry>>, b: Section, fs: seq<Hook<Entry>>) {
    && a.entries != b.entries && a.entries !in fs && b.entries !in es
    && forall i, j | 0 <= i < |es| && 0 <= j < |fs| :: es[i] != fs[j]
  }

  ghost predicate AllApart(ss: seq<Hook<Section>>, es: seq<seq<Hook<Entry>>>)
    requires |es| == |ss| && forall i | 0 <= i < |ss| :: ss[i].item.Some?
  {
    forall i, j | 0 <= i < j < |ss| :: Apart(ss[i].item.value, es[i], ss[j].item.value, es[j])
  }

  /** All hooks of the entry lists. */
  ghost function EntryHooks(ss: seq<Hook<Section>>, es: seq<seq<Hook<Entry>>>): set<object> {
    (set i | 0 <= i < |ss| && ss[i].item.Some? :: ss[i].item.value.entries as object) +
    (set i, j | 0 <= i < |es| && 0 <= j < |es[i]| :: es[i][j] as object)
  }

  /** The i-th of the sections ss holds the entries es[i]; no hook is on two lists. */
  ghost predicate Filled(ss: seq<Hook<Section>>, es: seq<seq<Hook<Entry>>>)
    reads EntryHooks(ss, es)
  {
    && |es| == |ss|
    && (forall i | 0 <= i < |ss| :: ss[i].item.Some?)
    && (forall i | 0 <= i < |ss| :: HoldsEntries(ss[i].item.value, es[i]))
    && AllApart(ss, es)
  }

  /** The list h holds these sections. */
  ghost predicate Holds(h: Hook<Section>, ss: seq<Hook<Section>>, es: seq<seq<Hook<Entry>>>)
    reads h, ss, EntryHooks(ss, es)
  {
    Ring(h, ss) && Filled(ss, es)
  }

  /** One more section, with nothing in common with the others. */
  lemma FilledMore(ss: seq<Hook<Section>>, es: seq<seq<Hook<Entry>>>, s: Hook<Section>, e: seq<Hook<Entry>>)
    requires Filled(ss, es) && s.item.Some? && HoldsEntries(s.item.value, e)
    requires forall i | 0 <= i < |ss| :: Apart(ss[i].item.value, es[i], s.item.value, e)
    ensures Filled(ss + [s], es + [e])
  {
    hide Apart, HoldsEntries;
    var ss', es' := ss + [s], es + [e];
    forall i | 0 <= i < |ss'|
      ensures ss'[i].item.Some? && HoldsEntries(ss'[i].item.value, es'[i])
    {
      if i < |ss| {
        assert ss'[i] == ss[i] && es'[i] == es[i];
      }
    }
    forall i, j | 0 <= i < j < |ss'|
      ensures Apart(ss'[i].item.value, es'[i], ss'[j].item.value, es'[j])
    {
      assert ss'[i] == ss[i] && es'[i] == es[i];
      if j < |ss| {
        assert ss'[j] == ss[j] && es'[j] == es[j];
      }
    }
  }

  datatype SectionImage = SectionImage(name: bytes, entries: seq<Entry>)

  /** The hooks of the lists stand inside sections and entries. */
  ghost predicate HaveItems(ss: seq<Hook<Section>>, es: seq<seq<Hook<Entry>>>) {
    |es| == |ss| && forall i | 0 <= i < |ss| :: ss[i].item.Some? && forall j | 0 <= j < |es[i]| :: es[i][j].item.Some?
  }

  /** What the lists say: the sections in order with their entries in order. */
  ghost function Image(ss: seq<Hook<Section>>, es: seq<seq<Hook<Entry>>>): (im: seq<SectionImage>)
    requires HaveItems(ss, es)
    ensures |im| == |ss|
  {
    seq(|ss|, i requires 0 <= i < |ss| => SectionImage(ss[i].item.value.name, Items(es[i])))
  }

  /** script_section_new. */
  method NewSection(h: Hook<Section>, name: bytes, ghost ss: seq<Hook<Section>>, ghost es: seq<seq<Hook<Entry>>>)
    returns (s: Hook<Section>)
    requires Holds(h, ss, es)
    modifies h, h.prev
    ensures fresh(s) && s.item.Some? && s.item.value.name == CutName(name) && fresh(s.item.value.entries)
    ensures Holds(h, ss + [s], es + [[]]) && HoldsEntries(s.item.value, [])
  {
    hide Ring;
    var section := new Section(CutName(name));
    s := new Hook<Section>(Some(section));
    Alone(section.entries);
    forall i | 0 <= i < |ss|
      ensures Apart(ss[i].item.value, es[i], section, [])
    {
    }
    Append(h, s, ss);
    FilledMore(ss, es, s, []);
  }

  lemma Alone<T>(h: Hook<T>)
    requires h.next == h && h.prev == h
    ensures Ring(h, [])
  {
  }

  /** script_find_section: the first section of that name, or null. */
  method FindSection(h: Hook<Section>, name: bytes, ghost ss: seq<Hook<Section>>) returns (r: Hook?<Section>, ghost i: nat)
    requires Ring(h, ss) && forall i | 0 <= i < |ss| :: ss[i].item.Some?
    ensures i <= |ss| && (forall j | 0 <= j < i :: ss[j].item.value.name != name)
    ensures if i == |ss| then r == null else r == ss[i] && ss[i].item.value.name == name
  {
    hide Ring;
    r := First(h, ss);
    i := 0;
    while r != null
      invariant i <= |ss| && r == if i < |ss| then ss[i] else null
      invariant forall j | 0 <= j < i :: ss[j].item.value.name != name
      decreases |ss| - i
    {
      var diff := StrCmp(r.item.value.name, name);
      if diff == 0 {
        return;
      }
      r := Next(h, r, ss, i);
      i := i + 1;
    }
  }

  // ---------------------------------------------------------------------------
  // Deleting
  // ---------------------------------------------------------------------------

  /** The loop of script_section_delete: the last entry leaves until none is left. */
  method DeleteEntries(section: Section, ghost es: seq<Hook<Entry>>)
    requires HoldsEntries(section, es)
    modifies section.entries, es
    ensures HoldsEntries(section, [])
  {
    hide Ring, Without;
    ghost var n := |es|;
    assert es[..n] == es;
    var o := Last(section.entries, es);
    while o != null
      invariant n <= |es| && HoldsEntries(section, es[..n])
      invariant o == if n == 0 then null else es[n - 1]
      decreases n
    {
      Neighbours(section.entries, es[..n], n - 1);
      DeleteEntry(o, section, es[..n], n - 1);
      n := n - 1;
      WithoutLast(es, n);
      o := Last(section.entries, es[..n]);
    }
    assert es[..0] == [];
  }

  lemma Neighbours<T>(h: Hook<T>, s: seq<Hook<T>>, i: nat)
    requires Ring(h, s) && i < |s|
    ensures (s[i].prev == h || s[i].prev in s) && (s[i].next == h || s[i].next in s)
  {
  }

  lemma WithoutLast<T>(s: seq<T>, n: nat)
    requires n < |s|
    ensures Without(s[..n + 1], n) == s[..n]
  {
  }

  lemma WithoutIs<T>(s: seq<T>, i: nat)
    requires i < |s|
    ensures |Without(s, i)| == |s| - 1
    ensures forall j | 0 <= j < |s| - 1 :: Without(s, i)[j] == s[if j < i then j else j + 1]
  {
  }

  /** The other sections hold what they held, and share nothing with the i-th. */
  lemma FilledLess(ss: seq<Hook<Section>>, es: seq<seq<Hook<Entry>>>, i: nat)
    requires Filled(ss, es) && i < |ss|
    ensures Filled(Without(ss, i), Without(es, i))
    ensures forall j | 0 <= j < |ss| - 1 :: Apart(Without(ss, i)[j].item.value, Without(es, i)[j], ss[i].item.value, es[i])
  {
    hide HoldsEntries, Without;
    WithoutIs(ss, i);
    WithoutIs(es, i);
  }

  /** script_section_delete, of the i-th section of a list. */
  method DeleteSection(s: Hook<Section>, ghost h: Hook<Section>, ghost ss: seq<Hook<Section>>, ghost es: seq<seq<Hook<Entry>>>,
                       ghost i: nat)
    requires Holds(h, ss, es) && i < |ss| && s == ss[i]
    modifies s.prev, s.next, s.item.value.entries, es[i]
    ensures Holds(h, Without(ss, i), Without(es, i)) && s.item.Some? && HoldsEntries(s.item.value, [])
  {
    hide Ring, Without;
    OnList(h, ss, i);
    ghost var ss', es' := Without(ss, i), Without(es, i);
    FilledLess(ss, es, i);
    WithoutIs(ss, i);
    WithoutIs(es, i);
    label before:
    DeleteEntries(s.item.value, es[i]);
    forall j | 0 <= j < |ss'|
      ensures HoldsEntries(ss'[j].item.value, es'[j])
    {
      assert Apart(ss'[j].item.value, es'[j], s.item.value, es[i]);
      assert old@before(HoldsEntries(ss'[j].item.value, es'[j]));
    }
    var empty := Empty(s, h, ss);
    if !empty {
      Remove(s, h, ss, i);
    }
  }

  lemma FilledParts(ss: seq<Hook<Section>>, es: seq<seq<Hook<Entry>>>)
    requires Filled(ss, es)
    ensures |es| == |ss| && (forall i | 0 <= i < |ss| :: ss[i].item.Some?) && AllApart(ss, es)
  {
  }

  /** The list of a later section shares nothing with the n-th. */
  lemma LaterApart(ss: seq<Hook<Section>>, es: seq<seq<Hook<Entry>>>, n: nat)
    requires |es| == |ss| && (forall i | 0 <= i < |ss| :: ss[i].item.Some?) && AllApart(ss, es) && n < |ss|
    ensures forall i | n < i < |ss| :: ss[i].item.value.entries != ss[n].item.value.entries && ss[i].item.value.entries !in es[n]
  {
  }

  lemma OfSection(ss: seq<Hook<Section>>, es: seq<seq<Hook<Entry>>>, i: nat)
    requires i < |ss| == |es| && ss[i].item.Some?
    ensures ss[i].item.value.entries in EntryHooks(ss, es)
    ensures forall j | 0 <= j < |es[i]| :: es[i][j] in EntryHooks(ss, es)
  {
  }

  /** script_delete: every section and every entry leaves its list. */
  method DeleteScript(h: Hook<Section>, ghost ss: seq<Hook<Section>>, ghost es: seq<seq<Hook<Entry>>>)
    requires Holds(h, ss, es)
    modifies h, ss, EntryHooks(ss, es)
    ensures Holds(h, [], []) && forall i | 0 <= i < |ss| :: ss[i].item.Some? && HoldsEntries(ss[i].item.value, [])
  {
    hide Ring, HoldsEntries, EntryHooks, Apart, AllApart, Without;
    FilledParts(ss, es);
    ghost var n := |ss|;
    assert ss[..n] == ss && es[..n] == es;
    var o := Last(h, ss);
    while o != null
      invariant n <= |ss| && Holds(h, ss[..n], es[..n])
      invariant forall i | n <= i < |ss| :: HoldsEntries(ss[i].item.value, [])
      invariant o == if n == 0 then null else ss[n - 1]
      decreases n
    {
      n := n - 1;
      Neighbours(h, ss[..n + 1], n);
      OfSection(ss, es, n);
      LaterApart(ss, es, n);
      DeleteSection(o, h, ss[..n + 1], es[..n + 1], n);
      WithoutLast(ss, n);
      WithoutLast(es, n);
      o := Last(h, ss[..n]);
    }
    assert ss[..0] == [] && es[..0] == [];
  }
}
