/** The binary form of a FEX script (lib/libfex/script_bin.c): decoding it into sections and entries, and the
    size a script takes in it. */
module ScriptBin {
  import opened Bytes
  import opened Structure
  import opened HookList
  import opened Script

  const HEAD_SIZE := 16
  const SECTION_SIZE := 40
  const ENTRY_SIZE := 40

  const SINGLE_WORD := 1
  const STRING := 2
  const GPIO := 4
  const NULL_VALUE := 5

  /** The little-endian word at offset o. */
  function Le32(s: bytes, o: nat): (v: u32)
    requires o + 4 <= |s|
  {
    Word(s[o + 3], s[o + 2], s[o + 1], s[o])
  }

  /** The name field at offset o, as the C string that starts there. */
  function NameField(bin: bytes, o: nat): bytes
    requires o <= |bin|
  {
    bin[o..NulFrom(bin, o)]
  }

  /** End of a string value: its NUL, or the end of its words. */
  function TextEnd(bin: bytes, v: nat, size: nat): (e: nat)
    requires v <= |bin|
    ensures v <= e <= |bin| && e <= v + size
  {
    var z := NulFrom(bin, v);
    if z < v + size then z else v + size
  }

  function PatternType(p: u32): nat { p / 0x1_0000 }
  function PatternWords(p: u32): nat { p % 0x1_0000 }

  /** The entry at offset o lies inside the binary, with the value it points to if its type has one. */
  predicate EntryInside(bin: bytes, o: nat) {
    && o + ENTRY_SIZE <= |bin| && NulFrom(bin, o) < |bin|
    && var d, p := 4 * Le32(bin, o + 32), Le32(bin, o + 36);
    && (PatternType(p) == SINGLE_WORD ==> d + 4 <= |bin|)
    && (PatternType(p) == STRING ==> d <= |bin| && TextEnd(bin, d, 4 * PatternWords(p)) < |bin|)
    && (PatternType(p) == GPIO ==> d + 24 <= |bin|)
  }

  /** What an entry stands for; nothing for a type that is not supported. */
  function EntryOf(bin: bytes, o: nat): Option<Entry>
    requires EntryInside(bin, o)
  {
    var name, d, p := CutName(NameField(bin, o)), 4 * Le32(bin, o + 32), Le32(bin, o + 36);
    match PatternType(p)
    case 1 => Some(Entry(name, Value.Cell(Le32(bin, d))))
    case 2 => Some(Entry(name, Text(bin[d..TextEnd(bin, d, 4 * PatternWords(p))])))
    case 4 => Some(Entry(name, Gpio(Le32(bin, d), Le32(bin, d + 4),
                                    [Le32(bin, d + 8), Le32(bin, d + 12), Le32(bin, d + 16), Le32(bin, d + 20)])))
    case 5 => Some(Entry(name, Null))
    case _ => None
  }

  /** n entries from offset o on. */
  predicate EntriesInside(bin: bytes, o: nat, n: nat) {
    forall i | 0 <= i < n :: EntryInside(bin, o + ENTRY_SIZE * i)
  }

  /** The supported ones of n entries, in order. */
  function EntriesOf(bin: bytes, o: nat, n: nat): seq<Entry>
    requires EntriesInside(bin, o, n)
  {
    if n == 0 then []
    else
      var before, last := EntriesOf(bin, o, n - 1), EntryOf(bin, o + ENTRY_SIZE * (n - 1));
      if last.Some? then before + [last.value] else before
  }

  predicate SectionInside(bin: bytes, o: nat) {
    && o + SECTION_SIZE <= |bin| && NulFrom(bin, o) < |bin|
    && Le32(bin, o + 32) < TWO31 && EntriesInside(bin, 4 * Le32(bin, o + 36), Le32(bin, o + 32))
  }

  function SectionOf(bin: bytes, o: nat): SectionImage
    requires SectionInside(bin, o)
  {
    SectionImage(CutName(NameField(bin, o)), EntriesOf(bin, 4 * Le32(bin, o + 36), Le32(bin, o + 32)))
  }

  predicate SectionsInside(bin: bytes, n: nat) {
    forall i | 0 <= i < n :: SectionInside(bin, HEAD_SIZE + SECTION_SIZE * i)
  }

  function SectionsOf(bin: bytes, n: nat): seq<SectionImage>
    requires SectionsInside(bin, n)
  {
    if n == 0 then [] else SectionsOf(bin, n - 1) + [SectionOf(bin, HEAD_SIZE + SECTION_SIZE * (n - 1))]
  }

  /** The name length the constructors measure. */
  method NameAt(bin: bytes, o: nat) returns (name: bytes)
    requires o <= |bin| && NulFrom(bin, o) < |bin|
    ensures name == NameField(bin, o)
  {
    var n := 0;
    while bin[o + n] != 0
      invariant o + n <= NulFrom(bin, o) == NulFrom(bin, o + n)
      decreases NulFrom(bin, o) - n
    {
      n := n + 1;
    }
    return bin[o..o + n];
  }

  /** The loop that seeks the end of a string value. */
  method SeekEnd(bin: bytes, v: nat, size: nat) returns (p: nat)
    requires v <= |bin| && TextEnd(bin, v, size) < |bin|
    ensures p == TextEnd(bin, v, size)
  {
    p := v;
    while bin[p] != 0 && p != v + size
      invariant v <= p <= TextEnd(bin, v, size) && NulFrom(bin, v) == NulFrom(bin, p)
      decreases |bin| - p
    {
      p := p + 1;
    }
  }

  /** One entry of decompile_section: appended to the section if its type is supported. */
  method DecompileEntry(bin: bytes, o: nat, section: Section, ghost es: seq<Hook<Entry>>) returns (ghost es': seq<Hook<Entry>>)
    requires EntryInside(bin, o) && HoldsEntries(section, es)
    modifies section.entries, section.entries.prev
    ensures HoldsEntries(section, es')
    ensures Items(es') == Items(es) + (if EntryOf(bin, o).Some? then [EntryOf(bin, o).value] else [])
    ensures forall i | 0 <= i < |es'| :: es'[i] in es || fresh(es'[i])
  {
    hide Ring, Le32;
    var data, pattern := 4 * Le32(bin, o + 32), Le32(bin, o + 36);
    var type_, words := PatternType(pattern), PatternWords(pattern);
    es' := es;
    var value: Option<Value> := None;
    if type_ == SINGLE_WORD {
      value := Some(Value.Cell(Le32(bin, data)));
    } else if type_ == STRING {
      var end := SeekEnd(bin, data, 4 * words);
      value := Some(Text(bin[data..end]));
    } else if type_ == GPIO {
      value := Some(Gpio(Le32(bin, data), Le32(bin, data + 4),
                         [Le32(bin, data + 8), Le32(bin, data + 12), Le32(bin, data + 16), Le32(bin, data + 20)]));
    } else if type_ == NULL_VALUE {
      value := Some(Null);
    }
    if value.Some? {
      var name := NameAt(bin, o);
      var e := AppendEntry(section, name, value.value, es);
      es' := es + [e];
      assert Items(es') == Items(es) + [e.item.value];
    }
  }

  /** The loop of decompile_section. */
  method FillSection(bin: bytes, base: nat, total: nat, section: Section) returns (ghost e: seq<Hook<Entry>>)
    requires EntriesInside(bin, base, total) && HoldsEntries(section, [])
    modifies section.entries
    ensures HoldsEntries(section, e) && Items(e) == EntriesOf(bin, base, total)
    ensures forall j | 0 <= j < |e| :: fresh(e[j])
  {
    hide Ring, EntryInside, EntryOf, Le32;
    e := [];
    PrevOnList(section, e);
    var entry, i: int := base, total;
    ghost var n: nat := 0;
    assert Items(e) == [];
    while i != 0
      invariant 0 <= i && n + i == total && entry == base + ENTRY_SIZE * n
      invariant HoldsEntries(section, e) && forall j | 0 <= j < |e| :: fresh(e[j])
      invariant Items(e) == EntriesOf(bin, base, n)
    {
      i := i - 1;
      NextInside(bin, base, n, total);
      PrevOnList(section, e);
      e := DecompileEntry(bin, entry, section, e);
      entry := entry + ENTRY_SIZE;
      n := n + 1;
    }
  }

  /** decompile_section: one more section at the end of the list, with the supported entries in order. */
  method DecompileSection(bin: bytes, o: nat, h: Hook<Section>, ghost ss: seq<Hook<Section>>, ghost es: seq<seq<Hook<Entry>>>)
    returns (ghost s: Hook<Section>, ghost e: seq<Hook<Entry>>)
    requires SectionInside(bin, o) && Holds(h, ss, es)
    modifies h, h.prev
    ensures fresh(s) && Holds(h, ss + [s], es + [e]) && HaveItems(ss, es) && HaveItems(ss + [s], es + [e])
    ensures Image(ss + [s], es + [e]) == Image(ss, es) + [SectionOf(bin, o)]
  {
    hide Ring, Le32, EntryHooks, EntriesInside, EntriesOf;
    var name := NameAt(bin, o);
    var hook := NewSection(h, name, ss, es);
    var section := hook.item.value;
    s := hook;
    FilledLess(ss + [s], es + [[]], |ss|);
    assert (ss + [s])[..|ss|] == ss && (es + [[]])[..|ss|] == es;
    e := FillSection(bin, 4 * Le32(bin, o + 36), Le32(bin, o + 32), section);
    forall j | 0 <= j < |ss|
      ensures Apart(ss[j].item.value, es[j], section, e)
    {
    }
    FilledMore(ss, es, s, e);
    ImageMore(ss, es, s, e);
  }

  lemma NextInside(bin: bytes, o: nat, n: nat, total: nat)
    requires EntriesInside(bin, o, total) && n < total
    ensures EntryInside(bin, o + ENTRY_SIZE * n) && EntriesInside(bin, o, n) && EntriesInside(bin, o, n + 1)
    ensures var before, last := EntriesOf(bin, o, n), EntryOf(bin, o + ENTRY_SIZE * n);
      EntriesOf(bin, o, n + 1) == before + if last.Some? then [last.value] else []
  {
    hide EntryInside;
  }

  lemma PrevOnList(section: Section, e: seq<Hook<Entry>>)
    requires HoldsEntries(section, e)
    ensures section.entries.prev == section.entries || exists j | 0 <= j < |e| :: section.entries.prev == e[j]
  {
  }

  lemma ImageMore(ss: seq<Hook<Section>>, es: seq<seq<Hook<Entry>>>, s: Hook<Section>, e: seq<Hook<Entry>>)
    requires Filled(ss, es) && Filled(ss + [s], es + [e])
    ensures s.item.Some? && HaveItems([s], [e]) && HaveItems(ss, es) && HaveItems(ss + [s], es + [e])
    ensures forall j | 0 <= j < |e| :: e[j].item.Some?
    ensures Image(ss + [s], es + [e]) == Image(ss, es) + [SectionImage(s.item.value.name, Items(e))]
  {
    hide Apart, AllApart, Ring;
    assert (ss + [s])[|ss|] == s && (es + [e])[|ss|] == e;
    forall i | 0 <= i < |ss|
      ensures (ss + [s])[i] == ss[i] && (es + [e])[i] == es[i]
    {
    }
  }

  /** Number of sections in the head: a signed field, so that the loop does nothing for a negative one. */
  function SectionCount(bin: bytes): nat
    requires HEAD_SIZE <= |bin|
  {
    if Le32(bin, 0) < TWO31 then Le32(bin, 0) else 0
  }

  /** script_decompile_bin: the lists then hold, behind what they held before, the image of the binary. */
  method DecompileBin(bin: bytes, h: Hook<Section>, ghost ss: seq<Hook<Section>>, ghost es: seq<seq<Hook<Entry>>>)
    returns (ghost ss': seq<Hook<Section>>, ghost es': seq<seq<Hook<Entry>>>)
    requires HEAD_SIZE <= |bin| && SectionsInside(bin, SectionCount(bin)) && Holds(h, ss, es)
    modifies h, h.prev
    ensures Holds(h, ss', es') && HaveItems(ss, es) && HaveItems(ss', es')
    ensures Image(ss', es') == Image(ss, es) + SectionsOf(bin, SectionCount(bin))
  {
    hide Ring, Le32, EntryHooks, SectionInside, Holds, HaveItems, SectionOf;
    ss', es' := ss, es;
    var i := 0;
    SectionHolds(h, ss, es);
    while i < SectionCount(bin)
      invariant 0 <= i <= SectionCount(bin) && Holds(h, ss', es')
      invariant h.prev == old(h.prev) || fresh(h.prev)
      invariant HaveItems(ss', es')
      invariant Image(ss', es') == Image(ss, es) + SectionsOf(bin, i)
    {
      ghost var s, e := DecompileSection(bin, HEAD_SIZE + SECTION_SIZE * i, h, ss', es');
      ss', es' := ss' + [s], es' + [e];
      SectionHolds(h, ss', es');
      i := i + 1;
    }
  }

  lemma SectionHolds(h: Hook<Section>, ss: seq<Hook<Section>>, es: seq<seq<Hook<Entry>>>)
    requires Holds(h, ss, es)
    ensures HaveItems(ss, es)
    ensures ss != [] ==> h.prev == ss[|ss| - 1]
  {
  }

  // ---------------------------------------------------------------------------
  // script_bin_size
  // ---------------------------------------------------------------------------

  /** Words an entry's value takes. */
  function ValueWords(v: Value): nat {
    match v
    case Cell(_) => 1
    case Text(s) => (|s| + 3) / 4
    case Gpio(_, _, _) => 6
    case Null => 1
  }

  function EntryWords(es: seq<Entry>): nat {
    if es == [] then 0 else EntryWords(es[..|es| - 1]) + ValueWords(es[|es| - 1].value)
  }

  /** Sections that have entries, all entries, and the words of their values. */
  datatype Totals = Totals(sections: nat, entries: nat, words: nat)

  function TotalsOf(im: seq<SectionImage>): Totals {
    if im == [] then Totals(0, 0, 0)
    else
      var t, es := TotalsOf(im[..|im| - 1]), im[|im| - 1].entries;
      Totals(t.sections + (if es != [] then 1 else 0), t.entries + |es|, t.words + EntryWords(es))
  }

  /** The inner loop of script_bin_size. */
  method CountEntries(section: Section, ghost es: seq<Hook<Entry>>) returns (c: nat, words: nat)
    requires HoldsEntries(section, es)
    ensures c == |es| && words == EntryWords(Items(es))
  {
    hide Ring, ValueWords;
    c, words := 0, 0;
    var le := First(section.entries, es);
    while le != null
      invariant c <= |es| && le == (if c < |es| then es[c] else null)
      invariant words == EntryWords(Items(es[..c]))
      decreases |es| - c
    {
      assert Items(es[..c + 1]) == Items(es[..c]) + [le.item.value];
      words := words + ValueWords(le.item.value.value);
      le := Next(section.entries, le, es, c);
      c := c + 1;
    }
    assert es[..c] == es;
  }

  /** script_bin_size: the head, the sections that are not empty, the entries, and their values. */
  method BinSize(h: Hook<Section>, ghost ss: seq<Hook<Section>>, ghost es: seq<seq<Hook<Entry>>>)
    returns (size: nat, sections: nat, entries: nat)
    requires Holds(h, ss, es)
    ensures HaveItems(ss, es)
    ensures var t := TotalsOf(Image(ss, es));
      sections == t.sections && entries == t.entries
      && size == HEAD_SIZE + SECTION_SIZE * sections + ENTRY_SIZE * entries + 4 * t.words
  {
    hide Ring, EntryHooks, Apart, AllApart, EntryWords;
    SectionHolds(h, ss, es);
    ghost var n := 0;
    var words := 0;
    sections, entries := 0, 0;
    var ls := First(h, ss);
    while ls != null
      invariant n <= |ss| && ls == (if n < |ss| then ss[n] else null)
      invariant Totals(sections, entries, words) == TotalsOf(Image(ss, es)[..n])
      decreases |ss| - n
    {
      assert Image(ss, es)[..n + 1] == Image(ss, es)[..n] + [SectionImage(ls.item.value.name, Items(es[n]))];
      var c, w := CountEntries(ls.item.value, es[n]);
      words := words + w;
      if c > 0 {
        sections := sections + 1;
        entries := entries + c;
      }
      ls := Next(h, ls, ss, n);
      n := n + 1;
    }
    assert Image(ss, es)[..n] == Image(ss, es);
    size := HEAD_SIZE + SECTION_SIZE * sections + ENTRY_SIZE * entries + 4 * words;
  }
}
