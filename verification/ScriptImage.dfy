/** The binary form of a script written out field by field (include/lib/libfex/script_bin.h), and that decoding it
    gives back the script (lib/libfex/script_bin.c). */
module ScriptImage {
  import opened Bytes
  import opened Structure
  import opened HookList
  import opened Script
  import opened ScriptBin

  /** A word, its low byte first. */
  function Le(v: nat): (s: bytes)
    ensures |s| == 4
  {
    [v % 256, v / 256 % 256, v / 65536 % 256, v / 16777216 % 256]
  }

  function Zeros(n: nat): (s: bytes)
    ensures |s| == n && forall i | 0 <= i < n :: s[i] == 0
  {
    seq(n, _ => 0)
  }

  /** s with zeros behind it up to n bytes. */
  function Padded(s: bytes, n: nat): (p: bytes)
    ensures |p| == if |s| <= n then n else |s|
  {
    if |s| <= n then s + Zeros(n - |s|) else s
  }

  /** A value: a word, a string padded to whole words, the six words of a gpio, or an empty word. */
  function ValueBytes(v: Value): (s: bytes)
    ensures |s| % 4 == 0
  {
    match v
    case Cell(x) => Le(x)
    case Text(s) => Padded(s, (|s| + 3) / 4 * 4)
    case Gpio(port, num, data) =>
      if |data| == 4 then Le(port) + Le(num) + Le(data[0]) + Le(data[1]) + Le(data[2]) + Le(data[3]) else []
    case Null => [0, 0, 0, 0]
  }

  function TypeOf(v: Value): nat {
    match v
    case Cell(_) => 1
    case Text(_) => 2
    case Gpio(_, _, _) => 4
    case Null => 5
  }

  /** The row of an entry whose value stands at byte o: 32 bytes of name, the word offset, and type and length. */
  function EntryRow(e: Entry, o: nat): bytes {
    Padded(e.name, 32) + Le(o / 4) + Le(65536 * TypeOf(e.value) + |ValueBytes(e.value)| / 4)
  }

  /** The values of es one behind the other. */
  function Values(es: seq<Entry>): (s: bytes)
    ensures |s| % 4 == 0
  {
    if es == [] then []
    else
      var n := |es| - 1;
      Sum4(|Values(es[..n])|, |ValueBytes(es[n].value)|);
      Values(es[..n]) + ValueBytes(es[n].value)
  }

  /** The rows of es, with the values from byte o on. */
  function Rows(es: seq<Entry>, o: nat): bytes {
    if es == [] then [] else Rows(es[..|es| - 1], o) + EntryRow(es[|es| - 1], o + |Values(es[..|es| - 1])|)
  }

  /** The entries of a section from byte o on: rows, then values. */
  function Chunk(es: seq<Entry>, o: nat): bytes {
    Rows(es, o + 40 * |es|) + Values(es)
  }

  function Chunks(im: seq<SectionImage>, o: nat): bytes {
    if im == [] then []
    else
      var n := |im| - 1;
      Chunks(im[..n], o) + Chunk(im[n].entries, o + |Chunks(im[..n], o)|)
  }

  /** The row of a section whose entries stand at byte o: 32 bytes of name, the number of entries, the word offset. */
  function SectionRow(s: SectionImage, o: nat): bytes {
    Padded(s.name, 32) + Le(|s.entries|) + Le(o / 4)
  }

  function Table(im: seq<SectionImage>, o: nat): bytes {
    if im == [] then []
    else
      var n := |im| - 1;
      Table(im[..n], o) + SectionRow(im[n], o + |Chunks(im[..n], o)|)
  }

  /** The whole binary: number of sections, three version words, the table of sections, and their entries. */
  function Binary(im: seq<SectionImage>, v: (nat, nat, nat)): bytes {
    var o := 16 + 40 * |im|;
    Le(|im|) + Le(v.0) + Le(v.1) + Le(v.2) + Table(im, o) + Chunks(im, o)
  }

  // ---------------------------------------------------------------------------
  // What can be written
  // ---------------------------------------------------------------------------

  predicate GoodName(name: bytes) {
    |name| <= 31 && 0 !in name
  }

  predicate GoodValue(v: Value) {
    match v
    case Cell(_) => true
    case Text(s) => 0 !in s && |s| <= 4 * 65535
    case Gpio(_, _, data) => |data| == 4
    case Null => true
  }

  predicate GoodEntries(es: seq<Entry>) {
    forall i | 0 <= i < |es| :: GoodName(es[i].name) && GoodValue(es[i].value)
  }

  predicate GoodScript(im: seq<SectionImage>) {
    forall i | 0 <= i < |im| :: GoodName(im[i].name) && GoodEntries(im[i].entries)
  }

  // ---------------------------------------------------------------------------
  // Reading fields
  // ---------------------------------------------------------------------------

  lemma LeWord(v: u32)
    ensures Word(v / 16777216 % 256, v / 65536 % 256, v / 256 % 256, v % 256) == v
  {
    FourBytes(v);
    assert v / 16777216 % 256 == v / 16777216;
  }

  lemma LeAt(s: bytes, o: nat, v: u32)
    requires o + 4 <= |s| && s[o..o + 4] == Le(v)
    ensures Le32(s, o) == v
  {
    hide Word;
    var d := s[o..o + 4];
    assert d[0] == s[o] && d[1] == s[o + 1] && d[2] == s[o + 2] && d[3] == s[o + 3];
    LeWord(v);
  }

  /** A row: a padded name and two words. */
  lemma RowAt(bin: bytes, o: nat, name: bytes, a: u32, b: u32)
    requires o + 40 <= |bin| && GoodName(name) && bin[o..o + 40] == Padded(name, 32) + Le(a) + Le(b)
    ensures NulFrom(bin, o) < |bin| && NameField(bin, o) == name && CutName(name) == name
    ensures Le32(bin, o + 32) == a && Le32(bin, o + 36) == b
  {
    hide Le32, Le, NulFrom;
    var row := bin[o..o + 40];
    SliceSlice(bin, o, o + 40, 32, 36);
    SliceSlice(bin, o, o + 40, 36, 40);
    SliceSlice(bin, o, o + 40, 0, |name|);
    assert row[32..36] == Le(a) && row[36..40] == Le(b) && row[0..|name|] == name && row[|name|] == 0;
    LeAt(bin, o + 32, a);
    LeAt(bin, o + 36, b);
    NulAt(bin, o, name);
  }

  lemma {:induction false} NoNulBelow(s: bytes, o: nat, e: nat)
    requires o <= e <= |s| && 0 !in s[o..e]
    ensures NulFrom(s, o) >= e
    decreases e - o
  {
    if o < e {
      assert s[o..e][0] == s[o] && s[o + 1..e] == s[o..e][1..];
      NoNulBelow(s, o + 1, e);
    }
  }

  /** A string value ends at its NUL or fills its words. */
  lemma TextAt(bin: bytes, d: nat, s: bytes)
    requires 0 !in s && d + |ValueBytes(Text(s))| < |bin| && bin[d..d + |ValueBytes(Text(s))|] == ValueBytes(Text(s))
    ensures TextEnd(bin, d, |ValueBytes(Text(s))|) == d + |s| && bin[d..d + |s|] == s
  {
    hide NulFrom;
    var n := |ValueBytes(Text(s))|;
    SliceSlice(bin, d, d + n, 0, |s|);
    assert bin[d..d + n][0..|s|] == s;
    NoNulBelow(bin, d, d + |s|);
    if |s| < n {
      assert bin[d..d + n][|s|] == 0 && bin[d + |s|] == bin[d..d + n][|s|];
      NulAt(bin, d, s);
    }
  }

  lemma GpioAt(bin: bytes, d: nat, port: u32, num: u32, data: seq<u32>)
    requires |data| == 4 && d + 24 <= |bin| && bin[d..d + 24] == ValueBytes(Gpio(port, num, data))
    ensures Le32(bin, d) == port && Le32(bin, d + 4) == num
    ensures [Le32(bin, d + 8), Le32(bin, d + 12), Le32(bin, d + 16), Le32(bin, d + 20)] == data
  {
    hide Le32, Le;
    var t := bin[d..d + 24];
    SliceSlice(bin, d, d + 24, 0, 4);
    SliceSlice(bin, d, d + 24, 4, 8);
    SliceSlice(bin, d, d + 24, 8, 12);
    SliceSlice(bin, d, d + 24, 12, 16);
    SliceSlice(bin, d, d + 24, 16, 20);
    SliceSlice(bin, d, d + 24, 20, 24);
    assert t[0..4] == Le(port) && t[4..8] == Le(num) && t[8..12] == Le(data[0]);
    assert t[12..16] == Le(data[1]) && t[16..20] == Le(data[2]) && t[20..24] == Le(data[3]);
    LeAt(bin, d, port);
    LeAt(bin, d + 4, num);
    LeAt(bin, d + 8, data[0]);
    LeAt(bin, d + 12, data[1]);
    LeAt(bin, d + 16, data[2]);
    LeAt(bin, d + 20, data[3]);
  }

  /** A good value takes at most 65535 words. */
  lemma ValueShort(v: Value)
    requires GoodValue(v)
    ensures |ValueBytes(v)| / 4 < 65536
  {
  }

  /** An entry is read back as it was written. */
  lemma {:induction false} EntryAt(bin: bytes, o: nat, e: Entry, d: nat)
    requires GoodName(e.name) && GoodValue(e.value) && d % 4 == 0 && d < 0x80000000
    requires o + 40 <= |bin| && bin[o..o + 40] == EntryRow(e, d)
    requires d + |ValueBytes(e.value)| < |bin| && bin[d..d + |ValueBytes(e.value)|] == ValueBytes(e.value)
    ensures EntryInside(bin, o) && EntryOf(bin, o) == Some(e)
  {
    hide Le32, Le, NulFrom, NameField, TextEnd, Padded, CutName;
    var n := |ValueBytes(e.value)| / 4;
    ValueShort(e.value);
    var p := 65536 * TypeOf(e.value) + n;
    RowAt(bin, o, e.name, d / 4, p);
    assert p / 65536 == TypeOf(e.value) && p % 65536 == n;
    match e.value
    case Cell(x) => LeAt(bin, d, x);
    case Text(s) => TextAt(bin, d, s);
    case Gpio(port, num, data) => GpioAt(bin, d, port, num, data);
    case Null =>
  }

  // ---------------------------------------------------------------------------
  // Reading it all
  // ---------------------------------------------------------------------------

  lemma {:induction false} RowsSize(es: seq<Entry>, o: nat)
    requires GoodEntries(es)
    ensures |Rows(es, o)| == 40 * |es|
  {
    hide Le;
    if es != [] {
      RowsSize(es[..|es| - 1], o);
    }
  }

  /** Two parts side by side. */
  lemma TwoParts(s: bytes, o: nat, x: bytes, y: bytes)
    requires o + |x| + |y| <= |s| && s[o..o + |x| + |y|] == x + y
    ensures s[o..o + |x|] == x && s[o + |x|..o + |x| + |y|] == y
  {
    SliceSlice(s, o, o + |x| + |y|, 0, |x|);
    SliceSlice(s, o, o + |x| + |y|, |x|, |x| + |y|);
    assert (x + y)[0..|x|] == x && (x + y)[|x|..|x| + |y|] == y;
  }

  lemma {:induction false} EntriesAt(bin: bytes, o: nat, es: seq<Entry>, d: nat)
    requires GoodEntries(es) && d % 4 == 0 && o + 40 * |es| <= |bin| && d + |Values(es)| < |bin| && d + |Values(es)| < 0x80000000
    requires bin[o..o + 40 * |es|] == Rows(es, d) && bin[d..d + |Values(es)|] == Values(es)
    ensures EntriesInside(bin, o, |es|) && EntriesOf(bin, o, |es|) == es
  {
    hide Le, EntryOf, EntryInside, GoodName, GoodValue, ValueBytes, EntryRow;
    if es != [] {
      var n := |es| - 1;
      var init, e := es[..n], es[n];
      var a, b := |Values(init)|, |ValueBytes(e.value)|;
      RowsSize(init, d);
      RowsSize(es, d);
      TwoParts(bin, o, Rows(init, d), EntryRow(e, d + a));
      TwoParts(bin, d, Values(init), ValueBytes(e.value));
      EntriesAt(bin, o, init, d);
      Sum4(d, a);
      EntryAt(bin, o + 40 * n, e, d + a);
    }
  }

  lemma {:induction false} ChunkSize(es: seq<Entry>, o: nat)
    requires GoodEntries(es)
    ensures |Chunk(es, o)| == 40 * |es| + |Values(es)| && |Chunk(es, o)| % 4 == 0
  {
    hide Values, Rows;
    RowsSize(es, o + 40 * |es|);
    Sum4(40 * |es|, |Values(es)|);
  }

  lemma {:induction false} ChunkEntries(bin: bytes, es: seq<Entry>, d: nat)
    requires GoodEntries(es) && d % 4 == 0
    requires d + |Chunk(es, d)| < |bin| && d + |Chunk(es, d)| < 0x80000000 && bin[d..d + |Chunk(es, d)|] == Chunk(es, d)
    ensures 40 * |es| < 0x80000000 && EntriesInside(bin, d, |es|) && EntriesOf(bin, d, |es|) == es
  {
    hide Values, Rows, EntriesInside, EntriesOf, GoodEntries;
    var at := d + 40 * |es|;
    ChunkSize(es, d);
    RowsSize(es, at);
    TwoParts(bin, d, Rows(es, at), Values(es));
    Sum4(d, 40 * |es|);
    EntriesAt(bin, d, es, at);
  }

  /** A section is read back as it was written. */
  lemma {:induction false} SectionAt(bin: bytes, o: nat, s: SectionImage, d: nat)
    requires GoodName(s.name) && GoodEntries(s.entries) && d % 4 == 0
    requires o + 40 <= |bin| && bin[o..o + 40] == SectionRow(s, d)
    requires d + |Chunk(s.entries, d)| < |bin| && d + |Chunk(s.entries, d)| < 0x80000000
    requires bin[d..d + |Chunk(s.entries, d)|] == Chunk(s.entries, d)
    ensures SectionInside(bin, o) && SectionOf(bin, o) == s
  {
    hide Le, Chunk, EntriesInside, EntriesOf, NameField, Padded, Le32, NulFrom, CutName, GoodName, GoodEntries;
    ChunkEntries(bin, s.entries, d);
    RowAt(bin, o, s.name, |s.entries|, d / 4);
    assert 4 * Le32(bin, o + 36) == d;
  }

  lemma {:induction false} TableSize(im: seq<SectionImage>, o: nat)
    requires GoodScript(im)
    ensures |Table(im, o)| == 40 * |im|
  {
    hide Chunks, Le, GoodEntries;
    if im != [] {
      TableSize(im[..|im| - 1], o);
    }
  }

  lemma {:induction false} ChunksAligned(im: seq<SectionImage>, o: nat)
    requires GoodScript(im)
    ensures |Chunks(im, o)| % 4 == 0
  {
    hide Chunk, GoodName, GoodEntries;
    if im != [] {
      var n := |im| - 1;
      var a := |Chunks(im[..n], o)|;
      ChunksAligned(im[..n], o);
      ChunkSize(im[n].entries, o + a);
      Sum4(a, |Chunk(im[n].entries, o + a)|);
    }
  }

  lemma {:induction false} SectionsAt(bin: bytes, im: seq<SectionImage>, o: nat)
    requires GoodScript(im) && o % 4 == 0 && 16 + 40 * |im| <= |bin|
    requires o + |Chunks(im, o)| < |bin| && o + |Chunks(im, o)| < 0x80000000
    requires bin[16..16 + 40 * |im|] == Table(im, o) && bin[o..o + |Chunks(im, o)|] == Chunks(im, o)
    ensures SectionsInside(bin, |im|) && SectionsOf(bin, |im|) == im
  {
    hide Chunk, Chunks, Table, SectionInside, SectionOf, GoodName, GoodEntries, SectionRow;
    if im != [] {
      var n := |im| - 1;
      var init, s := im[..n], im[n];
      var a := |Chunks(init, o)|;
      LastSection(im, o);
      TwoParts(bin, 16, Table(init, o), SectionRow(s, o + a));
      TwoParts(bin, o, Chunks(init, o), Chunk(s.entries, o + a));
      SectionsAt(bin, init, o);
      SectionAt(bin, 16 + 40 * n, s, o + a);
    }
  }

  lemma {:induction false} LastSection(im: seq<SectionImage>, o: nat)
    requires im != [] && GoodScript(im) && o % 4 == 0
    ensures var n := |im| - 1;
      var a := |Chunks(im[..n], o)|;
      && Table(im, o) == Table(im[..n], o) + SectionRow(im[n], o + a)
      && Chunks(im, o) == Chunks(im[..n], o) + Chunk(im[n].entries, o + a)
      && |Table(im[..n], o)| == 40 * n && |SectionRow(im[n], o + a)| == 40 && (o + a) % 4 == 0
  {
    hide Chunk, GoodEntries, Le;
    var n := |im| - 1;
    TableSize(im[..n], o);
    ChunksAligned(im[..n], o);
    Sum4(o, |Chunks(im[..n], o)|);
  }

  /** Every script is read back from its binary as it was written. One byte has to follow, since a string that fills its
      words is read up to the byte behind them. */
  lemma {:induction false} ReadBack(im: seq<SectionImage>, v: (nat, nat, nat), rest: bytes)
    requires GoodScript(im) && |Binary(im, v)| < 0x80000000 && rest != []
    ensures var bin := Binary(im, v) + rest;
      16 <= |bin| && SectionCount(bin) == |im| && SectionsInside(bin, |im|) && SectionsOf(bin, |im|) == im
  {
    hide Chunks, Table, Le, SectionsInside, SectionsOf, GoodScript, Le32;
    var o, bin := 16 + 40 * |im|, Binary(im, v) + rest;
    TableSize(im, o);
    assert bin[0..4] == Le(|im|) && bin[16..o] == Table(im, o) && bin[o..o + |Chunks(im, o)|] == Chunks(im, o);
    LeAt(bin, 0, |im|);
    SectionsAt(bin, im, o);
  }

  /** Entries of other types are skipped, whatever they hold. */
  lemma OtherTypes(bin: bytes, o: nat)
    requires EntryInside(bin, o)
    ensures o + 40 <= |bin| && (EntryOf(bin, o) == None <==> bin[o + 38] + 256 * (bin[o + 39] as int) !in {1, 2, 4, 5})
  {
    hide NulFrom, NameField, TextEnd, CutName;
    var a: int, b: int, c: int, d: int := bin[o + 36], bin[o + 37], bin[o + 38], bin[o + 39];
    assert Le32(bin, o + 36) == 0x10000 * (c + 256 * d) + (a + 256 * b);
  }

  /** A number of sections with its highest bit set counts as none. */
  lemma NegativeCount(bin: bytes)
    requires 16 <= |bin|
    ensures bin[3] >= 128 ==> SectionCount(bin) == 0
    ensures bin[3] < 128 ==> SectionCount(bin) == bin[0] + 256 * (bin[1] as int) + 65536 * (bin[2] as int) + 16777216 * (bin[3] as int)
  {
  }

  // ---------------------------------------------------------------------------
  // Its size
  // ---------------------------------------------------------------------------

  lemma ValueSize(v: Value)
    requires GoodValue(v)
    ensures |ValueBytes(v)| == 4 * ValueWords(v)
  {
  }

  lemma {:induction false} ValuesSize(es: seq<Entry>)
    requires GoodEntries(es)
    ensures |Values(es)| == 4 * EntryWords(es)
  {
    hide ValueBytes, ValueWords, GoodValue, GoodName;
    if es != [] {
      var n := |es| - 1;
      ValuesSize(es[..n]);
      ValueSize(es[n].value);
    }
  }

  lemma {:induction false} ChunksSize(im: seq<SectionImage>, o: nat)
    requires GoodScript(im) && forall i | 0 <= i < |im| :: im[i].entries != []
    ensures var t := TotalsOf(im); t.sections == |im| && |Chunks(im, o)| == 40 * t.entries + 4 * t.words
  {
    hide Chunk, GoodEntries, EntryWords;
    if im != [] {
      var n := |im| - 1;
      ChunksSize(im[..n], o);
      ChunkSize(im[n].entries, o + |Chunks(im[..n], o)|);
      ValuesSize(im[n].entries);
    }
  }

  /** script_bin_size is the size of that binary if no section is empty. */
  lemma {:induction false} BinarySize(im: seq<SectionImage>, v: (nat, nat, nat))
    requires GoodScript(im) && forall i | 0 <= i < |im| :: im[i].entries != []
    ensures var t := TotalsOf(im); |Binary(im, v)| == 16 + 40 * t.sections + 40 * t.entries + 4 * t.words
  {
    hide Chunks, Table, Le, GoodScript, TotalsOf;
    var o := 16 + 40 * |im|;
    TableSize(im, o);
    ChunksSize(im, o);
  }
}
