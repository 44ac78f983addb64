/** Property and subnode lookup by name (lib/libfdt/fdt_ro.c). */
module Lookup {
  import opened Bytes
  import opened Memory
  import opened Blob
  import opened Structure
  import opened Lexer
  import opened Trees
  import opened Attrs
  import opened Walk

  /** The strings block of s is strs. */
  ghost predicate Strings(s: bytes, strs: bytes) {
    && HEADER_SIZE <= |s|
    && Hdr(s).offStrings + Hdr(s).sizeStrings <= |s|
    && s[Hdr(s).offStrings..Hdr(s).offStrings + Hdr(s).sizeStrings] == strs
  }

  method StrLen(mem: array<byte>, p: nat) returns (n: nat)
    requires p <= mem.Length && NulFrom(mem[..], p) < mem.Length
    ensures n == NulFrom(mem[..], p) - p
  {
    n := 0;
    while mem[p + n] != 0
      invariant p + n <= NulFrom(mem[..], p) == NulFrom(mem[..], p + n)
      decreases NulFrom(mem[..], p) - n
    {
      n := n + 1;
    }
  }

  /** A string inside a slice of memory is the same string in memory. */
  lemma NulShift(mem: bytes, lo: nat, hi: nat, o: nat)
    requires lo <= hi <= |mem| && o <= hi - lo
    requires NulFrom(mem[lo..hi], o) < hi - lo
    ensures NulFrom(mem, lo + o) == lo + NulFrom(mem[lo..hi], o)
    decreases hi - lo - o
  {
    if mem[lo..hi][o] != 0 {
      NulShift(mem, lo, hi, o + 1);
    }
  }

  lemma StringInMemory(mem: bytes, strs: bytes, o: nat)
    requires Strings(mem, strs) && NameAt(strs, o)
    ensures var p := Hdr(mem).offStrings + o;
      p <= NulFrom(mem, p) < |mem| && mem[p..NulFrom(mem, p)] == StrAt(strs, o)
  {
    hide Hdr, NulFrom, StrAt, NameAt;
    StringInSlice(mem, Hdr(mem).offStrings, Hdr(mem).offStrings + Hdr(mem).sizeStrings, o);
  }

  lemma StringInSlice(mem: bytes, lo: nat, hi: nat, o: nat)
    requires lo <= hi <= |mem| && NameAt(mem[lo..hi], o)
    ensures lo + o <= NulFrom(mem, lo + o) < |mem|
    ensures mem[lo + o..NulFrom(mem, lo + o)] == StrAt(mem[lo..hi], o)
  {
    hide NulFrom;
    NulShift(mem, lo, hi, o);
    SliceSlice(mem, lo, hi, o, NulFrom(mem[lo..hi], o));
  }

  /** _fdt_string_eq. */
  method StringEq(fdt: array<byte>, stroffset: nat, name: bytes, ghost strs: bytes) returns (eq: bool)
    requires Strings(fdt[..], strs) && NameAt(strs, stroffset) && name != []
    ensures eq <==> StrAt(strs, stroffset) == name
  {
    hide Hdr, NulFrom, StrAt, NameAt;
    StringInMemory(fdt[..], strs, stroffset);
    var p := GetHdr(fdt, OffStrings) + stroffset;
    var n := StrLen(fdt, p);
    if n != |name| {
      return false;
    }
    var diff := MemCmp(fdt, p, name);
    return diff == 0;
  }

  /** The first property of b behind leading NOPs. */
  function FirstProp(b: Body): Found {
    match b
    case Nop(r) => var f := FirstProp(r); if f.At? then At(4 + f.pos) else Absent
    case Prop(_, _, _, _) => At(0)
    case _ => Absent
  }

  /** The scan is inside the property list of a node: the contents ahead close with it. */
  ghost predicate InNode(st: bytes, o: int, b: Body, up: Stack) {
    o >= 0 && up.Frame? && On(st, o, Frame(b, up))
  }

  lemma {:induction false} InNodeStep(st: bytes, o: int, b: Body, up: Stack)
    requires InNode(st, o, b, up)
    ensures 0 <= o < TWO31 && Wf(b, false) && !b.Eof?
    ensures TagAt(st, o) == Lexed(HeadTag(b), o + HeadSize(b))
    ensures b.Nop? || b.Prop? ==> InNode(st, o + HeadSize(b), b.rest, up)
    ensures b.Prop? ==> o + 12 <= |st| && Be32(st, o + 4) == |b.val| && Be32(st, o + 8) == b.nameoff
  {
    hide TagAt, FlatProp, Flat, Be32;
    LexStep(st, o, Frame(b, up));
    if b.Prop? {
      LexProp(st, o, b.nameoff, b.val, b.pad);
    }
  }

  /** _nextprop: the offset of the first property ahead in this node. */
  method NextProp(fdt: array<byte>, offset: nat, ghost st: bytes, ghost b: Body, ghost up: Stack)
    returns (r: int, ghost at: Body)
    requires Ready(fdt[..], st) && InNode(st, offset, b, up)
    ensures match FirstProp(b)
      case At(po) => r == offset + po && at.Prop? && InNode(st, r, at, up) && Mark(b, po) && at == From(b, po)
      case Absent => r == NOTFOUND
  {
    hide Ready, TagAt, InNode;
    var o: int := offset;
    var tag := NOP;
    at := b;
    ghost var po := 0;
    while tag == NOP
      invariant o == offset + po && InNode(st, o, at, up)
      invariant tag == NOP ==> Mark(b, po) && at == From(b, po)
      invariant tag == NOP ==> FirstProp(b) == if FirstProp(at).At? then At(po + FirstProp(at).pos) else Absent
      invariant tag != NOP ==> FirstProp(b) == Absent
      decreases tag == NOP, at
    {
      InNodeStep(st, o, at, up);
      var next;
      tag, next := LexTag(fdt, o, st);
      if tag == END {
        return if next >= 0 then BADSTRUCTURE else next, at;
      } else if tag == PROP {
        return o, at;
      } else if tag == NOP {
        FromStep(b, po);
        o, at, po := next, at.rest, po + 4;
      }
    }
    return NOTFOUND, at;
  }

  /** Positions advance tag by tag. */
  lemma {:induction false} FromStep(b: Body, po: nat)
    requires Mark(b, po)
    ensures var f := From(b, po);
      f.Nop? || f.Prop? ==> Mark(b, po + HeadSize(f)) && From(b, po + HeadSize(f)) == f.rest
    decreases b
  {
    if po > 0 {
      FromStep(b.rest, if b.Nop? then po - 4 else po - PropSize(b.val));
    }
  }

  /** offset is refused by _fdt_check_prop_offset. */
  predicate BadProp(st: bytes, offset: int) {
    offset < 0 || offset % 4 != 0 || TagAt(st, offset).tag != PROP
  }

  method CheckPropOffset(fdt: array<byte>, offset: int, ghost st: bytes) returns (r: int)
    requires Ready(fdt[..], st) && offset < TWO31
    ensures r == if BadProp(st, offset) then BADOFFSET else TagAt(st, offset).next
  {
    hide Ready, TagAt;
    if offset < 0 || offset % 4 != 0 {
      return BADOFFSET;
    }
    var tag, next := LexTag(fdt, offset, st);
    if tag != PROP {
      return BADOFFSET;
    }
    return next;
  }

  /** Cell i of the structure at a structure offset. */
  method CellAt(fdt: array<byte>, offset: nat, ghost st: bytes) returns (v: u32)
    requires Ready(fdt[..], st) && offset + 4 <= |st|
    ensures v == Be32(st, offset)
  {
    hide Hdr, Be32;
    StruAt(fdt[..], 0, offset);
    assert fdt[0..] == fdt[..];
    v := Get32(fdt, GetHdr(fdt, OffStruct) + offset);
  }

  lemma {:induction false} InNodeIsProp(st: bytes, o: int, b: Body, up: Stack)
    requires InNode(st, o, b, up) && b.Prop?
    ensures !BadProp(st, o) && 0 <= o < TWO31 && o + 12 <= |st|
    ensures TagAt(st, o).next == o + PropSize(b.val) && InNode(st, o + PropSize(b.val), b.rest, up)
    ensures Be32(st, o + 4) == |b.val| && Be32(st, o + 8) == b.nameoff
  {
    hide TagAt, On, Be32;
    OnAligned(st, o, Frame(b, up));
    InNodeStep(st, o, b, up);
  }

  lemma {:induction false} OnAligned(st: bytes, o: int, stk: Stack)
    requires o >= 0 && On(st, o, stk)
    ensures o % 4 == 0
  {
  }

  /** fdt_first_property_offset. */
  method FirstPropertyOffset(fdt: array<byte>, nodeoffset: int, ghost st: bytes, ghost stk: Stack)
    returns (r: int, ghost at: Body)
    requires Ready(fdt[..], st) && NodeRef(st, nodeoffset, stk)
    ensures if BadNode(st, nodeoffset) then r == BADOFFSET
            else
              var body, up := stk.b.body, Frame(stk.b.rest, stk.up);
              InNode(st, nodeoffset + BeginSize(stk.b.name), body, up) && match FirstProp(body)
                case At(po) => r == nodeoffset + BeginSize(stk.b.name) + po && at.Prop? && InNode(st, r, at, up)
                               && Mark(body, po) && at == From(body, po)
                case Absent => r == NOTFOUND
  {
    hide Ready, TagAt, On;
    at := Close;
    if !BadNode(st, nodeoffset) {
      NodeIsGood(st, nodeoffset, stk);
    }
    r := CheckNodeOffset(fdt, nodeoffset, st);
    if r < 0 {
      return;
    }
    r, at := NextProp(fdt, r, st, stk.b.body, Frame(stk.b.rest, stk.up));
  }

  /** fdt_next_property_offset. */
  method NextPropertyOffset(fdt: array<byte>, offset: int, ghost st: bytes, ghost b: Body, ghost up: Stack)
    returns (r: int, ghost at: Body)
    requires Ready(fdt[..], st) && offset < TWO31
    requires BadProp(st, offset) || (InNode(st, offset, b, up) && b.Prop?)
    ensures if BadProp(st, offset) then r == BADOFFSET
            else match FirstProp(b.rest)
              case At(po) => r == offset + PropSize(b.val) + po && at.Prop? && InNode(st, r, at, up)
                             && Mark(b.rest, po) && at == From(b.rest, po)
              case Absent => r == NOTFOUND
  {
    hide Ready, TagAt, InNode;
    at := Close;
    r := CheckPropOffset(fdt, offset, st);
    if r < 0 {
      if !BadProp(st, offset) {
        InNodeIsProp(st, offset, b, up);
      }
      return;
    }
    InNodeIsProp(st, offset, b, up);
    r, at := NextProp(fdt, r, st, b.rest, up);
  }

  /** fdt_get_property_by_offset: the property's address is its offset, NULL is -1. */
  method GetPropertyByOffset(fdt: array<byte>, offset: int, ghost st: bytes, ghost b: Body, ghost up: Stack)
    returns (prop: int, len: int)
    requires Ready(fdt[..], st) && offset < TWO31
    requires BadProp(st, offset) || (InNode(st, offset, b, up) && b.Prop?)
    ensures if BadProp(st, offset) then prop == -1 && len == BADOFFSET else prop == offset && len == |b.val|
  {
    hide Ready, TagAt, InNode, Be32;
    var err := CheckPropOffset(fdt, offset, st);
    if !BadProp(st, offset) {
      InNodeIsProp(st, offset, b, up);
    }
    if err < 0 {
      return -1, err;
    }
    var n := CellAt(fdt, offset + 4, st);
    return offset, n;
  }

  /** Looking for a name from a property list on is looking from its first property on. */
  lemma {:induction false} FindFirst(b: Body, strs: bytes, name: bytes)
    ensures FindProp(b, strs, name) == match FirstProp(b)
      case Absent => Absent
      case At(po) =>
        if !Mark(b, po) || !From(b, po).Prop? then Absent
        else if StrAt(strs, From(b, po).nameoff) == name then At(po)
        else
          var f := FindProp(From(b, po).rest, strs, name);
          if f.At? then At(po + PropSize(From(b, po).val) + f.pos) else Absent
    decreases b
  {
    hide StrAt, PropSize;
    if b.Nop? {
      FindFirst(b.rest, strs, name);
    }
  }

  lemma {:induction false} MarkTrans(b: Body, p: nat, q: nat)
    requires Mark(b, p) && Mark(From(b, p), q)
    ensures Mark(b, p + q) && From(b, p + q) == From(From(b, p), q)
    decreases b
  {
    if p > 0 {
      MarkTrans(b.rest, if b.Nop? then p - 4 else p - PropSize(b.val), q);
    }
  }

  /** fdt_get_property_namelen; its fdt_getprop variants only differ in what they return of the property.
      NULL is -1, and then len is the error. */
  method GetProperty(fdt: array<byte>, nodeoffset: int, name: bytes, ghost st: bytes, ghost strs: bytes, ghost stk: Stack)
    returns (prop: int, len: int)
    requires Ready(fdt[..], st) && Strings(fdt[..], strs) && name != []
    requires NodeRef(st, nodeoffset, stk)
    requires !BadNode(st, nodeoffset) ==> Named(stk.b.body, strs)
    ensures if BadNode(st, nodeoffset) then prop == -1 && len == BADOFFSET
            else match FindProp(stk.b.body, strs, name)
              case Absent => prop == -1 && len == NOTFOUND
              case At(po) =>
                && prop == nodeoffset + BeginSize(stk.b.name) + po
                && Mark(stk.b.body, po) && From(stk.b.body, po).Prop? && len == |From(stk.b.body, po).val|
                && InNode(st, prop, From(stk.b.body, po), Frame(stk.b.rest, stk.up))
  {
    hide Ready, Strings, TagAt, InNode, On, Hdr, StrAt, BadProp, BadNode;
    len := 0;
    var offset;
    ghost var at;
    offset, at := FirstPropertyOffset(fdt, nodeoffset, st, stk);
    ghost var good := !BadNode(st, nodeoffset);
    ghost var base, body, up := 0, Close, Bottom;
    if good {
      base, body, up := nodeoffset + BeginSize(stk.b.name), stk.b.body, Frame(stk.b.rest, stk.up);
    }
    FindFirst(body, strs, name);
    ghost var pos := offset - base;
    while offset >= 0
      invariant offset < 0 ==> if good then FindProp(body, strs, name) == Absent && offset == NOTFOUND else offset == BADOFFSET
      invariant offset >= 0 ==>
        && good
        && offset == base + pos && pos >= 0 && at.Prop? && InNode(st, offset, at, up)
        && Mark(body, pos) && From(body, pos) == at
        && FindProp(body, strs, name) == Later(at, strs, name, pos)
      decreases offset >= 0, Size(at)
    {
      InNodeIsProp(st, offset, at, up);
      NamedFrom(body, strs, pos);
      prop, len := GetPropertyByOffset(fdt, offset, st, at, up);
      if prop == -1 {
        return -1, INTERNAL;
      }
      var nameoff := CellAt(fdt, prop + 8, st);
      var eq := StringEq(fdt, nameoff, name, strs);
      if eq {
        return;
      }
      ghost var next;
      offset, next := NextPropertyOffset(fdt, offset, st, at, up);
      LaterNext(body, at, strs, name, pos);
      if offset >= 0 {
        pos := offset - base;
        at := next;
      }
    }
    return -1, offset;
  }

  /** The outcome of the search when everything in front of the property at, at pos, has been passed. */
  function Later(at: Body, strs: bytes, name: bytes, pos: int): Found
    requires at.Prop? && pos >= 0
  {
    if StrAt(strs, at.nameoff) == name then At(pos)
    else
      var f := FindProp(at.rest, strs, name);
      if f.At? then At(pos + PropSize(at.val) + f.pos) else Absent
  }

  lemma {:induction false} LaterNext(body: Body, at: Body, strs: bytes, name: bytes, pos: nat)
    requires at.Prop? && Mark(body, pos) && From(body, pos) == at && StrAt(strs, at.nameoff) != name
    ensures match FirstProp(at.rest)
      case Absent => Later(at, strs, name, pos) == Absent
      case At(q) => Mark(at.rest, q) && From(at.rest, q).Prop? ==>
        var pos' := pos + PropSize(at.val) + q;
        && Mark(body, pos') && From(body, pos') == From(at.rest, q)
        && Later(at, strs, name, pos) == Later(From(at.rest, q), strs, name, pos')
  {
    hide StrAt, PropSize;
    FindFirst(at.rest, strs, name);
    match FirstProp(at.rest)
    case Absent =>
    case At(q) =>
      if Mark(at.rest, q) {
        assert Mark(at, PropSize(at.val) + q) && From(at, PropSize(at.val) + q) == From(at.rest, q);
        MarkTrans(body, pos, PropSize(at.val) + q);
      }
  }
}
