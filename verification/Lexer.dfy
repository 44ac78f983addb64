/** fdt_offset_ptr and fdt_next_tag of lib/libfdt/fdt.c, reading a blob in memory. */
module Lexer {
  import opened Bytes
  import opened Memory
  import opened Blob
  import opened Structure

  /** Extent of the structure block: its size field from version 17 on, before that only memory ends it. */
  function Limit(h: Header, size: nat): int {
    if h.version >= 17 then h.sizeStruct else size - h.offStruct
  }

  predicate Readable(s: bytes) {
    && HEADER_SIZE <= |s|
    && 0 <= Limit(Hdr(s), |s|) < TWO31
    && Hdr(s).offStruct + Limit(Hdr(s), |s|) <= |s|
  }

  /** The structure block that fdt_next_tag reads. */
  function Stru(s: bytes): (st: bytes)
    requires Readable(s)
    ensures |st| == Limit(Hdr(s), |s|)
  {
    s[Hdr(s).offStruct..Hdr(s).offStruct + Limit(Hdr(s), |s|)]
  }

  lemma StruOfView(s: bytes)
    requires Layout(s) && Hdr(s).version >= 17
    ensures Readable(s) && Stru(s) == View(s).stru
  {
    hide Hdr;
  }

  /** The bounds check of fdt_offset_ptr: the unsigned sum offset + len against the block size. */
  predicate OutOfBlock(offset: int, len: u32, size: u32) {
    (offset + len) % TWO32 < offset % TWO32 || (offset + len) % TWO32 > size
  }

  /** Within 31 bits the check says what it should, also for an end that wrapped around. */
  lemma BlockCheck(start: nat, end: int, size: nat)
    requires start < TWO31 && -TWO31 <= end < TWO32 && size < TWO31
    ensures OutOfBlock(start, (end - start) % TWO32, size) <==> !(start <= end <= size)
  {
    assert (start + (end - start) % TWO32) % TWO32 == end % TWO32;
  }

  /** Address of len bytes at a structure offset, or -1 for NULL. From version 17 on the bounds are
      checked, before that nothing is. */
  method OffsetPtr(mem: array<byte>, fdt: nat, offset: int, len: u32) returns (p: int)
    requires fdt + HEADER_SIZE <= mem.Length
    requires -TWO31 <= offset < TWO31
    ensures var h := Hdr(mem[fdt..]);
      p == if h.version >= 17 && OutOfBlock(offset, len, h.sizeStruct) then -1 else fdt + h.offStruct + offset
  {
    hide Hdr, OutOfBlock;
    if GetAt(mem, fdt, Version) >= 0x11 {
      if OutOfBlock(offset, len, GetAt(mem, fdt, SizeStruct)) {
        return -1;
      }
    }
    return fdt + GetAt(mem, fdt, OffStruct) + offset;
  }

  lemma StruAt(mem: bytes, fdt: nat, o: nat)
    requires fdt <= |mem| && Readable(mem[fdt..])
    requires o < |Stru(mem[fdt..])|
    ensures mem[fdt + Hdr(mem[fdt..]).offStruct + o] == Stru(mem[fdt..])[o]
    ensures o + 4 <= |Stru(mem[fdt..])| ==>
              Be32(mem, fdt + Hdr(mem[fdt..]).offStruct + o) == Be32(Stru(mem[fdt..]), o)
  {
    hide Hdr, Word;
  }

  lemma StruSlice(mem: bytes, fdt: nat, lo: nat, hi: nat)
    requires fdt <= |mem| && Readable(mem[fdt..])
    requires lo <= hi <= |Stru(mem[fdt..])|
    ensures var base := fdt + Hdr(mem[fdt..]).offStruct;
      base + hi <= |mem| && mem[base + lo..base + hi] == Stru(mem[fdt..])[lo..hi]
  {
    hide Hdr;
    var base := fdt + Hdr(mem[fdt..]).offStruct;
    assert Stru(mem[fdt..]) == mem[base..base + |Stru(mem[fdt..])|];
    SliceSlice(mem, base, base + |Stru(mem[fdt..])|, lo, hi);
  }

  /** The name loop of fdt_next_tag: the offset behind the NUL, or -1 if the block ends first. */
  method SkipName(mem: array<byte>, fdt: nat, start: nat) returns (end: int)
    requires fdt <= mem.Length && Readable(mem[fdt..])
    requires start <= |Stru(mem[fdt..])|
    requires Hdr(mem[fdt..]).version < 17 ==> NulFrom(Stru(mem[fdt..]), start) < |Stru(mem[fdt..])|
    ensures var st := Stru(mem[fdt..]);
      end == if NulFrom(st, start) == |st| then -1 else NulFrom(st, start) + 1
  {
    hide Hdr, OutOfBlock, Stru;
    ghost var st := Stru(mem[fdt..]);
    ghost var base := fdt + Hdr(mem[fdt..]).offStruct;
    BlockCheck(start, start + 1, |st|);
    var p := OffsetPtr(mem, fdt, start, 1);
    var offset := start + 1;
    while p != -1 && mem[p] != 0
      invariant start < offset <= |st| + 1
      invariant p == if offset <= |st| then base + offset - 1 else -1
      invariant NulFrom(st, start) == NulFrom(st, offset - 1)
      decreases |st| + 1 - offset
    {
      StruAt(mem[..], fdt, offset - 1);
      BlockCheck(offset, offset + 1, |st|);
      p := OffsetPtr(mem, fdt, offset, 1);
      offset := offset + 1;
    }
    if p == -1 {
      return -1;
    }
    StruAt(mem[..], fdt, offset - 1);
    return offset;
  }

  /** fdt_next_tag. Before version 17 it is only safe on a block whose tags are all there. */
  method NextTag(mem: array<byte>, fdt: nat, start: nat) returns (tag: u32, next: int)
    requires fdt <= mem.Length && Readable(mem[fdt..]) && start < TWO31
    requires Hdr(mem[fdt..]).version < 17 ==> TagAt(Stru(mem[fdt..]), start).next >= 0
    ensures Lexed(tag, next) == TagAt(Stru(mem[fdt..]), start)
  {
    hide Hdr, Be32, OutOfBlock, Stru;
    ghost var st := Stru(mem[fdt..]);
    BlockCheck(start, start + 4, |st|);
    var p := OffsetPtr(mem, fdt, start, 4);
    if p == -1 {
      return END, TRUNCATED;
    }
    StruAt(mem[..], fdt, start);
    tag := Get32(mem, p);
    var offset: int := start + 4;
    if tag == BEGIN_NODE {
      offset := SkipName(mem, fdt, offset);
      if offset == -1 {
        return END, BADSTRUCTURE;
      }
    } else if tag == PROP {
      BlockCheck(offset, offset + 4, |st|);
      p := OffsetPtr(mem, fdt, offset, 4);
      if p == -1 {
        return END, BADSTRUCTURE;
      }
      StruAt(mem[..], fdt, offset);
      offset := Int32(offset + 8 + Get32(mem, p));
    } else if tag == END || tag == END_NODE || tag == NOP {
    } else {
      return END, BADSTRUCTURE;
    }
    BlockCheck(start, offset, |st|);
    p := OffsetPtr(mem, fdt, start, (offset - start) % TWO32);
    if p == -1 {
      return END, BADSTRUCTURE;
    }
    next := Align4(offset);
  }

  /** s is a readable blob of version 17 or later with structure block st. */
  ghost predicate Ready(s: bytes, st: bytes) {
    Readable(s) && Hdr(s).version >= 17 && Stru(s) == st
  }

  lemma ReadySize(s: bytes, st: bytes)
    requires Ready(s, st)
    ensures |s| >= HEADER_SIZE
  {
  }

  /** fdt_next_tag on a blob at the start of the buffer. */
  method LexTag(fdt: array<byte>, offset: nat, ghost st: bytes) returns (tag: u32, next: int)
    requires Ready(fdt[..], st) && offset < TWO31
    ensures Lexed(tag, next) == TagAt(st, offset)
  {
    hide Hdr, TagAt, Readable, Stru;
    tag, next := NextTag(fdt, 0, offset);
  }
}
