/** The memory primitives of src/string.c, over offsets into one buffer. */
module Memory {
  import opened Bytes

  /** Byte by byte: now holds was shifted from src to dst at the places lo..hi, and was itself elsewhere. */
  ghost predicate CopyOf(was: bytes, now: bytes, dst: nat, src: nat, lo: int, hi: int)
    requires dst <= lo && hi <= |was| && hi - dst + src <= |was|
  {
    && |now| == |was|
    && (forall j :: lo <= j < hi ==> now[j] == was[j - dst + src])
    && (forall j :: 0 <= j < |now| && !(lo <= j < hi) ==> now[j] == was[j])
  }

  lemma Copied(was: bytes, now: bytes, dst: nat, src: nat, n: nat)
    requires dst + n <= |was| && src + n <= |was|
    requires CopyOf(was, now, dst, src, dst, dst + n)
    ensures now == Patch(was, dst, was[src..src + n])
  {
    assert now[dst..dst + n] == was[src..src + n];
    assert now[..dst] == was[..dst];
    assert now[dst + n..] == was[dst + n..];
    assert now == now[..dst] + now[dst..dst + n] + now[dst + n..];
  }

  /** Copies n bytes from src to dst inside one buffer; the two ranges may overlap. */
  method MemMove(mem: array<byte>, dst: nat, src: nat, n: nat)
    requires dst + n <= mem.Length && src + n <= mem.Length
    modifies mem
    ensures mem[..] == Patch(old(mem[..]), dst, old(mem[src..src + n]))
  {
    ghost var was := mem[..];
    if dst < src {
      var i := 0;
      while i < n
        invariant 0 <= i <= n
        invariant CopyOf(was, mem[..], dst, src, dst, dst + i)
      {
        mem[dst + i] := mem[src + i];
        i := i + 1;
      }
    } else if dst > src {
      var i := n - 1;
      while i >= 0
        invariant -1 <= i < n
        invariant CopyOf(was, mem[..], dst, src, dst + i + 1, dst + n)
      {
        mem[dst + i] := mem[src + i];
        i := i - 1;
      }
    }
    Copied(was, mem[..], dst, src, n);
  }

  /** Copies a value held outside the buffer into it. */
  method MemCpy(mem: array<byte>, dst: nat, src: bytes)
    requires dst + |src| <= mem.Length
    modifies mem
    ensures mem[..] == Patch(old(mem[..]), dst, src)
  {
    var i := 0;
    while i < |src|
      invariant 0 <= i <= |src|
      invariant forall j :: dst <= j < dst + i ==> mem[j] == src[j - dst]
      invariant forall j :: 0 <= j < mem.Length && !(dst <= j < dst + i) ==> mem[j] == old(mem[j])
    {
      mem[dst + i] := src[i];
      i := i + 1;
    }
  }

  method MemSet(mem: array<byte>, dst: nat, c: byte, n: nat)
    requires dst + n <= mem.Length
    modifies mem
    ensures mem[..] == Patch(old(mem[..]), dst, seq(n, _ => c))
  {
    var i := 0;
    while i < n
      invariant 0 <= i <= n
      invariant forall j :: dst <= j < dst + i ==> mem[j] == c
      invariant forall j :: 0 <= j < mem.Length && !(dst <= j < dst + i) ==> mem[j] == old(mem[j])
    {
      mem[dst + i] := c;
      i := i + 1;
    }
  }

  /** The difference of two characters, as unsigned ones. */
  function Minus(c: byte, d: byte): (r: int)
    ensures r == 0 <==> c == d
  {
    var x: int, y: int := c, d;
    x - y
  }

  /** memcmp as a test for equality: for n >= 1, zero exactly when the n bytes agree. */
  method MemCmp(mem: array<byte>, p: nat, s: bytes) returns (diff: int)
    requires 1 <= |s| && p + |s| <= mem.Length
    ensures diff == 0 <==> mem[p..p + |s|] == s
    ensures diff != 0 ==> exists k | 0 <= k < |s| :: mem[p..p + k] == s[..k] && diff == Minus(mem[p + k], s[k])
  {
    var i := 0;
    while mem[p + i] == s[i] && i + 1 < |s|
      invariant 0 <= i < |s|
      invariant mem[p..p + i] == s[..i]
      decreases |s| - i
    {
      i := i + 1;
    }
    diff := Minus(mem[p + i], s[i]);
    if diff != 0 {
      assert mem[p..p + |s|][i] != s[i];
    }
  }

  /** memchr on n >= 1 bytes: the place behind the first c, or -1 for NULL. */
  method MemChr(s: bytes, c: byte) returns (r: int)
    requires 1 <= |s|
    ensures r == -1 ==> c !in s
    ensures r != -1 ==> 1 <= r <= |s| && s[r - 1] == c && c !in s[..r - 1]
  {
    var i, n := 0, |s|;
    var more := true;
    while more
      invariant if more then i < |s| && n == |s| - i && c !in s[..i]
                else 1 <= i <= |s| && c !in s[..i - 1] && (if n == 0 then i == |s| && c !in s else n == |s| - i + 1 && s[i - 1] == c)
      decreases if more then |s| - i + 1 else 0
    {
      more := s[i] != c;
      i := i + 1;
      if more {
        assert s[..i] == s[..i - 1] + [s[i - 1]];
        assert s[..|s|] == s;
        n := n - 1;
        more := n != 0;
      }
    }
    return if n != 0 then i else -1;
  }

  /** strcmp: lengths first, then the characters. */
  method StrCmp(s1: bytes, s2: bytes) returns (r: int)
    ensures r == 0 <==> s1 == s2
    ensures |s1| < |s2| ==> r == -1
    ensures |s1| > |s2| ==> r == 1
    ensures |s1| == |s2| && r != 0 ==> exists k | 0 <= k < |s1| :: s1[..k] == s2[..k] && r == Minus(s1[k], s2[k])
  {
    if |s1| < |s2| {
      return -1;
    }
    if |s1| > |s2| {
      return 1;
    }
    var i := 0;
    while i < |s1|
      invariant 0 <= i <= |s1| && s1[..i] == s2[..i]
    {
      r := Minus(s1[i], s2[i]);
      if r != 0 {
        return;
      }
      i := i + 1;
    }
    return 0;
  }

  /** strchr on a non-empty string: the first place of c, or -1. */
  method StrChr(s: bytes, c: byte) returns (r: int)
    requires s != [] && 0 !in s && c != 0
    ensures r == -1 ==> c !in s
    ensures r != -1 ==> 0 <= r < |s| && s[r] == c && c !in s[..r]
  {
    var i := 0;
    var more := true;
    while more
      invariant if more then i < |s| && c !in s[..i] else 0 < i <= |s| && c !in s[..i - 1] && (s[i - 1] == c || i == |s|)
      decreases if more then |s| - i + 1 else 0
    {
      more := s[i] != c;
      i := i + 1;
      more := more && i < |s|;
    }
    i := i - 1;
    assert s[..i + 1] == s[..i] + [s[i]];
    assert s[..|s|] == s;
    return if s[i] == c then i else -1;
  }

  method Put32(mem: array<byte>, o: nat, v: u32)
    requires o + 4 <= mem.Length
    modifies mem
    ensures mem[..] == Patch(old(mem[..]), o, Cell(v))
  {
    hide Cell;
    var c := Cell(v);
    mem[o], mem[o + 1], mem[o + 2], mem[o + 3] := c[0], c[1], c[2], c[3];
  }

  function Get32(mem: array<byte>, o: nat): (v: u32)
    requires o + 4 <= mem.Length
    reads mem
    ensures v == Be32(mem[..], o)
  {
    Word(mem[o], mem[o + 1], mem[o + 2], mem[o + 3])
  }
}
