// The string routines of example/codis/include/string.h, which scan eight bytes
// at a time.
//
// Memory is a byte array; base is the address of its first byte, which only
// matters where the source tests the alignment of a pointer. A word may be
// loaded at any offset, lowest byte first.
module Strings {
  type byte = bv8

  datatype Option<T> = None | Some(value: T)

  // ---------- words ----------

  const ONES: bv64 := 0xFFFF_FFFF_FFFF_FFFF / 255
  const HIGHS: bv64 := ONES * 128

  function HasZero(x: bv64): bv64 {
    (x - ONES) & !x & HIGHS
  }

  // The word at an address with these bytes from there on.
  function Word(b0: byte, b1: byte, b2: byte, b3: byte, b4: byte, b5: byte, b6: byte, b7: byte): bv64 {
    (b0 as bv64) | ((b1 as bv64) << 8) | ((b2 as bv64) << 16) | ((b3 as bv64) << 24)
    | ((b4 as bv64) << 32) | ((b5 as bv64) << 40) | ((b6 as bv64) << 48) | ((b7 as bv64) << 56)
  }

  predicate SomeByteZero(x: bv64) {
    || x & 0xFF == 0 || x & 0xFF00 == 0 || x & 0xFF_0000 == 0 || x & 0xFF00_0000 == 0
    || x & 0xFF_0000_0000 == 0 || x & 0xFF00_0000_0000 == 0
    || x & 0xFF_0000_0000_0000 == 0 || x & 0xFF00_0000_0000_0000 == 0
  }

  predicate SomeByteEqual(x: bv64, y: bv64) {
    || x & 0xFF == y & 0xFF || x & 0xFF00 == y & 0xFF00
    || x & 0xFF_0000 == y & 0xFF_0000 || x & 0xFF00_0000 == y & 0xFF00_0000
    || x & 0xFF_0000_0000 == y & 0xFF_0000_0000 || x & 0xFF00_0000_0000 == y & 0xFF00_0000_0000
    || x & 0xFF_0000_0000_0000 == y & 0xFF_0000_0000_0000
    || x & 0xFF00_0000_0000_0000 == y & 0xFF00_0000_0000_0000
  }

  lemma MaskConstants()
    ensures ONES == 0x0101_0101_0101_0101 && HIGHS == 0x8080_8080_8080_8080
  {
  }

  // The bit trick finds a zero byte exactly when there is one.
  lemma HasZeroFindsZero(x: bv64)
    ensures HasZero(x) != 0 <==> SomeByteZero(x)
  {
    MaskConstants();
  }

  lemma XorMeetsZero(x: bv64, y: bv64)
    ensures SomeByteZero(x ^ y) <==> SomeByteEqual(x, y)
  {
  }

  lemma HasZeroFindsEqual(x: bv64, y: bv64)
    ensures HasZero(x ^ y) != 0 <==> SomeByteEqual(x, y)
  {
    HasZeroFindsZero(x ^ y);
    XorMeetsZero(x, y);
  }

  // Multiplying by ONES copies a byte to every place.
  lemma OnesSpread(c: byte)
    ensures ONES * (c as bv64) == Word(c, c, c, c, c, c, c, c)
  {
    MaskConstants();
  }

  lemma Masked(b0: byte, b1: byte, b2: byte, b3: byte, b4: byte, b5: byte, b6: byte, b7: byte)
    ensures var x := Word(b0, b1, b2, b3, b4, b5, b6, b7);
            && x & 0xFF == b0 as bv64 && x & 0xFF00 == (b1 as bv64) << 8
            && x & 0xFF_0000 == (b2 as bv64) << 16 && x & 0xFF00_0000 == (b3 as bv64) << 24
            && x & 0xFF_0000_0000 == (b4 as bv64) << 32 && x & 0xFF00_0000_0000 == (b5 as bv64) << 40
            && x & 0xFF_0000_0000_0000 == (b6 as bv64) << 48 && x & 0xFF00_0000_0000_0000 == (b7 as bv64) << 56
  {
  }

  predicate AnyIs(b0: byte, b1: byte, b2: byte, b3: byte, b4: byte, b5: byte, b6: byte, b7: byte, c: byte) {
    b0 == c || b1 == c || b2 == c || b3 == c || b4 == c || b5 == c || b6 == c || b7 == c
  }

  lemma EqualBytes(b0: byte, b1: byte, b2: byte, b3: byte, b4: byte, b5: byte, b6: byte, b7: byte, c: byte)
    ensures SomeByteEqual(Word(b0, b1, b2, b3, b4, b5, b6, b7), Word(c, c, c, c, c, c, c, c))
            <==> AnyIs(b0, b1, b2, b3, b4, b5, b6, b7, c)
  {
    Masked(b0, b1, b2, b3, b4, b5, b6, b7);
    Masked(c, c, c, c, c, c, c, c);
  }

  // ---------- scans ----------

  // The index of the first c, or the length if there is none.
  function IndexOf(s: seq<byte>, c: byte): (i: nat)
    ensures i <= |s|
    ensures forall j :: 0 <= j < i ==> s[j] != c
    ensures i < |s| ==> s[i] == c
  {
    if s == [] || s[0] == c then 0 else 1 + IndexOf(s[1..], c)
  }

  lemma IndexOfIs(s: seq<byte>, c: byte, i: nat)
    requires i <= |s| && (forall j :: 0 <= j < i ==> s[j] != c) && (i < |s| ==> s[i] == c)
    ensures IndexOf(s, c) == i
  {
  }

  // uintptr_t & ALIGN, where ALIGN is 8: the test of one address bit.
  predicate AlignBit(address: nat) {
    address / 8 % 2 == 1
  }

  // ONES * c
  method Repeat(c: byte) returns (k: bv64)
    ensures k == Word(c, c, c, c, c, c, c, c)
  {
    k := ONES * (c as bv64);
    OnesSpread(c);
  }

  // HASZERO(x ^ k)
  method TestWord(x: bv64, k: bv64) returns (found: bool)
    ensures found <==> SomeByteEqual(x, k)
  {
    found := HasZero(x ^ k) != 0;
    HasZeroFindsEqual(x, k);
  }

  // HASZERO(x)
  method TestWordZero(x: bv64) returns (found: bool)
    ensures found <==> SomeByteZero(x)
  {
    found := HasZero(x) != 0;
    HasZeroFindsZero(x);
  }

  lemma ZeroBytes(b0: byte, b1: byte, b2: byte, b3: byte, b4: byte, b5: byte, b6: byte, b7: byte)
    ensures SomeByteZero(Word(b0, b1, b2, b3, b4, b5, b6, b7)) <==> AnyIs(b0, b1, b2, b3, b4, b5, b6, b7, 0)
  {
    Masked(b0, b1, b2, b3, b4, b5, b6, b7);
  }

  // Loads the word at w.
  method Load(mem: array<byte>, w: nat) returns (x: bv64)
    requires w + 8 <= mem.Length
    ensures x == WordAt(mem[w..w + 8])
  {
    x := Word(mem[w], mem[w + 1], mem[w + 2], mem[w + 3], mem[w + 4], mem[w + 5], mem[w + 6], mem[w + 7]);
  }

  function WordAt(s: seq<byte>): bv64
    requires |s| == 8
  {
    Word(s[0], s[1], s[2], s[3], s[4], s[5], s[6], s[7])
  }

  lemma WordAtTest(s: seq<byte>, c: byte)
    requires |s| == 8
    ensures SomeByteEqual(WordAt(s), Word(c, c, c, c, c, c, c, c)) <==> c in s
    ensures SomeByteZero(WordAt(s)) <==> 0 in s
  {
    EightBytes(s, c);
    EightBytes(s, 0);
    EqualBytes(s[0], s[1], s[2], s[3], s[4], s[5], s[6], s[7], c);
    ZeroBytes(s[0], s[1], s[2], s[3], s[4], s[5], s[6], s[7]);
  }

  method WordContains(mem: array<byte>, w: nat, c: byte, k: bv64) returns (found: bool)
    requires w + 8 <= mem.Length && k == Word(c, c, c, c, c, c, c, c)
    ensures found <==> c in mem[w..w + 8]
  {
    var x := Load(mem, w);
    found := TestWord(x, k);
    WordAtTest(mem[w..w + 8], c);
  }

  method WordContainsZero(mem: array<byte>, w: nat) returns (found: bool)
    requires w + 8 <= mem.Length
    ensures found <==> 0 in mem[w..w + 8]
  {
    var x := Load(mem, w);
    found := TestWordZero(x);
    WordAtTest(mem[w..w + 8], 0);
  }

  lemma EightBytes(s: seq<byte>, c: byte)
    requires |s| == 8
    ensures AnyIs(s[0], s[1], s[2], s[3], s[4], s[5], s[6], s[7], c) <==> c in s
  {
  }

  // The first c in the n bytes from s on, whatever their alignment. c is
  // truncated to a byte as in the source.
  method Memchr(mem: array<byte>, base: nat, s: nat, c: int, n: nat) returns (r: Option<nat>)
    requires s + n <= mem.Length
    ensures var i := IndexOf(mem[s..s + n], (c % 256) as byte);
            r == if i == n then None else Some(s + i)
  {
    hide IndexOf;
    var ch := (c % 256) as byte;
    var p: nat, left: nat := s, n;
    while AlignBit(base + p) && left > 0 && mem[p] != ch
      invariant s <= p && p + left == s + n
      invariant forall i :: s <= i < p ==> mem[i] != ch
    {
      p, left := p + 1, left - 1;
    }
    if left > 0 && mem[p] != ch {
      ghost var before := p;
      p, left := SkipWords(mem, p, left, ch);
      assert forall i :: before <= i < p ==> mem[i] == mem[before..p][i - before];
      while left > 0 && mem[p] != ch
        invariant s <= p && p + left == s + n
        invariant forall i :: s <= i < p ==> mem[i] != ch
      {
        p, left := p + 1, left - 1;
      }
    }
    ghost var region := mem[s..s + n];
    assert forall j :: 0 <= j < |region| ==> region[j] == mem[s + j];
    IndexOfIs(region, ch, p - s);
    return if left > 0 then Some(p) else None;
  }

  // The word loop of memchr: words without c are skipped.
  method SkipWords(mem: array<byte>, start: nat, length: nat, c: byte) returns (w: nat, left: nat)
    requires start + length <= mem.Length
    ensures start <= w && w + left == start + length
    ensures c !in mem[start..w]
  {
    w, left := start, length;
    var k := Repeat(c);
    while left >= 8
      invariant start <= w && w + left == start + length
      invariant c !in mem[start..w]
    {
      var found := WordContains(mem, w, c, k);
      if found {
        break;
      }
      assert mem[start..w + 8] == mem[start..w] + mem[w..w + 8];
      w, left := w + 8, left - 8;
    }
  }

  method Strnlen(mem: array<byte>, base: nat, s: nat, n: nat) returns (len: nat)
    requires s + n <= mem.Length
    ensures len == IndexOf(mem[s..s + n], 0)
  {
    var p := Memchr(mem, base, s, 0, n);
    len := match p case Some(q) => q - s case None => n;
  }

  // The length of the string at s. Words are loaded at aligned addresses, so
  // the memory must end at one.
  method Strlen(mem: array<byte>, base: nat, s: nat) returns (len: nat)
    requires s < mem.Length && 0 in mem[s..] && (base + mem.Length) % 8 == 0
    ensures len == IndexOf(mem[s..], 0)
  {
    ghost var end := IndexOf(mem[s..], 0);
    assert end < |mem[s..]|;
    assert mem[s + end] == mem[s..][end];
    assert forall i :: s <= i < s + end ==> mem[i] == mem[s..][i - s];
    var p := s;
    while (base + p) % 8 != 0
      invariant s <= p <= s + end
      decreases s + end - p
    {
      if mem[p] == 0 {
        return p - s;
      }
      p := p + 1;
    }
    while true
      invariant s <= p <= s + end && (base + p) % 8 == 0
      decreases s + end - p
    {
      AlignedWordFits(base, p, mem.Length);
      var found := WordContainsZero(mem, p);
      if found {
        break;
      }
      assert forall i :: p <= i < p + 8 ==> mem[i] == mem[p..p + 8][i - p];
      p := p + 8;
    }
    while mem[p] != 0
      invariant s <= p <= s + end
      decreases s + end - p
    {
      p := p + 1;
    }
    return p - s;
  }

  lemma AlignedWordFits(base: nat, p: nat, length: nat)
    requires p < length && (base + p) % 8 == 0 && (base + length) % 8 == 0
    ensures p + 8 <= length && (base + p + 8) % 8 == 0
  {
  }

  // ---------- copies ----------

  // The bytes of dst after those of src have been written from d on.
  function Written(dst: seq<byte>, d: nat, src: seq<byte>): seq<byte>
    requires d + |src| <= |dst|
  {
    dst[..d] + src + dst[d + |src|..]
  }

  lemma WrittenMore(dst: seq<byte>, d: nat, src: seq<byte>, s: nat, p: nat)
    requires s <= p < |src| && d + (p - s) < |dst|
    ensures Written(dst, d, src[s..p])[d + (p - s) := src[p]] == Written(dst, d, src[s..p + 1])
  {
    assert src[s..p + 1] == src[s..p] + [src[p]];
  }

  lemma WrittenNone(dst: seq<byte>, d: nat)
    requires d <= |dst|
    ensures Written(dst, d, []) == dst
  {
  }

  // A NUL-terminated string at s, with its NUL.
  ghost predicate StringAt(mem: seq<byte>, s: nat) {
    s < |mem| && 0 in mem[s..]
  }

  function WithNul(mem: seq<byte>, s: nat): seq<byte>
    requires s < |mem|
  {
    mem[s..][..IndexOf(mem[s..], 0)] + [0]
  }

  // How many bytes strncpy copies. Its index never advances, so the bound is
  // only asked whether it is zero.
  function StrncpyCount(length: nat, maxLen: nat): nat {
    if maxLen == 0 then 1 else length + 1
  }

  // What strncpy makes of dst.
  function StrncpyLeaves(dst: seq<byte>, d: nat, src: seq<byte>, s: nat, maxLen: nat): seq<byte>
    requires s < |src| && 0 in src[s..] && d + StrncpyCount(IndexOf(src[s..], 0), maxLen) <= |dst|
  {
    Written(dst, d, src[s..s + StrncpyCount(IndexOf(src[s..], 0), maxLen)])
  }

  // No byte behind the first maxLen is written.
  ghost predicate KeepsBound(dst: seq<byte>, d: nat, src: seq<byte>, s: nat, maxLen: nat)
    requires s < |src| && 0 in src[s..] && d + StrncpyCount(IndexOf(src[s..], 0), maxLen) <= |dst|
  {
    forall k :: d + maxLen <= k < |dst| ==> StrncpyLeaves(dst, d, src, s, maxLen)[k] == dst[k]
  }

  // The bound is kept, whatever is in the destination, exactly when the string
  // with its NUL is within it anyway.
  lemma StrncpyBoundedExactlyWhen(room: nat, d: nat, src: seq<byte>, s: nat, maxLen: nat)
    requires s < |src| && 0 in src[s..] && d + StrncpyCount(IndexOf(src[s..], 0), maxLen) <= room
    ensures (forall dst: seq<byte> :: |dst| == room ==> KeepsBound(dst, d, src, s, maxLen))
            <==> IndexOf(src[s..], 0) + 1 <= maxLen
  {
    var count := StrncpyCount(IndexOf(src[s..], 0), maxLen);
    if maxLen < count {
      var other: byte := if src[s + maxLen] == 0 then 1 else 0;
      var dst := seq(room, _ => other);
      assert StrncpyLeaves(dst, d, src, s, maxLen)[d + maxLen] == src[s + maxLen];
      assert !KeepsBound(dst, d, src, s, maxLen);
    }
  }

  // A text of five bytes, bounded by two, overwrites six.
  lemma StrncpyIgnoresBound()
    ensures StrncpyLeaves([9, 9, 9, 9, 9, 9, 9], 0, [1, 2, 3, 4, 5, 0], 0, 2) == [1, 2, 3, 4, 5, 0, 9]
  {
    var src: seq<byte> := [1, 2, 3, 4, 5, 0];
    assert src[0..] == src;
    IndexOfIs(src, 0, 5);
    assert src[0..6] == src;
  }

  method Strncpy(dst: array<byte>, d: nat, src: array<byte>, s: nat, maxLen: nat)
    requires dst != src && StringAt(src[..], s)
    requires d + StrncpyCount(IndexOf(src[s..], 0), maxLen) <= dst.Length
    modifies dst
    ensures dst[..] == StrncpyLeaves(old(dst[..]), d, src[..], s, maxLen)
  {
    ghost var before, all := dst[..], src[..];
    ghost var end := IndexOf(src[s..], 0);
    assert all[s..] == src[s..];
    assert all[s..s] == [];
    WrittenNone(before, d);
    hide Written, IndexOf;
    assert forall k :: 0 <= k < |src[s..]| ==> src[s..][k] == src[s + k];
    var i := 0;
    var p, q := s, d;
    var more := true;
    while more
      invariant s <= p <= s + end + 1 && q == d + (p - s)
      invariant more ==> p <= s + end && (p == s || 0 < maxLen) && d + (p - s) < dst.Length
      invariant !more ==> p - s == StrncpyCount(end, maxLen)
      invariant i == 0
      invariant d + (p - s) <= dst.Length && src[..] == all && dst[..] == Written(before, d, all[s..p])
      decreases more, s + end + 1 - p
    {
      ghost var now := dst[..];
      WrittenMore(before, d, all, s, p);
      dst[q] := src[p];
      assert dst[..] == now[q := all[p]];
      more := src[p] != 0 && i < maxLen;
      p, q := p + 1, q + 1;
    }
  }

  method Strcpy(dst: array<byte>, d: nat, src: array<byte>, s: nat)
    requires dst != src && StringAt(src[..], s) && d + IndexOf(src[s..], 0) + 1 <= dst.Length
    modifies dst
    ensures dst[..] == Written(old(dst[..]), d, WithNul(src[..], s))
  {
    ghost var before, all := dst[..], src[..];
    ghost var end := IndexOf(src[s..], 0);
    assert all[s..s] == [];
    WrittenNone(before, d);
    hide Written, IndexOf;
    assert forall k :: 0 <= k < |src[s..]| ==> src[s..][k] == src[s + k];
    var p, q := s, d;
    var more := true;
    while more
      invariant s <= p <= s + end + 1 && q == d + (p - s)
      invariant if more then p <= s + end else p == s + end + 1
      invariant src[..] == all && dst[..] == Written(before, d, all[s..p])
      decreases s + end + 1 - p, more
    {
      ghost var now := dst[..];
      WrittenMore(before, d, all, s, p);
      dst[q] := src[p];
      assert dst[..] == now[q := all[p]];
      more := src[p] != 0;
      p, q := p + 1, q + 1;
    }
    assert src[s..s + end + 1] == WithNul(src[..], s) by {
      assert src[..][s..] == src[s..];
    }
  }

  // The second string replaces the NUL of the first.
  method Strcat(dst: array<byte>, base: nat, d: nat, src: array<byte>, s: nat)
    requires dst != src && StringAt(src[..], s) && StringAt(dst[..], d) && (base + dst.Length) % 8 == 0
    requires d + IndexOf(dst[d..], 0) + IndexOf(src[s..], 0) + 1 <= dst.Length
    modifies dst
    ensures dst[..] == Written(old(dst[..]), d + IndexOf(old(dst[d..]), 0), WithNul(src[..], s))
  {
    assert dst[..][d..] == dst[d..];
    var length := Strlen(dst, base, d);
    Strcpy(dst, d + length, src, s);
  }

  method Memzero(dst: array<byte>, n: nat)
    requires n <= dst.Length
    modifies dst
    ensures forall k :: 0 <= k < n ==> dst[k] == 0
    ensures forall k :: n <= k < dst.Length ==> dst[k] == old(dst[k])
  {
    for i := 0 to n
      invariant forall k :: 0 <= k < i ==> dst[k] == 0
      invariant forall k :: i <= k < dst.Length ==> dst[k] == old(dst[k])
    {
      dst[i] := 0;
    }
  }
}
