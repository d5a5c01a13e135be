// Integer formatting and bounded output of example/simple/printf.c.
//
// Here a format is the list of its directives; Format.dfy interprets format
// strings.
module Printf {
  datatype Flags = Flags(zeropad: bool, left: bool, plus: bool, space: bool, hash: bool, upper: bool, precision: bool)

  const NTOA_BUFFER_SIZE: nat := 32

  // ---------- text ----------

  function Repeat(c: char, n: int): (s: string)
    ensures |s| == if n > 0 then n else 0
    ensures forall i :: 0 <= i < |s| ==> s[i] == c
  {
    if n <= 0 then [] else seq(n, _ => c)
  }

  function Reverse(s: string): (r: string)
    ensures |r| == |s|
    ensures forall i :: 0 <= i < |s| ==> r[i] == s[|s| - 1 - i]
  {
    if s == [] then [] else Reverse(s[1..]) + [s[0]]
  }

  function DigitChar(d: nat, upper: bool): char
    requires d < 16
  {
    if d < 10 then ('0' as int + d) as char else ((if upper then 'A' as int else 'a' as int) + d - 10) as char
  }

  function DigitValue(c: char): nat {
    if '0' <= c <= '9' then c as int - '0' as int
    else if 'a' <= c <= 'f' then c as int - 'a' as int + 10
    else if 'A' <= c <= 'F' then c as int - 'A' as int + 10
    else 16
  }

  lemma DigitRoundTrip(d: nat, upper: bool)
    requires d < 16
    ensures DigitValue(DigitChar(d, upper)) == d
    ensures d < 10 ==> '0' <= DigitChar(d, upper) <= '9'
  {
  }

  // The digits that _ntoa_long produces, least significant first.
  function RevDigits(value: nat, base: nat, upper: bool, room: nat): (s: string)
    requires 2 <= base <= 16 && 1 <= room
    ensures 1 <= |s| <= room
    decreases room
  {
    [DigitChar(value % base, upper)]
    + if value / base != 0 && room > 1 then RevDigits(value / base, base, upper, room - 1) else []
  }

  // Zeros up to a length, within the conversion buffer.
  function ZerosTo(buf: string, length: int): string {
    buf + Repeat('0', (if length < NTOA_BUFFER_SIZE then length else NTOA_BUFFER_SIZE) - |buf|)
  }

  function FieldWidth(width: nat, negative: bool, flags: Flags): nat {
    if !flags.left && width > 0 && flags.zeropad && (negative || flags.plus || flags.space) then width - 1 else width
  }

  function PadZeros(buf: string, prec: nat, width: nat, flags: Flags): string {
    if flags.left then buf
    else
      var b := ZerosTo(buf, prec);
      if flags.zeropad then ZerosTo(b, width) else b
  }

  function Push(buf: string, c: char): string {
    if |buf| < NTOA_BUFFER_SIZE then buf + [c] else buf
  }

  function AddHash(buf: string, base: nat, prec: nat, width: nat, flags: Flags): string {
    if !flags.hash then buf
    else
      var b := if !flags.precision && |buf| > 0 && (|buf| == prec || |buf| == width)
               then buf[..|buf| - (if |buf| > 1 && base == 16 then 2 else 1)] else buf;
      var b' := if base == 16 then Push(b, if flags.upper then 'X' else 'x')
                else if base == 2 then Push(b, 'b') else b;
      Push(b', '0')
  }

  function Sign(negative: bool, flags: Flags): string {
    if negative then "-" else if flags.plus then "+" else if flags.space then " " else ""
  }

  function AddSign(buf: string, negative: bool, flags: Flags): string {
    if |buf| < NTOA_BUFFER_SIZE then buf + Sign(negative, flags) else buf
  }

  // The conversion buffer of _ntoa_format when it is handed to _out_rev.
  function FormatBuf(buf: string, negative: bool, base: nat, prec: nat, width: nat, flags: Flags): string {
    var w := FieldWidth(width, negative, flags);
    AddSign(AddHash(PadZeros(buf, prec, w, flags), base, prec, w, flags), negative, flags)
  }

  // What _out_rev emits.
  function OutRevText(buf: string, width: nat, flags: Flags): string {
    Repeat(' ', if flags.left || flags.zeropad then 0 else width - |buf|)
    + Reverse(buf)
    + Repeat(' ', if flags.left then width - |buf| else 0)
  }

  function NtoaBuf(value: nat, base: nat, flags: Flags): string
    requires 2 <= base <= 16
  {
    if flags.precision && value == 0 then [] else RevDigits(value, base, flags.upper, NTOA_BUFFER_SIZE)
  }

  // What _ntoa_long emits.
  function NtoaText(value: nat, negative: bool, base: nat, prec: nat, width: nat, flags: Flags): string
    requires 2 <= base <= 16
  {
    var f := if value == 0 then flags.(hash := false) else flags;
    OutRevText(FormatBuf(NtoaBuf(value, base, f), negative, base, prec, width, f), FieldWidth(width, negative, f), f)
  }

  // ---------- what the digits mean ----------

  // The value of digits, least significant first.
  function RevValue(s: string, base: nat): nat {
    if s == [] then 0 else DigitValue(s[0]) + base * RevValue(s[1..], base)
  }

  ghost predicate AllDigits(s: string, base: nat) {
    forall i :: 0 <= i < |s| ==> DigitValue(s[i]) < base
  }

  function Pow(base: nat, n: nat): (p: nat)
    ensures base > 0 ==> p > 0
  {
    if n == 0 then 1 else Times(base, Pow(base, n - 1))
  }

  function Times(a: nat, b: nat): (p: nat)
    ensures a > 0 && b > 0 ==> p >= a && p >= b
  {
    assert a > 0 && b > 0 ==> a * b == (a - 1) * b + b && a * b == a * (b - 1) + a;
    a * b
  }

  lemma TimesAtLeast(m: nat, k: int)
    requires k >= 1
    ensures m * k >= m
  {
    assert m * k == m * (k - 1) + m;
  }

  lemma TimesGrows(m: nat, a: nat, b: nat)
    requires a <= b
    ensures m * a <= m * b
  {
    assert m * b == m * a + m * (b - a);
  }

  lemma TimesAtMost(m: nat, k: int)
    requires k <= -1
    ensures m * k <= -(m as int)
  {
    assert m * k == m * (k + 1) - m;
  }

  lemma SmallMultiple(m: int, k: int)
    requires 0 < m && -m < m * k < m
    ensures k == 0
  {
    if k >= 1 {
      TimesAtLeast(m, k);
    } else if k <= -1 {
      TimesAtMost(m, k);
    }
  }

  lemma Division(x: nat, m: nat)
    requires 0 < m
    ensures x == m * (x / m) + x % m && 0 <= x % m < m
  {
  }

  lemma RemainderIs(x: nat, m: nat, k: nat, r: nat)
    requires x == m * k + r && r < m
    ensures x % m == r
  {
    Division(x, m);
    assert m * (x / m - k) == m * (x / m) - m * k;
    SmallMultiple(m, x / m - k);
  }

  // Reducing all but the last digit reduces the number.
  lemma ReduceFront(d: nat, base: nat, q: nat, m: nat)
    requires d < base && 0 < m
    ensures (d + base * q) % Times(base, m) == d + base * (q % m)
  {
    var r := q % m;
    Division(q, m);
    assert base * q == base * (m * (q / m)) + base * r;
    assert base * (m * (q / m)) == Times(base, m) * (q / m);
    TimesGrows(base, r + 1, m);
    assert base * (r + 1) == base * r + base;
    RemainderIs(d + base * q, Times(base, m), q / m, d + base * r);
  }

  lemma QuotientBelow(value: nat, base: nat, m: nat)
    requires 0 < base && value < Times(base, m)
    ensures value / base < m
  {
    Division(value, base);
    if m <= value / base {
      TimesGrows(base, m, value / base);
    }
  }

  lemma OneMoreDigit(c: char, rest: string, base: nat)
    requires DigitValue(c) < base && AllDigits(rest, base)
    ensures RevValue([c] + rest, base) == DigitValue(c) + base * RevValue(rest, base)
    ensures AllDigits([c] + rest, base)
  {
    assert ([c] + rest)[1..] == rest;
  }

  lemma RevDigitsSplit(value: nat, base: nat, upper: bool, room: nat) returns (c: char, q: nat, rest: string)
    requires 2 <= base <= 16 && 1 <= room
    ensures RevDigits(value, base, upper, room) == [c] + rest
    ensures rest == if q != 0 && room > 1 then RevDigits(q, base, upper, room - 1) else []
    ensures c == DigitChar(value % base, upper) && q == value / base
    ensures DigitValue(c) == value % base && value == DigitValue(c) + base * q
  {
    c, q := DigitChar(value % base, upper), value / base;
    rest := if q != 0 && room > 1 then RevDigits(q, base, upper, room - 1) else [];
    DigitRoundTrip(value % base, upper);
    Division(value, base);
  }

  // The digits denote the value, as far as there is room for them.
  lemma {:induction false} RevDigitsDenote(value: nat, base: nat, upper: bool, room: nat)
    requires 2 <= base <= 16 && 1 <= room
    ensures RevValue(RevDigits(value, base, upper, room), base) == value % Pow(base, room)
    ensures AllDigits(RevDigits(value, base, upper, room), base)
    decreases room
  {
    var c, q, rest := RevDigitsSplit(value, base, upper, room);
    if q != 0 && room > 1 {
      RevDigitsDenote(q, base, upper, room - 1);
    }
    assert RevValue(rest, base) == q % Pow(base, room - 1);
    OneMoreDigit(c, rest, base);
    ReduceFront(DigitValue(c), base, q, Pow(base, room - 1));
  }

  // There are no more digits than needed, and no leading zeros.
  lemma {:induction false} RevDigitsShort(value: nat, base: nat, upper: bool, room: nat, n: nat)
    requires 2 <= base <= 16 && 1 <= n <= room && value < Pow(base, n)
    ensures var s := RevDigits(value, base, upper, room);
            |s| <= n && (value != 0 ==> DigitValue(s[|s| - 1]) != 0)
    decreases room
  {
    var c, q, rest := RevDigitsSplit(value, base, upper, room);
    QuotientBelow(value, base, Pow(base, n - 1));
    if q != 0 && room > 1 {
      RevDigitsShort(q, base, upper, room - 1, n - 1);
    }
  }

  lemma {:induction false} PowGrows(base: nat, n: nat)
    requires 8 <= base
    ensures Pow(8, n) <= Pow(base, n)
  {
    if n > 0 {
      PowGrows(base, n - 1);
      ProductGrows(base, Pow(8, n - 1), Pow(base, n - 1));
    }
  }

  lemma ProductGrows(base: nat, p: nat, q: nat)
    requires 8 <= base && p <= q
    ensures Times(8, p) <= Times(base, q)
  {
    assert base * q == 8 * p + 8 * (q - p) + (base - 8) * q;
  }

  lemma {:induction false} PowMonotone(base: nat, m: nat, n: nat)
    requires 0 < base && m <= n
    ensures Pow(base, m) <= Pow(base, n)
  {
    if m < n {
      PowMonotone(base, m, n - 1);
    }
  }

  // 64 bits are at most 22 digits, except in small bases.
  lemma SixtyFourBits(base: nat)
    requires 8 <= base
    ensures 0x1_0000_0000_0000_0000 <= Pow(base, 22) <= Pow(base, NTOA_BUFFER_SIZE)
  {
    assert Pow(8, 5) == 0x8000;
    assert Pow(8, 10) == 0x4000_0000;
    assert Pow(8, 15) == 0x2000_0000_0000;
    assert Pow(8, 20) == 0x1000_0000_0000_0000;
    PowGrows(base, 22);
    PowMonotone(base, 22, NTOA_BUFFER_SIZE);
  }

  lemma {:induction false} ZerosDenoteNothing(s: string, n: int, base: nat)
    ensures RevValue(s + Repeat('0', n), base) == RevValue(s, base)
    decreases |s|, n
  {
    if s == [] {
      if n > 0 {
        assert (s + Repeat('0', n))[1..] == s + Repeat('0', n - 1);
        ZerosDenoteNothing(s, n - 1, base);
      }
    } else {
      assert (s + Repeat('0', n))[1..] == s[1..] + Repeat('0', n);
      ZerosDenoteNothing(s[1..], n, base);
    }
  }

  // Dropping digits above the k-th makes a number without leading zeros less.
  lemma {:induction false} FewerDigitsDenoteLess(s: string, k: nat, base: nat)
    requires k < |s| && 0 < base && DigitValue(s[|s| - 1]) != 0
    ensures RevValue(s[..k], base) < RevValue(s, base)
  {
    if |s| > 1 {
      if k == 0 {
        FewerDigitsDenoteLess(s[1..], 0, base);
      } else {
        FewerDigitsDenoteLess(s[1..], k - 1, base);
        assert s[..k][1..] == s[1..][..k - 1];
      }
      LessTimes(base, if k == 0 then 0 else RevValue(s[1..][..k - 1], base), RevValue(s[1..], base));
    }
  }

  lemma LessTimes(base: nat, a: nat, b: nat)
    requires 0 < base && a < b
    ensures base * a < base * b
  {
    assert base * b == base * a + base * (b - a);
  }

  // ---------- the shape of the text ----------

  // How many characters the hash flag removes from the conversion buffer.
  function Cut(buf: string, base: nat, prec: nat, w: nat, flags: Flags): (n: nat)
    ensures n <= |buf|
  {
    if flags.hash && !flags.precision && |buf| > 0 && (|buf| == prec || |buf| == w)
    then if |buf| > 1 && base == 16 then 2 else 1
    else 0
  }

  // The mark of the base, in the order of the conversion buffer.
  function Mark(base: nat, flags: Flags): string {
    if !flags.hash then ""
    else (if base == 16 then [if flags.upper then 'X' else 'x'] else if base == 2 then "b" else "") + "0"
  }

  // As much of s as there is room for behind length characters.
  function Fit(s: string, length: nat): (t: string)
    ensures t <= s && (length + |s| <= NTOA_BUFFER_SIZE ==> t == s)
  {
    if length >= NTOA_BUFFER_SIZE then ""
    else if |s| <= NTOA_BUFFER_SIZE - length then s
    else s[..NTOA_BUFFER_SIZE - length]
  }

  // The digits that are emitted: padded with zeros, then cut.
  function Kept(value: nat, negative: bool, base: nat, prec: nat, width: nat, flags: Flags): string
    requires 2 <= base <= 16
  {
    var w := FieldWidth(width, negative, flags);
    var p := PadZeros(NtoaBuf(value, base, flags), prec, w, flags);
    p[..|p| - Cut(p, base, prec, w, flags)]
  }

  lemma PadZerosIs(b: string, prec: nat, w: nat, flags: Flags) returns (n: nat)
    requires |b| <= NTOA_BUFFER_SIZE
    ensures PadZeros(b, prec, w, flags) == b + Repeat('0', n) && |b| + n <= NTOA_BUFFER_SIZE
    ensures flags.left ==> n == 0
    ensures !flags.left ==> |b| + n >= (if prec < NTOA_BUFFER_SIZE then prec else NTOA_BUFFER_SIZE)
    ensures !flags.left && flags.zeropad ==> |b| + n >= (if w < NTOA_BUFFER_SIZE then w else NTOA_BUFFER_SIZE)
    ensures |b| < NTOA_BUFFER_SIZE ==>
              (|b| + n < NTOA_BUFFER_SIZE <==>
               flags.left || (prec < NTOA_BUFFER_SIZE && (!flags.zeropad || w < NTOA_BUFFER_SIZE)))
  {
    n := |PadZeros(b, prec, w, flags)| - |b|;
    if flags.left {
      assert b + Repeat('0', 0) == b;
    } else {
      var b1 := ZerosTo(b, prec);
      var n1 := |b1| - |b|;
      assert b1 == b + Repeat('0', n1);
      assert Repeat('0', n) == Repeat('0', n1) + Repeat('0', n - n1);
      assert PadZeros(b, prec, w, flags) == b1 + Repeat('0', n - n1);
      assert b1 + Repeat('0', n - n1) == b + Repeat('0', n);
    }
  }

  // The conversion buffer is the digits, the mark and the sign, as far as they fit.
  lemma FormatIs(value: nat, negative: bool, base: nat, prec: nat, width: nat, flags: Flags)
    requires 2 <= base <= 16
    ensures var digits := Kept(value, negative, base, prec, width, flags);
            var mark := Fit(Mark(base, flags), |digits|);
            var sign := Fit(Sign(negative, flags), |digits| + |mark|);
            && |digits| + |mark| + |sign| <= NTOA_BUFFER_SIZE
            && FormatBuf(NtoaBuf(value, base, flags), negative, base, prec, width, flags) == digits + mark + sign
  {
    hide PadZeros, Cut, AddHash, AddSign, Mark, Fit, Sign;
    var w := FieldWidth(width, negative, flags);
    PadZerosFits(NtoaBuf(value, base, flags), prec, w, flags);
    FormatPaddedIs(PadZeros(NtoaBuf(value, base, flags), prec, w, flags), negative, base, prec, w, flags);
  }

  lemma FormatPaddedIs(p: string, negative: bool, base: nat, prec: nat, w: nat, flags: Flags)
    requires |p| <= NTOA_BUFFER_SIZE
    ensures var kept := p[..|p| - Cut(p, base, prec, w, flags)];
            var mark := Fit(Mark(base, flags), |kept|);
            var sign := Fit(Sign(negative, flags), |kept| + |mark|);
            && |kept| + |mark| + |sign| <= NTOA_BUFFER_SIZE
            && AddSign(AddHash(p, base, prec, w, flags), negative, flags) == kept + mark + sign
  {
    AddHashIs(p, base, prec, w, flags);
    AddSignIs(AddHash(p, base, prec, w, flags), negative, flags);
  }

  lemma PadZerosFits(b: string, prec: nat, w: nat, flags: Flags)
    requires |b| <= NTOA_BUFFER_SIZE
    ensures |PadZeros(b, prec, w, flags)| <= NTOA_BUFFER_SIZE
  {
  }

  lemma AddSignIs(b: string, negative: bool, flags: Flags)
    ensures AddSign(b, negative, flags) == b + Fit(Sign(negative, flags), |b|)
  {
    assert b + "" == b;
  }

  lemma AddHashIs(p: string, base: nat, prec: nat, w: nat, flags: Flags)
    requires |p| <= NTOA_BUFFER_SIZE
    ensures var kept := p[..|p| - Cut(p, base, prec, w, flags)];
            AddHash(p, base, prec, w, flags) == kept + Fit(Mark(base, flags), |kept|)
            && |AddHash(p, base, prec, w, flags)| <= NTOA_BUFFER_SIZE
            && (flags.hash ==> |AddHash(p, base, prec, w, flags)| >= |p|)
  {
    var kept := p[..|p| - Cut(p, base, prec, w, flags)];
    assert flags.hash ==> Push(kept, '0') == kept + Fit("0", |kept|);
  }

  lemma ReverseAppend(a: string, b: string)
    ensures Reverse(a + b) == Reverse(b) + Reverse(a)
  {
  }

  lemma ReversedParts(digits: string, mark: string, sign: string)
    requires |sign| <= 1
    ensures Reverse(digits + mark + sign) == sign + Reverse(mark) + Reverse(digits)
  {
    ReverseAppend(digits + mark, sign);
    ReverseAppend(digits, mark);
    assert Reverse(sign) == sign;
    assert sign + (Reverse(mark) + Reverse(digits)) == sign + Reverse(mark) + Reverse(digits);
  }

  lemma OutRevShape(digits: string, mark: string, sign: string, w: nat, flags: Flags) returns (before: nat, after: nat)
    requires |sign| <= 1
    ensures OutRevText(digits + mark + sign, w, flags)
         == Repeat(' ', before) + sign + Reverse(mark) + Reverse(digits) + Repeat(' ', after)
    ensures var length := |digits| + |mark| + |sign|;
            && before == (if flags.left || flags.zeropad || w <= length then 0 else w - length)
            && after == (if flags.left && w > length then w - length else 0)
  {
    var full := digits + mark + sign;
    before := if flags.left || flags.zeropad || w <= |full| then 0 else w - |full|;
    after := if flags.left && w > |full| then w - |full| else 0;
    assert Repeat(' ', if flags.left || flags.zeropad then 0 else w - |full|) == Repeat(' ', before);
    assert Repeat(' ', if flags.left then w - |full| else 0) == Repeat(' ', after);
    assert OutRevText(full, w, flags) == Repeat(' ', before) + Reverse(full) + Repeat(' ', after);
    ReversedParts(digits, mark, sign);
    Flattened(Repeat(' ', before), sign, Reverse(mark), Reverse(digits), Repeat(' ', after));
  }

  lemma Flattened(a: string, b: string, c: string, d: string, e: string)
    ensures a + (b + c + d) + e == a + b + c + d + e
  {
  }

  // The emitted text is space padding on one side at most, the sign, the mark of
  // the base and digits, the middle parts as far as they fit a conversion buffer
  // of 32 characters. It is as wide as asked for, unless it had to be filled
  // with more zeros than that.
  lemma NtoaShape(value: nat, negative: bool, base: nat, prec: nat, width: nat, flags: Flags)
    returns (before: nat, sign: string, mark: string, digits: string, after: nat)
    requires 2 <= base <= 16 && (value == 0 ==> !flags.hash)
    ensures NtoaText(value, negative, base, prec, width, flags)
         == Repeat(' ', before) + sign + Reverse(mark) + Reverse(digits) + Repeat(' ', after)
    ensures digits == Kept(value, negative, base, prec, width, flags)
    ensures mark == Fit(Mark(base, flags), |digits|) && sign == Fit(Sign(negative, flags), |digits| + |mark|)
    ensures flags.left || flags.zeropad || width == 0 ==> before == 0
    ensures !flags.left ==> after == 0
    ensures |NtoaText(value, negative, base, prec, width, flags)| >= width
            <==> flags.left || !flags.zeropad || width <= NTOA_BUFFER_SIZE
  {
    var w := FieldWidth(width, negative, flags);
    digits := Kept(value, negative, base, prec, width, flags);
    mark := Fit(Mark(base, flags), |digits|);
    sign := Fit(Sign(negative, flags), |digits| + |mark|);
    NtoaIs(value, negative, base, prec, width, flags);
    FormatIs(value, negative, base, prec, width, flags);
    before, after := OutRevShape(digits, mark, sign, w, flags);
    WidthReachedExactlyWhen(value, negative, base, prec, width, flags);
  }

  // A hash flag that only zero would have is no hash flag.
  lemma NtoaIs(value: nat, negative: bool, base: nat, prec: nat, width: nat, flags: Flags)
    requires 2 <= base <= 16 && (value == 0 ==> !flags.hash)
    ensures NtoaText(value, negative, base, prec, width, flags)
         == OutRevText(FormatBuf(NtoaBuf(value, base, flags), negative, base, prec, width, flags),
                       FieldWidth(width, negative, flags), flags)
  {
    assert value == 0 ==> flags.(hash := false) == flags;
  }

  lemma WidthReachedExactlyWhen(value: nat, negative: bool, base: nat, prec: nat, width: nat, flags: Flags)
    requires 2 <= base <= 16 && (value == 0 ==> !flags.hash)
    ensures |NtoaText(value, negative, base, prec, width, flags)| >= width
            <==> flags.left || !flags.zeropad || width <= NTOA_BUFFER_SIZE
  {
    NtoaIs(value, negative, base, prec, width, flags);
    FormatIs(value, negative, base, prec, width, flags);
    ZeroPaddedWidth(value, negative, base, prec, width, flags);
  }

  // The part of the width that zeros have to fill.
  lemma ZeroPaddedWidth(value: nat, negative: bool, base: nat, prec: nat, width: nat, flags: Flags)
    requires 2 <= base <= 16
    ensures var digits := Kept(value, negative, base, prec, width, flags);
            var mark := Fit(Mark(base, flags), |digits|);
            var sign := Fit(Sign(negative, flags), |digits| + |mark|);
            !flags.left && flags.zeropad && width <= NTOA_BUFFER_SIZE ==> |digits| + |mark| + |sign| >= width
  {
    var w := FieldWidth(width, negative, flags);
    var b := NtoaBuf(value, base, flags);
    var n := PadZerosIs(b, prec, w, flags);
    AddHashIs(PadZeros(b, prec, w, flags), base, prec, w, flags);
  }

  // Without the hash flag the digits denote the value, up to what 32 digits can
  // hold, and there are as many as the precision asks for, unless the field is
  // left-justified or the buffer too small.
  lemma DigitsDenote(value: nat, negative: bool, base: nat, prec: nat, width: nat, flags: Flags)
    requires 2 <= base <= 16 && !flags.hash
    ensures var digits := Kept(value, negative, base, prec, width, flags);
            && AllDigits(digits, base)
            && RevValue(digits, base) == value % Pow(base, NTOA_BUFFER_SIZE)
            && (|digits| >= prec <==>
                (!flags.left && prec <= NTOA_BUFFER_SIZE) || |NtoaBuf(value, base, flags)| >= prec)
  {
    var b := NtoaBuf(value, base, flags);
    var n := KeptIs(value, negative, base, prec, width, flags);
    BufDenotes(value, base, flags);
    ZerosDenoteNothing(b, n, base);
  }

  lemma KeptIs(value: nat, negative: bool, base: nat, prec: nat, width: nat, flags: Flags) returns (n: nat)
    requires 2 <= base <= 16 && !flags.hash
    ensures var b := NtoaBuf(value, base, flags);
            var digits := Kept(value, negative, base, prec, width, flags);
            && digits == b + Repeat('0', n)
            && (|digits| >= prec <==> (!flags.left && prec <= NTOA_BUFFER_SIZE) || |b| >= prec)
  {
    var w := FieldWidth(width, negative, flags);
    var b := NtoaBuf(value, base, flags);
    n := PadZerosIs(b, prec, w, flags);
    var p := PadZeros(b, prec, w, flags);
    assert p[..|p|] == p;
  }

  lemma BufDenotes(value: nat, base: nat, flags: Flags)
    requires 2 <= base <= 16
    ensures var b := NtoaBuf(value, base, flags);
            |b| <= NTOA_BUFFER_SIZE && AllDigits(b, base) && RevValue(b, base) == value % Pow(base, NTOA_BUFFER_SIZE)
  {
    RevDigitsDenote(value, base, flags.upper, NTOA_BUFFER_SIZE);
    if value == 0 {
      RemainderIs(0, Pow(base, NTOA_BUFFER_SIZE), 0, 0);
    }
  }

  // In bases 8, 10 and 16 they denote every 64-bit value.
  lemma DigitsDenoteExactly(value: nat, negative: bool, base: nat, prec: nat, width: nat, flags: Flags)
    requires 8 <= base <= 16 && value < 0x1_0000_0000_0000_0000 && !flags.hash
    ensures RevValue(Kept(value, negative, base, prec, width, flags), base) == value
  {
    DigitsDenote(value, negative, base, prec, width, flags);
    SixtyFourBits(base);
    RemainderIs(value, Pow(base, NTOA_BUFFER_SIZE), 0, value);
  }

  // A sign is lost exactly when zeros fill the whole conversion buffer.
  lemma SignKeptExactlyWhen(value: nat, negative: bool, base: nat, prec: nat, width: nat, flags: Flags)
    requires 8 <= base <= 16 && value < 0x1_0000_0000_0000_0000 && !flags.hash && Sign(negative, flags) != ""
    ensures var digits := Kept(value, negative, base, prec, width, flags);
            Fit(Sign(negative, flags), |digits|) == Sign(negative, flags)
            <==> flags.left || (prec < NTOA_BUFFER_SIZE && (!flags.zeropad || width <= NTOA_BUFFER_SIZE))
  {
    var w := FieldWidth(width, negative, flags);
    var b := NtoaBuf(value, base, flags);
    SixtyFourBits(base);
    RevDigitsShort(value, base, flags.upper, NTOA_BUFFER_SIZE, 22);
    var n := PadZerosIs(b, prec, w, flags);
  }

  // ---------- the hash flag ----------

  // With the hash flag the digits denote the value exactly when the cut takes
  // away zeros of the padding only, that is, when it leaves as many characters
  // as the number has digits.
  lemma HashKeepsValueExactlyWhen(value: nat, negative: bool, base: nat, prec: nat, width: nat, flags: Flags)
    requires 2 <= base <= 16 && value != 0 && value < Pow(base, NTOA_BUFFER_SIZE)
    ensures var b, w := NtoaBuf(value, base, flags), FieldWidth(width, negative, flags);
            var p := PadZeros(b, prec, w, flags);
            RevValue(Kept(value, negative, base, prec, width, flags), base) == value
            <==> |p| - Cut(p, base, prec, w, flags) >= |b|
  {
    var b, w := NtoaBuf(value, base, flags), FieldWidth(width, negative, flags);
    NonzeroBuf(value, base, flags);
    CutDenotesExactlyWhen(b, base, prec, w, flags);
  }

  lemma CutDenotesExactlyWhen(b: string, base: nat, prec: nat, w: nat, flags: Flags)
    requires 0 < base && 0 < |b| <= NTOA_BUFFER_SIZE && DigitValue(b[|b| - 1]) != 0
    ensures var p := PadZeros(b, prec, w, flags);
            var k := |p| - Cut(p, base, prec, w, flags);
            RevValue(p[..k], base) == RevValue(b, base) <==> k >= |b|
  {
    var p := PadZeros(b, prec, w, flags);
    var n := PadZerosIs(b, prec, w, flags);
    FrontDenotesExactlyWhen(b, n, |p| - Cut(p, base, prec, w, flags), base);
  }

  lemma NonzeroBuf(value: nat, base: nat, flags: Flags)
    requires 2 <= base <= 16 && value != 0 && value < Pow(base, NTOA_BUFFER_SIZE)
    ensures var b := NtoaBuf(value, base, flags);
            0 < |b| <= NTOA_BUFFER_SIZE && DigitValue(b[|b| - 1]) != 0 && RevValue(b, base) == value
  {
    RevDigitsDenote(value, base, flags.upper, NTOA_BUFFER_SIZE);
    RevDigitsShort(value, base, flags.upper, NTOA_BUFFER_SIZE, NTOA_BUFFER_SIZE);
    RemainderIs(value, Pow(base, NTOA_BUFFER_SIZE), 0, value);
  }

  // The first k characters of padded digits.
  lemma FrontDenotesExactlyWhen(b: string, n: nat, k: nat, base: nat)
    requires 0 < base && b != "" && DigitValue(b[|b| - 1]) != 0 && k <= |b| + n
    ensures RevValue((b + Repeat('0', n))[..k], base) == RevValue(b, base) <==> k >= |b|
  {
    if k >= |b| {
      assert (b + Repeat('0', n))[..k] == b + Repeat('0', k - |b|);
      ZerosDenoteNothing(b, k - |b|, base);
    } else {
      assert (b + Repeat('0', n))[..k] == b[..k];
      FewerDigitsDenoteLess(b, k, base);
    }
  }

  // Without zero padding: exactly when the number of digits is not the width.
  lemma UnpaddedHashKeepsValueExactlyWhen(value: nat, base: nat, width: nat, flags: Flags)
    requires 2 <= base <= 16 && value != 0 && value < Pow(base, NTOA_BUFFER_SIZE)
    requires flags.hash && !flags.precision && !flags.zeropad
    ensures RevValue(Kept(value, false, base, 0, width, flags), base) == value
            <==> |NtoaBuf(value, base, flags)| != width
  {
    var b := NtoaBuf(value, base, flags);
    HashKeepsValueExactlyWhen(value, false, base, 0, width, flags);
    var n := PadZerosIs(b, 0, width, flags);
    assert PadZeros(b, 0, width, flags) == b;
  }

  // 0x1234 in a field of four loses half of its digits.
  lemma HashLosesDigits()
    ensures NtoaText(0x1234, false, 16, 0, 4, Flags(false, false, false, false, true, false, false)) == "0x34"
  {
    var f := Flags(false, false, false, false, true, false, false);
    assert RevDigits(0x1, 16, false, 29) == "1";
    assert RevDigits(0x12, 16, false, 30) == "21";
    assert RevDigits(0x123, 16, false, 31) == "321";
    assert NtoaBuf(0x1234, 16, f) == "4321";
    assert PadZeros("4321", 0, 4, f) == "4321";
    assert AddHash("4321", 16, 0, 4, f) == "43x0";
    assert FormatBuf("4321", false, 16, 0, 4, f) == "43x0";
    var text := OutRevText("43x0", 4, f);
    assert Repeat(' ', 0) == "";
    assert text == Reverse("43x0");
    assert Reverse("43x0") == "0x34";
  }

  // ---------- reading back ----------

  const UINT_RANGE: nat := 0x1_0000_0000

  predicate IsDigit(c: char) {
    '0' <= c <= '9'
  }

  // The length of the run of digits at the front of s.
  function DigitRun(s: string): (n: nat)
    ensures n <= |s|
    ensures forall k :: 0 <= k < n ==> IsDigit(s[k])
    ensures n < |s| ==> !IsDigit(s[n])
  {
    if s == "" || !IsDigit(s[0]) then 0 else 1 + DigitRun(s[1..])
  }

  // _atoi over a run of digits, in unsigned arithmetic.
  function AtoiOf(run: string): nat {
    if run == [] then 0
    else (AtoiOf(run[..|run| - 1]) * 10 + DigitValue(run[|run| - 1])) % 0x1_0000_0000
  }

  lemma ModStep(v: nat, d: nat)
    ensures (v % 0x1_0000_0000 * 10 + d) % 0x1_0000_0000 == (10 * v + d) % 0x1_0000_0000
  {
    var k := v / 0x1_0000_0000;
    assert 10 * v + d == 0x1_0000_0000 * (10 * k) + (v % 0x1_0000_0000 * 10 + d);
  }

  lemma {:induction false} AtoiReadsDigits(digits: string)
    ensures AtoiOf(Reverse(digits)) == RevValue(digits, 10) % 0x1_0000_0000
  {
    if digits != [] {
      AtoiReadsDigits(digits[1..]);
      var run := Reverse(digits);
      assert run[..|run| - 1] == Reverse(digits[1..]);
      ModStep(RevValue(digits[1..], 10), DigitValue(digits[0]));
    }
  }

  lemma DigitsAreDigits(digits: string)
    requires AllDigits(digits, 10)
    ensures forall k :: 0 <= k < |digits| ==> IsDigit(Reverse(digits)[k])
  {
    forall k | 0 <= k < |digits| ensures IsDigit(Reverse(digits)[k]) {
      assert DigitValue(digits[|digits| - 1 - k]) < 10;
    }
  }

  lemma {:induction false} DigitRunIs(s: string, n: nat)
    requires n <= |s| && (forall k :: 0 <= k < n ==> IsDigit(s[k])) && (n < |s| ==> !IsDigit(s[n]))
    ensures DigitRun(s) == n
  {
    if n > 0 {
      assert IsDigit(s[0]);
      DigitRunIs(s[1..], n - 1);
    }
  }

  // A run of digits between other characters is found from its first digit.
  lemma RunInside(before: string, run: string, after: string)
    requires forall k :: 0 <= k < |run| ==> IsDigit(run[k])
    requires after != "" ==> !IsDigit(after[0])
    ensures DigitRun((before + run + after)[|before|..]) == |run|
    ensures (before + run + after)[|before|..|before| + |run|] == run
  {
    var text := before + run + after;
    assert text[|before|..] == run + after;
    assert text[|before|..|before| + |run|] == run;
    DigitRunIs(run + after, |run|);
  }

  // A decimal is digits between characters that are none.
  lemma DecimalParts(value: nat, negative: bool, prec: nat, width: nat, flags: Flags)
    returns (front: string, digits: string, back: string)
    requires !flags.hash && value < 0x1_0000_0000_0000_0000
    ensures NtoaText(value, negative, 10, prec, width, flags) == front + Reverse(digits) + back
    ensures AllDigits(digits, 10) && RevValue(digits, 10) == value
    ensures forall k :: 0 <= k < |front| ==> !IsDigit(front[k])
    ensures forall k :: 0 <= k < |back| ==> back[k] == ' '
  {
    var before, sign, mark, kept, after := NtoaShape(value, negative, 10, prec, width, flags);
    DigitsDenote(value, negative, 10, prec, width, flags);
    DigitsDenoteExactly(value, negative, 10, prec, width, flags);
    front, digits, back := Repeat(' ', before) + sign, kept, Repeat(' ', after);
    assert mark == "";
    NoMark(front, Reverse(digits), back);
    NoDigitInSign(negative, flags, |kept|);
  }

  lemma NoMark(a: string, b: string, c: string)
    ensures a + Reverse("") + b + c == a + b + c
  {
    assert a + Reverse("") == a;
  }

  lemma NoDigitInSign(negative: bool, flags: Flags, length: nat)
    ensures var sign := Fit(Sign(negative, flags), length);
            forall k :: 0 <= k < |sign| ==> !IsDigit(sign[k])
  {
  }

  // The first digits of text are text[start..end], nothing but spaces follows,
  // and _atoi makes this of them.
  ghost predicate ReadsAs(text: string, start: nat, end: nat, value: nat) {
    && start <= end <= |text|
    && (forall k :: 0 <= k < start ==> !IsDigit(text[k]))
    && end == start + DigitRun(text[start..])
    && (forall k :: end <= k < |text| ==> text[k] == ' ')
    && AtoiOf(text[start..end]) == value
  }

  // A printed decimal is read back by _atoi from its first digit, behind the
  // padding and the sign, modulo 2^32, hence exactly when it is below 2^32.
  // What is read ends right behind its last digit.
  lemma DecimalReadsBackExactlyWhen(value: nat, negative: bool, prec: nat, width: nat, flags: Flags)
    returns (start: nat, end: nat)
    requires !flags.hash && value < 0x1_0000_0000_0000_0000
    ensures ReadsAs(NtoaText(value, negative, 10, prec, width, flags), start, end, value % UINT_RANGE)
    ensures ReadsAs(NtoaText(value, negative, 10, prec, width, flags), start, end, value) <==> value < UINT_RANGE
  {
    var front, digits, back := DecimalParts(value, negative, prec, width, flags);
    DigitsAreDigits(digits);
    AtoiReadsDigits(digits);
    BelowRange(value);
    RunInside(front, Reverse(digits), back);
    start, end := |front|, |front| + |digits|;
    assert ReadsAs(front + Reverse(digits) + back, start, end, value % UINT_RANGE);
  }

  lemma BelowRange(value: nat)
    ensures value % UINT_RANGE == value <==> value < UINT_RANGE
  {
  }

  // 2^32 is printed and read back as zero.
  lemma AtoiWraps() returns (start: nat, end: nat)
    ensures ReadsAs(NtoaText(UINT_RANGE, false, 10, 0, 0, Flags(false, false, false, false, false, false, false)),
                    start, end, 0)
  {
    start, end := DecimalReadsBackExactlyWhen(UINT_RANGE, false, 0, 0,
                                              Flags(false, false, false, false, false, false, false));
  }

  // _atoi reads the run of digits at p and steps over it.
  method Atoi(str: string, p: nat) returns (i: nat, end: nat)
    requires p <= |str|
    ensures end == p + DigitRun(str[p..]) && i == AtoiOf(str[p..end])
  {
    i, end := 0, p;
    while end < |str| && IsDigit(str[end])
      invariant p <= end <= |str| && i == AtoiOf(str[p..end])
      invariant forall k :: p <= k < end ==> IsDigit(str[k])
    {
      assert str[p..end + 1][..end - p] == str[p..end];
      i := (i * 10 + (str[end] as int - '0' as int)) % UINT_RANGE;
      end := end + 1;
    }
    DigitRunIs(str[p..], end - p);
  }

  lemma FirstDigitIs(text: string, start: nat, end: nat, value: nat, p: nat)
    requires ReadsAs(text, start, end, value)
    requires p < |text| && IsDigit(text[p]) && forall k :: 0 <= k < p ==> !IsDigit(text[k])
    ensures p == start
  {
    assert start <= p < end;
    assert IsDigit(text[start..][0]);
  }

  lemma PrintedReadsAs(value: nat, negative: bool, prec: nat, width: nat, flags: Flags, text: string, p: nat)
    returns (end: nat)
    requires !flags.hash && value < 0x1_0000_0000_0000_0000
    requires text == NtoaText(value, negative, 10, prec, width, flags)
    requires p < |text| && IsDigit(text[p]) && forall k :: 0 <= k < p ==> !IsDigit(text[k])
    ensures ReadsAs(text, p, end, value % UINT_RANGE)
  {
    var start;
    start, end := DecimalReadsBackExactlyWhen(value, negative, prec, width, flags);
    FirstDigitIs(text, start, end, value % UINT_RANGE, p);
  }

  method AtoiFrom(text: string, p: nat, ghost stop: nat, ghost value: nat) returns (i: nat, end: nat)
    requires ReadsAs(text, p, stop, value)
    ensures i == value && end == stop
  {
    i, end := Atoi(text, p);
  }

  // So _atoi, put on the first digit of a printed decimal, returns the value.
  method AtoiReadsDecimal(value: nat, negative: bool, prec: nat, width: nat, flags: Flags, text: string, p: nat)
    returns (i: nat, end: nat)
    requires !flags.hash && value < 0x1_0000_0000_0000_0000
    requires text == NtoaText(value, negative, 10, prec, width, flags)
    requires p < |text| && IsDigit(text[p]) && forall k :: 0 <= k < p ==> !IsDigit(text[k])
    ensures p <= end <= |text| && i == value % UINT_RANGE && forall k :: end <= k < |text| ==> text[k] == ' '
  {
    ghost var stop := PrintedReadsAs(value, negative, prec, width, flags, text, p);
    i, end := AtoiFrom(text, p, stop, value % UINT_RANGE);
  }

  // A decimal without flags is digits only, without a leading zero.
  function DecimalText(n: nat): string {
    NtoaText(n, false, 10, 0, 0, Flags(false, false, false, false, false, false, false))
  }

  lemma DecimalTextIs(n: nat)
    requires n < 0x1_0000_0000_0000_0000
    ensures var t := DecimalText(n);
            && 0 < |t| && (forall k :: 0 <= k < |t| ==> IsDigit(t[k])) && (n > 0 ==> t[0] != '0')
            && AtoiOf(t) == n % UINT_RANGE
  {
    var plain := Flags(false, false, false, false, false, false, false);
    var before, sign, mark, digits, after := NtoaShape(n, false, 10, 0, 0, plain);
    DigitsDenote(n, false, 10, 0, 0, plain);
    DigitsDenoteExactly(n, false, 10, 0, 0, plain);
    DigitsAreDigits(digits);
    AtoiReadsDigits(digits);
    SixtyFourBits(10);
    RevDigitsShort(n, 10, false, NTOA_BUFFER_SIZE, 22);
    assert sign == "" && mark == "" && before == 0;
    assert digits == NtoaBuf(n, 10, plain);
    assert OutRevText(digits, 0, plain) == Reverse(digits);
    assert DecimalText(n) == Reverse(digits);
  }

  // ---------- emission ----------

  // The buffer that _out_buffer writes to, and what has been emitted so far.
  class Sink {
    const buffer: array<char>
    const maxlen: nat
    ghost var text: string

    constructor (buffer: array<char>, maxlen: nat)
      requires maxlen <= buffer.Length
      ensures this.buffer == buffer && this.maxlen == maxlen && text == "" && Valid()
    {
      this.buffer, this.maxlen, text := buffer, maxlen, "";
    }

    // The buffer holds as much of the text as it is allowed to.
    ghost predicate Valid()
      reads this, buffer
    {
      maxlen <= buffer.Length && forall j :: 0 <= j < |text| && j < maxlen ==> buffer[j] == text[j]
    }

    // _out_buffer
    method Out(c: char, idx: nat)
      requires Valid() && idx == |text|
      modifies this, buffer
      ensures Valid() && text == old(text) + [c]
    {
      if idx < maxlen {
        buffer[idx] := c;
      }
      text := text + [c];
    }

    method Spaces(idx: nat, n: int) returns (idx': nat)
      requires Valid() && idx == |text|
      modifies this, buffer
      ensures Valid() && text == old(text) + Repeat(' ', n) && idx' == |text|
    {
      idx' := idx;
      var i := 0;
      while i < n
        invariant 0 <= i && (i <= n || i == 0) && idx' == |text| && Valid()
        invariant text == old(text) + Repeat(' ', i)
      {
        Out(' ', idx');
        idx', i := idx' + 1, i + 1;
        assert Repeat(' ', i) == Repeat(' ', i - 1) + [' '];
      }
      assert Repeat(' ', i) == Repeat(' ', n);
    }

    method OutRev(idx: nat, buf: array<char>, length: nat, width: nat, flags: Flags) returns (idx': nat)
      requires Valid() && idx == |text| && buf != buffer && length <= buf.Length
      modifies this, buffer
      ensures Valid() && idx' == |text|
      ensures text == old(text) + OutRevText(buf[..length], width, flags)
    {
      ghost var start, all := text, buf[..length];
      idx' := idx;
      if !flags.left && !flags.zeropad {
        idx' := Spaces(idx', width - length);
      }
      ghost var padded := text;
      var k := length;
      while k > 0
        invariant 0 <= k <= length && idx' == |text| && Valid() && buf[..length] == all
        invariant text == padded + Reverse(all)[..length - k]
      {
        k := k - 1;
        Out(buf[k], idx');
        assert Reverse(all)[..length - k] == Reverse(all)[..length - k - 1] + [all[k]];
        idx' := idx' + 1;
      }
      assert Reverse(all)[..length] == Reverse(all);
      if flags.left {
        idx' := Spaces(idx', width - (idx' - idx));
      }
      assert text == start + OutRevText(all, width, flags) by {
        assert padded == start + Repeat(' ', if flags.left || flags.zeropad then 0 else width - length);
      }
    }

    // Pushes onto the conversion buffer if there is room.
    static method PushTo(buf: array<char>, length: nat, c: char) returns (length': nat)
      requires buf.Length == NTOA_BUFFER_SIZE && length <= NTOA_BUFFER_SIZE
      modifies buf
      ensures length' <= NTOA_BUFFER_SIZE && buf[..length'] == Push(old(buf[..length]), c)
    {
      length' := length;
      if length < NTOA_BUFFER_SIZE {
        buf[length] := c;
        length' := length + 1;
      }
    }

    static method FillZeros(buf: array<char>, length: nat, upTo: nat) returns (length': nat)
      requires buf.Length == NTOA_BUFFER_SIZE && length <= NTOA_BUFFER_SIZE
      modifies buf
      ensures length' <= NTOA_BUFFER_SIZE && buf[..length'] == ZerosTo(old(buf[..length]), upTo)
    {
      length' := length;
      while length' < upTo && length' < NTOA_BUFFER_SIZE
        invariant length <= length' <= NTOA_BUFFER_SIZE && (length' <= upTo || length' == length)
        invariant buf[..length'] == old(buf[..length]) + Repeat('0', length' - length)
      {
        buf[length'] := '0';
        length' := length' + 1;
        assert Repeat('0', length' - length) == Repeat('0', length' - 1 - length) + ['0'];
        assert buf[..length'] == buf[..length' - 1] + ['0'];
      }
    }

    // The prefix of _ntoa_format for the hash flag.
    static method PutHash(buf: array<char>, length: nat, base: nat, prec: nat, width: nat, flags: Flags)
      returns (length': nat)
      requires buf.Length == NTOA_BUFFER_SIZE && length <= NTOA_BUFFER_SIZE && flags.hash
      modifies buf
      ensures length' <= NTOA_BUFFER_SIZE
      ensures buf[..length'] == AddHash(old(buf[..length]), base, prec, width, flags)
    {
      length' := length;
      if !flags.precision && length' > 0 && (length' == prec || length' == width) {
        length' := length' - 1;
        if length' > 0 && base == 16 {
          length' := length' - 1;
        }
      }
      if base == 16 && !flags.upper {
        length' := PushTo(buf, length', 'x');
      } else if base == 16 && flags.upper {
        length' := PushTo(buf, length', 'X');
      } else if base == 2 {
        length' := PushTo(buf, length', 'b');
      }
      length' := PushTo(buf, length', '0');
    }

    method NtoaFormat(idx: nat, buf: array<char>, length: nat, negative: bool, base: nat, prec: nat, width: nat,
                      flags: Flags)
      returns (idx': nat)
      requires Valid() && idx == |text| && buf != buffer && buf.Length == NTOA_BUFFER_SIZE && length <= buf.Length
      modifies this, buffer, buf
      ensures Valid() && idx' == |text|
      ensures text == old(text) + OutRevText(FormatBuf(old(buf[..length]), negative, base, prec, width, flags),
                                             FieldWidth(width, negative, flags), flags)
    {
      ghost var b := buf[..length];
      var n, w := PutPadding(buf, length, negative, prec, width, flags);
      ghost var padded := buf[..n];
      if flags.hash {
        n := PutHash(buf, n, base, prec, w, flags);
      }
      assert buf[..n] == AddHash(padded, base, prec, w, flags);
      n := PutSign(buf, n, negative, flags);
      assert buf[..n] == FormatBuf(b, negative, base, prec, width, flags);
      idx' := OutRev(idx, buf, n, w, flags);
    }

    // The leading zeros of _ntoa_format.
    static method PutPadding(buf: array<char>, length: nat, negative: bool, prec: nat, width: nat, flags: Flags)
      returns (n: nat, w: nat)
      requires buf.Length == NTOA_BUFFER_SIZE && length <= NTOA_BUFFER_SIZE
      modifies buf
      ensures n <= NTOA_BUFFER_SIZE && w == FieldWidth(width, negative, flags)
      ensures buf[..n] == PadZeros(old(buf[..length]), prec, w, flags)
    {
      w, n := width, length;
      if !flags.left {
        if w > 0 && flags.zeropad && (negative || flags.plus || flags.space) {
          w := w - 1;
        }
        n := FillZeros(buf, n, prec);
        if flags.zeropad {
          n := FillZeros(buf, n, w);
        }
      }
    }

    static method PutSign(buf: array<char>, length: nat, negative: bool, flags: Flags) returns (n: nat)
      requires buf.Length == NTOA_BUFFER_SIZE && length <= NTOA_BUFFER_SIZE
      modifies buf
      ensures n <= NTOA_BUFFER_SIZE && buf[..n] == AddSign(old(buf[..length]), negative, flags)
    {
      n := length;
      if n < NTOA_BUFFER_SIZE {
        if negative {
          n := PushTo(buf, n, '-');
        } else if flags.plus {
          n := PushTo(buf, n, '+');
        } else if flags.space {
          n := PushTo(buf, n, ' ');
        }
      }
    }

    method NtoaLong(idx: nat, value: nat, negative: bool, base: nat, prec: nat, width: nat, flags: Flags)
      returns (idx': nat)
      requires Valid() && idx == |text| && 2 <= base <= 16
      modifies this, buffer
      ensures Valid() && idx' == |text|
      ensures text == old(text) + NtoaText(value, negative, base, prec, width, flags)
    {
      var buf := new char[NTOA_BUFFER_SIZE];
      var n := 0;
      var f := if value == 0 then flags.(hash := false) else flags;
      if !f.precision || value != 0 {
        n := PutDigits(buf, value, base, f.upper);
      }
      assert buf[..n] == NtoaBuf(value, base, f);
      idx' := NtoaFormat(idx, buf, n, negative, base, prec, width, f);
    }

    // The do-while loop of _ntoa_long.
    static method PutDigits(buf: array<char>, value: nat, base: nat, upper: bool) returns (n: nat)
      requires buf.Length == NTOA_BUFFER_SIZE && 2 <= base <= 16
      modifies buf
      ensures n <= NTOA_BUFFER_SIZE && buf[..n] == RevDigits(value, base, upper, NTOA_BUFFER_SIZE)
    {
      ghost var goal := RevDigits(value, base, upper, NTOA_BUFFER_SIZE);
      ghost var tail := goal;
      n := 0;
      var v: nat := value;
      var more := true;
      while more
        invariant 0 <= n <= NTOA_BUFFER_SIZE && (more ==> n < NTOA_BUFFER_SIZE)
        invariant more ==> tail == RevDigits(v, base, upper, NTOA_BUFFER_SIZE - n)
        invariant !more ==> tail == []
        invariant goal == buf[..n] + tail
        decreases NTOA_BUFFER_SIZE - n, more
      {
        ghost var before := buf[..n];
        v := PutDigit(buf, n, v, base, upper);
        tail := if v != 0 && n + 1 < NTOA_BUFFER_SIZE then RevDigits(v, base, upper, NTOA_BUFFER_SIZE - n - 1) else [];
        Regroup(before, buf[n], tail);
        assert buf[..n + 1] == before + [buf[n]];
        n := n + 1;
        more := v != 0 && n < NTOA_BUFFER_SIZE;
      }
    }

    static lemma Regroup(a: string, c: char, b: string)
      ensures a + ([c] + b) == (a + [c]) + b
    {
    }

    static method PutDigit(buf: array<char>, n: nat, value: nat, base: nat, upper: bool) returns (rest: nat)
      requires buf.Length == NTOA_BUFFER_SIZE && n < NTOA_BUFFER_SIZE && 2 <= base <= 16
      modifies buf
      ensures buf[..n] == old(buf[..n])
      ensures RevDigits(value, base, upper, NTOA_BUFFER_SIZE - n)
           == [buf[n]] + if rest != 0 && n + 1 < NTOA_BUFFER_SIZE
                         then RevDigits(rest, base, upper, NTOA_BUFFER_SIZE - n - 1) else []
    {
      ghost var c, q, tail := RevDigitsSplit(value, base, upper, NTOA_BUFFER_SIZE - n);
      buf[n] := DigitChar(value % base, upper);
      rest := value / base;
    }

    // ---------- whole formats ----------

    method Emit(idx: nat, d: Directive) returns (idx': nat)
      requires Valid() && idx == |text| && d.Ok()
      modifies this, buffer
      ensures Valid() && idx' == |text| && text == old(text) + DirectiveText(d)
    {
      match d {
        case Literal(c) =>
          Out(c, idx);
          idx' := idx + 1;
        case Integer(value, negative, base, prec, width, flags) =>
          idx' := NtoaLong(idx, value, negative, base, prec, width, flags);
        case Character(c, width, left) =>
          idx' := idx;
          if !left {
            idx' := Spaces(idx', width - 1);
          }
          Out(c, idx');
          idx' := idx' + 1;
          if left {
            idx' := Spaces(idx', width - 1);
          }
        case Text(s, width, prec, left, precision) =>
          idx' := EmitText(idx, s, width, prec, left, precision);
      }
    }

    method EmitText(idx: nat, s: string, width: nat, prec: nat, left: bool, precision: bool) returns (idx': nat)
      requires Valid() && idx == |text|
      modifies this, buffer
      ensures Valid() && idx' == |text| && text == old(text) + DirectiveText(Text(s, width, prec, left, precision))
    {
      hide Repeat;
      ghost var start := text;
      var l := |s|;
      if precision {
        l := if l < prec then l else prec;
      }
      idx' := idx;
      if !left {
        idx' := Spaces(idx', width - l);
      }
      assert text == start + Repeat(' ', if left then 0 else width - l);
      idx' := Copy(idx', s, prec, precision);
      assert text == start + Repeat(' ', if left then 0 else width - l) + s[..l];
      if left {
        idx' := Spaces(idx', width - l);
      }
      ThreeParts(start, Repeat(' ', if left then 0 else width - l), s[..l], Repeat(' ', if left then width - l else 0));
    }

    static lemma ThreeParts(start: string, a: string, b: string, c: string)
      ensures start + a + b + c == start + (a + b + c)
      ensures start + a + b + Repeat(' ', 0) == start + a + b
    {
    }

    // The string output loop of the %s directive.
    method Copy(idx: nat, s: string, prec: nat, precision: bool) returns (idx': nat)
      requires Valid() && idx == |text|
      modifies this, buffer
      ensures Valid() && idx' == |text| && text == old(text) + s[..if precision && prec < |s| then prec else |s|]
    {
      idx' := idx;
      var p := 0;
      while p < |s| && (!precision || p < prec)
        invariant 0 <= p <= (if precision && prec < |s| then prec else |s|) && idx' == |text| && Valid()
        invariant text == old(text) + s[..p]
      {
        Out(s[p], idx');
        assert s[..p + 1] == s[..p] + [s[p]];
        idx', p := idx' + 1, p + 1;
      }
    }

    // The NUL behind the output, or at the end of a buffer without room.
    method Terminate(idx: nat)
      requires Valid() && idx == |text|
      modifies buffer
      ensures maxlen >= 1 ==>
                var kept := if idx < maxlen then idx else maxlen - 1;
                buffer[..kept] == text[..kept] && buffer[kept] == 0 as char
    {
      if maxlen >= 1 {
        buffer[if idx < maxlen then idx else maxlen - 1] := 0 as char;
      }
    }
  }

  // A parsed directive. Integers are already widened and split into magnitude
  // and sign.
  datatype Directive =
    | Literal(c: char)
    | Integer(value: nat, negative: bool, base: nat, prec: nat, width: nat, flags: Flags)
    | Character(c: char, width: nat, left: bool)
    | Text(s: string, width: nat, prec: nat, left: bool, precision: bool)
  {
    predicate Ok() {
      Integer? ==> 2 <= base <= 16
    }
  }

  function DirectiveText(d: Directive): string
    requires d.Ok()
  {
    match d
    case Literal(c) => [c]
    case Integer(value, negative, base, prec, width, flags) => NtoaText(value, negative, base, prec, width, flags)
    case Character(c, width, left) =>
      Repeat(' ', if left then 0 else width - 1) + [c] + Repeat(' ', if left then width - 1 else 0)
    case Text(s, width, prec, left, precision) =>
      var l := if precision && prec < |s| then prec else |s|;
      Repeat(' ', if left then 0 else width - l) + s[..l] + Repeat(' ', if left then width - l else 0)
  }

  function FormatText(format: seq<Directive>): string
    requires forall k :: 0 <= k < |format| ==> format[k].Ok()
  {
    if format == [] then "" else FormatText(format[..|format| - 1]) + DirectiveText(format[|format| - 1])
  }
}
