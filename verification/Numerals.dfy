// What printed integers look like, character by character, in terms of the
// number, the base and the flags alone.
module Numerals {
  import opened Printf

  // ---------- numerals ----------

  predicate IsNumeral(c: char, base: nat, upper: bool) {
    || ('0' <= c <= '9' && c as int - '0' as int < base)
    || (if upper then 'A' <= c <= 'F' && c as int - 'A' as int + 10 < base
        else 'a' <= c <= 'f' && c as int - 'a' as int + 10 < base)
  }

  function NumeralValue(c: char): nat {
    if '0' <= c <= '9' then c as int - '0' as int
    else if 'A' <= c <= 'F' then c as int - 'A' as int + 10
    else if 'a' <= c <= 'f' then c as int - 'a' as int + 10
    else 0
  }

  // The number that numerals denote, the most significant one first.
  function NumberOf(text: string, base: nat): nat {
    if text == "" then 0 else base * NumberOf(text[..|text| - 1], base) + NumeralValue(text[|text| - 1])
  }

  // Numerals of the base, with letters of one case, that denote the value.
  ghost predicate Spells(text: string, value: nat, base: nat, upper: bool) {
    (forall k :: 0 <= k < |text| ==> IsNumeral(text[k], base, upper)) && NumberOf(text, base) == value
  }

  // How many numerals a value needs.
  function DigitCount(value: nat, base: nat): (n: nat)
    requires 2 <= base
    ensures 1 <= n
  {
    if value < base then 1
    else
      QuotientLess(value, base);
      1 + DigitCount(value / base, base)
  }

  lemma QuotientLess(value: nat, base: nat)
    requires 2 <= base <= value
    ensures value / base < value
  {
    var q := value / base;
    Division(value, base);
    TimesGrows(q, 2, base);
    assert base * q == q * base && q * 2 == 2 * q;
  }

  function Max(a: int, b: int): int {
    if a < b then b else a
  }

  function Min(a: int, b: int): int {
    if a < b then a else b
  }

  // A text in a field: spaces on the right or, unless the field is filled
  // already, on the left.
  function Justified(left: bool, filled: bool, width: nat, text: string): string {
    if left then text + Repeat(' ', width - |text|)
    else if filled then text
    else Repeat(' ', width - |text|) + text
  }

  function SignOf(negative: bool, plus: bool, space: bool): string {
    if negative then "-" else if plus then "+" else if space then " " else ""
  }

  // How many numerals are shown: those that are needed, or as many as are asked
  // for, but 32 at the most. With a precision zero needs none.
  function Shown(value: nat, base: nat, precision: bool, least: int): (n: nat)
    requires 2 <= base
    ensures n <= 32
  {
    Min(32, Max(if precision && value == 0 then 0 else DigitCount(value, base), least))
  }

  // How many are asked for: the precision, and the width behind the sign if it is
  // to be filled with zeros. A left-justified field asks for none.
  function Least(left: bool, zeropad: bool, prec: nat, width: nat, sign: string): int {
    if left then 0 else Max(prec, if zeropad then width - |sign| else 0)
  }

  // ---------- the digits of the conversion buffer ----------

  lemma DigitIsNumeral(d: nat, base: nat, upper: bool)
    requires d < base <= 16
    ensures IsNumeral(DigitChar(d, upper), base, upper) && NumeralValue(DigitChar(d, upper)) == d
  {
  }

  // Numerals from the least significant one on.
  ghost predicate AllNumerals(s: string, base: nat, upper: bool) {
    forall k :: 0 <= k < |s| ==> IsNumeral(s[k], base, upper)
  }

  lemma {:induction false} RevDigitsAreNumerals(value: nat, base: nat, upper: bool, room: nat)
    requires 2 <= base <= 16 && 1 <= room
    ensures AllNumerals(RevDigits(value, base, upper, room), base, upper)
    ensures |RevDigits(value, base, upper, room)| == Min(room, DigitCount(value, base))
    decreases room
  {
    var c, q, rest := RevDigitsSplit(value, base, upper, room);
    DigitIsNumeral(value % base, base, upper);
    NoQuotient(value, base);
    if q != 0 && room > 1 {
      RevDigitsAreNumerals(q, base, upper, room - 1);
    }
  }

  lemma NoQuotient(value: nat, base: nat)
    requires 2 <= base
    ensures value / base == 0 <==> value < base
    ensures value / base != 0 ==> DigitCount(value, base) == 1 + DigitCount(value / base, base)
  {
    Division(value, base);
    if value < base {
      RemainderIs(value, base, 0, value);
      if value / base >= 1 {
        TimesAtLeast(base, value / base);
      }
    }
  }

  lemma NumeralIsDigit(c: char, base: nat, upper: bool)
    requires IsNumeral(c, base, upper)
    ensures DigitValue(c) == NumeralValue(c)
  {
  }

  lemma {:induction false} ReverseDenotes(s: string, base: nat, upper: bool)
    requires AllNumerals(s, base, upper)
    ensures NumberOf(Reverse(s), base) == RevValue(s, base)
  {
    if s != "" {
      ReverseDenotes(s[1..], base, upper);
      NumeralIsDigit(s[0], base, upper);
      var r := Reverse(s);
      assert r[..|r| - 1] == Reverse(s[1..]);
    }
  }

  lemma ReverseSpells(s: string, base: nat, upper: bool)
    requires AllNumerals(s, base, upper)
    ensures Spells(Reverse(s), RevValue(s, base), base, upper)
  {
    ReverseDenotes(s, base, upper);
    forall k | 0 <= k < |s| ensures IsNumeral(Reverse(s)[k], base, upper) {
      assert Reverse(s)[k] == s[|s| - 1 - k];
    }
  }

  // The padded digits before the hash flag takes any away.
  function Padded(value: nat, negative: bool, base: nat, prec: nat, width: nat, flags: Flags): string
    requires 2 <= base <= 16
  {
    PadZeros(NtoaBuf(value, base, flags), prec, FieldWidth(width, negative, flags), flags)
  }

  lemma PadZerosLength(b: string, prec: nat, w: nat, flags: Flags)
    requires |b| <= NTOA_BUFFER_SIZE
    ensures |PadZeros(b, prec, w, flags)|
         == if flags.left then |b| else Max(|b|, Min(32, Max(prec, if flags.zeropad then w else 0)))
  {
  }

  lemma BufIsNumerals(value: nat, base: nat, flags: Flags)
    requires 2 <= base <= 16
    ensures var b := NtoaBuf(value, base, flags);
            && AllNumerals(b, base, flags.upper) && RevValue(b, base) == value % Pow(base, 32)
            && |b| == Min(32, if flags.precision && value == 0 then 0 else DigitCount(value, base))
  {
    BufDenotes(value, base, flags);
    RevDigitsAreNumerals(value, base, flags.upper, NTOA_BUFFER_SIZE);
  }

  lemma PaddedIs(value: nat, negative: bool, base: nat, prec: nat, width: nat, flags: Flags)
    requires 2 <= base <= 16
    ensures var p := Padded(value, negative, base, prec, width, flags);
            var sign := SignOf(negative, flags.plus, flags.space);
            && AllNumerals(p, base, flags.upper) && RevValue(p, base) == value % Pow(base, 32)
            && |p| == Shown(value, base, flags.precision, Least(flags.left, flags.zeropad, prec, width, sign))
  {
    var b, w := NtoaBuf(value, base, flags), FieldWidth(width, negative, flags);
    BufIsNumerals(value, base, flags);
    var n := PadZerosIs(b, prec, w, flags);
    ZerosDenoteNothing(b, n, base);
    PadZerosLength(b, prec, w, flags);
    FilledWidth(width, negative, flags);
  }

  // The field width is what zeros may fill.
  lemma FilledWidth(width: nat, negative: bool, flags: Flags)
    ensures var w, sign := FieldWidth(width, negative, flags), SignOf(negative, flags.plus, flags.space);
            && (flags.left || !flags.zeropad ==> w == width)
            && (!flags.left && flags.zeropad ==> w == Max(0, width - |sign|))
  {
  }

  // So many numerals that denote a value are one text.
  lemma {:induction false} SpellingIsUnique(a: string, b: string, value: nat, base: nat, upper: bool)
    requires 2 <= base <= 16 && |a| == |b| && Spells(a, value, base, upper) && Spells(b, value, base, upper)
    ensures a == b
  {
    if a != "" {
      var k := |a| - 1;
      NumeralBelow(a[k], base, upper);
      NumeralBelow(b[k], base, upper);
      SameQuotient(base, NumberOf(a[..k], base), NumeralValue(a[k]), NumberOf(b[..k], base), NumeralValue(b[k]));
      SameNumeral(a[k], b[k], base, upper);
      SpellingIsUnique(a[..k], b[..k], NumberOf(a[..k], base), base, upper);
      assert a == a[..k] + [a[k]] && b == b[..k] + [b[k]];
    }
  }

  lemma NumeralBelow(c: char, base: nat, upper: bool)
    requires IsNumeral(c, base, upper)
    ensures NumeralValue(c) < base
  {
  }

  lemma SameNumeral(c: char, d: char, base: nat, upper: bool)
    requires IsNumeral(c, base, upper) && IsNumeral(d, base, upper) && NumeralValue(c) == NumeralValue(d)
    ensures c == d
  {
  }

  lemma SameQuotient(m: nat, q: nat, r: nat, q': nat, r': nat)
    requires m * q + r == m * q' + r' && r < m && r' < m
    ensures q == q' && r == r'
  {
    RemainderIs(m * q + r, m, q, r);
    RemainderIs(m * q' + r', m, q', r');
    assert m * (q - q') == m * q - m * q';
    SmallMultiple(m, q - q');
  }

  // ---------- integers without the hash flag ----------

  lemma InField(left: bool, filled: bool, width: nat, text: string, before: nat, after: nat)
    requires before == if left || filled || width <= |text| then 0 else width - |text|
    requires after == if left && width > |text| then width - |text| else 0
    ensures Justified(left, filled, width, text) == Repeat(' ', before) + text + Repeat(' ', after)
  {
    assert Repeat(' ', 0) == "" && "" + text == text && text + "" == text;
    assert width - |text| <= 0 ==> Repeat(' ', width - |text|) == "";
  }

  // An integer without the hash flag is a field with the sign and numerals that
  // denote the value (modulo base^32, which all 32 numerals of the conversion
  // buffer can hold). The sign is there if the numerals leave room for it.
  lemma PlainInteger(value: nat, negative: bool, base: nat, prec: nat, width: nat, flags: Flags)
    returns (digits: string)
    requires 2 <= base <= 16 && !flags.hash
    ensures Spells(digits, value % Pow(base, 32), base, flags.upper)
    ensures var sign := SignOf(negative, flags.plus, flags.space);
            && |digits| == Shown(value, base, flags.precision, Least(flags.left, flags.zeropad, prec, width, sign))
            && NtoaText(value, negative, base, prec, width, flags)
            == Justified(flags.left, flags.zeropad, width, (if |digits| < 32 then sign else "") + digits)
  {
    var p, w := Padded(value, negative, base, prec, width, flags), FieldWidth(width, negative, flags);
    digits := Reverse(p);
    PaddedIs(value, negative, base, prec, width, flags);
    ReverseSpells(p, base, flags.upper);
    BufferOfPlain(value, negative, base, prec, width, flags);
    NtoaIs(value, negative, base, prec, width, flags);
    FilledWidth(width, negative, flags);
    NoMarkBetween(if |digits| < 32 then SignOf(negative, flags.plus, flags.space) else "", digits);
    PlacedParts(p, "", if |digits| < 32 then SignOf(negative, flags.plus, flags.space) else "", width, w, flags);
  }

  lemma NoMarkBetween(sign: string, digits: string)
    ensures sign + Reverse("") + digits == sign + digits
  {
    assert sign + Reverse("") == sign;
  }

  // What _out_rev makes of digits, a mark and a sign.
  lemma PlacedParts(p: string, mark: string, sign: string, width: nat, w: nat, flags: Flags)
    requires |sign| <= 1 && (flags.left || !flags.zeropad ==> w == width)
    ensures OutRevText(p + mark + sign, w, flags)
         == Justified(flags.left, flags.zeropad, width, sign + Reverse(mark) + Reverse(p))
  {
    var before, after := OutRevShape(p, mark, sign, w, flags);
    InFieldOfWidth(flags, width, w, sign + Reverse(mark) + Reverse(p), before, after);
    Grouped(Repeat(' ', before), sign, Reverse(mark), Reverse(p));
  }

  lemma Grouped(a: string, b: string, c: string, d: string)
    ensures a + (b + c + d) == a + b + c + d
  {
  }

  lemma InFieldOfWidth(flags: Flags, width: nat, w: nat, text: string, before: nat, after: nat)
    requires flags.left || !flags.zeropad ==> w == width
    requires before == if flags.left || flags.zeropad || w <= |text| then 0 else w - |text|
    requires after == if flags.left && w > |text| then w - |text| else 0
    ensures Justified(flags.left, flags.zeropad, width, text) == Repeat(' ', before) + text + Repeat(' ', after)
  {
    InField(flags.left, flags.zeropad, width, text, before, after);
  }

  lemma BufferOfPlain(value: nat, negative: bool, base: nat, prec: nat, width: nat, flags: Flags)
    requires 2 <= base <= 16 && !flags.hash
    ensures var p := Padded(value, negative, base, prec, width, flags);
            var sign := if |p| < 32 then SignOf(negative, flags.plus, flags.space) else "";
            FormatBuf(NtoaBuf(value, base, flags), negative, base, prec, width, flags) == p + "" + sign
  {
    var p := Padded(value, negative, base, prec, width, flags);
    PaddedIs(value, negative, base, prec, width, flags);
    assert p + "" == p;
  }

  // ---------- integers with the hash flag ----------

  function MarkOf(base: nat, upper: bool): string {
    if base == 16 then (if upper then "0X" else "0x") else if base == 2 then "0b" else "0"
  }

  // As much of the end of s as there is room for.
  function Ending(s: string, room: int): string {
    if room >= |s| then s else if room <= 0 then "" else s[|s| - room..]
  }

  // How many of the shown numerals the hash flag takes away.
  function Taken(shown: nat, base: nat, precision: bool, prec: nat, width: nat): (n: nat)
    ensures n <= shown
  {
    if precision || shown == 0 || (shown != prec && shown != width) then 0
    else if base == 16 && shown > 1 then 2 else 1
  }

  lemma ReverseFront(p: string, n: nat)
    requires n <= |p|
    ensures Reverse(p[..|p| - n]) == Reverse(p)[n..]
  {
    var front, back := p[..|p| - n], p[|p| - n..];
    assert p == front + back;
    ReverseAppend(front, back);
    assert Reverse(p) == Reverse(back) + Reverse(front);
  }

  lemma ReverseOfTwo(a: char, b: char)
    ensures Reverse([a, b]) == [b, a] && Reverse([a]) == [a]
  {
    assert [a, b][1..] == [b] && [a][1..] == [] && [b][1..] == [];
  }

  lemma MarkReversed(base: nat, flags: Flags, length: nat)
    requires flags.hash
    ensures Reverse(Fit(Mark(base, flags), length)) == Ending(MarkOf(base, flags.upper), 32 - length)
  {
    hide Reverse;
    ReverseOfTwo('x', '0');
    ReverseOfTwo('X', '0');
    ReverseOfTwo('b', '0');
    ReverseOfTwo('0', '0');
    var mark := Mark(base, flags);
    assert base == 16 ==> mark == [if flags.upper then 'X' else 'x', '0'];
    assert base == 2 ==> mark == ['b', '0'];
    assert base != 16 && base != 2 ==> mark == ['0'];
    assert Fit(mark, length) == mark || Fit(mark, length) == [mark[0]] || Fit(mark, length) == "";
  }

  // A number other than zero with the hash flag is a field with the mark of its
  // base, as far as there is room, and the numerals that are left.
  lemma MarkedInteger(value: nat, base: nat, prec: nat, width: nat, flags: Flags) returns (digits: string)
    requires 2 <= base <= 16 && value != 0 && flags.hash && !flags.plus && !flags.space
    ensures Spells(digits, value % Pow(base, 32), base, flags.upper)
    ensures |digits| == Shown(value, base, flags.precision, Least(flags.left, flags.zeropad, prec, width, ""))
    ensures var taken := Taken(|digits|, base, flags.precision, prec, width);
            NtoaText(value, false, base, prec, width, flags)
            == Justified(flags.left, flags.zeropad, width,
                         Ending(MarkOf(base, flags.upper), 32 - (|digits| - taken)) + digits[taken..])
  {
    var p := Padded(value, false, base, prec, width, flags);
    digits := Reverse(p);
    PaddedIs(value, false, base, prec, width, flags);
    ReverseSpells(p, base, flags.upper);
    var taken := Taken(|p|, base, flags.precision, prec, width);
    BufferOfMarked(value, base, prec, width, flags);
    NtoaIs(value, false, base, prec, width, flags);
    var kept := p[..|p| - taken];
    MarkReversed(base, flags, |kept|);
    ReverseFront(p, taken);
    PlacedParts(kept, Fit(Mark(base, flags), |kept|), "", width, width, flags);
    assert "" + Reverse(Fit(Mark(base, flags), |kept|)) == Reverse(Fit(Mark(base, flags), |kept|));
  }

  lemma BufferOfMarked(value: nat, base: nat, prec: nat, width: nat, flags: Flags)
    requires 2 <= base <= 16 && flags.hash && !flags.plus && !flags.space
    ensures var p := Padded(value, false, base, prec, width, flags);
            var kept := p[..|p| - Taken(|p|, base, flags.precision, prec, width)];
            && FieldWidth(width, false, flags) == width
            && FormatBuf(NtoaBuf(value, base, flags), false, base, prec, width, flags)
            == kept + Fit(Mark(base, flags), |kept|) + ""
  {
    var p := Padded(value, false, base, prec, width, flags);
    var kept := p[..|p| - Taken(|p|, base, flags.precision, prec, width)];
    FormatIs(value, false, base, prec, width, flags);
    assert kept == Kept(value, false, base, prec, width, flags);
  }
}
