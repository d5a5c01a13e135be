// What each conversion prints, on the characters of the output. A format is
// written out as %, flags, width, precision, length and specifier.
module Prints {
  import opened Printf
  import opened Format
  import opened Numerals

  function Conv(run: string, width: nat, prec: Option<nat>, length: string, kind: char): string {
    "%" + SpecText(run, width, prec, length, kind)
  }

  // Any flags in any order, a width and a precision that a 32-bit number can
  // hold, and a length.
  ghost predicate Writable(run: string, width: nat, prec: Option<nat>, length: string) {
    && (forall k :: 0 <= k < |run| ==> IsFlag(run[k]))
    && width < 0x1_0000_0000 && (prec.Some? ==> prec.value < 0x1_0000_0000)
    && IsLength(length)
  }

  // The format takes this many arguments and prints this text.
  ghost predicate Outputs(format: string, args: seq<Arg>, used: nat, text: string) {
    && Interpret(format, args).Some? && Interpret(format, args).value.args == used
    && Printed(format, args) == text
  }

  function PrecisionOf(prec: Option<nat>): nat {
    if prec.Some? then prec.value else 0
  }

  // ---------- one conversion ----------

  function SpecWritten(run: string, width: nat, prec: Option<nat>, length: string, kind: char): Spec {
    Spec(FlagsIn(run).(precision := prec.Some?), width, PrecisionOf(prec), SizeOf(length), kind)
  }

  lemma OneConversion(run: string, width: nat, prec: Option<nat>, length: string, kind: char, args: seq<Arg>,
                      d: Directive, n: nat)
    requires Writable(run, width, prec, length) && IsKind(kind) && n <= |args|
    requires d.Ok() && Convert(SpecWritten(run, width, prec, length, kind), args) == Some(Converted(d, n))
    ensures Outputs(Conv(run, width, prec, length, kind), args, n, DirectiveText(d))
  {
    var t, spec := SpecText(run, width, prec, length, kind), SpecWritten(run, width, prec, length, kind);
    ConversionReadsBack(run, width, prec, length, kind, args);
    assert Parsed(t, args) == Some(Conversion(spec, |t|, 0));
    var format := Conv(run, width, prec, length, kind);
    assert format[1..] == t;
    OneDirective(format, args, Conversion(spec, |t|, 0), d, n);
  }

  lemma OneDirective(format: string, args: seq<Arg>, c: Conversion, d: Directive, n: nat)
    requires format != "" && format[0] == '%' && Parsed(format[1..], args) == Some(c)
    requires c.chars == |format| - 1 && c.args == 0 && n <= |args|
    requires d.Ok() && Convert(c.spec, args) == Some(Converted(d, n))
    ensures Outputs(format, args, n, DirectiveText(d))
  {
    hide Convert, Parsed, DirectiveText;
    assert args[0..] == args;
    assert FirstOf(format, args) == Some(First(d, |format|, n));
    assert format[|format|..] == "";
    assert Interpret(format[|format|..], args[n..]) == Some(Interpretation([], 0));
    assert [d] + [] == [d];
    assert Interpret(format, args) == Some(Interpretation([d], n));
    OneMoreDirective([], d);
    assert [] + [d] == [d];
  }

  // ---------- integers ----------

  // How many values an argument of this length can have.
  function RangeOf(length: string): nat {
    if length == "" then 0x1_0000_0000
    else if length == "h" then 0x1_0000
    else if length == "hh" then 0x100
    else 0x1_0000_0000_0000_0000
  }

  // v is the two's-complement number in the low part of the word. A plain char
  // has no sign.
  ghost predicate TwosComplement(v: int, word: nat, length: string) {
    && (word - v) % RangeOf(length) == 0
    && (if length == "hh" then 0 <= v < RangeOf(length) else 0 <= 2 * v + RangeOf(length) < 2 * RangeOf(length))
  }

  lemma SignedArgIs(word: Word, length: string)
    requires IsLength(length)
    ensures TwosComplement(SignedArg(word, SizeOf(length)), word, length)
    ensures Abs(SignedArg(word, SizeOf(length))) <= 0x8000_0000_0000_0000
  {
    LowPart(word, RangeOf(length), word / RangeOf(length), word % RangeOf(length));
  }

  lemma LowPart(word: nat, range: nat, q: nat, low: nat)
    requires 0 < range && q == word / range && low == word % range
    ensures low < range && (word - low) % range == 0 && (word - (low - range)) % range == 0
  {
    Division(word, range);
    OneMoreMultiple(range, q);
    Congruent(word - low, range, q);
    Congruent(word - low + range, range, q + 1);
  }

  lemma Congruent(x: nat, m: nat, k: nat)
    requires 0 < m && x == m * k
    ensures x % m == 0
  {
    RemainderIs(x, m, k, 0);
  }

  lemma OneMoreMultiple(m: nat, k: nat)
    ensures m * (k + 1) == m * k + m
  {
  }

  // The flags with which an integer is printed.
  lemma IntegerFlagsAre(run: string, prec: Option<nat>, kind: char)
    ensures var f := IntegerFlags(FlagsIn(run).(precision := prec.Some?), kind);
            && f.left == ('-' in run) && f.zeropad == ('0' in run && prec.None?) && f.precision == prec.Some?
            && (kind == 'd' || kind == 'i' ==> f.plus == ('+' in run) && f.space == (' ' in run) && !f.hash && !f.upper)
            && (kind in {'u', 'x', 'X', 'o', 'b'} ==> !f.plus && !f.space && f.upper == (kind == 'X'))
            && (kind in {'x', 'X', 'o', 'b'} ==> f.hash == ('#' in run)) && (kind == 'u' ==> !f.hash)
  {
  }

  // %d and %i: a field with a minus sign exactly for a negative argument (or a
  // plus sign or a space where a flag asks for one) and decimal digits of the
  // magnitude.
  lemma SignedPrints(run: string, width: nat, prec: Option<nat>, length: string, kind: char, word: Word, more: seq<Arg>)
    returns (v: int, digits: string)
    requires Writable(run, width, prec, length) && (kind == 'd' || kind == 'i')
    ensures TwosComplement(v, word, length) && Spells(digits, if v < 0 then -v else v, 10, false)
    ensures var sign := SignOf(v < 0, '+' in run, ' ' in run);
            var left, filled := '-' in run, '0' in run && prec.None?;
            && |digits| == Shown(if v < 0 then -v else v, 10, prec.Some?,
                                 Least(left, filled, PrecisionOf(prec), width, sign))
            && Outputs(Conv(run, width, prec, length, kind), [Number(word)] + more, 1,
                       Justified(left, filled, width, (if |digits| < 32 then sign else "") + digits))
  {
    hide Outputs, Conv, Writable, NtoaText;
    var f;
    v, f := SignedConverts(run, width, prec, length, kind, word, more);
    var magnitude := if v < 0 then -v else v;
    digits := PlainInteger(magnitude, v < 0, 10, PrecisionOf(prec), width, f);
    FitsThirtyTwo(magnitude, 10);
  }

  // The directive of a signed specifier.
  lemma SignedConverts(run: string, width: nat, prec: Option<nat>, length: string, kind: char, word: Word,
                       more: seq<Arg>)
    returns (v: int, f: Flags)
    requires Writable(run, width, prec, length) && (kind == 'd' || kind == 'i')
    ensures TwosComplement(v, word, length) && -0x8000_0000_0000_0000 <= v <= 0x8000_0000_0000_0000
    ensures f.left == ('-' in run) && f.zeropad == ('0' in run && prec.None?) && f.precision == prec.Some?
    ensures f.plus == ('+' in run) && f.space == (' ' in run) && !f.hash && !f.upper
    ensures Outputs(Conv(run, width, prec, length, kind), [Number(word)] + more, 1,
                    NtoaText(if v < 0 then -v else v, v < 0, 10, PrecisionOf(prec), width, f))
  {
    hide Outputs, TwosComplement, Conv, Writable, NtoaText, Convert;
    var args := [Number(word)] + more;
    var spec := SpecWritten(run, width, prec, length, kind);
    f := IntegerFlags(spec.flags, kind);
    v := SignedArg(word, SizeOf(length));
    assert IsLength(length) by { WritableLength(run, width, prec, length); }
    SignedArgIs(word, length);
    IntegerFlagsAre(run, prec, kind);
    SignedDirective(spec, word, more, v);
    OneConversion(run, width, prec, length, kind, args, Integer(Abs(v), v < 0, 10, PrecisionOf(prec), width, f), 1);
  }

  lemma SignedDirective(spec: Spec, word: Word, more: seq<Arg>, v: int)
    requires (spec.kind == 'd' || spec.kind == 'i') && v == SignedArg(word, spec.size)
    ensures Convert(spec, [Number(word)] + more)
         == Some(Converted(Integer(Abs(v), v < 0, 10, spec.prec, spec.width, IntegerFlags(spec.flags, spec.kind)), 1))
  {
    hide IntegerFlags, SignedArg;
  }

  lemma WritableLength(run: string, width: nat, prec: Option<nat>, length: string)
    requires Writable(run, width, prec, length)
    ensures IsLength(length)
  {
  }

  lemma FitsThirtyTwo(value: nat, base: nat)
    requires 8 <= base <= 16 && value < 0x1_0000_0000_0000_0000
    ensures value % Pow(base, 32) == value
  {
    SixtyFourBits(base);
    RemainderIs(value, Pow(base, 32), 0, value);
  }

  // The radix of an unsigned specifier.
  ghost predicate HasRadix(kind: char, base: nat) {
    || (kind == 'u' && base == 10) || (kind == 'o' && base == 8) || (kind == 'b' && base == 2)
    || ((kind == 'x' || kind == 'X') && base == 16)
  }

  // %u, %o, %x, %X and %b without the hash flag: a field with numerals of the
  // argument in the base of the specifier, with capital letters exactly for %X.
  // In base 2 only the last 32 are kept.
  lemma UnsignedPrints(run: string, width: nat, prec: Option<nat>, length: string, kind: char, base: nat, word: Word,
                       more: seq<Arg>)
    returns (value: Word, digits: string)
    requires Writable(run, width, prec, length) && HasRadix(kind, base)
    requires '#' !in run || base == 10 || word % RangeOf(length) == 0
    ensures value == word % RangeOf(length)
    ensures Spells(digits, if base == 2 then value % 0x1_0000_0000 else value, base, kind == 'X')
    ensures var left, filled := '-' in run, '0' in run && prec.None?;
            && |digits| == Shown(value, base, prec.Some?, Least(left, filled, PrecisionOf(prec), width, ""))
            && Outputs(Conv(run, width, prec, length, kind), [Number(word)] + more, 1,
                       Justified(left, filled, width, digits))
  {
    hide Outputs, Conv, Writable, NtoaText, Spells, Shown, Least, Justified, Pow, RangeOf;
    var f;
    value, f := UnsignedConverts(run, width, prec, length, kind, base, word, more);
    digits := PlainInteger(value, false, base, PrecisionOf(prec), width, f.(hash := false));
    assert (if |digits| < 32 then "" else "") + digits == digits;
    HashOfZero(value, base, PrecisionOf(prec), width, f);
    ModuloOfBase(value, base);
  }

  lemma HashOfZero(value: nat, base: nat, prec: nat, width: nat, f: Flags)
    requires 2 <= base <= 16 && (f.hash ==> value == 0)
    ensures NtoaText(value, false, base, prec, width, f) == NtoaText(value, false, base, prec, width, f.(hash := false))
  {
    assert !f.hash ==> f.(hash := false) == f;
  }

  lemma ModuloOfBase(value: nat, base: nat)
    requires (base == 2 || 8 <= base <= 16) && value < 0x1_0000_0000_0000_0000
    ensures value % Pow(base, 32) == if base == 2 then value % 0x1_0000_0000 else value
  {
    if base == 2 {
      assert Pow(2, 8) == 0x100;
      assert Pow(2, 16) == 0x1_0000;
      assert Pow(2, 24) == 0x100_0000;
      assert Pow(2, 32) == 0x1_0000_0000;
    } else {
      FitsThirtyTwo(value, base);
    }
  }

  // The directive of an unsigned specifier.
  lemma UnsignedConverts(run: string, width: nat, prec: Option<nat>, length: string, kind: char, base: nat, word: Word,
                         more: seq<Arg>)
    returns (value: Word, f: Flags)
    requires Writable(run, width, prec, length) && HasRadix(kind, base)
    ensures value == word % RangeOf(length)
    ensures f.left == ('-' in run) && f.zeropad == ('0' in run && prec.None?) && f.precision == prec.Some?
    ensures !f.plus && !f.space && f.upper == (kind == 'X') && f.hash == ('#' in run && base != 10)
    ensures Outputs(Conv(run, width, prec, length, kind), [Number(word)] + more, 1,
                    NtoaText(value, false, base, PrecisionOf(prec), width, f))
  {
    var args := [Number(word)] + more;
    var spec := SpecWritten(run, width, prec, length, kind);
    f := IntegerFlags(spec.flags, kind);
    IntegerFlagsAre(run, prec, kind);
    WordIsLong(word);
    value := UnsignedArg(word, SizeOf(length));
    assert value == word % RangeOf(length);
    var d := Integer(value, false, base, PrecisionOf(prec), width, f);
    assert Convert(spec, args) == Some(Converted(d, 1));
    OneConversion(run, width, prec, length, kind, args, d, 1);
  }

  lemma WordIsLong(word: Word)
    ensures word % 0x1_0000_0000_0000_0000 == word
  {
  }

  // %o, %x, %X and %b with the hash flag, of an argument that is not zero: the
  // mark of the base in front of the numerals. Without a precision it takes the
  // place of the first of them if they fill the field.
  lemma MarkedPrints(run: string, width: nat, prec: Option<nat>, length: string, kind: char, base: nat, word: Word,
                     more: seq<Arg>)
    returns (value: Word, digits: string)
    requires Writable(run, width, prec, length) && HasRadix(kind, base) && base != 10 && '#' in run
    requires word % RangeOf(length) != 0
    ensures value == word % RangeOf(length)
    ensures Spells(digits, if base == 2 then value % 0x1_0000_0000 else value, base, kind == 'X')
    ensures var left, filled := '-' in run, '0' in run && prec.None?;
            var taken := Taken(|digits|, base, prec.Some?, PrecisionOf(prec), width);
            && |digits| == Shown(value, base, prec.Some?, Least(left, filled, PrecisionOf(prec), width, ""))
            && Outputs(Conv(run, width, prec, length, kind), [Number(word)] + more, 1,
                       Justified(left, filled, width,
                                 Ending(MarkOf(base, kind == 'X'), 32 - (|digits| - taken)) + digits[taken..]))
  {
    hide Outputs, Conv, Writable, NtoaText, Spells, Shown, Least, Taken, Ending, MarkOf, Justified, Pow, RangeOf;
    var f;
    value, f := UnsignedConverts(run, width, prec, length, kind, base, word, more);
    digits := MarkedInteger(value, base, PrecisionOf(prec), width, f);
    ModuloOfBase(value, base);
  }

  // %p: sixteen capital hexadecimal numerals.
  lemma PointerPrints(word: Word, more: seq<Arg>) returns (digits: string)
    ensures Spells(digits, word, 16, true) && |digits| == 16
    ensures Outputs("%p", [Number(word)] + more, 1, digits)
  {
    var args := [Number(word)] + more;
    assert Conv("", 0, None, "", 'p') == "%p";
    var f := FlagsIn("").(precision := false).(zeropad := true, upper := true);
    var d := Integer(word, false, 16, 0, 16, f);
    assert Convert(SpecWritten("", 0, None, "", 'p'), args) == Some(Converted(d, 1));
    OneConversion("", 0, None, "", 'p', args, d, 1);
    digits := PlainInteger(word, false, 16, 0, 16, f);
    FitsThirtyTwo(word, 16);
    SixteenNumerals(word);
  }

  // With flags: the width is sixteen whatever is asked for, and the field is
  // filled with zeros unless it is left-justified.
  lemma PointerFieldPrints(run: string, width: nat, prec: Option<nat>, length: string, word: Word, more: seq<Arg>)
    returns (digits: string)
    requires Writable(run, width, prec, length) && ('#' !in run || word == 0)
    ensures Spells(digits, word, 16, true)
    ensures var left, sign := '-' in run, SignOf(false, '+' in run, ' ' in run);
            && |digits| == Shown(word, 16, prec.Some?, Least(left, true, PrecisionOf(prec), 16, sign))
            && Outputs(Conv(run, width, prec, length, 'p'), [Number(word)] + more, 1,
                       Justified(left, true, 16, (if |digits| < 32 then sign else "") + digits))
  {
    hide Outputs, Conv, Writable, NtoaText, Spells, Shown, Least, Justified, Pow;
    var f := PointerConverts(run, width, prec, length, word, more);
    digits := PlainInteger(word, false, 16, PrecisionOf(prec), 16, f.(hash := false));
    HashOfZero(word, 16, PrecisionOf(prec), 16, f);
    FitsThirtyTwo(word, 16);
  }

  lemma PointerMarkedPrints(run: string, width: nat, prec: Option<nat>, length: string, word: Word, more: seq<Arg>)
    returns (digits: string)
    requires Writable(run, width, prec, length) && '#' in run && '+' !in run && ' ' !in run && word != 0
    ensures Spells(digits, word, 16, true)
    ensures var left := '-' in run;
            var taken := Taken(|digits|, 16, prec.Some?, PrecisionOf(prec), 16);
            && |digits| == Shown(word, 16, prec.Some?, Least(left, true, PrecisionOf(prec), 16, ""))
            && Outputs(Conv(run, width, prec, length, 'p'), [Number(word)] + more, 1,
                       Justified(left, true, 16, Ending("0X", 32 - (|digits| - taken)) + digits[taken..]))
  {
    hide Outputs, Conv, Writable, NtoaText, Spells, Shown, Least, Taken, Ending, Justified, Pow;
    var f := PointerConverts(run, width, prec, length, word, more);
    digits := MarkedInteger(word, 16, PrecisionOf(prec), 16, f);
    FitsThirtyTwo(word, 16);
  }

  lemma PointerConverts(run: string, width: nat, prec: Option<nat>, length: string, word: Word, more: seq<Arg>)
    returns (f: Flags)
    requires Writable(run, width, prec, length)
    ensures f == Flags(true, '-' in run, '+' in run, ' ' in run, '#' in run, true, prec.Some?)
    ensures Outputs(Conv(run, width, prec, length, 'p'), [Number(word)] + more, 1,
                    NtoaText(word, false, 16, PrecisionOf(prec), 16, f))
  {
    hide Outputs, Conv, Writable, NtoaText;
    f := Flags(true, '-' in run, '+' in run, ' ' in run, '#' in run, true, prec.Some?);
    var d := Integer(word, false, 16, PrecisionOf(prec), 16, f);
    PointerDirective(SpecWritten(run, width, prec, length, 'p'), word, more);
    OneConversion(run, width, prec, length, 'p', [Number(word)] + more, d, 1);
  }

  lemma PointerDirective(spec: Spec, word: Word, more: seq<Arg>)
    requires spec.kind == 'p'
    ensures var f := spec.flags.(zeropad := true, upper := true);
            Convert(spec, [Number(word)] + more) == Some(Converted(Integer(word, false, 16, spec.prec, 16, f), 1))
  {
  }

  lemma SixteenNumerals(word: Word)
    ensures DigitCount(word, 16) <= 16
  {
    assert Pow(16, 4) == 0x1_0000;
    assert Pow(16, 8) == 0x1_0000_0000;
    assert Pow(16, 12) == 0x1_0000_0000_0000;
    assert Pow(16, 16) == 0x1_0000_0000_0000_0000;
    DigitCountBelow(word, 16, 16);
  }

  lemma {:induction false} DigitCountBelow(value: nat, base: nat, n: nat)
    requires 2 <= base && 1 <= n && value < Pow(base, n)
    ensures DigitCount(value, base) <= n
  {
    if value >= base {
      QuotientBelow(value, base, Pow(base, n - 1));
      DigitCountBelow(value / base, base, n - 1);
    }
  }

  // What %d, %i and %u print is read back by _atoi from its first digit.
  lemma DecimalsAreReadBack(run: string, width: nat, prec: Option<nat>, length: string, kind: char, word: Word,
                            more: seq<Arg>)
    returns (v: int, text: string, start: nat, end: nat)
    requires Writable(run, width, prec, length) && (kind == 'd' || kind == 'i' || kind == 'u')
    ensures if kind == 'u' then v == word % RangeOf(length) else TwosComplement(v, word, length)
    ensures Outputs(Conv(run, width, prec, length, kind), [Number(word)] + more, 1, text)
    ensures ReadsAs(text, start, end, (if v < 0 then -v else v) % 0x1_0000_0000)
  {
    hide Outputs, Conv, Writable, NtoaText;
    if kind == 'u' {
      var f;
      v, f := UnsignedConverts(run, width, prec, length, kind, 10, word, more);
      text := NtoaText(v, false, 10, PrecisionOf(prec), width, f);
      start, end := DecimalReadsBackExactlyWhen(v, false, PrecisionOf(prec), width, f);
    } else {
      var f;
      v, f := SignedConverts(run, width, prec, length, kind, word, more);
      var magnitude := if v < 0 then -v else v;
      text := NtoaText(magnitude, v < 0, 10, PrecisionOf(prec), width, f);
      start, end := DecimalReadsBackExactlyWhen(magnitude, v < 0, PrecisionOf(prec), width, f);
    }
  }

  // For example %d prints 27 as 27.
  lemma DecimalExample(more: seq<Arg>)
    ensures Outputs("%d", [Number(27)] + more, 1, "27")
  {
    assert Conv("", 0, None, "", 'd') == "%d";
    var v, digits := SignedPrints("", 0, None, "", 'd', 27, more);
    TwentySeven(v);
    SpellingIsUnique(digits, "27", 27, 10, false);
    assert "" + digits == digits && Justified(false, false, 0, digits) == digits;
  }

  lemma TwentySeven(v: int)
    requires TwosComplement(v, 27, "")
    ensures v == 27 && DigitCount(27, 10) == 2 && Spells("27", 27, 10, false)
  {
    assert "27"[..1] == "2" && "2"[..0] == "";
    assert NumberOf("2", 10) == 2;
  }

  // ---------- text ----------

  // %s: the first characters of the string, as many as the precision if there is
  // one, in a field of spaces.
  lemma TextPrints(run: string, width: nat, prec: Option<nat>, length: string, s: CString, more: seq<Arg>)
    requires Writable(run, width, prec, length)
    ensures var shown := if prec.Some? && prec.value < |s| then s[..prec.value] else s;
            Outputs(Conv(run, width, prec, length, 's'), [Pointed(s)] + more, 1,
                    Justified('-' in run, false, width, shown))
  {
    hide Outputs, Writable, Conv;
    var args := [Pointed(s)] + more;
    var d := Text(s, width, PrecisionOf(prec), '-' in run, prec.Some?);
    TextConverts(run, width, prec, length, s, more);
    OneConversion(run, width, prec, length, 's', args, d, 1);
    TextDirectiveIs(s, width, PrecisionOf(prec), '-' in run, prec.Some?);
  }

  lemma TextConverts(run: string, width: nat, prec: Option<nat>, length: string, s: CString, more: seq<Arg>)
    ensures var d := Text(s, width, PrecisionOf(prec), '-' in run, prec.Some?);
            Convert(SpecWritten(run, width, prec, length, 's'), [Pointed(s)] + more) == Some(Converted(d, 1))
  {
  }

  lemma TextDirectiveIs(s: string, width: nat, prec: nat, left: bool, precision: bool)
    ensures DirectiveText(Text(s, width, prec, left, precision))
         == Justified(left, false, width, if precision && prec < |s| then s[..prec] else s)
  {
    assert s[..|s|] == s;
    Surrounded(left, width, if precision && prec < |s| then s[..prec] else s);
  }

  lemma Surrounded(left: bool, width: nat, text: string)
    ensures Repeat(' ', if left then 0 else width - |text|) + text + Repeat(' ', if left then width - |text| else 0)
         == Justified(left, false, width, text)
  {
    assert Repeat(' ', 0) == "" && "" + text == text;
    if left {
      assert Repeat(' ', 0) + text + Repeat(' ', width - |text|) == text + Repeat(' ', width - |text|);
    } else {
      assert Repeat(' ', width - |text|) + text + Repeat(' ', 0) == Repeat(' ', width - |text|) + text;
    }
  }

  // In particular %s prints the string.
  lemma PlainTextPrints(s: CString, more: seq<Arg>)
    ensures Outputs("%s", [Pointed(s)] + more, 1, s)
  {
    assert Conv("", 0, None, "", 's') == "%s";
    TextPrints("", 0, None, "", s, more);
    assert Justified(false, false, 0, s) == s;
  }

  // %c: one character, the low part of the argument, in a field of spaces.
  lemma CharacterPrints(run: string, width: nat, prec: Option<nat>, length: string, word: Word, more: seq<Arg>)
    requires Writable(run, width, prec, length)
    ensures Outputs(Conv(run, width, prec, length, 'c'), [Number(word)] + more, 1,
                    Justified('-' in run, false, width, [(word % 0x100) as char]))
  {
    hide Outputs, Writable, Conv;
    var args := [Number(word)] + more;
    var c := (word % 0x100) as char;
    CharacterConverts(run, width, prec, length, word, more);
    OneConversion(run, width, prec, length, 'c', args, Character(c, width, '-' in run), 1);
    CharacterDirectiveIs(c, width, '-' in run);
  }

  lemma CharacterConverts(run: string, width: nat, prec: Option<nat>, length: string, word: Word, more: seq<Arg>)
    ensures Convert(SpecWritten(run, width, prec, length, 'c'), [Number(word)] + more)
         == Some(Converted(Character((word % 0x100) as char, width, '-' in run), 1))
  {
  }

  lemma CharacterDirectiveIs(c: char, width: nat, left: bool)
    ensures DirectiveText(Character(c, width, left)) == Justified(left, false, width, [c])
  {
    Surrounded(left, width, [c]);
  }

  // A field of spaces is as wide as asked for, or as its text if that is wider,
  // and has the text at one end.
  lemma FieldIs(left: bool, width: nat, text: string)
    ensures var f := Justified(left, false, width, text);
            && |f| == Max(width, |text|)
            && (if left then text <= f && forall k :: |text| <= k < |f| ==> f[k] == ' '
                else f[|f| - |text|..] == text && forall k :: 0 <= k < |f| - |text| ==> f[k] == ' ')
  {
    var f := Justified(left, false, width, text);
    if !left {
      assert f[|f| - |text|..] == text;
    }
  }

  // Any other specifier prints itself, a percent sign among them, whatever stands
  // before it, and takes no argument.
  lemma OthersPrintThemselves(run: string, width: nat, prec: Option<nat>, length: string, kind: char, args: seq<Arg>)
    requires Writable(run, width, prec, length) && IsKind(kind)
    requires kind !in "diuxXobcspfFeEgG"
    ensures Outputs(Conv(run, width, prec, length, kind), args, 0, [kind])
  {
    var spec := SpecWritten(run, width, prec, length, kind);
    assert Convert(spec, args) == Some(Converted(Literal(kind), 0));
    OneConversion(run, width, prec, length, kind, args, Literal(kind), 0);
  }

  // ---------- widths and precisions from the arguments ----------

  // The first format prints what the second does, and takes m more arguments.
  ghost predicate PrintsLike(f1: string, args1: seq<Arg>, f2: string, args2: seq<Arg>, m: nat) {
    Interpret(f2, args2).Some? ==>
      var i := Interpret(f2, args2).value;
      Interpret(f1, args1) == Some(Interpretation(i.directives, m + i.args))
  }

  // A conversion behind its percent sign, and what follows it in the format.
  lemma BehindPercent(format: string, args: seq<Arg>, c: Conversion)
    requires format != "" && format[0] == '%' && Parsed(format[1..], args) == Some(c)
    ensures Interpret(format, args).Some? ==> Directed(Some(c), args).Some?
    ensures Directed(Some(c), args).Some? ==>
              var f := Directed(Some(c), args).value;
              && f.chars == 1 + c.chars && f.chars <= |format| && f.args <= |args|
              && Interpret(format, args) == Then(f.directive, f.args, Interpret(format[f.chars..], args[f.args..]))
  {
    hide Parsed, Directed;
    assert FirstOf(format, args) == Directed(Some(c), args);
  }

  // Two formats that continue in the same way behind conversions with the same
  // specification, the first of which takes m more arguments.
  lemma SameConversion(f1: string, args1: seq<Arg>, c1: Conversion, f2: string, args2: seq<Arg>, c2: Conversion, m: nat)
    requires f1 != "" && f1[0] == '%' && Parsed(f1[1..], args1) == Some(c1)
    requires f2 != "" && f2[0] == '%' && Parsed(f2[1..], args2) == Some(c2)
    requires c1.spec == c2.spec && f1[1 + c1.chars..] == f2[1 + c2.chars..]
    requires m <= |args1| && args1[m..] == args2 && c1.args == m + c2.args
    requires Interpret(f2, args2).Some?
    ensures Interpret(f1, args1)
         == Some(Interpretation(Interpret(f2, args2).value.directives, m + Interpret(f2, args2).value.args))
  {
    hide Parsed, Directed, Interpret;
    BehindPercent(f1, args1, c1);
    BehindPercent(f2, args2, c2);
    SameDirected(c1, args1, c2, args2, m);
    Dropped(args1, m, Directed(Some(c2), args2).value.args);
  }

  lemma SameDirected(c1: Conversion, args1: seq<Arg>, c2: Conversion, args2: seq<Arg>, m: nat)
    requires c1.spec == c2.spec && m <= |args1| && args1[m..] == args2
    requires c1.args == m + c2.args && c2.args <= |args2| && Directed(Some(c2), args2).Some?
    ensures Directed(Some(c1), args1).Some?
    ensures var d1, d2 := Directed(Some(c1), args1).value, Directed(Some(c2), args2).value;
            d1.directive == d2.directive && d1.args == m + d2.args
  {
    hide Convert;
    Dropped(args1, m, c2.args);
  }

  lemma SignFlag(run: string, negative: bool)
    requires forall k :: 0 <= k < |run| ==> IsFlag(run[k])
    ensures var run' := run + if negative then "-" else "";
            && (forall k :: 0 <= k < |run'| ==> IsFlag(run'[k]))
            && FlagsIn(run') == FlagsIn(run).(left := FlagsIn(run).left || negative)
  {
    if negative {
      var run' := run + "-";
      assert run'[|run|] == '-';
      assert forall c :: c in run' <==> c in run || c == '-';
    } else {
      assert run + "" == run;
    }
  }

  lemma BehindTwice(a: nat, m: nat, b: nat, n: nat, c: Option<Conversion>)
    ensures Behind(a, m, Behind(b, n, c)) == Behind(a + b, m + n, c)
  {
  }

  // A written width.
  lemma WrittenWidth(run: string, width: nat, rest: string, args: seq<Arg>)
    requires (forall k :: 0 <= k < |run| ==> IsFlag(run[k])) && width < LONG_RANGE
    requires rest != "" && !IsDigit(rest[0]) && rest[0] != '*' && !IsFlag(rest[0])
    ensures var f := Field.Field(width % UINT_RANGE, |WidthText(width)|, 0);
            Parsed(run + WidthText(width) + rest, args)
            == Behind(|run + WidthText(width)|, 0, ParsedFromPrecision(FlagsIn(run), f, rest, args))
  {
    hide WidthText, FlagsIn, ParsedFromPrecision;
    var a := WidthText(width);
    var f := Field.Field(width % UINT_RANGE, |a|, 0);
    BehindFlags(width, rest);
    FlagsReadBack(run, a + rest);
    IsJoined(run, a + rest);
    WidthFieldReadsBack(width, rest, args);
    IsJoined(a, rest);
    assert args[0..] == args && run + a + rest == run + (a + rest);
    BehindTwice(|run|, 0, |a|, 0, ParsedFromPrecision(FlagsIn(run), f, rest, args));
  }

  // A star for a width.
  lemma StarredWidth(run: string, word: Word, rest: string, args: seq<Arg>)
    requires forall k :: 0 <= k < |run| ==> IsFlag(run[k])
    ensures var f := Field.Field(Signed(word, INT_RANGE), 1, 1);
            Parsed(run + "*" + rest, [Number(word)] + args)
            == Behind(|run + "*"|, 1, ParsedFromPrecision(FlagsIn(run), f, rest, args))
  {
    hide FlagsIn, ParsedFromPrecision, Signed;
    var f := Field.Field(Signed(word, INT_RANGE), 1, 1);
    FlagsReadBack(run, "*" + rest);
    IsJoined(run, "*" + rest);
    IsJoined("*", rest);
    DigitRunIs("*" + rest, 0);
    assert ([Number(word)] + args)[1..] == args && run + "*" + rest == run + ("*" + rest);
    BehindTwice(|run|, 0, 1, 1, ParsedFromPrecision(FlagsIn(run), f, rest, args));
  }

  // The same flags and width, however they came about.
  lemma SameSoFar(f1: Flags, w1: Field, f2: Flags, w2: Field, s: string, args: seq<Arg>)
    requires f1.(left := f1.left || w1.value < 0) == f2.(left := f2.left || w2.value < 0)
    requires Abs(w1.value) == Abs(w2.value)
    ensures ParsedFromPrecision(f1, w1, s, args) == ParsedFromPrecision(f2, w2, s, args)
  {
    hide PrecisionField, SizeIn;
    if PrecisionField(s, args).Some? {
      var p := PrecisionField(s, args).value;
      SameSpec(f1, w1, f2, w2, p, s[p.chars..]);
    }
  }

  lemma SameSpec(f1: Flags, w1: Field, f2: Flags, w2: Field, p: Field, s: string)
    requires f1.(left := f1.left || w1.value < 0) == f2.(left := f2.left || w2.value < 0)
    requires Abs(w1.value) == Abs(w2.value) && 0 <= p.value
    ensures ParsedFromSize(f1, w1, p, s) == ParsedFromSize(f2, w2, p, s)
  {
    var f := f1.(left := f1.left || w1.value < 0, precision := p.chars > 0);
    assert f == f2.(left := f2.left || w2.value < 0, precision := p.chars > 0);
  }

  // Two conversions that continue with the same rest, to which the first comes
  // having taken m more arguments.
  lemma Continues(x1: string, x2: string, rest: string, args1: seq<Arg>, args2: seq<Arg>, m: nat,
                  c: Option<Conversion>)
    requires c.Some? ==> c.value.chars <= |rest|
    requires Parsed(x1 + rest, args1) == Behind(|x1|, m, c) && Parsed(x2 + rest, args2) == Behind(|x2|, 0, c)
    requires m <= |args1| && args1[m..] == args2
    ensures PrintsLike("%" + (x1 + rest), args1, "%" + (x2 + rest), args2, m)
  {
    hide Parsed, Interpret;
    var f1, f2 := "%" + (x1 + rest), "%" + (x2 + rest);
    assert f1[1..] == x1 + rest && f2[1..] == x2 + rest;
    if Interpret(f2, args2).Some? {
      SomeConversion(f2, args2);
      var k := c.value.chars;
      var c1 := Conversion(c.value.spec, |x1| + k, m + c.value.args);
      var c2 := Conversion(c.value.spec, |x2| + k, c.value.args);
      DropFront("%" + x1, rest, k);
      DropFront("%" + x2, rest, k);
      assert f1 == ("%" + x1) + rest && f2 == ("%" + x2) + rest;
      SameConversion(f1, args1, c1, f2, args2, c2, m);
    }
  }

  lemma DropFront(a: string, b: string, k: nat)
    requires k <= |b|
    ensures (a + b)[|a| + k..] == b[k..]
  {
  }

  lemma SomeConversion(format: string, args: seq<Arg>)
    requires format != "" && format[0] == '%' && Interpret(format, args).Some?
    ensures Parsed(format[1..], args).Some?
  {
  }

  // A star for the width is the int argument v in its place: written out, with
  // the flag for left-justified if v is negative.
  lemma StarIsWidth(run: string, word: Word, rest: string, args: seq<Arg>) returns (v: int)
    requires forall k :: 0 <= k < |run| ==> IsFlag(run[k])
    requires rest != "" && !IsDigit(rest[0]) && rest[0] != '*' && !IsFlag(rest[0])
    ensures TwosComplement(v, word, "") && -0x8000_0000 <= v < 0x8000_0000
    ensures var magnitude := if v < 0 then -v else v;
            var written := "%" + ((run + if v < 0 then "-" else "") + WidthText(magnitude) + rest);
            PrintsLike("%" + (run + "*" + rest), [Number(word)] + args, written, args, 1)
  {
    v := StarValue(word);
    hide Signed, TwosComplement, WidthText, ParsedFromPrecision, Parsed, PrintsLike, FlagsIn;
    var run' := run + if v < 0 then "-" else "";
    var magnitude := if v < 0 then -v else v;
    SignFlag(run, v < 0);
    var w, f := Field.Field(magnitude, |WidthText(magnitude)|, 0), Field.Field(v, 1, 1);
    BelowRange(magnitude);
    WrittenWidth(run', magnitude, rest, args);
    StarredWidth(run, word, rest, args);
    SameSoFar(FlagsIn(run), f, FlagsIn(run'), w, rest, args);
    assert ([Number(word)] + args)[1..] == args;
    Continues(run + "*", run' + WidthText(magnitude), rest, [Number(word)] + args, args, 1,
              ParsedFromPrecision(FlagsIn(run), f, rest, args));
  }

  lemma StarValue(word: Word) returns (v: int)
    ensures v == Signed(word, INT_RANGE) && TwosComplement(v, word, "") && -0x8000_0000 <= v < 0x8000_0000
  {
    v := Signed(word, INT_RANGE);
    SignedArgIs(word, "");
  }

  lemma WrittenPrecision(flags: Flags, w: Field, n: nat, rest: string, args: seq<Arg>)
    requires n < UINT_RANGE && rest != "" && !IsDigit(rest[0])
    ensures var a := "." + DecimalText(n);
            ParsedFromPrecision(flags, w, a + rest, args)
            == Behind(|a|, 0, ParsedFromSize(flags, w, Field.Field(n, |a|, 0), rest))
  {
    hide DecimalText, ParsedFromSize;
    var a := "." + DecimalText(n);
    NumberReadsBack(n, rest, args);
    BelowRange(n);
    assert (a + rest)[1..] == DecimalText(n) + rest;
    IsJoined(a, rest);
    assert PrecisionField(a + rest, args) == Some(Field.Field(n, |a|, 0));
  }

  lemma StarredPrecision(flags: Flags, w: Field, word: Word, rest: string, args: seq<Arg>)
    ensures var n := if Signed(word, INT_RANGE) < 0 then 0 else Signed(word, INT_RANGE);
            ParsedFromPrecision(flags, w, ".*" + rest, [Number(word)] + args)
            == Behind(2, 1, ParsedFromSize(flags, w, Field.Field(n, 2, 1), rest))
  {
    hide ParsedFromSize, Signed;
    var t := ".*" + rest;
    assert t[1..] == "*" + rest && t[2..] == rest;
    DigitRunIs("*" + rest, 0);
    var n := if Signed(word, INT_RANGE) < 0 then 0 else Signed(word, INT_RANGE);
    assert PrecisionField(t, [Number(word)] + args) == Some(Field.Field(n, 2, 1));
  }

  lemma SameSize(flags: Flags, w: Field, p1: Field, p2: Field, s: string)
    requires p1.value == p2.value && 0 <= p1.value && p1.chars > 0 && p2.chars > 0
    ensures ParsedFromSize(flags, w, p1, s) == ParsedFromSize(flags, w, p2, s)
  {
  }

  // A star for the precision is the int argument in its place, or zero if that is
  // negative.
  lemma StarIsPrecision(run: string, width: nat, word: Word, rest: string, args: seq<Arg>) returns (v: int)
    requires (forall k :: 0 <= k < |run| ==> IsFlag(run[k])) && width < LONG_RANGE
    requires rest != "" && !IsDigit(rest[0])
    ensures TwosComplement(v, word, "") && -0x8000_0000 <= v < 0x8000_0000
    ensures var front := run + WidthText(width);
            var written := "%" + (front + ("." + DecimalText(if v < 0 then 0 else v)) + rest);
            PrintsLike("%" + (front + ".*" + rest), [Number(word)] + args, written, args, 1)
  {
    v := StarValue(word);
    hide Signed, TwosComplement, WidthText, DecimalText, ParsedFromPrecision, ParsedFromSize, Parsed, PrintsLike,
         FlagsIn;
    var n := if v < 0 then 0 else v;
    var front, a, args1 := run + WidthText(width), "." + DecimalText(n), [Number(word)] + args;
    var flags, w := FlagsIn(run), Field.Field(width % UINT_RANGE, |WidthText(width)|, 0);
    WrittenWidth(run, width, a + rest, args);
    WrittenWidth(run, width, ".*" + rest, args1);
    WrittenPrecision(flags, w, n, rest, args);
    StarredPrecision(flags, w, word, rest, args);
    SameSize(flags, w, Field.Field(n, 2, 1), Field.Field(n, |a|, 0), rest);
    var c := ParsedFromSize(flags, w, Field.Field(n, |a|, 0), rest);
    BehindTwice(|front|, 0, |a|, 0, c);
    BehindTwice(|front|, 0, 2, 1, c);
    assert front + a + rest == front + (a + rest) && front + ".*" + rest == front + (".*" + rest);
    assert args1[1..] == args;
    Continues(front + ".*", front + a, rest, args1, args, 1, c);
  }

  // A point without a precision behind it is the precision zero.
  lemma BarePointIsZero(run: string, width: nat, rest: string, args: seq<Arg>)
    requires (forall k :: 0 <= k < |run| ==> IsFlag(run[k])) && width < LONG_RANGE
    requires rest != "" && !IsDigit(rest[0]) && rest[0] != '*'
    ensures var front := run + WidthText(width);
            var written := "%" + (front + ("." + DecimalText(0)) + rest);
            PrintsLike("%" + (front + "." + rest), args, written, args, 0)
  {
    hide WidthText, DecimalText, ParsedFromPrecision, ParsedFromSize, Parsed, PrintsLike, FlagsIn;
    var front, a := run + WidthText(width), "." + DecimalText(0);
    var flags, w := FlagsIn(run), Field.Field(width % UINT_RANGE, |WidthText(width)|, 0);
    WrittenWidth(run, width, a + rest, args);
    WrittenWidth(run, width, "." + rest, args);
    WrittenPrecision(flags, w, 0, rest, args);
    BarePrecision(flags, w, rest, args);
    SameSize(flags, w, Field.Field(0, 1, 0), Field.Field(0, |a|, 0), rest);
    var c := ParsedFromSize(flags, w, Field.Field(0, |a|, 0), rest);
    BehindTwice(|front|, 0, |a|, 0, c);
    BehindTwice(|front|, 0, 1, 0, c);
    assert front + a + rest == front + (a + rest) && front + "." + rest == front + ("." + rest);
    assert args[0..] == args;
    Continues(front + ".", front + a, rest, args, args, 0, c);
  }

  lemma BarePrecision(flags: Flags, w: Field, rest: string, args: seq<Arg>)
    requires rest != "" && !IsDigit(rest[0]) && rest[0] != '*'
    ensures ParsedFromPrecision(flags, w, "." + rest, args)
         == Behind(1, 0, ParsedFromSize(flags, w, Field.Field(0, 1, 0), rest))
  {
    hide ParsedFromSize;
    var t := "." + rest;
    assert t[1..] == rest && args[0..] == args;
    DigitRunIs(rest, 0);
    assert PrecisionField(t, args) == Some(Field.Field(0, 1, 0));
  }
}
