// The format interpreter of example/simple/printf.c: _vsnprintf from the format
// string and the arguments on, for the integer, character and string specifiers.
//
// An argument is a 64-bit word or a string; int is 32 bits wide, long, size_t and
// pointers are 64, and plain char is unsigned, as on AArch64.
module Format {
  import opened Printf

  const INT_RANGE: nat := 0x1_0000_0000
  const LONG_RANGE: nat := 0x1_0000_0000_0000_0000

  type Word = x: nat | x < 0x1_0000_0000_0000_0000

  // A string ends at its first NUL.
  type CString = s: string | '\0' !in s

  datatype Option<T> = None | Some(value: T)

  datatype Arg = Number(word: Word) | Pointed(s: CString)

  datatype Size = Plain | Short | Char | Long

  // %[flags][width][.precision][length]kind
  datatype Spec = Spec(flags: Flags, width: nat, prec: nat, size: Size, kind: char)

  // The low part of a word as a signed number.
  function Signed(word: nat, range: nat): int
    requires 0 < range
  {
    var low := word % range;
    if 2 * low >= range then low - range else low
  }

  function Abs(x: int): nat {
    if x < 0 then -x else x
  }

  // ---------- the parts of a conversion ----------

  predicate IsFlag(c: char) {
    c == '0' || c == '-' || c == '+' || c == ' ' || c == '#'
  }

  function FlagRun(s: string): (n: nat)
    ensures n <= |s|
    ensures forall k :: 0 <= k < n ==> IsFlag(s[k])
    ensures n < |s| ==> !IsFlag(s[n])
  {
    if s == "" || !IsFlag(s[0]) then 0 else 1 + FlagRun(s[1..])
  }

  lemma {:induction false} FlagRunIs(s: string, n: nat)
    requires n <= |s| && (forall k :: 0 <= k < n ==> IsFlag(s[k])) && (n < |s| ==> !IsFlag(s[n]))
    ensures FlagRun(s) == n
  {
    if n > 0 {
      assert IsFlag(s[0]);
      FlagRunIs(s[1..], n - 1);
    }
  }

  // The order and the number of the flags do not matter.
  function FlagsIn(run: string): Flags {
    Flags('0' in run, '-' in run, '+' in run, ' ' in run, '#' in run, false, false)
  }

  // A number in the format or, for a star, from the arguments.
  datatype Field = Field(value: int, chars: nat, args: nat)

  function NumberField(s: string, args: seq<Arg>): (f: Option<Field>)
    ensures f.Some? ==> f.value.chars <= |s| && f.value.args <= |args|
  {
    if DigitRun(s) > 0 then Some(Field(AtoiOf(s[..DigitRun(s)]), DigitRun(s), 0))
    else if s == "" || s[0] != '*' then Some(Field(0, 0, 0))
    else if args != [] && args[0].Number? then Some(Field(Signed(args[0].word, INT_RANGE), 1, 1))
    else None
  }

  function PrecisionField(s: string, args: seq<Arg>): (f: Option<Field>)
    ensures f.Some? ==> f.value.chars <= |s| && f.value.args <= |args| && 0 <= f.value.value
  {
    if s == "" || s[0] != '.' then Some(Field(0, 0, 0))
    else
      match NumberField(s[1..], args)
      case None => None
      case Some(f) => Some(Field(if f.value > 0 then f.value else 0, f.chars + 1, f.args))
  }

  datatype SizeField = SizeField(size: Size, chars: nat)

  function SizeIn(s: string): (f: SizeField)
    ensures f.chars <= |s|
  {
    if s == "" then SizeField(Plain, 0)
    else if s[0] == 'l' then SizeField(Long, if |s| > 1 && s[1] == 'l' then 2 else 1)
    else if s[0] == 'h' then if |s| > 1 && s[1] == 'h' then SizeField(Char, 2) else SizeField(Short, 1)
    else if s[0] == 't' || s[0] == 'j' || s[0] == 'z' then SizeField(Long, 1)
    else SizeField(Plain, 0)
  }

  // What stands behind a percent sign: the specification, and how many
  // characters and arguments it takes.
  datatype Conversion = Conversion(spec: Spec, chars: nat, args: nat)

  // A conversion behind some more characters and arguments.
  function Behind(chars: nat, args: nat, c: Option<Conversion>): Option<Conversion> {
    match c
    case None => None
    case Some(v) => Some(Conversion(v.spec, chars + v.chars, args + v.args))
  }

  // Nothing, if the format ends inside it or a star finds no number.
  function Parsed(s: string, args: seq<Arg>): (c: Option<Conversion>)
    ensures c.Some? ==> 0 < c.value.chars <= |s| && c.value.args <= |args|
  {
    var n := FlagRun(s);
    Behind(n, 0, ParsedFromWidth(FlagsIn(s[..n]), s[n..], args))
  }

  function ParsedFromWidth(flags: Flags, s: string, args: seq<Arg>): (c: Option<Conversion>)
    ensures c.Some? ==> 0 < c.value.chars <= |s| && c.value.args <= |args|
  {
    match NumberField(s, args)
    case None => None
    case Some(f) => Behind(f.chars, f.args, ParsedFromPrecision(flags, f, s[f.chars..], args[f.args..]))
  }

  function ParsedFromPrecision(flags: Flags, width: Field, s: string, args: seq<Arg>): (c: Option<Conversion>)
    ensures c.Some? ==> 0 < c.value.chars <= |s| && c.value.args <= |args|
  {
    match PrecisionField(s, args)
    case None => None
    case Some(f) => Behind(f.chars, f.args, ParsedFromSize(flags, width, f, s[f.chars..]))
  }

  function ParsedFromSize(flags: Flags, width: Field, prec: Field, s: string): (c: Option<Conversion>)
    requires 0 <= prec.value
    ensures c.Some? ==> 0 < c.value.chars <= |s| && c.value.args == 0
  {
    var size := SizeIn(s);
    if size.chars == |s| then None
    else Some(Conversion(SpecOf(flags, width, prec, size.size, s[size.chars]), size.chars + 1, 0))
  }

  // A negative width from the arguments means left-justified.
  function SpecOf(flags: Flags, width: Field, prec: Field, size: Size, kind: char): Spec
    requires 0 <= prec.value
  {
    Spec(flags.(left := flags.left || width.value < 0, precision := prec.chars > 0),
         Abs(width.value), prec.value, size, kind)
  }

  // ---------- what a conversion prints ----------

  function SignedArg(word: Word, size: Size): int {
    match size
    case Plain => Signed(word, INT_RANGE)
    case Short => Signed(word, 0x1_0000)
    case Char => word % 0x100
    case Long => Signed(word, LONG_RANGE)
  }

  function UnsignedArg(word: Word, size: Size): nat {
    match size
    case Plain => word % INT_RANGE
    case Short => word % 0x1_0000
    case Char => word % 0x100
    case Long => word
  }

  predicate IsSigned(kind: char) {
    kind == 'd' || kind == 'i'
  }

  predicate IsUnsigned(kind: char) {
    kind == 'u' || kind == 'x' || kind == 'X' || kind == 'o' || kind == 'b'
  }

  predicate IsFloat(kind: char) {
    kind == 'f' || kind == 'F' || kind == 'e' || kind == 'E' || kind == 'g' || kind == 'G'
  }

  function BaseOf(kind: char): (base: nat)
    ensures 2 <= base <= 16
  {
    if kind == 'x' || kind == 'X' then 16 else if kind == 'o' then 8 else if kind == 'b' then 2 else 10
  }

  // The flags as the integer specifiers adjust them.
  function IntegerFlags(flags: Flags, kind: char): Flags {
    flags.(hash := flags.hash && BaseOf(kind) != 10,
           upper := kind == 'X',
           plus := flags.plus && IsSigned(kind),
           space := flags.space && IsSigned(kind),
           zeropad := flags.zeropad && !flags.precision)
  }

  datatype Converted = Converted(directive: Directive, args: nat)

  // Nothing, if the argument is missing or of the wrong sort, and for floating
  // point.
  function Convert(spec: Spec, args: seq<Arg>): (c: Option<Converted>)
    ensures c.Some? ==> c.value.args <= |args| && c.value.directive.Ok()
  {
    var f, kind := spec.flags, spec.kind;
    if IsFloat(kind) then None
    else if IsSigned(kind) || IsUnsigned(kind) || kind == 'c' || kind == 'p' then
      if args == [] || !args[0].Number? then None
      else Some(Converted(NumberDirective(spec, args[0].word), 1))
    else if kind == 's' then
      if args == [] || !args[0].Pointed? then None
      else Some(Converted(Text(args[0].s, spec.width, spec.prec, f.left, f.precision), 1))
    else
      Some(Converted(Literal(kind), 0))
  }

  function NumberDirective(spec: Spec, word: Word): (d: Directive)
    ensures d.Ok()
  {
    var f, kind := spec.flags, spec.kind;
    if kind == 'c' then Character((word % 0x100) as char, spec.width, f.left)
    else if kind == 'p' then Integer(word, false, 16, spec.prec, 16, f.(zeropad := true, upper := true))
    else
      var value := if IsSigned(kind) then SignedArg(word, spec.size) else UnsignedArg(word, spec.size);
      Integer(Abs(value), value < 0, BaseOf(kind), spec.prec, spec.width, IntegerFlags(f, kind))
  }

  // ---------- whole formats ----------

  datatype Interpretation = Interpretation(directives: seq<Directive>, args: nat)

  ghost predicate AllOk(ds: seq<Directive>) {
    forall k :: 0 <= k < |ds| ==> ds[k].Ok()
  }

  // A directive and what follows it.
  function Then(d: Directive, args: nat, rest: Option<Interpretation>): Option<Interpretation> {
    match rest
    case None => None
    case Some(r) => Some(Interpretation([d] + r.directives, args + r.args))
  }

  // The first directive of a format, and how much of the format it takes.
  datatype First = First(directive: Directive, chars: nat, args: nat)

  function FirstOf(format: string, args: seq<Arg>): (f: Option<First>)
    requires format != ""
    ensures f.Some? ==> 0 < f.value.chars <= |format| && f.value.args <= |args| && f.value.directive.Ok()
  {
    if format[0] != '%' then Some(First(Literal(format[0]), 1, 0))
    else Directed(Parsed(format[1..], args), args)
  }

  // The directive of a conversion, behind its percent sign.
  function Directed(c: Option<Conversion>, args: seq<Arg>): (f: Option<First>)
    requires c.Some? ==> c.value.args <= |args|
    ensures f.Some? ==> c.Some? && f.value.chars == 1 + c.value.chars
    ensures f.Some? ==> f.value.args <= |args| && f.value.directive.Ok()
  {
    match c
    case None => None
    case Some(c) =>
      match Convert(c.spec, args[c.args..])
      case None => None
      case Some(d) => Some(First(d.directive, 1 + c.chars, c.args + d.args))
  }

  // The directives of a format and the number of arguments they take.
  function Interpret(format: string, args: seq<Arg>): (i: Option<Interpretation>)
    ensures i.Some? ==> i.value.args <= |args| && AllOk(i.value.directives)
    decreases |format|
  {
    if format == "" then Some(Interpretation([], 0))
    else
      match FirstOf(format, args)
      case None => None
      case Some(f) => Then(f.directive, f.args, Interpret(format[f.chars..], args[f.args..]))
  }

  // What a format prints.
  function Printed(format: string, args: seq<Arg>): string
    requires Interpret(format, args).Some?
  {
    FormatText(Interpret(format, args).value.directives)
  }

  // ---------- the interpreter ----------

  // The moving format pointer is what is left of the format.

  // The do-while loop over the flags.
  method ParseFlags(format: string) returns (f: Flags, n: nat)
    ensures n == FlagRun(format) && f == FlagsIn(format[..n])
  {
    n := 0;
    f := Flags(false, false, false, false, false, false, false);
    while n < |format| && IsFlag(format[n])
      invariant n <= |format| && f == FlagsIn(format[..n])
      invariant forall k :: 0 <= k < n ==> IsFlag(format[k])
    {
      assert format[..n + 1] == format[..n] + [format[n]];
      match format[n] {
        case '0' => f := f.(zeropad := true);
        case '-' => f := f.(left := true);
        case '+' => f := f.(plus := true);
        case ' ' => f := f.(space := true);
        case _ => f := f.(hash := true);
      }
      n := n + 1;
    }
    FlagRunIs(format, n);
  }

  method ParseNumber(format: string, args: seq<Arg>) returns (f: Field)
    requires NumberField(format, args).Some?
    ensures Some(f) == NumberField(format, args)
  {
    if format != "" && IsDigit(format[0]) {
      assert format[0..] == format;
      var value, end := Atoi(format, 0);
      f := Field(value, end, 0);
    } else if format != "" && format[0] == '*' {
      f := Field(Signed(args[0].word, INT_RANGE), 1, 1);
    } else {
      f := Field(0, 0, 0);
    }
  }

  method ParsePrecision(format: string, args: seq<Arg>) returns (f: Field)
    requires PrecisionField(format, args).Some?
    ensures Some(f) == PrecisionField(format, args)
  {
    f := Field(0, 0, 0);
    if format != "" && format[0] == '.' {
      f := ParseNumber(format[1..], args);
      f := Field(if f.value > 0 then f.value else 0, f.chars + 1, f.args);
    }
  }

  method Parse(format: string, args: seq<Arg>) returns (c: Conversion)
    requires Parsed(format, args).Some?
    ensures Some(c) == Parsed(format, args)
  {
    hide FlagsIn, FlagRun, ParsedFromWidth;
    var flags, n := ParseFlags(format);
    c := ParseFromWidth(flags, format[n..], args);
    c := Conversion(c.spec, n + c.chars, c.args);
  }

  method ParseFromWidth(flags: Flags, format: string, args: seq<Arg>) returns (c: Conversion)
    requires ParsedFromWidth(flags, format, args).Some?
    ensures Some(c) == ParsedFromWidth(flags, format, args)
  {
    hide NumberField, ParsedFromPrecision;
    var f := ParseNumber(format, args);
    c := ParseFromPrecision(flags, f, format[f.chars..], args[f.args..]);
    c := Conversion(c.spec, f.chars + c.chars, f.args + c.args);
  }

  method ParseFromPrecision(flags: Flags, width: Field, format: string, args: seq<Arg>) returns (c: Conversion)
    requires ParsedFromPrecision(flags, width, format, args).Some?
    ensures Some(c) == ParsedFromPrecision(flags, width, format, args)
  {
    var f := ParsePrecision(format, args);
    var rest := format[f.chars..];
    var size := SizeIn(rest);
    c := Conversion(SpecOf(flags, width, f, size.size, rest[size.chars]), f.chars + size.chars + 1, f.args);
  }

  // The directive at the front.
  method Next(format: string, args: seq<Arg>) returns (f: First)
    requires format != "" && FirstOf(format, args).Some?
    ensures Some(f) == FirstOf(format, args)
  {
    if format[0] != '%' {
      f := First(Literal(format[0]), 1, 0);
    } else {
      var c := Parse(format[1..], args);
      var d := Convert(c.spec, args[c.args..]);
      f := First(d.value.directive, 1 + c.chars, c.args + d.value.args);
    }
  }

  // _vsnprintf. The result does not depend on maxlen, and a buffer with room
  // holds the longest prefix of the output that fits, and a NUL behind it.
  method Vsnprintf(sink: Sink, format: CString, args: seq<Arg>) returns (written: nat)
    requires sink.Valid() && sink.text == "" && Interpret(format, args).Some?
    modifies sink, sink.buffer
    ensures written == |Printed(format, args)|
    ensures sink.maxlen >= 1 ==>
              var kept := if written < sink.maxlen then written else sink.maxlen - 1;
              && sink.maxlen <= sink.buffer.Length
              && sink.buffer[..kept] == Printed(format, args)[..kept] && sink.buffer[kept] == 0 as char
  {
    var idx: nat, rest: string, left := 0, format, args;
    ghost var done: seq<Directive> := [];
    while rest != ""
      invariant sink.Valid() && idx == |sink.text|
      invariant AllOk(done) && sink.text == FormatText(done)
      invariant Interpret(rest, left).Some?
      invariant Interpret(format, args).value.directives == done + Interpret(rest, left).value.directives
      decreases |rest|
    {
      var f := Next(rest, left);
      Regrouped(done, f.directive, rest, left);
      idx := sink.Emit(idx, f.directive);
      OneMoreDirective(done, f.directive);
      done := done + [f.directive];
      rest, left := rest[f.chars..], left[f.args..];
    }
    assert done == Interpret(format, args).value.directives;
    sink.Terminate(idx);
    return idx;
  }

  lemma Regrouped(done: seq<Directive>, d: Directive, format: string, args: seq<Arg>)
    requires format != "" && Interpret(format, args).Some? && FirstOf(format, args).Some?
    requires d == FirstOf(format, args).value.directive
    ensures var f := FirstOf(format, args).value;
            && Interpret(format[f.chars..], args[f.args..]).Some?
            && done + Interpret(format, args).value.directives
            == (done + [d]) + Interpret(format[f.chars..], args[f.args..]).value.directives
  {
    hide FirstOf;
    var f := FirstOf(format, args).value;
    var rest := Interpret(format[f.chars..], args[f.args..]);
    assert Interpret(format, args) == Then(f.directive, f.args, rest);
    assert done + ([d] + rest.value.directives) == (done + [d]) + rest.value.directives;
  }

  lemma OneMoreDirective(ds: seq<Directive>, d: Directive)
    requires AllOk(ds) && d.Ok()
    ensures AllOk(ds + [d]) && FormatText(ds + [d]) == FormatText(ds) + DirectiveText(d)
  {
    assert (ds + [d])[..|ds|] == ds;
  }

  // ---------- formats compose ----------

  // A conversion is parsed the same whatever follows it.
  lemma NumberExtends(s: string, g: string, args: seq<Arg>)
    requires NumberField(s, args).Some? && NumberField(s, args).value.chars < |s|
    ensures NumberField(s + g, args) == NumberField(s, args)
  {
    var n := DigitRun(s);
    assert (s + g)[..n] == s[..n];
    DigitRunIs(s + g, n);
  }

  lemma PrecisionExtends(s: string, g: string, args: seq<Arg>)
    requires PrecisionField(s, args).Some? && PrecisionField(s, args).value.chars < |s|
    ensures PrecisionField(s + g, args) == PrecisionField(s, args)
  {
    if s[0] == '.' {
      assert (s + g)[1..] == s[1..] + g;
      NumberExtends(s[1..], g, args);
    }
  }

  lemma DropAppend(s: string, g: string, n: nat)
    requires n <= |s|
    ensures (s + g)[n..] == s[n..] + g
  {
  }

  lemma SizeExtends(flags: Flags, width: Field, prec: Field, s: string, g: string)
    requires 0 <= prec.value && ParsedFromSize(flags, width, prec, s).Some?
    ensures ParsedFromSize(flags, width, prec, s + g) == ParsedFromSize(flags, width, prec, s)
  {
  }

  lemma FromPrecisionExtends(flags: Flags, width: Field, s: string, g: string, args: seq<Arg>)
    requires ParsedFromPrecision(flags, width, s, args).Some?
    ensures ParsedFromPrecision(flags, width, s + g, args) == ParsedFromPrecision(flags, width, s, args)
  {
    var f := PrecisionField(s, args).value;
    PrecisionExtends(s, g, args);
    DropAppend(s, g, f.chars);
    SizeExtends(flags, width, f, s[f.chars..], g);
  }

  lemma FromWidthExtends(flags: Flags, s: string, g: string, args: seq<Arg>)
    requires ParsedFromWidth(flags, s, args).Some?
    ensures ParsedFromWidth(flags, s + g, args) == ParsedFromWidth(flags, s, args)
  {
    var f := NumberField(s, args).value;
    NumberExtends(s, g, args);
    DropAppend(s, g, f.chars);
    FromPrecisionExtends(flags, f, s[f.chars..], g, args[f.args..]);
  }

  lemma ParsedExtends(s: string, g: string, args: seq<Arg>)
    requires Parsed(s, args).Some?
    ensures Parsed(s + g, args) == Parsed(s, args)
  {
    var n := FlagRun(s);
    FlagRunIs(s + g, n);
    DropAppend(s, g, n);
    assert (s + g)[..n] == s[..n];
    FromWidthExtends(FlagsIn(s[..n]), s[n..], g, args);
  }

  lemma FirstExtends(s: string, g: string, args: seq<Arg>)
    requires s != "" && FirstOf(s, args).Some?
    ensures FirstOf(s + g, args) == FirstOf(s, args)
  {
    if s[0] == '%' {
      DropAppend(s, g, 1);
      ParsedExtends(s[1..], g, args);
    }
  }

  lemma InterpretNothing(args: seq<Arg>)
    ensures Interpret("", args) == Some(Interpretation([], 0))
  {
  }

  // Two formats one behind the other are the directives of the first and then
  // those of the second with the arguments that the first has left.
  lemma {:induction false} InterpretAppend(s: string, g: string, args: seq<Arg>)
    requires Interpret(s, args).Some? && Interpret(g, args[Interpret(s, args).value.args..]).Some?
    ensures var i := Interpret(s, args).value;
            var j := Interpret(g, args[i.args..]).value;
            Interpret(s + g, args) == Some(Interpretation(i.directives + j.directives, i.args + j.args))
    decreases |s|
  {
    hide FirstOf, Interpret;
    if s == "" {
      InterpretNothing(args);
      assert s + g == g && args[0..] == args;
      assert [] + Interpret(g, args).value.directives == Interpret(g, args).value.directives;
    } else {
      FirstThen(s, g, args);
      var f := FirstOf(s, args).value;
      var tail, rest := s[f.chars..], args[f.args..];
      var t := Interpret(tail, rest);
      Dropped(args, f.args, t.value.args);
      InterpretAppend(tail, g, rest);
      ThenAppend(f.directive, f.args, t, Interpret(g, rest[t.value.args..]),
                 Interpret(s, args), Interpret(s + g, args));
    }
  }

  lemma FirstThen(s: string, g: string, args: seq<Arg>)
    requires s != "" && Interpret(s, args).Some?
    ensures FirstOf(s, args).Some?
    ensures var f := FirstOf(s, args).value;
            && Interpret(s[f.chars..], args[f.args..]).Some?
            && Interpret(s, args) == Then(f.directive, f.args, Interpret(s[f.chars..], args[f.args..]))
            && Interpret(s + g, args) == Then(f.directive, f.args, Interpret(s[f.chars..] + g, args[f.args..]))
  {
    FirstExtends(s, g, args);
    DropAppend(s, g, FirstOf(s, args).value.chars);
  }

  lemma Dropped<T>(s: seq<T>, m: nat, n: nat)
    requires m + n <= |s|
    ensures s[m..][n..] == s[m + n..]
  {
  }

  lemma ThenAppend(d: Directive, n: nat, t: Option<Interpretation>, j: Option<Interpretation>,
                   i: Option<Interpretation>, whole: Option<Interpretation>)
    requires t.Some? && j.Some? && i == Then(d, n, t)
    requires whole == Then(d, n, Some(Interpretation(t.value.directives + j.value.directives,
                                                     t.value.args + j.value.args)))
    ensures i.Some?
    ensures whole == Some(Interpretation(i.value.directives + j.value.directives, i.value.args + j.value.args))
  {
    var a, b := t.value.directives, j.value.directives;
    assert [d] + (a + b) == ([d] + a) + b;
  }

  lemma {:induction false} FormatTextAppend(a: seq<Directive>, b: seq<Directive>)
    requires AllOk(a) && AllOk(b)
    ensures AllOk(a + b) && FormatText(a + b) == FormatText(a) + FormatText(b)
    decreases |b|
  {
    hide DirectiveText;
    if b == [] {
      assert a + b == a;
    } else {
      var front, last := b[..|b| - 1], b[|b| - 1];
      assert AllOk(a + front);
      FormatTextAppend(a, front);
      assert a + b == (a + front) + [last] && b == front + [last];
      OneMoreDirective(a + front, last);
      OneMoreDirective(front, last);
      Grouped(FormatText(a), FormatText(front), DirectiveText(last));
    }
  }

  lemma Grouped(a: string, b: string, c: string)
    ensures (a + b) + c == a + (b + c)
  {
  }

  // So printing is compositional.
  lemma PrintedAppend(s: string, g: string, args: seq<Arg>)
    requires Interpret(s, args).Some? && Interpret(g, args[Interpret(s, args).value.args..]).Some?
    ensures Interpret(s + g, args).Some?
    ensures Printed(s + g, args) == Printed(s, args) + Printed(g, args[Interpret(s, args).value.args..])
  {
    var i := Interpret(s, args).value;
    InterpretAppend(s, g, args);
    FormatTextAppend(i.directives, Interpret(g, args[i.args..]).value.directives);
  }

  // Text without percent signs prints itself and takes no arguments.
  lemma {:induction false} PlainTextPrintsItself(s: string, args: seq<Arg>)
    requires '%' !in s
    ensures Interpret(s, args).Some? && Interpret(s, args).value.args == 0 && Printed(s, args) == s
  {
    if s == "" {
    } else {
      PlainTextPrintsItself(s[1..], args);
      assert args[0..] == args;
      var i := Interpret(s[1..], args).value;
      assert Interpret(s, args) == Some(Interpretation([Literal(s[0])] + i.directives, 0));
      FormatTextAppend([Literal(s[0])], i.directives);
      assert FormatText([Literal(s[0])]) == [s[0]];
    }
  }

  // ---------- conversions are read back ----------

  function WidthText(width: nat): string {
    if width == 0 then "" else DecimalText(width)
  }

  function PrecisionText(prec: Option<nat>): string {
    if prec.None? then "" else "." + DecimalText(prec.value)
  }

  predicate IsLength(t: string) {
    t == "" || t == "h" || t == "hh" || t == "l" || t == "ll" || t == "t" || t == "j" || t == "z"
  }

  function SizeOf(length: string): Size {
    if length == "" then Plain else if length == "h" then Short else if length == "hh" then Char else Long
  }

  // A specifier that no earlier part of a conversion takes for its own.
  predicate IsKind(kind: char) {
    && !IsDigit(kind) && !IsFlag(kind) && kind != '.' && kind != '*'
    && kind != 'l' && kind != 'h' && kind != 't' && kind != 'j' && kind != 'z'
  }

  function SpecText(run: string, width: nat, prec: Option<nat>, length: string, kind: char): string {
    run + (WidthText(width) + (PrecisionText(prec) + (length + [kind])))
  }

  lemma NumberReadsBack(n: nat, rest: string, args: seq<Arg>)
    requires n < LONG_RANGE && rest != "" && !IsDigit(rest[0])
    ensures NumberField(DecimalText(n) + rest, args) == Some(Field(n % UINT_RANGE, |DecimalText(n)|, 0))
  {
    var t := DecimalText(n);
    DecimalTextIs(n);
    DigitRunIs(t + rest, |t|);
    assert (t + rest)[..|t|] == t;
  }

  lemma SizeReadsBack(flags: Flags, width: Field, prec: Field, length: string, kind: char)
    requires 0 <= prec.value && IsLength(length) && IsKind(kind)
    ensures var t := length + [kind];
            ParsedFromSize(flags, width, prec, t)
            == Some(Conversion(SpecOf(flags, width, prec, SizeOf(length), kind), |t|, 0))
  {
  }

  // A conversion t that starts with a part a, in front of what rest is parsed to.
  ghost predicate Joined(t: string, a: string, rest: string) {
    |t| == |a| + |rest| && t[..|a|] == a && t[|a|..] == rest
  }

  lemma BehindPrecision(flags: Flags, width: Field, t: string, a: string, rest: string, p: Field, args: seq<Arg>,
                        spec: Spec)
    requires Joined(t, a, rest) && PrecisionField(t, args) == Some(p) && p.chars == |a| && p.args == 0
    requires 0 <= p.value && ParsedFromSize(flags, width, p, rest) == Some(Conversion(spec, |rest|, 0))
    ensures ParsedFromPrecision(flags, width, t, args) == Some(Conversion(spec, |t|, 0))
  {
  }

  lemma BehindNumber(flags: Flags, t: string, a: string, rest: string, w: Field, args: seq<Arg>, spec: Spec)
    requires Joined(t, a, rest) && NumberField(t, args) == Some(w) && w.chars == |a| && w.args == 0
    requires ParsedFromPrecision(flags, w, rest, args) == Some(Conversion(spec, |rest|, 0))
    ensures ParsedFromWidth(flags, t, args) == Some(Conversion(spec, |t|, 0))
  {
    assert args[0..] == args;
  }

  lemma BehindRun(t: string, a: string, rest: string, args: seq<Arg>, spec: Spec)
    requires Joined(t, a, rest) && FlagRun(t) == |a|
    requires ParsedFromWidth(FlagsIn(a), rest, args) == Some(Conversion(spec, |rest|, 0))
    ensures Parsed(t, args) == Some(Conversion(spec, |t|, 0))
  {
    hide FlagsIn, FlagRun, ParsedFromWidth;
  }

  lemma FlagsReadBack(run: string, rest: string)
    requires (forall k :: 0 <= k < |run| ==> IsFlag(run[k])) && rest != "" && !IsFlag(rest[0])
    ensures FlagRun(run + rest) == |run|
  {
    FlagRunIs(run + rest, |run|);
  }

  lemma IsJoined(a: string, b: string)
    ensures Joined(a + b, a, b)
  {
  }

  lemma PrecisionFieldReadsBack(prec: Option<nat>, rest: string, args: seq<Arg>)
    requires (prec.Some? ==> prec.value < LONG_RANGE) && rest != "" && !IsDigit(rest[0]) && rest[0] != '.'
    ensures PrecisionField(PrecisionText(prec) + rest, args)
         == Some(Field(if prec.None? then 0 else prec.value % UINT_RANGE, |PrecisionText(prec)|, 0))
  {
    hide DecimalText;
    if prec.Some? {
      NumberReadsBack(prec.value, rest, args);
      assert (PrecisionText(prec) + rest)[1..] == DecimalText(prec.value) + rest;
    } else {
      assert PrecisionText(prec) + rest == rest;
    }
  }

  lemma BehindDot(length: string, kind: char)
    requires IsLength(length) && IsKind(kind)
    ensures !IsDigit((length + [kind])[0]) && (length + [kind])[0] != '.'
  {
  }

  lemma PrecisionReadsBack(flags: Flags, width: Field, prec: Option<nat>, length: string, kind: char, args: seq<Arg>)
    requires IsLength(length) && IsKind(kind) && (prec.Some? ==> prec.value < LONG_RANGE)
    ensures var t := PrecisionText(prec) + (length + [kind]);
            var p := Field(if prec.None? then 0 else prec.value % UINT_RANGE, |PrecisionText(prec)|, 0);
            ParsedFromPrecision(flags, width, t, args)
            == Some(Conversion(SpecOf(flags, width, p, SizeOf(length), kind), |t|, 0))
  {
    var rest := length + [kind];
    var p := Field(if prec.None? then 0 else prec.value % UINT_RANGE, |PrecisionText(prec)|, 0);
    BehindDot(length, kind);
    PrecisionFieldReadsBack(prec, rest, args);
    SizeReadsBack(flags, width, p, length, kind);
    IsJoined(PrecisionText(prec), rest);
    BehindPrecision(flags, width, PrecisionText(prec) + rest, PrecisionText(prec), rest, p, args,
                    SpecOf(flags, width, p, SizeOf(length), kind));
  }

  // What may follow a width starts no number, and what may follow the flags is
  // no flag.
  lemma BehindWidth(prec: Option<nat>, length: string, kind: char)
    requires IsLength(length) && IsKind(kind)
    ensures var rest := PrecisionText(prec) + (length + [kind]);
            rest != "" && !IsDigit(rest[0]) && rest[0] != '*' && !IsFlag(rest[0])
  {
  }

  lemma BehindFlags(width: nat, rest: string)
    requires width < LONG_RANGE && rest != "" && !IsFlag(rest[0])
    ensures !IsFlag((WidthText(width) + rest)[0])
  {
    if width > 0 {
      DecimalTextIs(width);
      var c := DecimalText(width)[0];
      assert IsDigit(c) && c != '0';
      assert (WidthText(width) + rest)[0] == c;
    }
  }

  lemma WidthReadsBack(flags: Flags, width: nat, prec: Option<nat>, length: string, kind: char, args: seq<Arg>)
    requires IsLength(length) && IsKind(kind) && width < LONG_RANGE && (prec.Some? ==> prec.value < LONG_RANGE)
    ensures var t := WidthText(width) + (PrecisionText(prec) + (length + [kind]));
            var w := Field(width % UINT_RANGE, |WidthText(width)|, 0);
            var p := Field(if prec.None? then 0 else prec.value % UINT_RANGE, |PrecisionText(prec)|, 0);
            ParsedFromWidth(flags, t, args) == Some(Conversion(SpecOf(flags, w, p, SizeOf(length), kind), |t|, 0))
  {
    var rest := PrecisionText(prec) + (length + [kind]);
    BehindWidth(prec, length, kind);
    WidthFieldReadsBack(width, rest, args);
    var w := Field(width % UINT_RANGE, |WidthText(width)|, 0);
    var p := Field(if prec.None? then 0 else prec.value % UINT_RANGE, |PrecisionText(prec)|, 0);
    PrecisionReadsBack(flags, w, prec, length, kind, args);
    IsJoined(WidthText(width), rest);
    BehindNumber(flags, WidthText(width) + rest, WidthText(width), rest, w, args,
                 SpecOf(flags, w, p, SizeOf(length), kind));
  }

  lemma WidthFieldReadsBack(width: nat, rest: string, args: seq<Arg>)
    requires width < LONG_RANGE && rest != "" && !IsDigit(rest[0]) && rest[0] != '*'
    ensures NumberField(WidthText(width) + rest, args) == Some(Field(width % UINT_RANGE, |WidthText(width)|, 0))
  {
    if width > 0 {
      NumberReadsBack(width, rest, args);
    } else {
      assert WidthText(width) + rest == rest;
    }
  }

  // A conversion that is written with decimals as printf itself prints them is
  // read as it was meant: any flags in any order, then width and precision
  // modulo 2^32, so exactly when they are below it.
  lemma ConversionReadsBack(run: string, width: nat, prec: Option<nat>, length: string, kind: char, args: seq<Arg>)
    requires (forall k :: 0 <= k < |run| ==> IsFlag(run[k])) && IsLength(length) && IsKind(kind)
    requires width < LONG_RANGE && (prec.Some? ==> prec.value < LONG_RANGE)
    ensures var t := SpecText(run, width, prec, length, kind);
            var f := FlagsIn(run).(precision := prec.Some?);
            var p := if prec.None? then 0 else prec.value;
            && Parsed(t, args)
            == Some(Conversion(Spec(f, width % UINT_RANGE, p % UINT_RANGE, SizeOf(length), kind), |t|, 0))
            && (Parsed(t, args) == Some(Conversion(Spec(f, width, p, SizeOf(length), kind), |t|, 0))
                <==> width < UINT_RANGE && p < UINT_RANGE)
  {
    var behind := PrecisionText(prec) + (length + [kind]);
    var rest := WidthText(width) + behind;
    BehindWidth(prec, length, kind);
    BehindFlags(width, behind);
    WidthReadsBack(FlagsIn(run), width, prec, length, kind, args);
    var p := if prec.None? then 0 else prec.value;
    var f := FlagsIn(run).(precision := prec.Some?);
    SpecReadsBack(FlagsIn(run), width, prec, length, kind);
    FlagsReadBack(run, rest);
    IsJoined(run, rest);
    BehindRun(run + rest, run, rest, args, Spec(f, width % UINT_RANGE, p % UINT_RANGE, SizeOf(length), kind));
    BelowRange(width);
    BelowRange(p);
  }

  lemma PrecisionTextIs(prec: Option<nat>)
    ensures |PrecisionText(prec)| > 0 <==> prec.Some?
  {
    hide DecimalText;
  }

  lemma SpecReadsBack(flags: Flags, width: nat, prec: Option<nat>, length: string, kind: char)
    requires !flags.precision
    ensures var w := Field(width % UINT_RANGE, |WidthText(width)|, 0);
            var p := Field(if prec.None? then 0 else prec.value % UINT_RANGE, |PrecisionText(prec)|, 0);
            SpecOf(flags, w, p, SizeOf(length), kind)
            == Spec(flags.(precision := prec.Some?), width % UINT_RANGE,
                    (if prec.None? then 0 else prec.value) % UINT_RANGE, SizeOf(length), kind)
  {
    hide WidthText, PrecisionText, SizeOf;
    assert |PrecisionText(prec)| > 0 <==> prec.Some? by { PrecisionTextIs(prec); }
  }

  // ---------- printing and reading ----------

  // Any int that %u prints is read back by _atoi.
  lemma UnsignedIsReadBack(word: Word) returns (start: nat, end: nat)
    ensures Interpret("%u", [Number(word)]).Some?
    ensures ReadsAs(Printed("%u", [Number(word)]), start, end, word % UINT_RANGE)
  {
    var plain := Flags(false, false, false, false, false, false, false);
    UnsignedIs(word, "%u", [Number(word)], plain);
    OneInteger(word % UINT_RANGE, false, 10, 0, 0, plain);
    start, end := DecimalReadsBackExactlyWhen(word % UINT_RANGE, false, 0, 0, plain);
  }

  lemma OneInteger(value: nat, negative: bool, base: nat, prec: nat, width: nat, flags: Flags)
    requires 2 <= base <= 16
    ensures FormatText([Integer(value, negative, base, prec, width, flags)])
         == NtoaText(value, negative, base, prec, width, flags)
  {
    OneMoreDirective([], Integer(value, negative, base, prec, width, flags));
  }

  lemma UnsignedIs(word: Word, format: string, args: seq<Arg>, plain: Flags)
    requires format == "%u" && args == [Number(word)]
    requires plain == Flags(false, false, false, false, false, false, false)
    ensures Interpret(format, args) == Some(Interpretation([Integer(word % UINT_RANGE, false, 10, 0, 0, plain)], 1))
  {
    hide Directed, Parsed;
    ConversionReadsBack("", 0, None, "", 'u', args);
    assert SpecText("", 0, None, "", 'u') == format[1..];
    var c := Conversion(Spec(plain, 0, 0, Plain, 'u'), 1, 0);
    assert FlagsIn("") == plain;
    assert Parsed(format[1..], args) == Some(c);
    UnsignedDirected(word, args, c);
    var d := Integer(word % UINT_RANGE, false, 10, 0, 0, plain);
    assert FirstOf(format, args) == Some(First(d, 2, 1));
    assert format[2..] == "" && args[1..] == [] && [d] + [] == [d];
    assert Interpret(format[2..], args[1..]) == Some(Interpretation([], 0));
  }

  lemma UnsignedDirected(word: Word, args: seq<Arg>, c: Conversion)
    requires args == [Number(word)]
    requires var plain := Flags(false, false, false, false, false, false, false);
             c == Conversion(Spec(plain, 0, 0, Plain, 'u'), 1, 0)
    ensures Directed(Some(c), args) == Some(First(Integer(word % UINT_RANGE, false, 10, 0, 0, c.spec.flags), 2, 1))
  {
    assert args[0..] == args;
  }
}
