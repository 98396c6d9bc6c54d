/**
  What printf prints, said of numbers and characters alone: which number appears for an
  argument of which type, how it is set in its field, and how a directive is read back.
 */
module PrintLaws {
  import opened Digits
  import opened PrintFields
  import opened Formatter

  // ---------- The number ----------

  predicate IsInteger(c: char) { c in {'d', 'i', 'o', 'u', 'x', 'X'} }
  predicate IsFlag(c: char) { c in {'-', '+', ' ', '#', '0'} }
  predicate IsLength(c: char) { c in {'h', 'l', 'j', 'z', 't', 'L'} }

  /** Half as many values as the type of a length modifier has, on i686. */
  function Half(length: Length): int {
    match length
    case CharHH => 0x80
    case ShortH => 0x8000
    case LongLong => 0x8000_0000_0000_0000
    case IntMax => 0x8000_0000_0000_0000
    case _ => 0x8000_0000
  }

  function AbsoluteValue(n: int): nat { if n < 0 then -n else n }

  /**
    The number printed for argument x: x itself where the type of the conversion has it, otherwise the value of that type
    that is congruent to it. An unsigned conversion of a ptrdiff_t prints the 64-bit pattern of the signed value.
   */
  ghost predicate PrintedNumber(length: Length, specifier: char, x: int, n: int) {
    var half := Half(length);
    if length == LongDouble then n == 0
    else if specifier in {'d', 'i'} then -half <= n < half && (n - x) % (2 * half) == 0
    else if length == PtrDiff then
      (0 <= n < half && (n - x) % (2 * half) == 0)
      || (0x1_0000_0000_0000_0000 - half <= n < 0x1_0000_0000_0000_0000 && (n - 0x1_0000_0000_0000_0000 - x) % (2 * half) == 0)
    else 0 <= n < 2 * half && (n - x) % (2 * half) == 0
  }

  /** A signed number that the type has is printed as it is. */
  lemma InRange(length: Length, specifier: char, x: int, n: int)
    requires specifier in {'d', 'i'} && length != LongDouble && -Half(length) <= x < Half(length) && PrintedNumber(length, specifier, x, n)
    ensures n == x
  {
    SmallMultiple(n - x, 2 * Half(length));
  }

  lemma SmallMultiple(a: int, m: int)
    requires m > 0 && a % m == 0 && -m < a < m
    ensures a == 0
  {
  }

  /** The 64-bit pattern handed to the integer conversion is that of the number. */
  lemma PatternOf(length: Length, specifier: char, x: int, bits: int) returns (n: int)
    requires IsInteger(specifier) && bits == if length == LongDouble then 0 else BitsOf(length, specifier, x)
    ensures PrintedNumber(length, specifier, x, n) && 0 <= bits < LIMIT
    ensures Negative(specifier, bits) <==> n < 0
    ensures Magnitude(specifier, bits) == AbsoluteValue(n)
  {
    n := if Negative(specifier, bits) then bits - LIMIT else bits;
    if length != LongDouble {
      WrappedIs(x, RangeOf(length));
    }
  }

  lemma WrappedIs(x: int, range: int)
    requires range in {0x100, 0x1_0000, 0x1_0000_0000, LIMIT}
    ensures var w := Wrapped(x, range); 0 <= w < range && (w - x) % range == 0 && (w - range - x) % range == 0
  {
    hide Wrapped;
    if range == 0x100 {
      Wrapped8(x);
    } else if range == 0x1_0000 {
      Wrapped16(x);
    } else if range == 0x1_0000_0000 {
      Wrapped32(x);
    } else {
      Wrapped64(x);
    }
  }

  lemma Wrapped8(x: int)
    ensures var w := Wrapped(x, 0x100); 0 <= w < 0x100 && (w - x) % 0x100 == 0 && (w - 0x100 - x) % 0x100 == 0
  {
  }

  lemma Wrapped16(x: int)
    ensures var w := Wrapped(x, 0x1_0000); 0 <= w < 0x1_0000 && (w - x) % 0x1_0000 == 0 && (w - 0x1_0000 - x) % 0x1_0000 == 0
  {
  }

  lemma Wrapped32(x: int)
    ensures var w := Wrapped(x, 0x1_0000_0000);
            0 <= w < 0x1_0000_0000 && (w - x) % 0x1_0000_0000 == 0 && (w - 0x1_0000_0000 - x) % 0x1_0000_0000 == 0
  {
  }

  lemma Wrapped64(x: int)
    ensures var w := Wrapped(x, LIMIT); 0 <= w < LIMIT && (w - x) % LIMIT == 0 && (w - LIMIT - x) % LIMIT == 0
  {
  }

  // ---------- The field ----------

  function AtLeast(a: int, b: int): int { if a >= b then a else b }

  /**
    The parts of a field and their places: spaces, sign, prefix, zeros, digits, spaces. `least` digits are asked for; a
    longer field is filled with spaces on the left, with `left` on the right, and with `zero` by zeros behind the sign.
   */
  predicate Laid(text: string, before: string, sign: string, prefix: string, zeros: string, digits: string, after: string,
                 width: int, least: int, left: bool, zero: bool) {
    && text == before + sign + prefix + zeros + digits + after
    && All(before, ' ') && All(after, ' ') && All(zeros, '0')
    && |text| == AtLeast(width, |sign| + |prefix| + AtLeast(|digits|, least))
    && (left ==> before == "") && (!left ==> after == "") && (zero && !left ==> before == "")
    && (left || !zero ==> |zeros| == AtLeast(0, least - |digits|))
  }

  predicate Lower(s: string) { forall k :: 0 <= k < |s| ==> !('A' <= s[k] <= 'Z') }
  predicate Upper(s: string) { forall k :: 0 <= k < |s| ==> !('a' <= s[k] <= 'z') }

  lemma {:induction false} DigitsCase(v: nat, base: int, upper: bool)
    requires Base(base)
    ensures if upper then Upper(DigitsOf(v, base, upper)) else Lower(DigitsOf(v, base, upper))
  {
    if v > 0 {
      DivMod(v, base);
      DigitsCase(v / base, base, upper);
    }
  }

  /** The sign of a number: '-' below 0; otherwise what the flags ask for, when the conversion is signed. */
  function SignFor(specifier: char, n: int, plus: bool, space: bool): string {
    if n < 0 then "-" else if specifier !in {'d', 'i'} then "" else if plus then "+" else if space then " " else ""
  }

  function PrefixFor(specifier: char, n: int, alternative: bool): string {
    if alternative && n != 0 && specifier == 'x' then "0x" else if alternative && n != 0 && specifier == 'X' then "0X" else ""
  }

  function BaseFor(specifier: char): int {
    match specifier
    case 'o' => 8
    case 'x' => 16
    case 'X' => 16
    case _ => 10
  }

  /** # makes an octal number start with a 0. */
  function LeastDigits(specifier: char, alternative: bool, length: int, precision: int): int {
    if alternative && specifier == 'o' && length >= precision then length + 1 else precision
  }

  /** The digits of a number, most significant first, without leading zeros and in the case of the specifier. */
  ghost predicate DigitsFor(specifier: char, n: int, digits: string) {
    var base := BaseFor(specifier);
    && AllDigits(digits, base) && Denote(digits, base) == AbsoluteValue(n) && (digits != "" ==> digits[0] != '0')
    && if specifier == 'X' then Upper(digits) else Lower(digits)
  }

  /** The field of an integer, whatever function computes it. */
  lemma FieldLaid(specifier: char, bits: int, n: int, width: int, precision: int, flags: Flags)
    returns (before: string, zeros: string, digits: string, after: string)
    requires 0 <= bits < LIMIT && IsInteger(specifier)
    requires (Negative(specifier, bits) <==> n < 0) && Magnitude(specifier, bits) == AbsoluteValue(n)
    ensures DigitsFor(specifier, n, digits)
    ensures Laid(IntegerText(specifier, bits, width, precision, flags), before, SignFor(specifier, n, flags.plus, flags.space),
                 PrefixFor(specifier, n, flags.alternative), zeros, digits, after, width,
                 LeastDigits(specifier, flags.alternative, |digits|, precision), flags.left, flags.zero)
  {
    hide DigitText, SignText, PrefixText, DigitsFor, SignFor, PrefixFor, Magnitude, Negative, AbsoluteValue, Repeat, Laid;
    digits := DigitText(specifier, bits);
    DigitsAre(specifier, bits, n);
    SignAndPrefix(specifier, bits, n, flags);
    var pad := width - CoreLength(specifier, bits, precision, flags);
    before := Repeat(' ', if flags.left || flags.zero then 0 else pad);
    var fill := Repeat('0', if !flags.left && flags.zero then pad else 0);
    var least := ZerosText(specifier, bits, precision, flags);
    zeros := fill + least;
    after := Repeat(' ', if flags.left then pad else 0);
    LaidOf(before, SignText(specifier, bits, flags), PrefixText(specifier, bits, flags), fill, least, digits, after,
           width, LeastDigits(specifier, flags.alternative, |digits|, precision), flags.left, flags.zero, pad);
  }

  lemma LaidOf(before: string, sign: string, prefix: string, fill: string, most: string, digits: string, after: string,
               width: int, least: int, left: bool, zero: bool, pad: int)
    requires most == Repeat('0', least - |digits|) && pad == width - |sign| - |prefix| - |most| - |digits|
    requires before == Repeat(' ', if left || zero then 0 else pad) && after == Repeat(' ', if left then pad else 0)
    requires fill == Repeat('0', if !left && zero then pad else 0)
    ensures Laid(before + sign + prefix + fill + most + digits + after, before, sign, prefix, fill + most, digits, after, width, least, left, zero)
  {
    hide Repeat;
    TextOf(before + sign + prefix, fill, most, digits, after);
  }

  lemma DigitsAre(specifier: char, bits: int, n: int)
    requires 0 <= bits < LIMIT && IsInteger(specifier) && Magnitude(specifier, bits) == AbsoluteValue(n)
    ensures DigitsFor(specifier, n, DigitText(specifier, bits))
  {
    var base, v := BaseOf(specifier), Magnitude(specifier, bits);
    assert base == BaseFor(specifier);
    DigitsDenote(v, base, specifier == 'X');
    DigitsCase(v, base, specifier == 'X');
    if v > 0 { FirstDigit(v, base, specifier == 'X'); } else { ZeroDigit(base, specifier == 'X'); }
    hide DigitsOf, Denote, AllDigits;
  }

  lemma SignAndPrefix(specifier: char, bits: int, n: int, flags: Flags)
    requires 0 <= bits < LIMIT && IsInteger(specifier)
    requires (Negative(specifier, bits) <==> n < 0) && Magnitude(specifier, bits) == AbsoluteValue(n)
    ensures SignText(specifier, bits, flags) == SignFor(specifier, n, flags.plus, flags.space)
    ensures PrefixText(specifier, bits, flags) == PrefixFor(specifier, n, flags.alternative)
  {
  }

  // ---------- Conversions ----------

  /** The flags, width and precision a conversion is carried out with; a negative width argument asks for the left. */
  ghost predicate Asked(d: Directive, args: seq<Arg>, left: bool, width: int, precision: int) {
    && (match d.width
        case Star => args != [] && args[0].Num? && width == (if args[0].n < 0 then -args[0].n else args[0].n) && (left <==> d.flags.left || args[0].n < 0)
        case Literal(n) => width == n && (left <==> d.flags.left)
        case Absent => width == 0 && (left <==> d.flags.left))
    && (match d.precision
        case Star => var k := if d.width == Star then 1 else 0; k < |args| && args[k].Num? && precision == args[k].n
        case Literal(n) => precision == n
        case Absent => precision == -1)
  }

  /** The value argument of a conversion, behind those of its stars. */
  function ValueAt(d: Directive): nat {
    (if d.width == Star then 1 else 0) + (if d.precision == Star then 1 else 0)
  }

  lemma Asks(d: Directive, args: seq<Arg>)
    requires Matches(Conversion(d, ""), args)
    ensures Asked(d, args, FlagsOf(d, args).left, WidthOf(d, args), PrecisionOf(d, args))
    ensures FlagsOf(d, args) == d.flags.(left := FlagsOf(d, args).left) && ValueAt(d) == Stars(d)
  {
  }

  /** %d, %i, %o, %u, %x and %X with every length modifier, flag, width and precision. */
  lemma IntegerPrints(d: Directive, args: seq<Arg>)
    returns (n: int, left: bool, width: int, precision: int, before: string, zeros: string, digits: string, after: string)
    requires Matches(Conversion(d, ""), args) && IsInteger(d.specifier)
    ensures Asked(d, args, left, width, precision)
    ensures d.length != LongDouble ==> ValueAt(d) < |args| && args[ValueAt(d)].Num?
    ensures PrintedNumber(d.length, d.specifier, if d.length == LongDouble then 0 else args[ValueAt(d)].n, n)
    ensures DigitsFor(d.specifier, n, digits)
    // without a precision one digit is asked for; with one the flag 0 does not count
    ensures Laid(ConversionText(d, args), before, SignFor(d.specifier, n, d.flags.plus, d.flags.space),
                 PrefixFor(d.specifier, n, d.flags.alternative), zeros, digits, after, width,
                 LeastDigits(d.specifier, d.flags.alternative, |digits|, if precision < 0 then 1 else precision),
                 left, d.flags.zero && precision < 0)
  {
    hide *;
    Asks(d, args);
    ValueThere(d, args);
    var flags := FlagsOf(d, args);
    left, width, precision := flags.left, WidthOf(d, args), PrecisionOf(d, args);
    var bits := ConversionBits(d, args);
    n := PatternOf(d.length, d.specifier, if d.length == LongDouble then 0 else args[ValueAt(d)].n, bits);
    IntegerConversion(d, args);
    var asked := if precision < 0 then 1 else precision;
    before, zeros, digits, after := FieldLaid(d.specifier, bits, n, width, asked, flags.(zero := d.flags.zero && precision < 0));
  }

  lemma IntegerConversion(d: Directive, args: seq<Arg>)
    requires Matches(Conversion(d, ""), args) && IntegerSpecifier(d.specifier)
    ensures var flags, width, precision := FlagsOf(d, args), WidthOf(d, args), PrecisionOf(d, args);
      ConversionText(d, args) == IntegerText(d.specifier, ConversionBits(d, args), width, if precision < 0 then 1 else precision,
                                             flags.(zero := d.flags.zero && precision < 0))
  {
    Asks(d, args);
    hide Matches, FlagsOf, WidthOf, PrecisionOf, IntegerText, ConversionBits, StringText, Asked;
  }

  lemma ValueThere(d: Directive, args: seq<Arg>)
    requires Matches(Conversion(d, ""), args) && IsInteger(d.specifier)
    ensures d.length != LongDouble ==> ValueAt(d) < |args| && args[ValueAt(d)].Num?
    ensures IntegerSpecifier(d.specifier)
    ensures ConversionBits(d, args) == if d.length == LongDouble then 0 else BitsOf(d.length, d.specifier, args[ValueAt(d)].n)
  {
  }

  /**
    The signed conversions once more, for a number of the type the length modifier names: the text is '-' and the digits
    of -x when x is negative, and without any '-' the digits of x otherwise, apart from padding.
   */
  lemma SignedPrints(d: Directive, args: seq<Arg>) returns (before: string, sign: string, zeros: string, digits: string, after: string)
    requires Matches(Conversion(d, ""), args) && d.specifier in {'d', 'i'} && d.length != LongDouble
    requires ValueAt(d) < |args| && args[ValueAt(d)].Num? && -Half(d.length) <= args[ValueAt(d)].n < Half(d.length)
    ensures ConversionText(d, args) == before + sign + zeros + digits + after && All(before, ' ') && All(after, ' ') && All(zeros, '0')
    ensures var x := args[ValueAt(d)].n;
      && (sign == "-" <==> x < 0) && sign in {"-", "+", " ", ""}
      && AllDigits(digits, 10) && Denote(digits, 10) == if x < 0 then -x else x
  {
    hide Denote, AllDigits, ConversionText, Matches, Asked, PrintedNumber, Laid, DigitsFor;
    var n, left, width, precision;
    n, left, width, precision, before, zeros, digits, after := IntegerPrints(d, args);
    InRange(d.length, d.specifier, args[ValueAt(d)].n, n);
    sign := SignFor(d.specifier, n, d.flags.plus, d.flags.space);
    assert PrefixFor(d.specifier, n, d.flags.alternative) == "";
    LaidPlain(ConversionText(d, args), before, sign, zeros, digits, after, width,
              LeastDigits(d.specifier, d.flags.alternative, |digits|, if precision < 0 then 1 else precision), left, d.flags.zero && precision < 0);
    DecimalDigits(d.specifier, n, digits);
  }

  lemma LaidPlain(text: string, before: string, sign: string, zeros: string, digits: string, after: string, width: int, least: int, left: bool, zero: bool)
    requires Laid(text, before, sign, "", zeros, digits, after, width, least, left, zero)
    ensures text == before + sign + zeros + digits + after && All(before, ' ') && All(after, ' ') && All(zeros, '0')
  {
    assert before + sign + "" == before + sign;
  }

  lemma DecimalDigits(specifier: char, n: int, digits: string)
    requires DigitsFor(specifier, n, digits) && specifier in {'d', 'i'}
    ensures AllDigits(digits, 10) && Denote(digits, 10) == if n < 0 then -n else n
  {
    hide Denote, AllDigits;
  }

  /** %s and %c: the bytes, cut off at the precision, and spaces on one side of them. */
  lemma TextPrints(d: Directive, args: seq<Arg>) returns (left: bool, width: int, precision: int, before: string, shown: string, after: string)
    requires Matches(Conversion(d, ""), args) && d.specifier in {'c', 's'}
    ensures Asked(d, args, left, width, precision) && ValueAt(d) < |args|
    ensures ConversionText(d, args) == before + shown + after && All(before, ' ') && All(after, ' ')
    ensures |ConversionText(d, args)| == AtLeast(width, |shown|) && (left ==> before == "") && (!left ==> after == "")
    ensures d.specifier == 's' ==>
      && args[ValueAt(d)].Text? && shown <= args[ValueAt(d)].s
      && |shown| == if 0 <= precision < |args[ValueAt(d)].s| then precision else |args[ValueAt(d)].s|
    ensures d.specifier == 'c' ==>
      args[ValueAt(d)].Num? && |shown| == 1 && shown[0] as int < 256 && (shown[0] as int - args[ValueAt(d)].n) % 256 == 0
  {
    Asks(d, args);
    left, width, precision := FlagsOf(d, args).left, WidthOf(d, args), PrecisionOf(d, args);
    var value := args[Stars(d)];
    if d.specifier == 'c' { WrappedIs(value.n, 256); }
    shown := if d.specifier == 'c' then [Wrapped(value.n, 256) as char] else Prefix(value.s, precision);
    var pad := Repeat(' ', width - |shown|);
    before, after := if left then "" else pad, if left then pad else "";
    assert ConversionText(d, args) == StringText(shown, width, left) by { hide Wrapped, Repeat, Asked, FlagsOf, WidthOf, PrecisionOf; }
  }

  /** %p: 0x and the hexadecimal digits of the address; a null pointer is a single 0. */
  lemma PointerPrints(d: Directive, args: seq<Arg>) returns (digits: string)
    requires Matches(Conversion(d, ""), args) && d.specifier == 'p'
    ensures ValueAt(d) < |args| && args[ValueAt(d)].Pointer?
    ensures var p := args[ValueAt(d)].p;
      && DigitsFor('x', p, digits) && ConversionText(d, args) == if p == 0 then "0" else "0x" + digits
  {
    var p := args[Stars(d)].p;
    assert Magnitude('x', p) == p && !Negative('x', p);
    var before, zeros, after;
    before, zeros, digits, after := FieldLaid('x', p, p, 0, 1, NO_FLAGS.(alternative := true));
    hide IntegerText, Magnitude;
    assert ConversionText(d, args) == IntegerText('x', p, 0, 1, NO_FLAGS.(alternative := true));
    PointerField(IntegerText('x', p, 0, 1, NO_FLAGS.(alternative := true)), before, zeros, digits, after, p);
  }

  lemma PointerField(text: string, before: string, zeros: string, digits: string, after: string, p: int)
    requires p >= 0 && DigitsFor('x', p, digits)
    requires Laid(text, before, SignFor('x', p, false, false), PrefixFor('x', p, true), zeros, digits, after, 0, LeastDigits('x', true, |digits|, 1), false, false)
    ensures text == if p == 0 then "0" else "0x" + digits
  {
    NumeralEmpty(p, digits);
    assert p == 0 ==> zeros == "0" && digits == "";
    assert p != 0 ==> zeros == "";
    hide DigitsFor;
  }

  lemma NumeralEmpty(n: int, digits: string)
    requires DigitsFor('x', n, digits)
    ensures digits == "" <==> n == 0
  {
    if digits != "" { PositiveDigits(digits, 16); }
  }

  lemma {:induction false} PositiveDigits(s: string, base: int)
    requires Base(base) && AllDigits(s, base) && s != "" && s[0] != '0'
    ensures Denote(s, base) > 0
  {
    hide DigitValue;
    var n := |s| - 1;
    assert AllDigits(s[..n], base) && DigitValue(s[n]) < base;
    NotNegative(s[n]);
    if n > 0 {
      PositiveDigits(s[..n], base);
      Product(Denote(s[..n], base), base);
    } else {
      assert s[..0] == "";
    }
  }

  lemma NotNegative(c: char)
    ensures DigitValue(c) >= 0 && (c != '0' ==> DigitValue(c) > 0)
  {
  }

  lemma Product(a: int, b: int)
    requires a > 0 && b > 0
    ensures a * b > 0
  {
  }

  /** %% prints a percent sign, %n nothing. */
  lemma OthersPrint(d: Directive, args: seq<Arg>)
    requires Matches(Conversion(d, ""), args)
    ensures d.specifier == '%' ==> ConversionText(d, args) == "%"
    ensures d.specifier == 'n' ==> ConversionText(d, args) == ""
  {
    hide IntegerText, StringText;
  }

  // ---------- %n ----------

  predicate StoresCount(t: Token) { t.Conversion? && t.d.specifier == 'n' }

  function CountsIn(tokens: seq<Token>): nat {
    if tokens == [] then 0 else CountsIn(tokens[1..]) + if StoresCount(tokens[0]) then 1 else 0
  }

  /** Every %n stores how many bytes the tokens in front of it print. */
  lemma {:induction false} CountStored(front: seq<Token>, t: Token, rest: seq<Token>, args: seq<Arg>, printed: int)
    requires AllMatch(front + [t] + rest, args) && StoresCount(t)
    ensures AllMatch(front, args) && CountsIn(front) < |Counts(front + [t] + rest, args, printed)|
    ensures Counts(front + [t] + rest, args, printed)[CountsIn(front)] == printed + |FormatText(front, args)|
    decreases |front|
  {
    hide Matches, TokenText, ArgCount, AllMatch, Counts, FormatText;
    var tokens := front + [t] + rest;
    FormatStep(tokens, args, printed);
    if front == [] {
      assert tokens[0] == t;
      NothingPrints(args);
    } else {
      var u, later := front[0], args[ArgCount(tokens[0])..];
      assert tokens[0] == u && tokens[1..] == front[1..] + [t] + rest;
      CountStored(front[1..], t, rest, later, printed + |TokenText(u, args)|);
      FormatFirst(front, args);
    }
  }

  lemma NothingPrints(args: seq<Arg>)
    ensures AllMatch([], args) && FormatText([], args) == ""
  {
  }

  lemma FormatFirst(tokens: seq<Token>, args: seq<Arg>)
    requires tokens != [] && Matches(tokens[0], args) && ArgCount(tokens[0]) <= |args| && AllMatch(tokens[1..], args[ArgCount(tokens[0])..])
    ensures AllMatch(tokens, args)
    ensures FormatText(tokens, args) == TokenText(tokens[0], args) + FormatText(tokens[1..], args[ArgCount(tokens[0])..])
  {
    hide Matches, TokenText, ArgCount;
  }

  // ---------- Reading a directive ----------

  function NumberText(n: Number): string {
    match n
    case Star => "*"
    case Literal(v) => DigitsOf(v, 10, false)
    case Absent => ""
  }

  function LengthText(length: Length): string {
    match length
    case CharHH => "hh"
    case ShortH => "h"
    case IntLength => ""
    case Long => "l"
    case LongLong => "ll"
    case IntMax => "j"
    case Size => "z"
    case PtrDiff => "t"
    case LongDouble => "L"
  }

  /** A directive as it is written: flags in any order and number, width, precision, length modifier, specifier. */
  function Written(flags: string, width: Number, precision: Number, length: Length, specifier: char): string {
    "%" + flags + NumberText(width) + (if precision.Absent? then "" else "." + NumberText(precision)) + LengthText(length) + [specifier]
  }

  predicate AllFlags(s: string) { forall k :: 0 <= k < |s| ==> IsFlag(s[k]) }

  /** The flags among the characters of a text. */
  function FlagsIn(s: string): Flags {
    Flags('-' in s, '+' in s, ' ' in s, '#' in s, '0' in s)
  }

  function Joined(a: Flags, b: Flags): Flags {
    Flags(a.left || b.left, a.plus || b.plus, a.space || b.space, a.alternative || b.alternative, a.zero || b.zero)
  }

  lemma {:induction false} FlagsRead(f: string, i: nat, s: string, flags: Flags)
    requires i + |s| < |f| && f[i..i + |s|] == s && AllFlags(s) && !IsFlag(f[i + |s|])
    ensures FlagsFrom(f, i, flags) == (Joined(flags, FlagsIn(s)), i + |s|)
    decreases |s|
  {
    hide WithFlag, FlagsIn, Joined, IsFlag;
    SameFlags(f[i + |s|]);
    if s == "" {
      NoFlags(flags);
    } else {
      assert f[i] == f[i..i + |s|][0] && f[i + 1..i + |s|] == f[i..i + |s|][1..];
      SameFlags(f[i]);
      FlagsRead(f, i + 1, s[1..], WithFlag(flags, f[i]));
      OneFlag(flags, s);
    }
  }

  lemma SameFlags(c: char)
    ensures IsFlag(c) <==> FlagChar(c)
  {
  }

  lemma NoFlags(flags: Flags)
    ensures Joined(flags, FlagsIn("")) == flags
  {
  }

  lemma OneFlag(flags: Flags, s: string)
    requires s != "" && IsFlag(s[0])
    ensures Joined(WithFlag(flags, s[0]), FlagsIn(s[1..])) == Joined(flags, FlagsIn(s))
  {
    var rest := s[1..];
    assert s == [s[0]] + rest;
    forall c: char ensures c in s <==> c == s[0] || c in rest { }
  }

  lemma DecimalChars(s: string)
    requires AllDigits(s, 10)
    ensures forall k :: 0 <= k < |s| ==> '0' <= s[k] <= '9' && DigitValue(s[k]) == s[k] as int - '0' as int
  {
  }

  lemma {:induction false} NumberRead(f: string, i: nat, s: string, k: nat)
    requires i + |s| < |f| && f[i..i + |s|] == s && AllDigits(s, 10) && !('0' <= f[i + |s|] <= '9') && k <= |s|
    ensures AllDigits(s[..k], 10) && NumberFrom(f, i + k, Denote(s[..k], 10)) == (Denote(s, 10), i + |s|)
    decreases |s| - k
  {
    DecimalChars(s);
    if k == |s| {
      assert s[..k] == s;
    } else {
      assert f[i + k] == f[i..i + |s|][k];
      assert s[..k + 1] == s[..k] + [s[k]];
      DenoteAppend(s[..k], s[k], 10);
      hide DigitValue, Denote, AllDigits;
      NumberRead(f, i, s, k + 1);
    }
  }

  lemma WidthRead(f: string, i: nat, n: Number)
    requires !n.Absent? && i + |NumberText(n)| < |f| && f[i..i + |NumberText(n)|] == NumberText(n)
    requires n.Literal? ==> f[i + |NumberText(n)|] != '*' && !('0' <= f[i + |NumberText(n)|] <= '9')
    ensures WidthFrom(f, i) == (n, i + |NumberText(n)|)
  {
    if n.Star? {
      assert f[i] == f[i..i + 1][0];
    } else {
      var s := NumberText(n);
      DigitsDenote(n.n, 10, false);
      DecimalChars(s);
      hide DigitsOf, DigitValue, AllDigits;
      NumberRead(f, i, s, 0);
      assert s[..0] == "";
      assert s != "" ==> f[i] == f[i..i + |s|][0];
    }
  }

  lemma LengthRead(f: string, i: nat, length: Length)
    requires i + |LengthText(length)| < |f| && f[i..i + |LengthText(length)|] == LengthText(length)
    requires !IsLength(f[i + |LengthText(length)|])
    ensures LengthFrom(f, i, IntLength) == (length, i + |LengthText(length)|)
  {
    var s := LengthText(length);
    if s != "" { assert f[i] == f[i..i + |s|][0]; }
    if |s| > 1 { assert f[i + 1] == f[i..i + |s|][1]; }
  }

  predicate KnownSpecifier(c: char) { c in {'d', 'i', 'o', 'u', 'x', 'X', 'c', 's', 'p', 'n', '%'} }

  /** Whatever directive is written, it is read back as itself, up to its end. */
  lemma DirectiveRead(flags: string, width: Number, precision: Number, length: Length, specifier: char)
    requires AllFlags(flags) && !width.Absent? && KnownSpecifier(specifier)
    ensures var f := Written(flags, width, precision, length, specifier);
      DirectiveFrom(f, 0) ==
        (Directive(FlagsIn(flags), width, precision, length, specifier), |f| - 1)
  {
    hide NumberText, LengthText, AllFlags, KnownSpecifier, IsFlag, IsLength, FlagsIn, Ends, DirectiveFrom;
    var w, p, l := NumberText(width), if precision.Absent? then "" else "." + NumberText(precision), LengthText(length);
    FirstOfNumber(width);
    LengthStarts(length);
    SpecifierIsNone(specifier);
    Parts(flags, w, p, l, specifier);
    PartsRead(Written(flags, width, precision, length, specifier), flags, width, precision, length);
  }

  lemma PartsRead(f: string, flags: string, width: Number, precision: Number, length: Length)
    requires AllFlags(flags) && !width.Absent?
    requires var w, p, l := NumberText(width), if precision.Absent? then "" else "." + NumberText(precision), LengthText(length);
      var i := 1 + |flags|;
      && |f| == i + |w| + |p| + |l| + 1 && f[1..i] == flags && !IsFlag(f[i])
      && f[i..i + |w|] == w && f[i + |w|..i + |w| + |p|] == p && f[i + |w| + |p|..i + |w| + |p| + |l|] == l
      && Ends(f[i + |w| + |p|]) && (p == "" ==> Ends(f[i + |w|])) && !IsLength(f[i + |w| + |p| + |l|])
    ensures DirectiveFrom(f, 0) == (Directive(FlagsIn(flags), width, precision, length, f[|f| - 1]), |f| - 1)
  {
    hide NumberText, LengthText, AllFlags, FlagsFrom, WidthFrom, LengthFrom, PrecisionFrom, IsFlag, IsLength, FlagsIn, Ends;
    FlagsRead(f, 1, flags, NO_FLAGS);
    assert Joined(NO_FLAGS, FlagsIn(flags)) == FlagsIn(flags);
    RestRead(f, 1 + |flags|, width, precision, length);
  }

  /** What follows the flags. */
  lemma RestRead(f: string, i: nat, width: Number, precision: Number, length: Length)
    requires !width.Absent?
    requires var w, p, l := NumberText(width), if precision.Absent? then "" else "." + NumberText(precision), LengthText(length);
      && i + |w| + |p| + |l| < |f| && f[i..i + |w|] == w && f[i + |w|..i + |w| + |p|] == p && f[i + |w| + |p|..i + |w| + |p| + |l|] == l
      && Ends(f[i + |w| + |p|]) && (p == "" ==> Ends(f[i + |w|])) && !IsLength(f[i + |w| + |p| + |l|])
    ensures var w, p, l := NumberText(width), if precision.Absent? then "" else "." + NumberText(precision), LengthText(length);
      && WidthFrom(f, i) == (width, i + |w|) && PrecisionFrom(f, i + |w|) == (precision, i + |w| + |p|)
      && LengthFrom(f, i + |w| + |p|, IntLength) == (length, i + |w| + |p| + |l|)
  {
    hide NumberText, LengthText, WidthFrom, LengthFrom, PrecisionFrom, IsLength;
    var w, p := NumberText(width), if precision.Absent? then "" else "." + NumberText(precision);
    assert p != "" ==> f[i + |w|] == f[i + |w|..i + |w| + |p|][0] == '.';
    WidthRead(f, i, width);
    PrecisionRead(f, i + |w|, precision);
    LengthRead(f, i + |w| + |p|, length);
  }

  /** A character that no number goes on with. */
  predicate Ends(c: char) { c != '*' && c != '.' && !('0' <= c <= '9') }

  lemma SpecifierIsNone(c: char)
    requires KnownSpecifier(c)
    ensures !IsFlag(c) && !IsLength(c) && Ends(c) && !IsFlag('.')
  {
  }

  lemma PrecisionRead(f: string, i: nat, n: Number)
    requires var p := if n.Absent? then "" else "." + NumberText(n);
      && i + |p| < |f| && f[i..i + |p|] == p && f[i + |p|] !in {'.', '*'} && !('0' <= f[i + |p|] <= '9')
    ensures PrecisionFrom(f, i) == (n, i + if n.Absent? then 0 else 1 + |NumberText(n)|)
  {
    hide NumberText, WidthFrom;
    if !n.Absent? {
      var p := "." + NumberText(n);
      assert f[i] == f[i..i + |p|][0] && f[i + 1..i + |p|] == f[i..i + |p|][1..] == NumberText(n);
      WidthRead(f, i + 1, n);
    }
  }

  /** Numbers do not begin with a character that could be a flag. */
  lemma FirstOfNumber(n: Number)
    ensures NumberText(n) != "" ==> !IsFlag(NumberText(n)[0])
  {
    if n.Literal? && n.n > 0 {
      FirstDigit(n.n, 10, false);
      DigitsDenote(n.n, 10, false);
      DecimalChars(NumberText(n));
      hide DigitsOf;
    }
  }

  lemma LengthStarts(length: Length)
    ensures LengthText(length) != "" ==> var c := LengthText(length)[0];
      IsLength(c) && !IsFlag(c) && Ends(c)
  {
  }

  /** Where the parts of a written directive lie. */
  lemma Parts(flags: string, w: string, p: string, l: string, c: char)
    ensures var f := "%" + flags + w + p + l + [c]; var i1 := 1 + |flags|; var i2 := i1 + |w|; var i3 := i2 + |p|; var i4 := i3 + |l|;
      && |f| == i4 + 1 && f[0] == '%' && f[1..i1] == flags && f[i1..i2] == w && f[i2..i3] == p && f[i3..i4] == l && f[i4] == c
      && f[i1] == (if w != "" then w[0] else if p != "" then p[0] else if l != "" then l[0] else c)
      && f[i2] == (if p != "" then p[0] else if l != "" then l[0] else c) && f[i3] == (if l != "" then l[0] else c)
  {
  }

  /** A format that is one directive prints what the directive says, and nothing else. */
  lemma DirectivePrints(flags: string, width: Number, precision: Number, length: Length, specifier: char, args: seq<Arg>)
    requires AllFlags(flags) && !width.Absent? && KnownSpecifier(specifier)
    requires var d := Directive(FlagsIn(flags), width, precision, length, specifier);
      Matches(Conversion(d, ""), args)
    ensures var f := Written(flags, width, precision, length, specifier);
      var d := Directive(FlagsIn(flags), width, precision, length, specifier);
      AllMatch(Tokens(f, 0, false), args) && FormatText(Tokens(f, 0, false), args) == ConversionText(d, args)
  {
    var f := Written(flags, width, precision, length, specifier);
    DirectiveRead(flags, width, precision, length, specifier);
    var d := DirectiveFrom(f, 0).0;
    assert Known(specifier);
    StartsWithPercent(flags, width, precision, length, specifier);
    hide DirectiveFrom, Written, ConversionText, Matches, ArgCount;
    OneToken(f, d, args);
  }

  /** Every character from i on as it stands. */
  function PlainFrom(f: string, i: nat): seq<Token>
    requires i <= |f|
  {
    seq(|f| - i, k requires 0 <= k < |f| - i => Plain(f[i + k]))
  }

  lemma {:induction false} InvalidIsPlain(f: string, i: nat)
    requires i <= |f|
    ensures Tokens(f, i, true) == PlainFrom(f, i)
    decreases |f| - i
  {
    if i < |f| {
      InvalidIsPlain(f, i + 1);
      assert PlainFrom(f, i) == [Plain(f[i])] + PlainFrom(f, i + 1);
    }
  }

  /** A conversion that is not known and everything behind it, whatever else it holds, is printed as it stands. */
  lemma UnknownIsPlain(f: string, i: nat)
    requires i < |f| && f[i] == '%'
    requires var (d, j) := DirectiveFrom(f, i); j == |f| || !KnownSpecifier(f[j])
    ensures Tokens(f, i, false) == PlainFrom(f, i)
  {
    InvalidIsPlain(f, i);
    TokensConversion(f, i);
    hide DirectiveFrom;
  }

  lemma StartsWithPercent(flags: string, width: Number, precision: Number, length: Length, specifier: char)
    ensures var f := Written(flags, width, precision, length, specifier); f != "" && f[0] == '%'
  {
    hide NumberText, LengthText;
  }

  lemma OneToken(f: string, d: Directive, args: seq<Arg>)
    requires f != "" && f[0] == '%' && DirectiveFrom(f, 0) == (d, |f| - 1) && Known(d.specifier) && Matches(Conversion(d, ""), args)
    ensures AllMatch(Tokens(f, 0, false), args) && FormatText(Tokens(f, 0, false), args) == ConversionText(d, args)
  {
    hide DirectiveFrom, ConversionText, Known;
    SourceIrrelevant(d, f[0..|f|], args);
    assert Tokens(f, |f|, false) == [];
    assert Tokens(f, 0, false) == [Conversion(d, f[0..|f|])];
    hide Matches;
    CountFits(d, f[0..|f|], args);
    assert [Conversion(d, f[0..|f|])][1..] == [];
  }

  lemma CountFits(d: Directive, source: string, args: seq<Arg>)
    requires Matches(Conversion(d, source), args)
    ensures ArgCount(Conversion(d, source)) <= |args|
  {
  }
}
