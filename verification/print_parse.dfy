/** Printing a number and reading it back. */
module PrintParse {
  import opened Digits
  import opened PrintFields
  import Formatter
  import NumberParsing

  const PLAIN: Flags := Flags(false, false, false, false, false)
  const MARKED: Flags := Flags(false, false, false, true, false)

  /** %u, %#x, %#X and %#o: the conversions whose output says which base it is in. */
  predicate Readable(specifier: char, flags: Flags) {
    (specifier == 'u' && flags == PLAIN) || (specifier in {'x', 'X', 'o'} && flags == MARKED)
  }

  /** The output without field width and precision is the prefix, the octal 0 and the digits. */
  lemma UnpaddedText(specifier: char, v: int, flags: Flags)
    requires Readable(specifier, flags) && 0 <= v < LIMIT
    ensures var digits := DigitsOf(v, BaseOf(specifier), specifier == 'X');
            IntegerText(specifier, v, 0, 1, flags) ==
            if v == 0 then "0" else if Hexadecimal(specifier) then PrefixText(specifier, v, flags) + digits
            else if specifier == 'o' then "0" + digits else digits
  {
    hide DigitsOf, DigitChar;
    var digits := DigitsOf(v, BaseOf(specifier), specifier == 'X');
    if v > 0 { FirstDigit(v, BaseOf(specifier), specifier == 'X'); } else { ZeroDigit(BaseOf(specifier), specifier == 'X'); }
    assert Magnitude(specifier, v) == v && SignText(specifier, v, flags) == "";
    assert Repeat('0', 1) == "0";
  }

  /** strtoul with base 0 reads back what was printed, to its end. */
  lemma PrintThenParse(specifier: char, v: int, flags: Flags)
    requires Readable(specifier, flags) && 0 <= v <= NumberParsing.ULONG_MAX
    ensures var text := IntegerText(specifier, v, 0, 1, flags);
            NumberParsing.Result(text, 0, false) == NumberParsing.Parsed(v, |text|, false)
  {
    UnpaddedText(specifier, v, flags);
    hide IntegerText, DigitsOf, NumberParsing.Result, Denote, AllDigits, DigitValue;
    if v == 0 {
      ZeroDenotes();
      assert "" + "0" == "0";
      NumberParsing.ReadsBack("0", "", "0", 8, 0);
    } else if Hexadecimal(specifier) {
      ReadHexadecimal(PrefixText(specifier, v, flags), v, specifier == 'X');
    } else if specifier == 'o' {
      ReadOctal(v);
    } else {
      ReadDecimal(v);
    }
  }

  lemma ReadHexadecimal(prefix: string, v: int, upper: bool)
    requires 0 < v <= NumberParsing.ULONG_MAX && prefix in {"0x", "0X"}
    ensures var text := prefix + DigitsOf(v, 16, upper); NumberParsing.Result(text, 0, false) == NumberParsing.Parsed(v, |text|, false)
  {
    DigitsDenote(v, 16, upper);
    FirstDigit(v, 16, upper);
    hide DigitsOf, NumberParsing.Result, Denote, AllDigits;
    NumberParsing.ReadsBack(prefix + DigitsOf(v, 16, upper), prefix, DigitsOf(v, 16, upper), 16, v);
  }

  lemma ReadOctal(v: int)
    requires 0 < v <= NumberParsing.ULONG_MAX
    ensures var text := "0" + DigitsOf(v, 8, false); NumberParsing.Result(text, 0, false) == NumberParsing.Parsed(v, |text|, false)
  {
    DigitsDenote(v, 8, false);
    hide DigitsOf, NumberParsing.Result, Denote, AllDigits;
    var digits := "0" + DigitsOf(v, 8, false);
    ZerosDenote("0", DigitsOf(v, 8, false), 8);
    assert "" + digits == digits;
    NumberParsing.ReadsBack(digits, "", digits, 8, v);
  }

  lemma ReadDecimal(v: int)
    requires 0 < v <= NumberParsing.ULONG_MAX
    ensures var text := DigitsOf(v, 10, false); NumberParsing.Result(text, 0, false) == NumberParsing.Parsed(v, |text|, false)
  {
    DigitsDenote(v, 10, false);
    FirstDigit(v, 10, false);
    hide DigitsOf, NumberParsing.Result, Denote, AllDigits;
    var digits := DigitsOf(v, 10, false);
    assert "" + digits == digits;
    DecimalDigits(digits);
    NumberParsing.ReadsBack(digits, "", digits, 10, v);
  }

  lemma ZeroDenotes()
    ensures AllDigits("0", 8) && Denote("0", 8) == 0
  {
    assert "0"[..0] == "";
  }

  lemma DecimalDigits(s: string)
    requires AllDigits(s, 10)
    ensures forall k :: 0 <= k < |s| ==> '0' <= s[k] <= '9'
  {
  }

  /** The format %u prints exactly the decimal digits, %#x, %#X and %#o the marked ones. */
  function FormatFor(specifier: char, flags: Flags): string {
    if flags.alternative then ['%', '#', specifier] else ['%', specifier]
  }

  lemma FormatPrints(specifier: char, v: int, flags: Flags)
    requires Readable(specifier, flags) && 0 <= v <= NumberParsing.ULONG_MAX
    ensures var tokens := Formatter.Tokens(FormatFor(specifier, flags), 0, false);
            && Formatter.AllMatch(tokens, [Formatter.Num(v)])
            && Formatter.FormatText(tokens, [Formatter.Num(v)]) == IntegerText(specifier, v, 0, 1, flags)
            && (Formatter.FormatUndefined(tokens, [Formatter.Num(v)]) <==> v == 0)
  {
    hide Formatter.TokenUndefined;
    var f := FormatFor(specifier, flags);
    var d := Formatter.Directive(flags, Formatter.Literal(0), Formatter.Absent, Formatter.IntLength, specifier);
    OneDirective(specifier, flags);
    var args := [Formatter.Num(v)];
    var tokens := [Formatter.Conversion(d, f)];
    hide IntegerText;
    assert Formatter.Matches(tokens[0], args) && Formatter.BitsOf(Formatter.IntLength, specifier, v) == v;
    assert Formatter.ConversionText(d, args) == IntegerText(specifier, v, 0, 1, flags);
    assert tokens[1..] == [] && args[1..] == [];
    UndefinedZero(d, f, v);
    assert Formatter.FormatText(tokens, args) == Formatter.TokenText(tokens[0], args) + Formatter.FormatText([], []);
  }

  lemma UndefinedZero(d: Formatter.Directive, f: string, v: int)
    requires d.specifier in {'u', 'x', 'X', 'o'} && d.length == Formatter.IntLength && Formatter.Stars(d) == 0
    requires 0 <= v <= NumberParsing.ULONG_MAX && Formatter.Matches(Formatter.Conversion(d, f), [Formatter.Num(v)])
    ensures Formatter.TokenUndefined(Formatter.Conversion(d, f), [Formatter.Num(v)]) <==> v == 0
  {
  }

  lemma OneDirective(specifier: char, flags: Flags)
    requires Readable(specifier, flags)
    ensures var f := FormatFor(specifier, flags);
            var d := Formatter.Directive(flags, Formatter.Literal(0), Formatter.Absent, Formatter.IntLength, specifier);
            Formatter.Tokens(f, 0, false) == [Formatter.Conversion(d, f)]
  {
    var f := FormatFor(specifier, flags);
    var n := |f| - 1;
    var start: Flags := Formatter.NO_FLAGS;
    assert Formatter.FlagsFrom(f, n, flags) == (flags, n);
    assert Formatter.FlagsFrom(f, 1, start) == (flags, n);
    assert Formatter.WidthFrom(f, n) == (Formatter.Literal(0), n);
    assert Formatter.PrecisionFrom(f, n) == (Formatter.Absent, n);
    assert Formatter.LengthFrom(f, n, Formatter.IntLength) == (Formatter.IntLength, n);
    assert f[0..n + 1] == f;
    assert Formatter.Tokens(f, n + 1, false) == [];
  }

  /**
    printf with %u, %#x, %#X or %#o and then strtoul with base 0: the number comes back, and the end is the end. Only
    printing 0 stores outside the buffer on the way.
   */
  lemma RoundTrip(specifier: char, v: int, flags: Flags)
    requires Readable(specifier, flags) && 0 <= v <= NumberParsing.ULONG_MAX
    ensures Formatter.AllMatch(Formatter.Tokens(FormatFor(specifier, flags), 0, false), [Formatter.Num(v)])
    ensures var text := Formatter.FormatText(Formatter.Tokens(FormatFor(specifier, flags), 0, false), [Formatter.Num(v)]);
            NumberParsing.Result(text, 0, false) == NumberParsing.Parsed(v, |text|, false)
    ensures Formatter.FormatUndefined(Formatter.Tokens(FormatFor(specifier, flags), 0, false), [Formatter.Num(v)]) <==> v == 0
  {
    hide IntegerText, NumberParsing.Result, Formatter.Tokens, Formatter.FormatText, Formatter.AllMatch, Formatter.FormatUndefined;
    FormatPrints(specifier, v, flags);
    PrintThenParse(specifier, v, flags);
  }
}
