/**
  Reading a number: white space, sign, base, digits; the accumulator wraps around on
  overflow, but the result does not depend on what it then holds.
 */
module NumberParsing {
  import opened Digits

  const ULONG_MAX: int := 0xFFFF_FFFF
  const LONG_MAX: int := 0x7FFF_FFFF
  const LONG_MIN: int := -0x8000_0000

  predicate Space(c: char) { c == ' ' || 9 as char <= c <= 13 as char }

  /** A character of the string, NUL behind its end. */
  function At(s: string, i: int): char {
    if 0 <= i < |s| then s[i] else 0 as char
  }

  function SkipSpaces(s: string, i: nat): (j: nat)
    requires i <= |s|
    ensures i <= j <= |s| && (j < |s| ==> !Space(s[j])) && forall k :: i <= k < j ==> Space(s[k])
    decreases |s| - i
  {
    if i < |s| && Space(s[i]) then SkipSpaces(s, i + 1) else i
  }

  /** The end of the digits of a base from i on. */
  function DigitsEnd(s: string, i: nat, base: int): (j: nat)
    requires i <= |s|
    ensures i <= j <= |s| && (j < |s| ==> DigitValue(s[j]) >= base) && AllDigits(s[i..j], base)
    decreases |s| - i
  {
    if i < |s| && DigitValue(s[i]) < base then
      var j := DigitsEnd(s, i + 1, base);
      assert s[i..j] == [s[i]] + s[i + 1..j];
      j
    else i
  }

  predicate Sign(c: char) { c == '+' || c == '-' }
  predicate HexMark(s: string, i: int) { At(s, i) == '0' && (At(s, i + 1) == 'x' || At(s, i + 1) == 'X') }

  function BaseFor(s: string, i: int, base: int): int {
    if base != 0 then base else if At(s, i) != '0' then 10 else if HexMark(s, i) then 16 else 8
  }

  /** Where the digits begin, behind white space, a sign and a 0x that fits the base. */
  function DigitsBegin(s: string, base: int): (r: (int, bool, nat))
    requires base == 0 || Base(base)
    ensures Base(r.0) && r.2 <= |s|
  {
    var i := SkipSpaces(s, 0);
    var j := if Sign(At(s, i)) then i + 1 else i;
    var b := BaseFor(s, j, base);
    (b, At(s, i) == '-', if b == 16 && HexMark(s, j) then j + 2 else j)
  }

  datatype Parsed = Parsed(value: int, end: nat, error: bool)

  function MaxOf(signed: bool): int { if signed then LONG_MAX else ULONG_MAX }

  /** A 32-bit value of the result type. */
  function Wrap(x: int, signed: bool): (r: int)
    ensures 0 <= x <= MaxOf(signed) ==> r == x
    ensures r <= MaxOf(signed)
  {
    var w := x % (ULONG_MAX + 1);
    if signed && w > LONG_MAX then w - (ULONG_MAX + 1) else w
  }

  /**
    What strtoul (and strtol, unless it meets a digit behind a minus sign) returns for a valid base: the number the digits denote, or the
    maximum with ERANGE exactly when that is too large.
   */
  function Result(s: string, base: int, signed: bool): Parsed
    requires base == 0 || Base(base)
  {
    var (b, minus, i) := DigitsBegin(s, base);
    var j := DigitsEnd(s, i, b);
    var n := Denote(s[i..j], b);
    var max := MaxOf(signed);
    Parsed(if n > max then max else if minus && n > 0 then ULONG_MAX + 1 - n else n, if j > i then j else 0, n > max)
  }

  /** What the signed accumulator holds behind the digits t, as long as no subtraction left the range of long. */
  function Accumulator(t: string, base: int): (r: int)
    ensures r <= LONG_MAX
    decreases |t|, 0
  {
    if t == "" then 0
    else
      var product, digit := Product(t[..|t| - 1], base), DigitValue(t[|t| - 1]);
      if LONG_MAX - product >= digit then product + digit else product
  }

  /** The product computed for the digit that follows the digits t, with its wrap-around. */
  function Product(t: string, base: int): (r: int)
    ensures r <= LONG_MAX
    decreases |t|, 1
  {
    Wrap(Accumulator(t, base) * base, true)
  }

  /** Some digit's product wraps around to a negative number. */
  predicate WrapsNegative(t: string, base: int) {
    t != "" && (Product(t[..|t| - 1], base) < 0 || WrapsNegative(t[..|t| - 1], base))
  }

  /**
    Whether strtol computes a value that no long can hold: for any digit behind a minus sign, where it subtracts LONG_MIN from
    0, and for a digit whose product has wrapped around to a negative number, which it subtracts from LONG_MAX.
   */
  predicate OutOfRange(digits: string, base: int, signed: bool, minus: bool) {
    signed && if minus then digits != "" else WrapsNegative(digits, base)
  }

  predicate Undefined(s: string, base: int, signed: bool)
    requires base == 0 || Base(base)
  {
    var (b, minus, i) := DigitsBegin(s, base);
    OutOfRange(s[i..DigitsEnd(s, i, b)], b, signed, minus)
  }

  // ---------- White space in front of a number ----------

  /** Space, \t, \n, \v, \f and \r. */
  predicate WhiteSpace(c: char) { c in {' ', 9 as char, 10 as char, 11 as char, 12 as char, 13 as char} }

  lemma {:induction false} SpacesBehind(c: char, s: string, i: nat)
    requires i <= |s|
    ensures SkipSpaces([c] + s, i + 1) == SkipSpaces(s, i) + 1
    decreases |s| - i
  {
    hide Space;
    assert forall k :: 0 <= k < |s| ==> ([c] + s)[k + 1] == s[k];
    if i < |s| && Space(s[i]) { SpacesBehind(c, s, i + 1); }
  }

  lemma {:induction false} DigitsEndBehind(c: char, s: string, i: nat, base: int)
    requires i <= |s|
    ensures DigitsEnd([c] + s, i + 1, base) == DigitsEnd(s, i, base) + 1
    decreases |s| - i
  {
    hide DigitValue, AllDigits;
    assert i < |s| ==> ([c] + s)[i + 1] == s[i];
    if i < |s| && DigitValue(s[i]) < base { DigitsEndBehind(c, s, i + 1, base); }
  }

  lemma BeginBehind(c: char, s: string, base: int)
    requires (base == 0 || Base(base)) && WhiteSpace(c)
    ensures var (b, minus, i), (b', minus', i') := DigitsBegin(s, base), DigitsBegin([c] + s, base); b' == b && minus' == minus && i' == i + 1
  {
    var t := [c] + s;
    SpacesBehind(c, s, 0);
    var i := SkipSpaces(s, 0);
    assert SkipSpaces(t, 0) == i + 1;
    hide SkipSpaces, Space;
    SameAt(c, s, i);
    SameAt(c, s, i + 1);
    SameAt(c, s, i + 2);
  }

  lemma SameAt(c: char, s: string, i: nat)
    ensures At([c] + s, i + 1) == At(s, i)
  {
  }

  /** Each of the six characters in front of a number leaves its value alone and moves its end by one. */
  lemma SpaceSkipped(c: char, s: string, base: int, signed: bool)
    requires (base == 0 || Base(base)) && WhiteSpace(c)
    ensures var r, r' := Result(s, base, signed), Result([c] + s, base, signed);
      r'.value == r.value && r'.error == r.error && r'.end == if r.end == 0 then 0 else r.end + 1
  {
    hide DigitsBegin, DigitsEnd, AllDigits, WhiteSpace, Wrap;
    BeginBehind(c, s, base);
    var (b, minus, i) := DigitsBegin(s, base);
    DigitsEndBehind(c, s, i, b);
    var j := DigitsEnd(s, i, b);
    assert ([c] + s)[i + 1..j + 1] == s[i..j];
    hide Denote;
  }

  /** Any other character that is neither a sign nor a digit ends the number before it begins. */
  lemma OtherStops(s: string, base: int, signed: bool)
    requires (base == 0 || Base(base)) && s != "" && !WhiteSpace(s[0]) && s[0] != '+' && s[0] != '-'
    requires DigitValue(s[0]) >= if base == 0 then 10 else base
    ensures Result(s, base, signed) == Parsed(0, 0, false)
  {
    assert !Space(s[0]) && SkipSpaces(s, 0) == 0;
    assert s[0] != '0';
    assert s[0..0] == "";
  }

  /** strtoul and strtol; `undefined` says that strtol would compute a value no long can hold. */
  method Strtoul(s: string, base: int, signed: bool) returns (r: Parsed, invalid: bool, undefined: bool)
    ensures invalid <==> !(base == 0 || Base(base))
    ensures invalid ==> r.value == 0 && !undefined
    ensures !invalid ==> undefined == Undefined(s, base, signed)
    ensures !invalid && !undefined ==> r == Result(s, base, signed)
  {
    if base < 0 || base == 1 || base > 36 {
      return Parsed(0, 0, false), true, false;
    }
    invalid := false;
    var b, minus, i := Begin(s, base);
    hide DigitsBegin, DigitsEnd, Denote, AllDigits, OutOfRange;
    var value, end, overflow, found, lost := Accumulate(s, i, b, signed, minus);
    if overflow {
      value := MaxOf(signed);
    } else if minus && !signed {
      value := if value == 0 then 0 else ULONG_MAX + 1 - value;
    }
    r, undefined := Parsed(value, if found then end else 0, overflow), lost;
    if !lost && signed && minus { NothingBehindMinus(s, i, b); }
  }

  lemma NothingBehindMinus(s: string, i: nat, b: int)
    requires i <= |s| && Base(b) && !OutOfRange(s[i..DigitsEnd(s, i, b)], b, true, true)
    ensures DigitsEnd(s, i, b) == i && Denote(s[i..i], b) == 0
  {
  }

  /** White space, sign and prefix. */
  method Begin(s: string, base: int) returns (b: int, minus: bool, i: nat)
    requires base == 0 || Base(base)
    ensures (b, minus, i) == DigitsBegin(s, base)
  {
    i := 0;
    while Space(At(s, i))
      invariant i <= |s| && SkipSpaces(s, i) == SkipSpaces(s, 0)
      decreases |s| - i
    {
      i := i + 1;
    }
    assert i == SkipSpaces(s, 0);
    hide SkipSpaces, Space;
    minus := false;
    if At(s, i) == '+' {
      i := i + 1;
    } else if At(s, i) == '-' {
      minus, i := true, i + 1;
    }
    b := base;
    if b == 0 {
      if At(s, i) == '0' {
        if At(s, i + 1) == 'x' || At(s, i + 1) == 'X' {
          b := 16;
        } else {
          b := 8;
        }
      } else {
        b := 10;
      }
    }
    if b == 16 && At(s, i) == '0' && (At(s, i + 1) == 'x' || At(s, i + 1) == 'X') {
      i := i + 2;
    }
  }

  /** Subtraction of longs: whether its result is one. */
  predicate Fits(x: int) { LONG_MIN <= x <= LONG_MAX }

  /**
    The digit loop.  Once the product or the sum has overflowed, the flag stays set and the number stays too large.  The
    comparisons of strtol subtract longs, and the loop is left when such a difference is out of range.
   */
  method Accumulate(s: string, i: nat, base: int, signed: bool, minus: bool)
    returns (result: int, end: nat, overflow: bool, found: bool, undefined: bool)
    requires i <= |s| && Base(base)
    ensures undefined == OutOfRange(s[i..DigitsEnd(s, i, base)], base, signed, minus)
    ensures !undefined ==> end == DigitsEnd(s, i, base) && found == (end > i)
    ensures !undefined ==> (overflow <==> Denote(s[i..end], base) > MaxOf(signed))
    ensures !undefined && !overflow ==> result == Denote(s[i..end], base)
  {
    hide DigitValue, DigitsEnd, Denote, AllDigits, Accumulator, Product, OutOfRange, WrapsNegative;
    var negative := minus && signed;
    result, end, overflow, found, undefined := 0, i, false, false, false;
    NoDigits(s, i, base);
    while true
      invariant i <= end <= |s| && DigitsEnd(s, end, base) == DigitsEnd(s, i, base) && found == (end > i)
      invariant 0 <= result <= MaxOf(signed) && AllDigits(s[i..end], base) && (negative ==> end == i && result == 0)
      invariant overflow <==> Denote(s[i..end], base) > MaxOf(signed)
      invariant !overflow ==> result == Denote(s[i..end], base)
      invariant signed ==> result == Accumulator(s[i..end], base)
      invariant signed && !minus ==> !WrapsNegative(s[i..end], base)
      decreases |s| - end
    {
      var digit := DigitValue(At(s, end));
      EndStep(s, end, base);
      if digit >= base { break; }
      found := true;
      DenoteNext(s, i, end, base);
      Step(Denote(s[i..end], base), result, overflow, base, digit, signed);
      AccumulatorNext(s, i, end, base);
      var product := result * base;
      if Wrap(product, signed) != product {
        overflow := true;
      }
      result := Wrap(product, signed);
      if signed && !Fits(if negative then result - LONG_MIN else LONG_MAX - result) {
        undefined := true;
        Leaves(s, i, end, base, negative);
        return;
      }
      if MaxOf(signed) - result >= digit {
        result := result + digit;
      } else {
        overflow := true;
      }
      end := end + 1;
    }
    Stays(s, i, end, base, signed, minus);
    assert end == DigitsEnd(s, i, base);
  }

  lemma AccumulatorNext(s: string, i: nat, end: nat, base: int)
    requires i <= end < |s|
    ensures var t, product := s[i..end], Product(s[i..end], base);
      && product == Wrap(Accumulator(t, base) * base, true)
      && Accumulator(s[i..end + 1], base) == (if LONG_MAX - product >= DigitValue(s[end]) then product + DigitValue(s[end]) else product)
      && (WrapsNegative(s[i..end + 1], base) <==> product < 0 || WrapsNegative(t, base))
  {
    hide Product, DigitValue;
    assert s[i..end + 1][..end - i] == s[i..end];
    ProductIs(s[i..end], base);
  }

  lemma ProductIs(t: string, base: int)
    ensures Product(t, base) == Wrap(Accumulator(t, base) * base, true)
  {
  }

  lemma {:induction false} StillNegative(s: string, i: nat, end: nat, j: nat, base: int)
    requires i <= end <= j <= |s| && WrapsNegative(s[i..end], base)
    ensures WrapsNegative(s[i..j], base)
    decreases j
  {
    hide Product;
    if end < j {
      StillNegative(s, i, end, j - 1, base);
      assert s[i..j][..j - 1 - i] == s[i..j - 1];
    }
  }

  /** The digit at `end` asks for a value that is out of range. */
  lemma Leaves(s: string, i: nat, end: nat, base: int, minus: bool)
    requires i <= |s| && Base(base) && i <= end < DigitsEnd(s, i, base) && (!minus ==> WrapsNegative(s[i..end + 1], base))
    ensures OutOfRange(s[i..DigitsEnd(s, i, base)], base, true, minus)
  {
    if !minus { StillNegative(s, i, end + 1, DigitsEnd(s, i, base), base); }
  }

  lemma Stays(s: string, i: nat, end: nat, base: int, signed: bool, minus: bool)
    requires i <= end <= |s| && (signed ==> if minus then end == i else !WrapsNegative(s[i..end], base))
    ensures !OutOfRange(s[i..end], base, signed, minus)
  {
  }

  /** The condition by prefixes: behind some of the digits the product that wraps around is negative. */
  lemma {:induction false} WrapsAt(t: string, base: int)
    ensures WrapsNegative(t, base) <==> exists k :: 0 <= k < |t| && Product(t[..k], base) < 0
  {
    hide Product;
    if t != "" {
      var before := t[..|t| - 1];
      WrapsAt(before, base);
      forall k | 0 <= k < |t| - 1 ensures before[..k] == t[..k] {
      }
    }
  }

  lemma NoDigits(s: string, i: nat, base: int)
    requires i <= |s| && Base(base)
    ensures AllDigits(s[i..i], base) && Denote(s[i..i], base) == 0 == Accumulator(s[i..i], base) && !WrapsNegative(s[i..i], base)
  {
  }

  lemma EndStep(s: string, end: nat, base: int)
    requires end <= |s| && Base(base)
    ensures DigitValue(At(s, end)) >= 0
    ensures if DigitValue(At(s, end)) >= base then DigitsEnd(s, end, base) == end
            else end < |s| && At(s, end) == s[end] && DigitsEnd(s, end, base) == DigitsEnd(s, end + 1, base) > end
  {
  }

  /** One digit more: whether anything overflowed up to here is whether the exact number is too large. */
  lemma Step(n: nat, result: int, overflow: bool, base: int, digit: int, signed: bool)
    requires 2 <= base && 0 <= digit < base && result <= MaxOf(signed)
    requires (overflow <==> n > MaxOf(signed)) && (!overflow ==> result == n)
    ensures var product := result * base;
            var wrapped := Wrap(product, signed);
            var over := overflow || wrapped != product || MaxOf(signed) - wrapped < digit;
            && (over <==> n * base + digit > MaxOf(signed)) && (!over ==> wrapped + digit == n * base + digit)
            && wrapped <= MaxOf(signed)
  {
    hide Wrap;
    Grows(n, base);
  }

  lemma DenoteNext(s: string, i: nat, end: nat, base: int)
    requires i <= end < |s| && Base(base) && AllDigits(s[i..end], base) && DigitValue(s[end]) < base
    ensures AllDigits(s[i..end + 1], base)
    ensures Denote(s[i..end + 1], base) == Denote(s[i..end], base) * base + DigitValue(s[end])
    ensures Denote(s[i..end + 1], base) >= Denote(s[i..end], base)
  {
    hide DigitValue;
    DenoteAppend(s[i..end], s[end], base);
    assert s[i..end + 1] == s[i..end] + [s[end]];
    DigitAtLeast(s[end]);
    Grows(Denote(s[i..end], base), base);
  }

  lemma DigitAtLeast(c: char)
    ensures DigitValue(c) >= 0
  {
  }

  lemma Grows(n: nat, base: int)
    requires base >= 2
    ensures n * base >= n
  {
  }

  // ---------- Where strtol stays in range ----------

  /** As long as the number fits a long the accumulator holds it and no product wraps around. */
  lemma {:induction false} FitsThrough(t: string, base: int)
    requires Base(base) && AllDigits(t, base) && Denote(t, base) <= LONG_MAX
    ensures Accumulator(t, base) == Denote(t, base) && !OutOfRange(t, base, true, false)
  {
    if t != "" {
      var before, c := t[..|t| - 1], t[|t| - 1];
      assert before + [c] == t;
      DenoteAppend(before, c, base);
      DigitAtLeast(c);
      Grows(Denote(before, base), base);
      FitsThrough(before, base);
      ProductIs(before, base);
      hide DigitValue, Denote;
    }
  }

  /** strtol of a number without a minus sign that fits a long: that number, to the end of its digits. */
  lemma DefinedBelow(s: string, base: int)
    requires base == 0 || Base(base)
    requires var (b, minus, i) := DigitsBegin(s, base); !minus && Denote(s[i..DigitsEnd(s, i, b)], b) <= LONG_MAX
    ensures var (b, minus, i) := DigitsBegin(s, base); var j := DigitsEnd(s, i, b);
      !Undefined(s, base, true) && Result(s, base, true) == Parsed(Denote(s[i..j], b), if j > i then j else 0, false)
  {
    var (b, minus, i) := DigitsBegin(s, base);
    FitsThrough(s[i..DigitsEnd(s, i, b)], b);
    hide DigitsBegin, DigitsEnd, Denote, OutOfRange, AllDigits;
  }

  /** One digit more behind digits whose number fits a long. */
  lemma NextDigit(t: string, n: nat, c: char)
    requires AllDigits(t, 10) && Denote(t, 10) == n <= LONG_MAX && '0' <= c <= '9'
    ensures AllDigits(t + [c], 10) && Denote(t + [c], 10) == n * 10 + DigitValue(c)
    ensures Product(t, 10) == Wrap(n * 10, true) && (WrapsNegative(t + [c], 10) <==> Product(t, 10) < 0)
  {
    DenoteAppend(t, c, 10);
    FitsThrough(t, 10);
    ProductIs(t, 10);
    hide Product, Accumulator;
    assert (t + [c])[..|t|] == t;
  }

  lemma NothingDenoted()
    ensures AllDigits("", 10) && Denote("", 10) == 0
  {
  }

  lemma FirstDigitsHalf()
    ensures AllDigits("2147", 10) && Denote("2147", 10) == 2147
  {
    hide Denote, Product, WrapsNegative, AllDigits, Wrap;
    NothingDenoted();
    NextDigit("", 0, '2');
    assert "" + ['2'] == "2";
    NextDigit("2", 2, '1');
    assert "2" + ['1'] == "21";
    NextDigit("21", 21, '4');
    assert "21" + ['4'] == "214";
    NextDigit("214", 214, '7');
    assert "214" + ['7'] == "2147";
  }

  lemma FirstDigits()
    ensures AllDigits("21474836", 10) && Denote("21474836", 10) == 21474836
  {
    hide Denote, Product, WrapsNegative, AllDigits, Wrap;
    FirstDigitsHalf();
    NextDigit("2147", 2147, '4');
    assert "2147" + ['4'] == "21474";
    NextDigit("21474", 21474, '8');
    assert "21474" + ['8'] == "214748";
    NextDigit("214748", 214748, '3');
    assert "214748" + ['3'] == "2147483";
    NextDigit("2147483", 2147483, '6');
    assert "2147483" + ['6'] == "21474836";
  }

  lemma SecondDigitsHalf()
    ensures AllDigits("4294", 10) && Denote("4294", 10) == 4294
  {
    hide Denote, Product, WrapsNegative, AllDigits, Wrap;
    NothingDenoted();
    NextDigit("", 0, '4');
    assert "" + ['4'] == "4";
    NextDigit("4", 4, '2');
    assert "4" + ['2'] == "42";
    NextDigit("42", 42, '9');
    assert "42" + ['9'] == "429";
    NextDigit("429", 429, '4');
    assert "429" + ['4'] == "4294";
  }

  lemma SecondDigits()
    ensures AllDigits("42949673", 10) && Denote("42949673", 10) == 42949673
  {
    hide Denote, Product, WrapsNegative, AllDigits, Wrap;
    SecondDigitsHalf();
    NextDigit("4294", 4294, '9');
    assert "4294" + ['9'] == "42949";
    NextDigit("42949", 42949, '6');
    assert "42949" + ['6'] == "429496";
    NextDigit("429496", 429496, '7');
    assert "429496" + ['7'] == "4294967";
    NextDigit("4294967", 4294967, '3');
    assert "4294967" + ['3'] == "42949673";
  }

  lemma WholeNumber(s: string)
    requires s != "" && '1' <= s[0] <= '9' && AllDigits(s, 10)
    ensures DigitsBegin(s, 10) == (10, false, 0) && DigitsEnd(s, 0, 10) == |s| && s[0..|s|] == s
  {
    FirstCharacter(s);
    assert s[0..] == s;
    ReadsDigits(s, 0, 10);
    hide SkipSpaces, DigitsEnd, AllDigits, DigitValue;
  }

  /**
    Both numbers are too large for a long.  For the first strtol computes out of range: the product of its last digit wraps
    around to -2147483646.  For the second it wraps around to 4, and the result is LONG_MAX, as the standard asks.
   */
  lemma OverflowExamples()
    ensures Product("214748365", 10) == -2147483646 && Undefined("2147483650", 10, true)
    ensures Product("429496730", 10) == 4 && !Undefined("4294967300", 10, true) && Result("4294967300", 10, true) == Parsed(LONG_MAX, 10, true)
  {
    OutOfRangeExample();
    InRangeExample();
  }

  lemma OutOfRangeExample()
    ensures Product("214748365", 10) == -2147483646 && Undefined("2147483650", 10, true)
  {
    hide Denote, Product, WrapsNegative, AllDigits, Wrap, DigitsBegin, DigitsEnd;
    FirstDigits();
    assert "21474836" + "5" == "214748365" && "214748365" + "0" == "2147483650";
    WrapsAround();
    NextDigit("21474836", 21474836, '5');
    NextDigit("214748365", 214748365, '0');
    WholeNumber("2147483650");
  }

  lemma InRangeExample()
    ensures Product("429496730", 10) == 4 && !Undefined("4294967300", 10, true) && Result("4294967300", 10, true) == Parsed(LONG_MAX, 10, true)
  {
    hide Denote, Product, WrapsNegative, AllDigits, Wrap, DigitsBegin, DigitsEnd;
    SecondDigits();
    NotWrapped("42949673");
    assert "42949673" + "0" == "429496730" && "429496730" + "0" == "4294967300";
    WrapsAround();
    NextDigit("42949673", 42949673, '0');
    NextDigit("429496730", 429496730, '0');
    WholeNumber("4294967300");
  }

  /** No product of digits wraps around that denote a long. */
  lemma NotWrapped(t: string)
    requires AllDigits(t, 10) && Denote(t, 10) <= LONG_MAX
    ensures !WrapsNegative(t, 10)
  {
    FitsThrough(t, 10);
  }

  lemma WrapsAround()
    ensures Wrap(2147483650, true) == -2147483646 && Wrap(4294967300, true) == 4
  {
  }

  // ---------- Print, then parse ----------

  /** A string of nothing but digits, in the base its prefix calls for, is read to its end as the number it denotes. */
  lemma ReadsBack(s: string, prefix: string, digits: string, b: int, v: int)
    requires s == prefix + digits && digits != "" && 0 <= v <= ULONG_MAX
    requires Base(b) && AllDigits(digits, b) && Denote(digits, b) == v
    requires (b == 16 && prefix in {"0x", "0X"}) || (b == 10 && prefix == "" && '1' <= digits[0] <= '9')
             || (b == 8 && prefix == "" && digits[0] == '0')
    ensures Result(s, 0, false) == Parsed(v, |s|, false)
  {
    BeginsBehind(s, prefix, digits, b);
    hide DigitsBegin, Denote, AllDigits, DigitValue;
    assert s[|prefix|..] == digits;
    ReadsDigits(s, |prefix|, b);
    assert s[|prefix|..|s|] == digits;
  }

  lemma BeginsBehind(s: string, prefix: string, digits: string, b: int)
    requires s == prefix + digits && digits != "" && AllDigits(digits, b)
    requires (b == 16 && prefix in {"0x", "0X"}) || (b == 10 && prefix == "" && '1' <= digits[0] <= '9')
             || (b == 8 && prefix == "" && digits[0] == '0')
    ensures DigitsBegin(s, 0) == (b, false, |prefix|)
  {
    assert At(s, 0) == if prefix == "" then digits[0] else '0';
    FirstCharacter(s);
    hide SkipSpaces;
    if b == 8 { OctalMark(s, digits); }
    hide AllDigits, DigitValue;
  }

  lemma FirstCharacter(s: string)
    requires s != "" && '0' <= s[0] <= '9'
    ensures SkipSpaces(s, 0) == 0
  {
  }

  lemma OctalMark(s: string, digits: string)
    requires s == "" + digits && digits != "" && AllDigits(digits, 8)
    ensures !HexMark(s, 0)
  {
    assert |digits| > 1 ==> DigitValue(digits[1]) < 8;
  }

  lemma {:induction false} ReadsDigits(s: string, i: nat, base: int)
    requires i <= |s| && AllDigits(s[i..], base)
    ensures DigitsEnd(s, i, base) == |s|
    decreases |s| - i
  {
    if i < |s| {
      assert s[i] == s[i..][0] && s[i + 1..] == s[i..][1..];
      ReadsDigits(s, i + 1, base);
    }
  }

  // ---------- Against the standard ----------

  /** The integer constants of section 6.4.4.1 of ISO/IEC 9899:2011 without a suffix. */
  predicate Decimal(t: string) { t != "" && '1' <= t[0] <= '9' && AllDigits(t, 10) }
  predicate Octal(t: string) { t != "" && t[0] == '0' && AllDigits(t, 8) }
  predicate Hexadecimal(t: string) { |t| > 2 && t[0] == '0' && (t[1] == 'x' || t[1] == 'X') && AllDigits(t[2..], 16) }

  /** What section 7.22.1.4 expects behind the sign: an integer constant for base 0, else digits, in base 16 also behind 0x. */
  predicate Numeral(t: string, base: int) {
    if base == 0 then Decimal(t) || Octal(t) || Hexadecimal(t)
    else (t != "" && AllDigits(t, base)) || (base == 16 && Hexadecimal(t))
  }

  function NumeralValue(t: string, base: int): nat
    requires (base == 0 || Base(base)) && Numeral(t, base)
  {
    if (base == 0 || base == 16) && Hexadecimal(t) then Denote(t[2..], 16)
    else if base != 0 then Denote(t, base)
    else if Octal(t) then Denote(t, 8)
    else Denote(t, 10)
  }

  /** A numeral, optionally behind a sign. */
  predicate Expected(t: string, base: int) {
    Numeral(t, base) || (t != "" && (t[0] == '+' || t[0] == '-') && Numeral(t[1..], base))
  }

  /** The number without its sign. */
  function Magnitude(t: string, base: int): nat
    requires (base == 0 || Base(base)) && Expected(t, base)
  {
    if Numeral(t, base) then NumeralValue(t, base) else NumeralValue(t[1..], base)
  }

  /** s[i..j] is the subject sequence: the longest string of the expected form that begins at the first character that is no white space. */
  ghost predicate Subject(s: string, base: int, i: int, j: int) {
    && 0 <= i <= j <= |s| && (forall k :: 0 <= k < i ==> WhiteSpace(s[k])) && (i < |s| ==> !WhiteSpace(s[i]))
    && (j > i ==> Expected(s[i..j], base)) && forall k :: j < k <= |s| ==> !Expected(s[i..k], base)
  }

  /** What becomes of the subject sequence: its value, negated behind a minus sign, and its end; no conversion when it is empty. */
  predicate Converts(s: string, base: int, i: int, j: int, r: Parsed)
    requires base == 0 || Base(base)
  {
    if i == j then r == Parsed(0, 0, false)
    else
      && 0 <= i < j <= |s| && Expected(s[i..j], base)
      && var n := Magnitude(s[i..j], base);
         r == Parsed(if n > ULONG_MAX then ULONG_MAX else if s[i] == '-' && n > 0 then ULONG_MAX + 1 - n else n, j, n > ULONG_MAX)
  }

  /** What section 7.22.1.4 of ISO/IEC 9899:2011 asks of strtoul. */
  ghost predicate Standard(s: string, base: int, r: Parsed)
    requires base == 0 || Base(base)
  {
    exists i, j :: Subject(s, base, i, j) && Converts(s, base, i, j, r)
  }

  /** Behind the white space and the sign. */
  function NumeralBegin(s: string): (j: nat)
    ensures j <= |s|
  {
    if Sign(At(s, SkipSpaces(s, 0))) then SkipSpaces(s, 0) + 1 else SkipSpaces(s, 0)
  }

  predicate HexDigit(c: char) { DigitValue(c) < 16 }

  /** 0x without a hexadecimal digit behind it, where base 16 applies. */
  predicate DanglingPrefix(s: string, base: int) {
    var j := NumeralBegin(s);
    base in {0, 16} && HexMark(s, j) && !HexDigit(At(s, j + 2))
  }

  lemma {:induction false} DigitsUpTo(s: string, i: nat, base: int, k: int)
    requires i <= k <= |s|
    ensures AllDigits(s[i..k], base) <==> k <= DigitsEnd(s, i, base)
    decreases |s| - i
  {
    hide DigitValue;
    if i < k {
      assert s[i..k][0] == s[i];
      if DigitValue(s[i]) < base {
        DigitsUpTo(s, i + 1, base, k);
        assert s[i..k] == [s[i]] + s[i + 1..k];
      }
    }
  }

  lemma MarkInside(s: string, j: nat)
    requires HexMark(s, j)
    ensures j + 2 <= |s|
  {
  }

  /** Where a numeral that begins at j can end: behind 0x there must be a digit, but its 0 is a numeral as well. */
  predicate EndsAt(s: string, base: int, j: nat, k: int)
    requires (base == 0 || Base(base)) && j <= |s|
  {
    if base in {0, 16} && HexMark(s, j) then
      MarkInside(s, j);
      k == j + 1 || j + 2 < k <= DigitsEnd(s, j + 2, 16)
    else j < k <= DigitsEnd(s, j, BaseFor(s, j, base))
  }

  lemma NumeralEnds(s: string, base: int, j: nat, k: int)
    requires (base == 0 || Base(base)) && j < k <= |s|
    ensures Numeral(s[j..k], base) <==> EndsAt(s, base, j, k)
  {
    var t, b := s[j..k], BaseFor(s, j, base);
    assert t[0] == At(s, j) && (k > j + 1 ==> t[1] == At(s, j + 1));
    DigitsUpTo(s, j, b, k);
    if base in {0, 16} && HexMark(s, j) {
      MarkInside(s, j);
      if k > j + 1 { assert DigitValue(t[1]) > 16; }
      if k > j + 2 {
        assert t[2..] == s[j + 2..k];
        DigitsUpTo(s, j + 2, 16, k);
      }
    } else if base == 0 && AllDigits(t, b) {
      assert DigitValue(t[0]) < b;
    }
  }

  /** The value of a numeral is what its digits behind a 0x, if there is one, denote. */
  lemma NumeralDenotes(s: string, base: int, j: nat, k: int)
    requires (base == 0 || Base(base)) && j < k <= |s| && Numeral(s[j..k], base)
    requires base in {0, 16} && HexMark(s, j) ==> k > j + 2
    ensures var b := BaseFor(s, j, base); var d := if b == 16 && HexMark(s, j) then j + 2 else j;
      d < k && AllDigits(s[d..k], b) && NumeralValue(s[j..k], base) == Denote(s[d..k], b)
  {
    var t := s[j..k];
    assert t[0] == At(s, j) && (k > j + 1 ==> t[1] == At(s, j + 1));
    hide Denote;
    if base in {0, 16} && HexMark(s, j) {
      assert t[2..] == s[j + 2..k] && DigitValue(t[1]) > 16;
    }
  }

  /** No numeral begins with a sign, so an expected form is a numeral that begins behind the sign. */
  lemma ExpectedEnds(s: string, base: int, k: int)
    requires (base == 0 || Base(base)) && SkipSpaces(s, 0) < k <= |s|
    ensures Expected(s[SkipSpaces(s, 0)..k], base) <==> NumeralBegin(s) < k && Numeral(s[NumeralBegin(s)..k], base)
    ensures var t := s[SkipSpaces(s, 0)..k]; Expected(t, base) ==> Magnitude(t, base) == NumeralValue(s[NumeralBegin(s)..k], base)
  {
    var i := SkipSpaces(s, 0);
    var t := s[i..k];
    hide SkipSpaces, NumeralValue;
    assert t[0] == At(s, i);
    if Sign(t[0]) {
      assert DigitValue(t[0]) == NO_DIGIT;
      assert !Numeral(t, base);
      assert t[1..] == s[i + 1..k];
    }
  }

  /** The end of the subject sequence. */
  function SubjectEnd(s: string, base: int): (e: nat)
    requires base == 0 || Base(base)
    ensures SkipSpaces(s, 0) <= e <= |s|
  {
    var (b, _, d) := DigitsBegin(s, base);
    var e := DigitsEnd(s, d, b);
    if e > d then e else if DanglingPrefix(s, base) then MarkInside(s, NumeralBegin(s)); NumeralBegin(s) + 1 else SkipSpaces(s, 0)
  }

  /** Behind the subject sequence no string of the expected form ends, and at its end one does. */
  lemma EndsAtEnd(s: string, base: int)
    requires base == 0 || Base(base)
    ensures var i, j, e := SkipSpaces(s, 0), NumeralBegin(s), SubjectEnd(s, base);
      && (e > i ==> j < e && EndsAt(s, base, j, e)) && forall k :: e < k && j < k ==> !EndsAt(s, base, j, k)
  {
    var j := NumeralBegin(s);
    if HexMark(s, j) {
      MarkInside(s, j);
      EndStep(s, j + 2, 16);
    }
    hide DigitValue, SkipSpaces, Space, DigitsEnd;
  }

  lemma SpacesAre(s: string)
    ensures forall k :: 0 <= k < |s| ==> (Space(s[k]) <==> WhiteSpace(s[k]))
  {
  }

  lemma SubjectHere(s: string, base: int)
    requires base == 0 || Base(base)
    ensures Subject(s, base, SkipSpaces(s, 0), SubjectEnd(s, base))
  {
    var i, j, e := SkipSpaces(s, 0), NumeralBegin(s), SubjectEnd(s, base);
    EndsAtEnd(s, base);
    SpacesAre(s);
    hide Expected, EndsAt, SubjectEnd, NumeralBegin, Numeral, Space, WhiteSpace;
    forall k | i < k <= |s| ensures Expected(s[i..k], base) <==> j < k && EndsAt(s, base, j, k) {
      ExpectedEnds(s, base, k);
      if j < k { NumeralEnds(s, base, j, k); }
    }
  }

  lemma SubjectUnique(s: string, base: int, i: int, j: int)
    requires (base == 0 || Base(base)) && Subject(s, base, i, j)
    ensures i == SkipSpaces(s, 0) && j == SubjectEnd(s, base)
  {
    hide Expected, DigitsBegin, DanglingPrefix;
    SubjectHere(s, base);
    var e := SubjectEnd(s, base);
    hide SubjectEnd;
    assert i == SkipSpaces(s, 0);
  }

  /** strtoul does what the standard says, except exactly for a 0x without digits, which it does not accept as 0. */
  lemma StandardResult(s: string, base: int)
    requires base == 0 || Base(base)
    ensures Standard(s, base, Result(s, base, false)) <==> !DanglingPrefix(s, base)
  {
    SubjectHere(s, base);
    ConvertsHere(s, base);
    hide Result, DanglingPrefix, Converts, Subject, SubjectEnd;
    forall i, j | Subject(s, base, i, j) && Converts(s, base, i, j, Result(s, base, false)) ensures !DanglingPrefix(s, base) {
      SubjectUnique(s, base, i, j);
    }
  }

  lemma ConvertsHere(s: string, base: int)
    requires base == 0 || Base(base)
    ensures Converts(s, base, SkipSpaces(s, 0), SubjectEnd(s, base), Result(s, base, false)) <==> !DanglingPrefix(s, base)
  {
    hide SkipSpaces, DigitsEnd, Denote, AllDigits, Numeral, NumeralValue, DigitValue, Expected, Magnitude, EndsAt, Space, SubjectEnd,
      DanglingPrefix;
    var i, e := SkipSpaces(s, 0), SubjectEnd(s, base);
    var (b, minus, d) := DigitsBegin(s, base);
    NoDigits(s, d, b);
    if DanglingPrefix(s, base) {
      NothingConverted(s, base);
    } else if e > i {
      DigitsBehind(s, base);
      MagnitudeHere(s, base);
    } else {
      NothingThere(s, base);
    }
  }

  lemma NothingConverted(s: string, base: int)
    requires (base == 0 || Base(base)) && DanglingPrefix(s, base)
    ensures SubjectEnd(s, base) == NumeralBegin(s) + 1 && Result(s, base, false).end == 0
  {
    MarkInside(s, NumeralBegin(s));
    EndStep(s, NumeralBegin(s) + 2, 16);
    hide SkipSpaces, DigitsEnd, Denote, Space;
  }

  lemma NothingThere(s: string, base: int)
    requires (base == 0 || Base(base)) && !DanglingPrefix(s, base) && SubjectEnd(s, base) == SkipSpaces(s, 0)
    ensures var (b, _, d) := DigitsBegin(s, base); DigitsEnd(s, d, b) == d
  {
    hide SkipSpaces, DigitsEnd, Space, HexDigit;
  }

  /** The number the subject sequence stands for is the one its digits denote. */
  lemma MagnitudeHere(s: string, base: int)
    requires (base == 0 || Base(base)) && !DanglingPrefix(s, base) && SubjectEnd(s, base) > SkipSpaces(s, 0)
    ensures var (b, _, d) := DigitsBegin(s, base); var t := s[SkipSpaces(s, 0)..SubjectEnd(s, base)];
      && d <= SubjectEnd(s, base) && AllDigits(s[d..SubjectEnd(s, base)], b) && Expected(t, base)
      && Magnitude(t, base) == Denote(s[d..SubjectEnd(s, base)], b)
  {
    var j, e := NumeralBegin(s), SubjectEnd(s, base);
    EndsAtEnd(s, base);
    NumeralEnds(s, base, j, e);
    ExpectedEnds(s, base, e);
    DigitsBehind(s, base);
    DigitsClear(s, base);
    hide SkipSpaces, DigitsEnd, Denote, AllDigits, Numeral, NumeralValue, DigitValue, Expected, Magnitude, EndsAt, Space, SubjectEnd,
      DanglingPrefix;
    NumeralDenotes(s, base, j, e);
  }

  lemma DigitsClear(s: string, base: int)
    requires (base == 0 || Base(base)) && !DanglingPrefix(s, base)
    ensures var (b, _, d) := DigitsBegin(s, base); var j := NumeralBegin(s);
      b == BaseFor(s, j, base) && d == (if b == 16 && HexMark(s, j) then j + 2 else j) && (base in {0, 16} && HexMark(s, j) ==> b == 16)
  {
    hide SkipSpaces, Space, HexDigit;
  }

  /** Without a dangling prefix the subject sequence ends behind its digits. */
  lemma DigitsBehind(s: string, base: int)
    requires (base == 0 || Base(base)) && !DanglingPrefix(s, base) && SubjectEnd(s, base) > SkipSpaces(s, 0)
    ensures var (b, _, d) := DigitsBegin(s, base); SubjectEnd(s, base) == DigitsEnd(s, d, b) > d >= NumeralBegin(s)
  {
    hide SkipSpaces, DigitsEnd, Space, HexDigit;
  }

  /** For "0x" the standard asks for the 0, with the x behind it; strtoul converts nothing. */
  lemma DanglingExample()
    ensures Result("0x", 0, false) == Parsed(0, 0, false) && Standard("0x", 0, Parsed(0, 1, false))
  {
    var s := "0x";
    EndStep(s, 2, 16);
    assert DigitsBegin(s, 0) == (16, false, 2);
    SubjectHere(s, 0);
    assert s[0..1] == "0" && Octal("0") && AllDigits("0", 8) && Denote("0", 8) == 0;
    assert Converts(s, 0, 0, 1, Parsed(0, 1, false));
  }
}
