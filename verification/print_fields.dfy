/**
  The output side of the formatter: one converted field at a time, passed to a
  callback that may stop accepting bytes.
 */
module PrintFields {
  import opened Digits

  const INT_MAX: int := 0x7FFF_FFFF

  datatype Flags = Flags(left: bool, plus: bool, space: bool, alternative: bool, zero: bool)

  /** What the callback has been given; it accepts `capacity` bytes in all, or any number when that is negative. */
  class Sink {
    var output: string
    const capacity: int

    ghost predicate Valid()
      reads this
    {
      capacity < 0 || |output| <= capacity
    }

    constructor (capacity: int)
      ensures Valid() && output == "" && this.capacity == capacity
    {
      this.capacity := capacity;
      output := "";
    }

    /** The callback: how many of the bytes it took. */
    method Write(s: string) returns (n: int)
      requires Valid()
      modifies this
      ensures Valid() && 0 <= n <= |s| && output == old(output) + s[..n]
      ensures n == |s| <==> Fits(capacity, old(output), |s|)
    {
      n := if capacity < 0 || |output| + |s| <= capacity then |s| else capacity - |output|;
      output := output + s[..n];
    }
  }

  predicate Fits(capacity: int, output: string, n: int) {
    capacity < 0 || |output| + n <= capacity
  }

  /** Text was passed on: all of it when it fits, otherwise as far as the callback took it. */
  ghost predicate Emitted(capacity: int, before: string, after: string, text: string, ok: bool) {
    && (ok <==> Fits(capacity, before, |text|))
    && before <= after && after <= before + text && (ok ==> after == before + text)
  }

  lemma EmitThen(capacity: int, s0: string, s1: string, s2: string, t1: string, t2: string, ok: bool)
    requires Emitted(capacity, s0, s1, t1, true) && Emitted(capacity, s1, s2, t2, ok)
    ensures Emitted(capacity, s0, s2, t1 + t2, ok)
  {
    assert s0 + (t1 + t2) == (s0 + t1) + t2;
  }

  /** What was passed on of a text is passed on of every longer text. */
  lemma EmitStops(capacity: int, s0: string, s1: string, t: string, text: string)
    requires Emitted(capacity, s0, s1, t, false) && t <= text
    ensures Emitted(capacity, s0, s1, text, false)
  {
    assert s0 + t <= s0 + text;
  }

  /** The result is the length of the text when all of it was passed on, and negative exactly when it is too long or was not. */
  ghost predicate Printed(capacity: int, before: string, after: string, text: string, r: int) {
    && (r >= 0 <==> |text| <= INT_MAX && Fits(capacity, before, |text|))
    && (r >= 0 ==> r == |text| && after == before + text)
    && before <= after && after <= before + text
  }

  lemma PrintedTooLong(capacity: int, s: string, text: string)
    requires |text| > INT_MAX
    ensures Printed(capacity, s, s, text, -1)
  {
  }

  lemma PrintedEmitted(capacity: int, s0: string, s1: string, text: string, ok: bool, r: int)
    requires Emitted(capacity, s0, s1, text, ok) && |text| <= INT_MAX && r == if ok then |text| else -1
    ensures Printed(capacity, s0, s1, text, r)
  {
  }

  lemma EmitNothing(capacity: int, s: string)
    requires capacity < 0 || |s| <= capacity
    ensures Emitted(capacity, s, s, "", true)
  {
  }

  function Repeat(c: char, n: int): (s: string)
    ensures |s| == if n > 0 then n else 0
    ensures forall k :: 0 <= k < |s| ==> s[k] == c
  {
    if n <= 0 then "" else Repeat(c, n - 1) + [c]
  }

  function Max(a: int, b: int): int { if a >= b then a else b }

  // ---------- What a field looks like ----------

  predicate Signed(specifier: char) { specifier == 'd' || specifier == 'i' }
  predicate Hexadecimal(specifier: char) { specifier == 'x' || specifier == 'X' }

  function BaseOf(specifier: char): (base: int)
    ensures base in {8, 10, 16}
  {
    if specifier == 'o' then 8 else if Hexadecimal(specifier) then 16 else 10
  }

  /** The negation overflows for the least signed number, and the digits of 0 are stored outside their buffer. */
  predicate Undefined(specifier: char, value: int) {
    value == 0 || (Signed(specifier) && value == LIMIT / 2)
  }

  predicate Negative(specifier: char, value: int) { Signed(specifier) && value >= LIMIT / 2 }

  /** The number whose digits are printed, for a 64-bit pattern. */
  function Magnitude(specifier: char, value: int): (m: nat)
    requires 0 <= value < LIMIT
    ensures m < LIMIT
  {
    if Negative(specifier, value) then LIMIT - value else value
  }

  function SignText(specifier: char, value: int, flags: Flags): string {
    if !Signed(specifier) then ""
    else if Negative(specifier, value) then "-"
    else if flags.plus then "+"
    else if flags.space then " "
    else ""
  }

  function PrefixText(specifier: char, value: int, flags: Flags): string {
    if !flags.alternative || value == 0 || !Hexadecimal(specifier) then ""
    else if specifier == 'x' then "0x" else "0X"
  }

  function DigitText(specifier: char, value: int): string
    requires 0 <= value < LIMIT
  {
    DigitsOf(Magnitude(specifier, value), BaseOf(specifier), specifier == 'X')
  }

  /** The digits, with zeros in front up to the precision; # makes sure that an octal number starts with 0. */
  function ZerosText(specifier: char, value: int, precision: int, flags: Flags): string
    requires 0 <= value < LIMIT
  {
    var n := |DigitText(specifier, value)|;
    Repeat('0', if flags.alternative && specifier == 'o' && n >= precision then 1 else precision - n)
  }

  function CoreLength(specifier: char, value: int, precision: int, flags: Flags): int
    requires 0 <= value < LIMIT
  {
    |SignText(specifier, value, flags)| + |PrefixText(specifier, value, flags)|
    + |ZerosText(specifier, value, precision, flags)| + |DigitText(specifier, value)|
  }

  /** A converted integer: [spaces][sign][0x][zeros][digits][spaces]. */
  function IntegerText(specifier: char, value: int, width: int, precision: int, flags: Flags): string
    requires 0 <= value < LIMIT
  {
    var pad := width - CoreLength(specifier, value, precision, flags);
    Repeat(' ', if flags.left || flags.zero then 0 else pad)
    + SignText(specifier, value, flags) + PrefixText(specifier, value, flags)
    + Repeat('0', if !flags.left && flags.zero then pad else 0)
    + ZerosText(specifier, value, precision, flags) + DigitText(specifier, value)
    + Repeat(' ', if flags.left then pad else 0)
  }

  function StringText(s: string, width: int, left: bool): string {
    var pad := Repeat(' ', width - |s|);
    if left then s + pad else pad + s
  }

  // ---------- The code ----------

  /** What convert_integer stores: for 0 the loop that stores is entered although the counting loop counted nothing. */
  function Stored(value: nat, base: int, upper: bool): string
    requires Base(base)
  {
    if value == 0 then "0" else DigitsOf(value, base, upper)
  }

  /**
    convert_integer: the digits of value at the start of a 24-byte buffer, which lies at `at` in the stack frame of the
    caller. The lowest byte it stores lies in front of the buffer exactly for 0, and no other byte of the frame changes.
   */
  method ConvertInteger(frame: array<char>, at: nat, value: nat, base: int, upper: bool) returns (length: nat, lowest: nat)
    requires 0 < at && at + 24 <= frame.Length && value < LIMIT && base in {8, 10, 16}
    modifies frame
    ensures length == |DigitsOf(value, base, upper)| <= 22 && lowest + |Stored(value, base, upper)| == at + length
    ensures frame[..] == old(frame[..])[..lowest] + Stored(value, base, upper) + old(frame[..])[at + length..]
    ensures frame[at..at + length] == DigitsOf(value, base, upper)
    ensures lowest < at <==> value == 0
  {
    hide DigitChar, DigitsOf, Stored, Power8;
    ghost var before := frame[..];
    DigitsBound(value, base, upper);
    ZeroDigit(base, upper);
    var i := value;
    length := 0;
    while i > 0
      invariant i >= 0 && length + |DigitsOf(i, base, upper)| == |DigitsOf(value, base, upper)| && frame[..] == before
    {
      DivMod(i, base);
      DigitsStep(i, base, upper);
      i := i / base;
      length := length + 1;
    }
    ghost var text, end := Stored(value, base, upper), at + length;
    ghost var start := end - |text|;
    StoredDigits(value, base, upper);
    var v := value;
    lowest := at + length;
    DivMod(v, base);
    if v > 0 { LastDigit(v, base, upper, text, |text|); }
    lowest := lowest - 1;
    frame[lowest] := DigitChar(v % base, upper);
    v := v / base;
    while v > 0
      invariant v >= 0 && start <= lowest < end && DigitsOf(v, base, upper) == (if value == 0 then "" else text[..lowest - start])
      invariant value == 0 ==> lowest == start && v == 0
      invariant forall j :: 0 <= j < frame.Length ==> frame[j] == if lowest <= j < end then text[j - start] else before[j]
    {
      DivMod(v, base);
      LastDigit(v, base, upper, text, lowest - start);
      lowest := lowest - 1;
      frame[lowest] := DigitChar(v % base, upper);
      v := v / base;
    }
    assert lowest == start;
    FrameIs(frame[..], before, text, start, end);
    assert frame[at..end] == frame[..][at..end];
  }

  lemma FrameIs(now: string, before: string, text: string, start: int, end: int)
    requires 0 <= start <= end <= |before| == |now| && |text| == end - start
    requires forall j :: 0 <= j < |now| ==> now[j] == if start <= j < end then text[j - start] else before[j]
    ensures now == before[..start] + text + before[end..]
    ensures now[start..end] == text && now[end..end] == ""
  {
  }

  lemma ZeroDigit(base: int, upper: bool)
    requires Base(base)
    ensures 0 / base == 0 && 0 % base == 0 && DigitChar(0, upper) == '0' && DigitsOf(0, base, upper) == ""
  {
  }

  lemma StoredDigits(value: nat, base: int, upper: bool)
    requires Base(base)
    ensures value > 0 ==> DigitsOf(value, base, upper) == Stored(value, base, upper) != ""
    ensures value > 0 ==> Stored(value, base, upper)[..|Stored(value, base, upper)|] == DigitsOf(value, base, upper)
    ensures value == 0 ==> Stored(value, base, upper) == "0"
  {
    hide DigitChar;
  }

  lemma LastDigit(v: nat, base: int, upper: bool, text: string, k: int)
    requires Base(base) && v > 0 && 0 <= k <= |text| && DigitsOf(v, base, upper) == text[..k]
    ensures k > 0 && text[k - 1] == DigitChar(v % base, upper) && DigitsOf(v / base, base, upper) == text[..k - 1]
  {
    hide DigitChar, DigitsOf;
    DivMod(v, base);
    DigitsStep(v, base, upper);
    LastOf(text, k, DigitsOf(v / base, base, upper), DigitChar(v % base, upper));
  }

  lemma LastOf(text: string, k: int, rest: string, c: char)
    requires 0 <= k <= |text| && text[..k] == rest + [c]
    ensures k > 0 && text[k - 1] == c && text[..k - 1] == rest
  {
    assert |rest| == k - 1 && text[k - 1] == text[..k][k - 1];
    assert text[..k - 1] == text[..k][..k - 1];
  }

  /** One of the loops that pass a padding character on one by one, when its condition holds. */
  method EmitIf(sink: Sink, needed: bool, c: char, from: int, to: int) returns (ok: bool)
    requires sink.Valid()
    modifies sink
    ensures sink.Valid()
    ensures Emitted(sink.capacity, old(sink.output), sink.output, if needed then Repeat(c, to - from) else "", ok)
  {
    hide Emitted, Repeat;
    ghost var s0 := sink.output;
    EmitNothing(sink.capacity, s0);
    if !needed { return true; }
    var i := from;
    RepeatStep(c, 0);
    while i < to
      invariant from <= i && (i <= to || i == from) && sink.Valid()
      invariant Emitted(sink.capacity, s0, sink.output, Repeat(c, i - from), true)
    {
      ghost var s1 := sink.output;
      ok := Emit(sink, [c]);
      RepeatStep(c, i - from + 1);
      EmitThen(sink.capacity, s0, s1, sink.output, Repeat(c, i - from), [c], ok);
      if !ok {
        RepeatPrefix(c, i - from + 1, to - from);
        EmitStops(sink.capacity, s0, sink.output, Repeat(c, i - from + 1), Repeat(c, to - from));
        return false;
      }
      i := i + 1;
    }
    RepeatStep(c, to - from);
    return true;
  }

  lemma RepeatStep(c: char, n: int)
    ensures Repeat(c, n) == if n <= 0 then "" else Repeat(c, n - 1) + [c]
  {
  }

  lemma {:induction false} RepeatPrefix(c: char, m: int, n: int)
    requires m <= n
    ensures Repeat(c, m) <= Repeat(c, n)
    decreases n - m
  {
    if m < n { RepeatPrefix(c, m, n - 1); }
  }

  /** Pass a text on in one call. */
  method Emit(sink: Sink, s: string) returns (ok: bool)
    requires sink.Valid()
    modifies sink
    ensures sink.Valid() && Emitted(sink.capacity, old(sink.output), sink.output, s, ok)
  {
    var n := sink.Write(s);
    ok := n == |s|;
  }

  /**
    printInteger: the field, or -1 when it is longer than an int can say or the callback stops. `undefined` says that the
    number was computed out of range or a byte stored out of bounds; the field is then the one that follows when the
    negation wraps around and the byte in front of the buffer holds nothing.
   */
  method PrintInteger(sink: Sink, specifier: char, bits: int, width: int, precision: int, options: Flags)
    returns (r: int, undefined: bool)
    requires sink.Valid() && 0 <= bits < LIMIT && 0 <= width <= INT_MAX && precision <= INT_MAX
    modifies sink
    ensures sink.Valid()
    ensures Printed(sink.capacity, old(sink.output), sink.output, IntegerText(specifier, bits, width, precision, options), r)
    ensures undefined <==> Undefined(specifier, bits)
  {
    ghost var s0, text := sink.output, IntegerText(specifier, bits, width, precision, options);
    IntegerLength(specifier, bits, width, precision, options);
    hide IntegerText, CoreLength, Printed, Emitted, Prepared;
    var negative, value, flags, digits, least, unpadded, overflow;
    negative, value, flags, digits, least, unpadded, overflow, undefined := Prepare(specifier, bits, precision, options);
    if overflow {
      PrintedTooLong(sink.capacity, s0, text);
      r := -1;
      return;
    }
    PreparedLength(specifier, bits, precision, options, negative, value, flags, digits, least, unpadded);
    var ok := EmitInteger(sink, specifier, bits, width, precision, options, negative, value, flags, digits, least, unpadded);
    r := if !ok then -1 else if unpadded >= width then unpadded else width;
    PrintedEmitted(sink.capacity, s0, sink.output, text, ok, r);
  }

  lemma PreparedLength(specifier: char, bits: int, precision: int, options: Flags,
                       negative: bool, value: int, flags: Flags, digits: string, least: int, unpadded: int)
    requires Prepared(specifier, bits, precision, options, negative, value, flags, digits, least, unpadded)
    ensures 0 <= bits < LIMIT && unpadded == CoreLength(specifier, bits, precision, options)
  {
  }

  /** The first half of printInteger: what is to be printed, and how long it is without padding. */
  method Prepare(specifier: char, bits: int, precision: int, options: Flags)
    returns (negative: bool, value: int, flags: Flags, digits: string, least: int, unpadded: int, overflow: bool, undefined: bool)
    requires 0 <= bits < LIMIT && precision <= INT_MAX
    ensures undefined <==> Undefined(specifier, bits)
    ensures overflow ==> CoreLength(specifier, bits, precision, options) > INT_MAX
    ensures !overflow ==> Prepared(specifier, bits, precision, options, negative, value, flags, digits, least, unpadded) && unpadded <= INT_MAX
  {
    hide DigitsOf, CoreLength, Stored;
    negative, value, flags, undefined := false, bits, options, false;
    if Signed(specifier) {
      var signedValue := if bits >= LIMIT / 2 then bits - LIMIT else bits;
      if signedValue < 0 {
        undefined := -signedValue >= LIMIT / 2;
        negative, value := true, -signedValue;
      }
    } else {
      flags := flags.(plus := false, space := false);
    }
    var base := if specifier == 'o' then 8 else if specifier == 'x' || specifier == 'X' then 16 else 10;
    var frame := new char[25];
    var length, lowest := ConvertInteger(frame, 1, value, base, specifier == 'X');
    undefined := undefined || lowest < 1;
    digits := frame[1..1 + length];
    assert digits == DigitText(specifier, bits);
    UnpaddedLength(specifier, bits, precision, options, negative, value, flags);

    least := precision;
    if flags.alternative && specifier == 'o' && length >= precision {
      least := length + 1;
    }
    unpadded, overflow := if length >= least then length else least, false;
    if negative || flags.plus || flags.space {
      if unpadded == INT_MAX { overflow := true; return; }
      unpadded := unpadded + 1;
    }
    if flags.alternative && (specifier == 'x' || specifier == 'X') && value != 0 {
      if unpadded > INT_MAX - 2 { overflow := true; return; }
      unpadded := unpadded + 2;
    }
  }

  lemma UnpaddedLength(specifier: char, bits: int, precision: int, options: Flags, negative: bool, value: int, flags: Flags)
    requires 0 <= bits < LIMIT && negative == Negative(specifier, bits) && value == Magnitude(specifier, bits)
    requires flags == if Signed(specifier) then options else options.(plus := false, space := false)
    ensures var length := |DigitText(specifier, bits)|;
            var least := if flags.alternative && specifier == 'o' && length >= precision then length + 1 else precision;
            CoreLength(specifier, bits, precision, options)
            == Max(length, least) + (if negative || flags.plus || flags.space then 1 else 0)
               + (if flags.alternative && Hexadecimal(specifier) && value != 0 then 2 else 0)
  {
    hide DigitText;
  }

  /** The second half of printInteger, from the first padding loop on. */
  method EmitInteger(sink: Sink, specifier: char, ghost bits: int, width: int, ghost precision: int, ghost options: Flags,
                     negative: bool, value: int, flags: Flags, digits: string, least: int, unpadded: int) returns (ok: bool)
    requires sink.Valid() && 0 <= bits < LIMIT
    requires Prepared(specifier, bits, precision, options, negative, value, flags, digits, least, unpadded)
    modifies sink
    ensures sink.Valid()
    ensures Emitted(sink.capacity, old(sink.output), sink.output, IntegerText(specifier, bits, width, precision, options), ok)
  {
    hide IntegerText, Emitted, Parts, Concat, Prepared, Repeat;
    ghost var capacity, s0 := sink.capacity, sink.output;
    ghost var parts := Parts(specifier, bits, width, precision, options);
    TextOfParts(specifier, bits, width, precision, options);
    PartsAre(specifier, bits, width, precision, options, negative, value, flags, digits, least, unpadded);
    EmitNothing(capacity, s0);
    ok := EmitIf(sink, !flags.left && !flags.zero, ' ', unpadded, width);
    Stage(capacity, s0, s0, sink.output, parts, 0, ok);
    if !ok { return; }
    ghost var s1 := sink.output;
    EmitNothing(capacity, s1);
    if negative || flags.plus || flags.space {
      ok := Emit(sink, [if negative then '-' else if flags.plus then '+' else ' ']);
    }
    Stage(capacity, s0, s1, sink.output, parts, 1, ok);
    if !ok { return; }
    ghost var s2 := sink.output;
    EmitNothing(capacity, s2);
    if flags.alternative {
      if specifier == 'x' && value != 0 {
        ok := Emit(sink, "0x");
      } else if specifier == 'X' && value != 0 {
        ok := Emit(sink, "0X");
      }
    }
    Stage(capacity, s0, s2, sink.output, parts, 2, ok);
    if !ok { return; }
    ghost var s3 := sink.output;
    ok := EmitIf(sink, !flags.left && flags.zero, '0', unpadded, width);
    Stage(capacity, s0, s3, sink.output, parts, 3, ok);
    if !ok { return; }
    ghost var s4 := sink.output;
    ok := EmitIf(sink, true, '0', |digits|, least);
    Stage(capacity, s0, s4, sink.output, parts, 4, ok);
    if !ok { return; }
    ghost var s5 := sink.output;
    ok := Emit(sink, digits);
    Stage(capacity, s0, s5, sink.output, parts, 5, ok);
    if !ok { return; }
    ghost var s6 := sink.output;
    ok := EmitIf(sink, flags.left, ' ', unpadded, width);
    Stage(capacity, s0, s6, sink.output, parts, 6, ok);
  }

  /** The values printInteger works with in its second half. */
  ghost predicate Prepared(specifier: char, bits: int, precision: int, options: Flags,
                           negative: bool, value: int, flags: Flags, digits: string, least: int, unpadded: int) {
    && 0 <= bits < LIMIT && digits == DigitText(specifier, bits)
    && negative == Negative(specifier, bits) && value == Magnitude(specifier, bits)
    && flags == (if Signed(specifier) then options else options.(plus := false, space := false))
    && least == (if flags.alternative && specifier == 'o' && |digits| >= precision then |digits| + 1 else precision)
    && unpadded == CoreLength(specifier, bits, precision, options)
  }

  lemma PartsAre(specifier: char, bits: int, width: int, precision: int, options: Flags,
                 negative: bool, value: int, flags: Flags, digits: string, least: int, unpadded: int)
    requires Prepared(specifier, bits, precision, options, negative, value, flags, digits, least, unpadded)
    ensures 0 <= bits < LIMIT
    ensures var p := Parts(specifier, bits, width, precision, options);
      && p[0] == (if !flags.left && !flags.zero then Repeat(' ', width - unpadded) else "")
      && p[1] == (if negative || flags.plus || flags.space then [if negative then '-' else if flags.plus then '+' else ' '] else "")
      && p[2] == (if flags.alternative && specifier == 'x' && value != 0 then "0x"
                  else if flags.alternative && specifier == 'X' && value != 0 then "0X" else "")
      && p[3] == (if !flags.left && flags.zero then Repeat('0', width - unpadded) else "")
      && p[4] == Repeat('0', least - |digits|) && p[5] == digits
      && p[6] == (if flags.left then Repeat(' ', width - unpadded) else "")
  {
    hide DigitsOf, CoreLength;
  }

  /** The seven parts of a converted integer. */
  function Parts(specifier: char, value: int, width: int, precision: int, flags: Flags): (parts: seq<string>)
    requires 0 <= value < LIMIT
    ensures |parts| == 7
  {
    var pad := width - CoreLength(specifier, value, precision, flags);
    [Repeat(' ', if flags.left || flags.zero then 0 else pad), SignText(specifier, value, flags), PrefixText(specifier, value, flags),
     Repeat('0', if !flags.left && flags.zero then pad else 0), ZerosText(specifier, value, precision, flags), DigitText(specifier, value),
     Repeat(' ', if flags.left then pad else 0)]
  }

  function Concat(parts: seq<string>): string {
    if parts == [] then "" else Concat(parts[..|parts| - 1]) + parts[|parts| - 1]
  }

  lemma {:induction false} ConcatPrefix(parts: seq<string>, k: nat)
    requires k <= |parts|
    ensures Concat(parts[..k]) <= Concat(parts)
  {
    if k == |parts| {
      assert parts[..k] == parts;
    } else {
      ConcatPrefix(parts[..|parts| - 1], k);
      assert parts[..|parts| - 1][..k] == parts[..k];
    }
  }

  /** One more part was passed on, or it was not and what was passed on is a prefix of the whole. */
  lemma Stage(capacity: int, s0: string, s1: string, s2: string, parts: seq<string>, k: nat, ok: bool)
    requires k < |parts| && Emitted(capacity, s0, s1, Concat(parts[..k]), true) && Emitted(capacity, s1, s2, parts[k], ok)
    ensures Emitted(capacity, s0, s2, Concat(parts[..k + 1]), ok)
    ensures !ok || k + 1 == |parts| ==> Emitted(capacity, s0, s2, Concat(parts), ok)
  {
    hide Emitted, Concat;
    ConcatStep(parts, k);
    EmitThen(capacity, s0, s1, s2, Concat(parts[..k]), parts[k], ok);
    ConcatPrefix(parts, k + 1);
    if !ok { EmitStops(capacity, s0, s2, Concat(parts[..k + 1]), Concat(parts)); }
  }

  lemma ConcatStep(parts: seq<string>, k: nat)
    requires k < |parts|
    ensures Concat(parts[..k + 1]) == Concat(parts[..k]) + parts[k] && (k + 1 == |parts| ==> parts[..k + 1] == parts)
  {
    assert parts[..k + 1][..k] == parts[..k];
  }

  lemma TextOfParts(specifier: char, value: int, width: int, precision: int, flags: Flags)
    requires 0 <= value < LIMIT
    ensures Concat(Parts(specifier, value, width, precision, flags)) == IntegerText(specifier, value, width, precision, flags)
    ensures Parts(specifier, value, width, precision, flags)[..0] == [] && Concat([]) == ""
  {
    var p := Parts(specifier, value, width, precision, flags);
    Concat7(p[0], p[1], p[2], p[3], p[4], p[5], p[6]);
    assert p == [p[0], p[1], p[2], p[3], p[4], p[5], p[6]];
    hide Concat, SignText, PrefixText, ZerosText, DigitText, Repeat;
  }

  lemma Concat7(a: string, b: string, c: string, d: string, e: string, f: string, g: string)
    ensures Concat([a, b, c, d, e, f, g]) == a + b + c + d + e + f + g
  {
    ConcatLast([a, b, c, d, e, f], g);
    ConcatLast([a, b, c, d, e], f);
    ConcatLast([a, b, c, d], e);
    ConcatLast([a, b, c], d);
    ConcatLast([a, b], c);
    ConcatLast([a], b);
    ConcatLast([], a);
    hide Concat;
    assert [a, b, c, d, e, f, g] == [a, b, c, d, e, f] + [g];
    assert [a, b, c, d, e, f] == [a, b, c, d, e] + [f];
    assert [a, b, c, d, e] == [a, b, c, d] + [e];
    assert [a, b, c, d] == [a, b, c] + [d];
    assert [a, b, c] == [a, b] + [c];
    assert [a, b] == [a] + [b];
    assert [a] == [] + [a];
  }

  lemma ConcatLast(parts: seq<string>, s: string)
    ensures Concat(parts + [s]) == Concat(parts) + s && Concat([]) == ""
  {
    assert (parts + [s])[..|parts|] == parts;
  }

  /** The field is as long as its core, or as the field width when that is more. */
  lemma IntegerLength(specifier: char, value: int, width: int, precision: int, flags: Flags)
    requires 0 <= value < LIMIT
    ensures |IntegerText(specifier, value, width, precision, flags)| == Max(CoreLength(specifier, value, precision, flags), width)
  {
    hide DigitText, SignText, PrefixText;
  }

  /** printString: the bytes, padded with spaces on one side. */
  method PrintString(sink: Sink, s: string, width: int, left: bool) returns (r: int)
    requires sink.Valid() && |s| <= INT_MAX && 0 <= width <= INT_MAX
    modifies sink
    ensures sink.Valid()
    ensures Printed(sink.capacity, old(sink.output), sink.output, StringText(s, width, left), r)
  {
    ghost var capacity, s0, pad := sink.capacity, sink.output, Repeat(' ', width - |s|);
    var ok := true;
    if !left {
      ok := EmitIf(sink, true, ' ', |s|, width);
      if !ok { EmitStops(capacity, s0, sink.output, pad, pad + s); return -1; }
    }
    ghost var s1 := sink.output;
    ok := Emit(sink, s);
    if !left { EmitThen(capacity, s0, s1, sink.output, pad, s, ok); }
    if !ok {
      if left { EmitStops(capacity, s0, sink.output, s, s + pad); }
      return -1;
    }
    ghost var s2 := sink.output;
    if left {
      ok := EmitIf(sink, true, ' ', |s|, width);
      EmitThen(capacity, s0, s2, sink.output, s, pad, ok);
      if !ok { return -1; }
    }
    r := if |s| >= width then |s| else width;
  }

  // ---------- The layout of an integer ----------

  predicate All(s: string, c: char) { forall k :: 0 <= k < |s| ==> s[k] == c }

  /**
    A converted integer is [spaces][sign][0x][zeros][digits][spaces]: at most one of the padding groups is there, the
    sign and prefix are those of the number, and the digits denote its magnitude.
   */
  lemma IntegerLayout(specifier: char, value: int, width: int, precision: int, flags: Flags)
    returns (before: string, sign: string, prefix: string, zeros: string, digits: string, after: string)
    requires 0 <= value < LIMIT
    ensures IntegerText(specifier, value, width, precision, flags) == before + sign + prefix + zeros + digits + after
    ensures All(before, ' ') && All(after, ' ') && All(zeros, '0') && |digits| <= 22
    ensures before == "" || (after == "" && !flags.left && !flags.zero && |before| == width - |sign| - |prefix| - |zeros| - |digits|)
    ensures after == "" || (before == "" && flags.left && |after| == width - |sign| - |prefix| - |zeros| - |digits|)
    ensures sign == SignText(specifier, value, flags) && prefix == PrefixText(specifier, value, flags)
    ensures AllDigits(digits, BaseOf(specifier)) && Denote(digits, BaseOf(specifier)) == Magnitude(specifier, value)
    ensures AllDigits(zeros + digits, BaseOf(specifier)) && Denote(zeros + digits, BaseOf(specifier)) == Magnitude(specifier, value)
    ensures precision >= 0 ==> |zeros| + |digits| >= precision
    ensures flags.alternative && specifier == 'o' ==> zeros + digits != "" && (zeros + digits)[0] == '0'
  {
    var pad := width - CoreLength(specifier, value, precision, flags);
    before := Repeat(' ', if flags.left || flags.zero then 0 else pad);
    sign := SignText(specifier, value, flags);
    prefix := PrefixText(specifier, value, flags);
    var fill, least := Repeat('0', if !flags.left && flags.zero then pad else 0), ZerosText(specifier, value, precision, flags);
    zeros := fill + least;
    digits := DigitText(specifier, value);
    after := Repeat(' ', if flags.left then pad else 0);
    LayoutDigits(specifier, value, zeros, precision, flags);
    if flags.alternative && specifier == 'o' { OctalZero(specifier, value, fill, precision, flags); }
    hide DigitText, SignText, PrefixText, DigitsOf, Denote, AllDigits, Magnitude, BaseOf;
    TextOf(before + sign + prefix, fill, least, digits, after);
  }

  lemma LayoutDigits(specifier: char, value: int, zeros: string, precision: int, flags: Flags)
    requires 0 <= value < LIMIT && All(zeros, '0')
    ensures var digits, base := DigitText(specifier, value), BaseOf(specifier);
      && |digits| <= 22 && AllDigits(digits, base) && Denote(digits, base) == Magnitude(specifier, value)
      && AllDigits(zeros + digits, base) && Denote(zeros + digits, base) == Magnitude(specifier, value)
  {
    DigitsBound(Magnitude(specifier, value), BaseOf(specifier), specifier == 'X');
    DigitsDenote(Magnitude(specifier, value), BaseOf(specifier), specifier == 'X');
    hide DigitsOf, Denote, AllDigits, Magnitude, DigitValue;
    ZerosDenote(zeros, DigitText(specifier, value), BaseOf(specifier));
  }

  /** With # an octal number starts with 0. */
  lemma OctalZero(specifier: char, value: int, fill: string, precision: int, flags: Flags)
    requires 0 <= value < LIMIT && All(fill, '0') && flags.alternative && specifier == 'o'
    ensures var text := fill + ZerosText(specifier, value, precision, flags) + DigitText(specifier, value); text != "" && text[0] == '0'
  {
    hide DigitsOf;
  }

  lemma TextOf(a: string, fill: string, least: string, digits: string, after: string)
    ensures a + fill + least + digits + after == a + (fill + least) + digits + after
  {
    Regroup(a, fill, least, digits);
  }

  lemma Regroup(a: string, b: string, c: string, d: string)
    ensures a + b + c + d == a + (b + c) + d
  {
    assert a + b + c == a + (b + c);
  }

  /** Leading zeros do not change what digits denote. */
  lemma {:induction false} ZerosDenote(zeros: string, digits: string, base: int)
    requires Base(base) && All(zeros, '0') && AllDigits(digits, base)
    ensures AllDigits(zeros + digits, base) && Denote(zeros + digits, base) == Denote(digits, base)
    decreases |digits| + |zeros|
  {
    var s := zeros + digits;
    if digits != "" {
      var n := |digits| - 1;
      ZerosDenote(zeros, digits[..n], base);
      assert s[..|s| - 1] == zeros + digits[..n] && s[|s| - 1] == digits[n];
      assert forall k :: 0 <= k < |s| ==> s[k] == if k < |zeros| then zeros[k] else digits[k - |zeros|];
    } else if zeros != "" {
      var n := |zeros| - 1;
      ZerosDenote(zeros[..n], "", base);
      assert s == zeros && zeros[..n] + "" == zeros[..n] && zeros[n] == '0';
    }
  }
}
