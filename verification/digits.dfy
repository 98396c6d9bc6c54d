/** Positional notation: the digits of a number, and the number digits denote. */
module Digits {
  predicate Base(base: int) { 2 <= base <= 36 }

  function DigitChar(d: int, upper: bool): char
    requires 0 <= d < 36
  {
    if d < 10 then '0' + d as char else (if upper then 'A' else 'a') + (d - 10) as char
  }

  const NO_DIGIT: int := 1000

  /** The value of a digit or letter, NO_DIGIT for all other characters. */
  function DigitValue(c: char): int {
    if '0' <= c <= '9' then c as int - '0' as int
    else if 'a' <= c <= 'z' then 10 + c as int - 'a' as int
    else if 'A' <= c <= 'Z' then 10 + c as int - 'A' as int
    else NO_DIGIT
  }

  lemma CharValue(d: int, upper: bool)
    requires 0 <= d < 36
    ensures DigitValue(DigitChar(d, upper)) == d
  {
  }

  /** No other characters have a value. */
  lemma ValueChar(c: char)
    requires DigitValue(c) < 36
    ensures DigitValue(c) >= 0 && (DigitChar(DigitValue(c), false) == c || DigitChar(DigitValue(c), true) == c)
  {
  }

  predicate AllDigits(s: string, base: int) {
    forall k :: 0 <= k < |s| ==> DigitValue(s[k]) < base
  }

  /** The digits of a number without leading zeros; none for 0. */
  function DigitsOf(v: nat, base: int, upper: bool): string
    requires Base(base)
  {
    if v == 0 then "" else DigitsOf(v / base, base, upper) + [DigitChar(v % base, upper)]
  }

  lemma DigitsStep(v: nat, base: int, upper: bool)
    requires Base(base) && v > 0
    ensures DigitsOf(v, base, upper) == DigitsOf(v / base, base, upper) + [DigitChar(v % base, upper)]
  {
    hide DigitChar;
  }

  /** What a digit string denotes. */
  function Denote(s: string, base: int): (n: nat)
    requires Base(base) && AllDigits(s, base)
  {
    if s == "" then 0 else Denote(s[..|s| - 1], base) * base + DigitValue(s[|s| - 1])
  }

  lemma DenoteAppend(s: string, c: char, base: int)
    requires Base(base) && AllDigits(s, base) && DigitValue(c) < base
    ensures AllDigits(s + [c], base) && Denote(s + [c], base) == Denote(s, base) * base + DigitValue(c)
  {
    hide DigitValue;
    assert (s + [c])[..|s|] == s;
  }

  lemma DivMod(v: nat, base: int)
    requires Base(base)
    ensures v == v / base * base + v % base && 0 <= v % base < base && (v > 0 ==> 0 <= v / base < v) && (v < base ==> v / base == 0)
    ensures v >= base ==> v / base > 0
  {
  }

  lemma {:induction false} DigitsDenote(v: nat, base: int, upper: bool)
    requires Base(base)
    ensures AllDigits(DigitsOf(v, base, upper), base) && Denote(DigitsOf(v, base, upper), base) == v
  {
    hide DigitValue, DigitChar;
    if v > 0 {
      DivMod(v, base);
      DigitsDenote(v / base, base, upper);
      CharValue(v % base, upper);
      DenoteAppend(DigitsOf(v / base, base, upper), DigitChar(v % base, upper), base);
    }
  }

  /** The first digit is not 0. */
  lemma {:induction false} FirstDigit(v: nat, base: int, upper: bool)
    requires Base(base) && v > 0
    ensures DigitsOf(v, base, upper) != "" && DigitsOf(v, base, upper)[0] != '0'
  {
    DivMod(v, base);
    FirstChar(v % base, upper);
    hide DigitChar;
    if v >= base {
      FirstDigit(v / base, base, upper);
    }
  }

  lemma FirstChar(d: int, upper: bool)
    requires 0 <= d < 36
    ensures d > 0 ==> DigitChar(d, upper) != '0'
  {
  }

  function Power8(n: nat): nat {
    if n == 0 then 1 else 8 * Power8(n - 1)
  }

  /** n octal digits suffice below 8^n, and no larger base needs more. */
  lemma {:induction false} DigitsFit(v: nat, base: int, upper: bool, n: nat)
    requires 8 <= base <= 36 && v < Power8(n)
    ensures |DigitsOf(v, base, upper)| <= n
  {
    hide DigitChar;
    if v > 0 {
      DivMod(v, base);
      Quotients(v, base);
      assert v / 8 < Power8(n - 1);
      DigitsFit(v / base, base, upper, n - 1);
    }
  }

  lemma Quotients(v: nat, base: int)
    requires base >= 8
    ensures v / base <= v / 8
  {
    var q := v / base;
    assert q * 8 <= q * base <= v;
  }

  const LIMIT: int := 0x1_0000_0000_0000_0000     // 2^64, one more than UINTMAX_MAX

  /** No 64-bit number has more than 22 digits in a base from 8 on. */
  lemma DigitsBound(v: nat, base: int, upper: bool)
    requires 8 <= base <= 36 && v < LIMIT
    ensures |DigitsOf(v, base, upper)| <= 22
  {
    assert Power8(11) == 0x2_0000_0000;
    PowerSum(11, 11);
    DigitsFit(v, base, upper, 22);
  }

  lemma {:induction false} PowerSum(m: nat, n: nat)
    ensures Power8(m + n) == Power8(m) * Power8(n)
  {
    if m > 0 { PowerSum(m - 1, n); }
  }
}
