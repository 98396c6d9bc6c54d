/**
  Format strings: how they divide into plain characters and conversions, what they
  print, and the loop that prints them.
 */
module Formatter {
  import opened Digits
  import opened PrintFields

  datatype Length = CharHH | ShortH | IntLength | Long | LongLong | IntMax | Size | PtrDiff | LongDouble
  datatype Number = Absent | Star | Literal(n: nat)
  datatype Directive = Directive(flags: Flags, width: Number, precision: Number, length: Length, specifier: char)
  datatype Token = Plain(c: char) | Conversion(d: Directive, source: string)

  const NO_FLAGS: Flags := Flags(false, false, false, false, false)

  /** A character of the format, NUL behind its end. */
  function At(f: string, i: int): char {
    if 0 <= i < |f| then f[i] else 0 as char
  }

  predicate FlagChar(c: char) { c in {'-', '+', ' ', '#', '0'} }

  function WithFlag(flags: Flags, c: char): Flags {
    match c
    case '-' => flags.(left := true)
    case '+' => flags.(plus := true)
    case ' ' => flags.(space := true)
    case '#' => flags.(alternative := true)
    case _ => flags.(zero := true)
  }

  function FlagsFrom(f: string, i: nat, flags: Flags): (r: (Flags, nat))
    ensures i <= r.1 && (i <= |f| ==> r.1 <= |f|)
    decreases |f| - i
  {
    if i < |f| && FlagChar(f[i]) then FlagsFrom(f, i + 1, WithFlag(flags, f[i])) else (flags, i)
  }

  function NumberFrom(f: string, i: nat, n: nat): (r: (nat, nat))
    ensures i <= r.1 && (i <= |f| ==> r.1 <= |f|)
    decreases |f| - i
  {
    if i < |f| && '0' <= f[i] <= '9' then NumberFrom(f, i + 1, n * 10 + (f[i] as int - '0' as int)) else (n, i)
  }

  function LengthFrom(f: string, i: nat, length: Length): (r: (Length, nat))
    ensures i <= r.1 && (i <= |f| ==> r.1 <= |f|)
    decreases |f| - i
  {
    if i >= |f| then (length, i)
    else match f[i]
      case 'h' => if length == ShortH then (CharHH, i + 1) else LengthFrom(f, i + 1, ShortH)
      case 'l' => if length == Long then (LongLong, i + 1) else LengthFrom(f, i + 1, Long)
      case 'j' => (IntMax, i + 1)
      case 'z' => (Size, i + 1)
      case 't' => (PtrDiff, i + 1)
      case 'L' => (LongDouble, i + 1)
      case _ => (length, i)
  }

  function WidthFrom(f: string, i: nat): (r: (Number, nat))
    ensures i <= r.1 && (i <= |f| ==> r.1 <= |f|)
  {
    if At(f, i) == '*' then (Star, i + 1) else var (n, j) := NumberFrom(f, i, 0); (Literal(n), j)
  }

  function PrecisionFrom(f: string, i: nat): (r: (Number, nat))
    ensures i <= r.1 && (i <= |f| ==> r.1 <= |f|)
  {
    if At(f, i) != '.' then (Absent, i) else WidthFrom(f, i + 1)
  }

  /** The conversion specification behind a '%' at i, and the position of its specifier. */
  function DirectiveFrom(f: string, i: nat): (r: (Directive, nat))
    requires i < |f|
    ensures i < r.1 <= |f| && r.0.specifier == At(f, r.1)
  {
    var (flags, j) := FlagsFrom(f, i + 1, NO_FLAGS);
    var (width, k) := WidthFrom(f, j);
    var (precision, l) := PrecisionFrom(f, k);
    var (length, m) := LengthFrom(f, l, IntLength);
    (Directive(flags, width, precision, length, At(f, m)), m)
  }

  predicate IntegerSpecifier(c: char) { c in {'d', 'i', 'o', 'u', 'x', 'X'} }
  predicate Known(c: char) { IntegerSpecifier(c) || c in {'c', 's', 'p', 'n', '%'} }

  /** From the first conversion that is not known, everything is plain text. */
  function Tokens(f: string, i: nat, invalid: bool): seq<Token>
    requires i <= |f|
    decreases |f| - i, if invalid then 0 else 1
  {
    if i == |f| then []
    else if f[i] != '%' || invalid then [Plain(f[i])] + Tokens(f, i + 1, invalid)
    else
      var (d, j) := DirectiveFrom(f, i);
      if Known(d.specifier) && j < |f| then [Conversion(d, f[i..j + 1])] + Tokens(f, j + 1, false)
      else Tokens(f, i, true)
  }

  function SourceOf(t: Token): string {
    match t
    case Plain(c) => [c]
    case Conversion(_, s) => s
  }

  function Source(tokens: seq<Token>): string {
    if tokens == [] then "" else SourceOf(tokens[0]) + Source(tokens[1..])
  }

  lemma SourceStep(t: Token, tokens: seq<Token>)
    ensures Source([t] + tokens) == SourceOf(t) + Source(tokens)
  {
    assert ([t] + tokens)[1..] == tokens;
  }

  lemma SplitAt(f: string, i: int, k: int)
    requires 0 <= i <= k <= |f|
    ensures f[i..] == f[i..k] + f[k..] && (k == i + 1 ==> f[i..k] == [f[i]])
  {
  }

  /** No character of the format is lost or read twice. */
  lemma {:induction false} TokensCover(f: string, i: nat, invalid: bool)
    requires i <= |f|
    ensures Source(Tokens(f, i, invalid)) == f[i..]
    decreases |f| - i, if invalid then 0 else 1
  {
    hide DirectiveFrom, Known, Source;
    if i == |f| {
      NoSource();
    } else if f[i] != '%' || invalid {
      TokensCover(f, i + 1, invalid);
      SplitAt(f, i, i + 1);
      SourceStep(Plain(f[i]), Tokens(f, i + 1, invalid));
    } else {
      var (d, j) := DirectiveFrom(f, i);
      if Known(d.specifier) && j < |f| {
        TokensCover(f, j + 1, false);
        SplitAt(f, i, j + 1);
        SourceStep(Conversion(d, f[i..j + 1]), Tokens(f, j + 1, false));
      } else {
        TokensCover(f, i, true);
      }
    }
  }

  lemma NoSource()
    ensures Source([]) == ""
  {
  }

  // ---------- What a format prints ----------

  datatype Arg = Num(n: int) | Text(s: string) | Pointer(p: int) | Counter

  function Wrapped(x: int, bits: int): (r: int)
    requires bits > 0
    ensures 0 <= r < bits
  {
    x % bits
  }

  /** A two's complement number of the given range, as a 64-bit pattern. */
  function Extended(x: int, range: int): (r: int)
    requires 0 < range <= LIMIT
    ensures 0 <= r < LIMIT
  {
    var w := Wrapped(x, range);
    if 2 * w < range then w else LIMIT - range + w
  }

  function RangeOf(length: Length): (range: int)
    ensures 0 < range <= LIMIT
  {
    match length
    case CharHH => 0x100
    case ShortH => 0x1_0000
    case LongLong => LIMIT
    case IntMax => LIMIT
    case _ => 0x1_0000_0000
  }

  /** The 64-bit pattern of an integer argument; ptrdiff_t is a signed type even for an unsigned conversion. */
  function BitsOf(length: Length, specifier: char, x: int): (r: int)
    ensures 0 <= r < LIMIT
  {
    if Signed(specifier) || length == PtrDiff then Extended(x, RangeOf(length)) else Wrapped(x, RangeOf(length))
  }

  predicate TakesValue(d: Directive) {
    if IntegerSpecifier(d.specifier) then d.length != LongDouble else d.specifier != '%'
  }

  function Stars(d: Directive): nat {
    (if d.width == Star then 1 else 0) + (if d.precision == Star then 1 else 0)
  }

  function ArgCount(t: Token): nat {
    match t
    case Plain(_) => 0
    case Conversion(d, _) => Stars(d) + (if TakesValue(d) then 1 else 0)
  }

  /** The arguments are those the conversion asks for, and widths and precisions fit an int. */
  predicate Matches(t: Token, args: seq<Arg>) {
    t.Plain? ||
    (&& |args| >= ArgCount(t)
     && (t.d.width == Star ==> args[0].Num? && -INT_MAX <= args[0].n <= INT_MAX)
     && (t.d.precision == Star ==> var k := Stars(t.d) - 1; args[k].Num? && -INT_MAX - 1 <= args[k].n <= INT_MAX)
     && (t.d.width.Literal? ==> t.d.width.n <= INT_MAX) && (t.d.precision.Literal? ==> t.d.precision.n <= INT_MAX)
     && (TakesValue(t.d) ==> ValueMatches(t.d.specifier, args[Stars(t.d)])))
  }

  predicate ValueMatches(specifier: char, arg: Arg) {
    match specifier
    case 's' => arg.Text?
    case 'p' => arg.Pointer? && 0 <= arg.p < 0x1_0000_0000
    case 'n' => arg.Counter?
    case _ => arg.Num?
  }

  predicate AllMatch(tokens: seq<Token>, args: seq<Arg>) {
    tokens == [] || (Matches(tokens[0], args) && ArgCount(tokens[0]) <= |args| && AllMatch(tokens[1..], args[ArgCount(tokens[0])..]))
  }

  function WidthOf(d: Directive, args: seq<Arg>): (w: int)
    requires Matches(Conversion(d, ""), args)
  {
    match d.width
    case Star => if args[0].n < 0 then -args[0].n else args[0].n
    case Literal(n) => n
    case Absent => 0
  }

  function FlagsOf(d: Directive, args: seq<Arg>): Flags
    requires Matches(Conversion(d, ""), args)
  {
    if d.width == Star && args[0].n < 0 then d.flags.(left := true) else d.flags
  }

  function PrecisionOf(d: Directive, args: seq<Arg>): int
    requires Matches(Conversion(d, ""), args)
  {
    match d.precision
    case Star => args[Stars(d) - 1].n
    case Literal(n) => n
    case Absent => -1
  }

  function Prefix(s: string, n: int): string {
    if 0 <= n < |s| then s[..n] else s
  }

  /** The text of one conversion. */
  function ConversionText(d: Directive, args: seq<Arg>): string
    requires Matches(Conversion(d, ""), args)
  {
    var width, flags, precision := WidthOf(d, args), FlagsOf(d, args), PrecisionOf(d, args);
    if IntegerSpecifier(d.specifier) then
      var bits := ConversionBits(d, args);
      if precision < 0 then IntegerText(d.specifier, bits, width, 1, flags)
      else IntegerText(d.specifier, bits, width, precision, flags.(zero := false))
    else if d.specifier == 'c' then StringText([Wrapped(args[Stars(d)].n, 256) as char], width, flags.left)
    else if d.specifier == 's' then StringText(Prefix(args[Stars(d)].s, precision), width, flags.left)
    else if d.specifier == 'p' then IntegerText('x', args[Stars(d)].p, 0, 1, NO_FLAGS.(alternative := true))
    else if d.specifier == '%' then "%"
    else ""
  }

  function TokenText(t: Token, args: seq<Arg>): string
    requires Matches(t, args)
  {
    match t
    case Plain(c) => [c]
    case Conversion(d, _) => ConversionText(d, args)
  }

  /** The text of a format with its arguments. */
  function FormatText(tokens: seq<Token>, args: seq<Arg>): string
    requires AllMatch(tokens, args)
  {
    if tokens == [] then ""
    else TokenText(tokens[0], args) + FormatText(tokens[1..], args[ArgCount(tokens[0])..])
  }

  /** What %n stores: how many bytes were printed before it. */
  function Counts(tokens: seq<Token>, args: seq<Arg>, printed: int): seq<int>
    requires AllMatch(tokens, args)
  {
    if tokens == [] then []
    else (if tokens[0].Conversion? && tokens[0].d.specifier == 'n' then [printed] else [])
         + Counts(tokens[1..], args[ArgCount(tokens[0])..], printed + |TokenText(tokens[0], args)|)
  }

  /** The 64-bit pattern an integer conversion is given; without an argument it is 0. */
  function ConversionBits(d: Directive, args: seq<Arg>): (bits: int)
    requires Matches(Conversion(d, ""), args) && IntegerSpecifier(d.specifier)
    ensures 0 <= bits < LIMIT
  {
    if TakesValue(d) then BitsOf(d.length, d.specifier, args[Stars(d)].n) else 0
  }

  /** Printing the token leaves what C defines: it prints the number 0 or the least signed number. */
  predicate TokenUndefined(t: Token, args: seq<Arg>)
    requires Matches(t, args)
  {
    && t.Conversion?
    && (t.d.specifier == 'p' ==> args[Stars(t.d)].p == 0)
    && (t.d.specifier != 'p' ==> IntegerSpecifier(t.d.specifier) && Undefined(t.d.specifier, ConversionBits(t.d, args)))
  }

  predicate FormatUndefined(tokens: seq<Token>, args: seq<Arg>)
    requires AllMatch(tokens, args)
  {
    tokens != [] && (TokenUndefined(tokens[0], args) || FormatUndefined(tokens[1..], args[ArgCount(tokens[0])..]))
  }

  // ---------- The parsing loops ----------

  method ParseFlags(f: string, i: nat) returns (flags: Flags, j: nat)
    requires i <= |f|
    ensures (flags, j) == FlagsFrom(f, i, NO_FLAGS)
  {
    flags, j := NO_FLAGS, i;
    while FlagChar(At(f, j))
      invariant j <= |f| && FlagsFrom(f, j, flags) == FlagsFrom(f, i, NO_FLAGS)
      decreases |f| - j
    {
      flags, j := WithFlag(flags, f[j]), j + 1;
    }
  }

  method ParseNumber(f: string, i: nat) returns (n: nat, j: nat)
    requires i <= |f|
    ensures (n, j) == NumberFrom(f, i, 0)
  {
    n, j := 0, i;
    while '0' <= At(f, j) <= '9'
      invariant j <= |f| && NumberFrom(f, j, n) == NumberFrom(f, i, 0)
      decreases |f| - j
    {
      n, j := n * 10 + (f[j] as int - '0' as int), j + 1;
    }
  }

  method ParseLength(f: string, i: nat) returns (length: Length, j: nat)
    requires i <= |f|
    ensures (length, j) == LengthFrom(f, i, IntLength)
  {
    length, j := IntLength, i;
    while true
      invariant j <= |f| && LengthFrom(f, j, length) == LengthFrom(f, i, IntLength)
      decreases |f| - j
    {
      match At(f, j)
      case 'h' =>
        j := j + 1;
        if length == ShortH { length := CharHH; return; }
        length := ShortH;
      case 'l' =>
        j := j + 1;
        if length == Long { length := LongLong; return; }
        length := Long;
      case 'j' => length, j := IntMax, j + 1; return;
      case 'z' => length, j := Size, j + 1; return;
      case 't' => length, j := PtrDiff, j + 1; return;
      case 'L' => length, j := LongDouble, j + 1; return;
      case _ => return;
    }
  }

  method ParseDirective(f: string, i: nat) returns (d: Directive, j: nat)
    requires i < |f|
    ensures (d, j) == DirectiveFrom(f, i)
  {
    var flags, width, precision, length;
    flags, j := ParseFlags(f, i + 1);
    width, j := ParseWidth(f, j);
    precision := Absent;
    if At(f, j) == '.' {
      precision, j := ParseWidth(f, j + 1);
    }
    length, j := ParseLength(f, j);
    d := Directive(flags, width, precision, length, At(f, j));
  }

  method ParseWidth(f: string, i: nat) returns (width: Number, j: nat)
    requires i <= |f|
    ensures (width, j) == WidthFrom(f, i)
  {
    if At(f, i) == '*' {
      width, j := Star, i + 1;
    } else {
      var n;
      n, j := ParseNumber(f, i);
      width := Literal(n);
    }
  }

  // ---------- The formatter ----------

  /** The switch over the specifier: what one conversion prints. */
  method PrintConversion(sink: Sink, d: Directive, args: seq<Arg>, result: int)
    returns (written: int, taken: nat, stored: seq<int>, undefined: bool)
    requires sink.Valid() && Matches(Conversion(d, ""), args) && Known(d.specifier)
    modifies sink
    ensures sink.Valid() && taken == ArgCount(Conversion(d, ""))
    ensures Printed(sink.capacity, old(sink.output), sink.output, ConversionText(d, args), written)
    ensures stored == if d.specifier == 'n' then [result] else []
    ensures undefined <==> TokenUndefined(Conversion(d, ""), args)
  {
    hide IntegerText, StringText, Printed, BitsOf;
    var flags, width, precision := d.flags, 0, -1;
    taken := 0;
    if d.width == Star {
      width, taken := args[taken].n, taken + 1;
      if width < 0 {
        flags, width := flags.(left := true), -width;
      }
    } else if d.width.Literal? {
      width := d.width.n;
    }
    if d.precision == Star {
      precision, taken := args[taken].n, taken + 1;
    } else if d.precision.Literal? {
      precision := d.precision.n;
    }
    assert taken == Stars(d) && width == WidthOf(d, args) && flags == FlagsOf(d, args) && precision == PrecisionOf(d, args);
    stored, undefined := [], false;
    match d.specifier
    case 'c' =>
      written := PrintString(sink, [Wrapped(args[taken].n, 256) as char], width, flags.left);
      taken := taken + 1;
    case 's' =>
      var s := Prefix(args[taken].s, precision);
      taken := taken + 1;
      if |s| > INT_MAX {
        LongString(sink.capacity, sink.output, s, width, flags.left);
        written := -1;
      } else {
        written := PrintString(sink, s, width, flags.left);
      }
    case 'p' =>
      written, undefined := PrintInteger(sink, 'x', args[taken].p, 0, 1, NO_FLAGS.(alternative := true));
      taken := taken + 1;
    case 'n' =>
      stored, taken := [result], taken + 1;
      written := PrintNothing(sink);
    case '%' =>
      written := PrintChar(sink, '%');
    case _ =>
      var bits := 0;
      if d.length != LongDouble {
        bits, taken := BitsOf(d.length, d.specifier, args[taken].n), taken + 1;
      }
      if precision < 0 {
        precision := 1;
      } else {
        flags := flags.(zero := false);
      }
      written, undefined := PrintInteger(sink, d.specifier, bits, width, precision, flags);
  }

  lemma LongString(capacity: int, before: string, s: string, width: int, left: bool)
    requires |s| > INT_MAX
    ensures Printed(capacity, before, before, StringText(s, width, left), -1)
  {
  }

  method PrintNothing(sink: Sink) returns (written: int)
    requires sink.Valid()
    ensures Printed(sink.capacity, sink.output, sink.output, "", written)
  {
    written := 0;
  }

  method PrintChar(sink: Sink, c: char) returns (written: int)
    requires sink.Valid()
    modifies sink
    ensures sink.Valid() && Printed(sink.capacity, old(sink.output), sink.output, [c], written)
  {
    var n := sink.Write([c]);
    written := if n != 1 then -1 else 1;
  }

  /**
    vcbprintf: prints the text of the format and returns its length, or -1 exactly when that exceeds INT_MAX or was not
    taken. A format that is printed to its end leaves what C defines exactly when it prints 0 or the least signed number.
   */
  method Vcbprintf(sink: Sink, format: string, args: seq<Arg>) returns (r: int, stored: seq<int>, undefined: bool)
    requires sink.Valid() && AllMatch(Tokens(format, 0, false), args)
    modifies sink
    ensures sink.Valid() && Printed(sink.capacity, old(sink.output), sink.output, FormatText(Tokens(format, 0, false), args), r)
    ensures r >= 0 ==> stored == Counts(Tokens(format, 0, false), args, 0)
    ensures undefined ==> FormatUndefined(Tokens(format, 0, false), args)
    ensures r >= 0 && FormatUndefined(Tokens(format, 0, false), args) ==> undefined
  {
    hide Printed, ConversionText, Matches, Known, DirectiveFrom, FormatText, Counts, AllMatch, Tokens, TokenText, ArgCount;
    hide TokenUndefined, FormatUndefined;
    var i: nat, a: nat, invalid, result := 0, 0, false, 0;
    stored, undefined := [], false;
    ghost var s0, text, done := sink.output, FormatText(Tokens(format, 0, false), args), "";
    FormatStart(sink.capacity, s0, Tokens(format, 0, false), args);
    while i < |format|
      invariant i <= |format| && a <= |args| && sink.Valid()
      invariant AllMatch(Tokens(format, i, invalid), args[a..])
      invariant text == done + FormatText(Tokens(format, i, invalid), args[a..])
      invariant Counts(Tokens(format, 0, false), args, 0) == stored + Counts(Tokens(format, i, invalid), args[a..], result)
      invariant Printed(sink.capacity, s0, sink.output, done, result) && result == |done|
      invariant FormatUndefined(Tokens(format, 0, false), args) <==> undefined || FormatUndefined(Tokens(format, i, invalid), args[a..])
      decreases |format| - i, if invalid then 0 else 1
    {
      ghost var s1, rest := sink.output, args[a..];
      var written, taken, more, next, wrong, lapse := PrintNext(sink, format, i, invalid, args[a..], result);
      if wrong {
        // an unknown conversion is printed as it stands, and so is all that follows
        invalid := true;
        continue;
      }
      ghost var t := Tokens(format, i, invalid)[0];
      FormatStep(Tokens(format, i, invalid), rest, result);
      i, undefined := next, undefined || lapse;
      ghost var later := FormatText(Tokens(format, i, invalid), rest[taken..]);
      PrintedThen(sink.capacity, s0, s1, sink.output, done, TokenText(t, rest), later, result, written);
      assert text == done + TokenText(t, rest) + later by { assert text == done + (TokenText(t, rest) + later); }
      if written < 0 || result + written > INT_MAX {
        r := -1;
        return;
      }
      assert rest[taken..] == args[a + taken..];
      result, a, stored := result + written, a + taken, stored + more;
      done := done + TokenText(t, rest);
    }
    FormatEnd(format, invalid, args[a..], result);
    assert done == text && stored == Counts(Tokens(format, 0, false), args, 0);
    r := result;
  }

  /** One token of the format: a plain character, a conversion, or a conversion that is not known. */
  method PrintNext(sink: Sink, format: string, i: nat, invalid: bool, args: seq<Arg>, result: int)
    returns (written: int, taken: nat, more: seq<int>, next: nat, wrong: bool, lapse: bool)
    requires sink.Valid() && i < |format| && AllMatch(Tokens(format, i, invalid), args)
    modifies sink
    ensures sink.Valid() && (wrong ==> !invalid && sink.output == old(sink.output) && Tokens(format, i, false) == Tokens(format, i, true))
    ensures !wrong ==> i < next <= |format| && Tokens(format, i, invalid) != [] && Tokens(format, next, invalid) == Tokens(format, i, invalid)[1..]
    ensures !wrong ==>
      var t := Tokens(format, i, invalid)[0];
      && Matches(t, args) && taken == ArgCount(t) && more == (if t.Conversion? && t.d.specifier == 'n' then [result] else [])
      && Printed(sink.capacity, old(sink.output), sink.output, TokenText(t, args), written)
      && (lapse <==> TokenUndefined(t, args))
  {
    hide Printed, ConversionText, Matches, Known, DirectiveFrom, FormatText, Counts, AllMatch, Tokens, TokenText, ArgCount;
    hide TokenUndefined, FormatUndefined;
    ghost var tokens := Tokens(format, i, invalid);
    written, taken, more, next, wrong, lapse := 0, 0, [], i, false, false;
    if format[i] != '%' || invalid {
      TokensPlain(format, i, invalid);
      FormatStep(tokens, args, result);
      PlainToken(format[i], args);
      written := PrintChar(sink, format[i]);
      next := i + 1;
    } else {
      TokensConversion(format, i);
      var d, j := ParseDirective(format, i);
      if !Known(d.specifier) || j == |format| {
        wrong := true;
        return;
      }
      FormatStep(tokens, args, result);
      SourceIrrelevant(d, format[i..j + 1], args);
      written, taken, more, lapse := PrintConversion(sink, d, args, result);
      next := j + 1;
    }
  }

  lemma FormatStart(capacity: int, s: string, tokens: seq<Token>, args: seq<Arg>)
    requires AllMatch(tokens, args) && (capacity < 0 || |s| <= capacity)
    ensures args[0..] == args && Printed(capacity, s, s, "", 0)
  {
  }

  lemma FormatEnd(f: string, invalid: bool, args: seq<Arg>, n: int)
    ensures Tokens(f, |f|, invalid) == [] && AllMatch([], args) && FormatText([], args) == "" && Counts([], args, n) == []
    ensures !FormatUndefined([], args)
  {
  }

  lemma TokensPlain(f: string, i: nat, invalid: bool)
    requires i < |f| && (f[i] != '%' || invalid)
    ensures Tokens(f, i, invalid) != [] && Tokens(f, i, invalid)[0] == Plain(f[i]) && Tokens(f, i, invalid)[1..] == Tokens(f, i + 1, invalid)
  {
    hide DirectiveFrom;
  }

  lemma TokensConversion(f: string, i: nat)
    requires i < |f| && f[i] == '%'
    ensures var (d, j) := DirectiveFrom(f, i);
      (if Known(d.specifier) && j < |f| then
         && Tokens(f, i, false) != [] && Tokens(f, i, false)[0] == Conversion(d, f[i..j + 1])
         && Tokens(f, i, false)[1..] == Tokens(f, j + 1, false)
       else Tokens(f, i, false) == Tokens(f, i, true))
  {
    hide DirectiveFrom, Known;
  }

  lemma FormatStep(tokens: seq<Token>, args: seq<Arg>, n: int)
    requires tokens != [] && AllMatch(tokens, args)
    ensures var t := tokens[0];
      && Matches(t, args) && ArgCount(t) <= |args| && AllMatch(tokens[1..], args[ArgCount(t)..])
      && FormatText(tokens, args) == TokenText(t, args) + FormatText(tokens[1..], args[ArgCount(t)..])
      && Counts(tokens, args, n) == (if t.Conversion? && t.d.specifier == 'n' then [n] else [])
                                    + Counts(tokens[1..], args[ArgCount(t)..], n + |TokenText(t, args)|)
      && (FormatUndefined(tokens, args) <==> TokenUndefined(t, args) || FormatUndefined(tokens[1..], args[ArgCount(t)..]))
  {
    hide Matches, TokenText, ArgCount, TokenUndefined;
  }

  lemma SourceIrrelevant(d: Directive, source: string, args: seq<Arg>)
    ensures Matches(Conversion(d, source), args) <==> Matches(Conversion(d, ""), args)
    ensures ArgCount(Conversion(d, source)) == ArgCount(Conversion(d, ""))
    ensures Matches(Conversion(d, ""), args) ==> TokenText(Conversion(d, source), args) == ConversionText(d, args)
    ensures Matches(Conversion(d, ""), args) ==> (TokenUndefined(Conversion(d, source), args) <==> TokenUndefined(Conversion(d, ""), args))
  {
    hide ConversionText;
  }

  lemma PlainToken(c: char, args: seq<Arg>)
    ensures Matches(Plain(c), args) && ArgCount(Plain(c)) == 0 && TokenText(Plain(c), args) == [c]
    ensures !TokenUndefined(Plain(c), args)
  {
  }

  /** The next text is passed on as well, or neither it nor anything behind it counts. */
  lemma PrintedThen(capacity: int, s0: string, s1: string, s2: string, t1: string, t2: string, later: string, result: int, written: int)
    requires Printed(capacity, s0, s1, t1, result) && result >= 0 && Printed(capacity, s1, s2, t2, written)
    ensures written >= 0 && result + written <= INT_MAX ==> Printed(capacity, s0, s2, t1 + t2, result + written)
    ensures written < 0 || result + written > INT_MAX ==> Printed(capacity, s0, s2, t1 + t2 + later, -1)
  {
    assert s0 + (t1 + t2) == (s0 + t1) + t2;
    assert s0 + (t1 + t2 + later) == (s0 + (t1 + t2)) + later;
  }
}
