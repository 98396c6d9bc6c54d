/** The formatter with a character array behind its callback. */
module StringPrinting {
  import opened PrintFields
  import opened Formatter

  /** vsprintf_callback: the bytes go to the place the caller's pointer has reached. */
  method StoreBytes(buffer: array<char>, at: nat, s: string) returns (next: nat)
    requires at + |s| <= buffer.Length
    modifies buffer
    ensures next == at + |s| && buffer[..] == old(buffer[..at]) + s + old(buffer[next..])
  {
    next := at;
    for i := 0 to |s|
      invariant next == at + i && buffer[..next] == old(buffer[..at]) + s[..i] && buffer[next..] == old(buffer[next..])
    {
      ghost var before := buffer[..next];
      buffer[next] := s[i];
      assert buffer[..next] == before && s[..i + 1] == s[..i] + [s[i]];
      next := next + 1;
      assert buffer[..next] == before + [s[i]];
    }
    assert s[..|s|] == s && buffer[..] == buffer[..next] + buffer[next..];
  }

  /** vsprintf: the text of the format, its NUL at the offset that is returned, and nothing behind it touched. */
  method Vsprintf(buffer: array<char>, format: string, args: seq<Arg>) returns (r: int, undefined: bool)
    requires AllMatch(Tokens(format, 0, false), args)
    requires |FormatText(Tokens(format, 0, false), args)| < buffer.Length
    modifies buffer
    ensures r >= 0 <==> |FormatText(Tokens(format, 0, false), args)| <= INT_MAX
    ensures r >= 0 ==> r < buffer.Length && buffer[..r] == FormatText(Tokens(format, 0, false), args) && buffer[r] == 0 as char
    ensures r >= 0 ==> buffer[r + 1..] == old(buffer[r + 1..])
    ensures r >= 0 ==> (undefined <==> FormatUndefined(Tokens(format, 0, false), args))
  {
    hide Tokens, AllMatch, FormatText, FormatUndefined;
    ghost var text := FormatText(Tokens(format, 0, false), args);
    var sink := new Sink(-1);
    var stored;
    r, stored, undefined := Vcbprintf(sink, format, args);
    assert sink.output <= "" + text && "" + text == text;
    var end := StoreBytes(buffer, 0, sink.output);
    if r >= 0 {
      assert sink.output == text;
      buffer[end] := 0 as char;
    }
  }
}
