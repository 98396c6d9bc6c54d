/** The terminal's circular buffer and line discipline. */
module Terminals {
  import opened TerminalLines

  /** The position n places behind i in the circle. */
  function Behind(i: int, n: int): int { if i + n < SIZE then i + n else i + n - SIZE }

  class TerminalBuffer {
    var circularBuffer: array<char>
    var readIndex: int
    var lineIndex: int
    var writeIndex: int
    ghost var committed: string
    ghost var pending: string

    ghost predicate Valid()
      reads this, circularBuffer
    {
      && circularBuffer.Length == SIZE && 0 <= readIndex < SIZE && |committed| + |pending| < SIZE
      && lineIndex == Behind(readIndex, |committed|) && writeIndex == Behind(readIndex, |committed| + |pending|)
      && (forall k :: 0 <= k < |committed| ==> circularBuffer[Behind(readIndex, k)] == committed[k])
      && (forall k :: 0 <= k < |pending| ==> circularBuffer[Behind(lineIndex, k)] == pending[k])
    }

    constructor ()
      ensures Valid() && committed == "" && pending == "" && fresh(circularBuffer)
    {
      circularBuffer := new char[SIZE];
      readIndex, lineIndex, writeIndex, committed, pending := 0, 0, 0, "", "";
    }

    /** Zero exactly when nothing is committed; otherwise it counts the committed bytes or, wrapped around, those that are not. */
    method Available() returns (n: int)
      requires Valid()
      ensures n == 0 <==> committed == ""
      ensures n == |committed| || n == SIZE - |committed|
    {
      n := if lineIndex >= readIndex then lineIndex - readIndex else readIndex - lineIndex;
    }

    method HasIncompleteLine() returns (r: bool)
      requires Valid()
      ensures r <==> pending != ""
    {
      r := lineIndex != writeIndex;
    }

    /** Erase the last pending byte; committed bytes are out of reach. */
    method Backspace() returns (r: bool)
      requires Valid()
      modifies this
      ensures Valid() && circularBuffer == old(circularBuffer) && committed == old(committed)
      ensures r <==> old(pending) != ""
      ensures pending == if r then old(pending[..|pending| - 1]) else ""
    {
      if lineIndex == writeIndex {
        return false;
      }
      if writeIndex != 0 {
        writeIndex := (writeIndex - 1) % SIZE;
      } else {
        writeIndex := SIZE - 1;
      }
      pending := pending[..|pending| - 1];
      return true;
    }

    method Reset()
      requires Valid()
      modifies this
      ensures Valid() && circularBuffer == old(circularBuffer) && committed == "" && pending == ""
    {
      readIndex, lineIndex, writeIndex := 0, 0, 0;
      committed, pending := "", "";
    }

    /** One pending byte more; with a full buffer the loop in front of the store would wait for a reader. */
    method Write(c: char) returns (waits: bool)
      requires Valid()
      modifies this, circularBuffer
      ensures Valid() && circularBuffer == old(circularBuffer) && committed == old(committed)
      ensures waits == (|old(committed)| + |old(pending)| == SIZE - 1)
      ensures pending == old(pending) + (if waits then "" else [c])
    {
      Wraps(writeIndex);
      if (writeIndex + 1) % SIZE == readIndex {
        assert pending == pending + "";
        return true;
      }
      circularBuffer[writeIndex] := c;
      writeIndex := (writeIndex + 1) % SIZE;
      pending := pending + [c];
      return false;
    }

    /** The oldest committed byte. */
    method Read() returns (c: char)
      requires Valid() && committed != ""
      modifies this
      ensures Valid() && circularBuffer == old(circularBuffer) && pending == old(pending)
      ensures old(committed) == [c] + committed
    {
      Wraps(readIndex);
      c := circularBuffer[readIndex];
      assert c == committed[0];
      Shifted(readIndex);
      readIndex := (readIndex + 1) % SIZE;
      committed := committed[1..];
    }

    /** The pending bytes become a committed line. */
    method EndLine()
      requires Valid()
      modifies this
      ensures Valid() && circularBuffer == old(circularBuffer) && committed == old(committed) + old(pending) && pending == ""
    {
      Rebased(readIndex, |committed|);
      lineIndex := writeIndex;
      committed, pending := committed + pending, "";
    }
  }

  lemma Wraps(i: int)
    requires 0 <= i < SIZE
    ensures (i + 1) % SIZE == Behind(i, 1)
  {
  }

  lemma Shifted(i: int)
    requires 0 <= i < SIZE
    ensures forall n :: 0 <= n < SIZE ==> Behind(i, n + 1) == Behind(Behind(i, 1), n)
  {
  }

  lemma Rebased(i: int, m: int)
    requires 0 <= i < SIZE && 0 <= m < SIZE
    ensures forall n :: 0 <= n < SIZE - m ==> Behind(i, m + n) == Behind(Behind(i, m), n)
  {
  }

  datatype Termios = Termios(echo: bool, input: Settings)

  class Terminal {
    const buffer: TerminalBuffer
    var termio: Termios
    var numEof: nat

    ghost predicate Valid()
      reads this, buffer, buffer.circularBuffer
    {
      buffer.Valid()
    }

    /** The line this state stands for. */
    ghost function Content(): Line
      reads this, buffer
    {
      Line(buffer.committed, buffer.pending, numEof)
    }

    constructor ()
      ensures Valid() && Content() == NOTHING && fresh(buffer) && fresh(buffer.circularBuffer)
      ensures termio.input == Settings(true, CONTROLS)
    {
      buffer := new TerminalBuffer();
      termio := Termios(true, Settings(true, CONTROLS));
      numEof := 0;
    }

    /** A keystroke, unless it needs room in a full buffer: then it waits until there is some, and nothing has changed yet. */
    method HandleCharacter(c: char) returns (waits: bool)
      requires Valid()
      modifies this`numEof, buffer, buffer.circularBuffer
      ensures Valid() && buffer.circularBuffer == old(buffer.circularBuffer)
      ensures waits == (Writes(termio.input, c) && Full(old(Content())))
      ensures Content() == if waits then old(Content()) else Typed(termio.input, old(Content()), c)
    {
      waits := false;
      if termio.input.canonical {
        var cc := termio.input.cc;
        if c == cc.eof {
          var incomplete := buffer.HasIncompleteLine();
          if incomplete {
            buffer.EndLine();
          } else {
            numEof := numEof + 1;
          }
        } else if c == cc.eol {
        } else if c == cc.erase {
          var erased := buffer.Backspace();
        } else if c == cc.intr {
        } else if c == cc.kill {
        } else if c == cc.quit {
        } else if c == cc.start {
        } else if c == cc.stop {
        } else if c == cc.susp {
        } else {
          waits := buffer.Write(c);
          if waits { return; }
          if c == '\n' {
            buffer.EndLine();
            assert old(buffer.committed) + (old(buffer.pending) + [c]) == old(buffer.committed) + old(buffer.pending) + [c];
          }
        }
      } else {
        waits := buffer.Write(c);
        if waits { return; }
        buffer.EndLine();
        assert old(buffer.committed) + (old(buffer.pending) + [c]) == old(buffer.committed + buffer.pending) + [c];
      }
    }

    /**
      A key that stands for several characters: swallowed in canonical mode, committed as a whole otherwise.  When the buffer
      gets full on the way, the first `done` characters are pending and the rest waits for room.
     */
    method HandleSequence(sequence: string) returns (done: nat)
      requires Valid()
      modifies buffer, buffer.circularBuffer
      ensures Valid() && buffer.circularBuffer == old(buffer.circularBuffer) && done <= |sequence|
      ensures (done == |sequence|) <==> (termio.input.canonical || |old(buffer.committed)| + |old(buffer.pending)| + |sequence| < SIZE)
      ensures done == |sequence| ==> Content() == TypedKeys(termio.input, old(Content()), sequence)
      ensures done < |sequence| ==> Full(Content()) && Content() == old(Content()).(pending := old(buffer.pending) + sequence[..done])
    {
      done := |sequence|;
      if !termio.input.canonical {
        done := 0;
        while done < |sequence|
          invariant Valid() && buffer.circularBuffer == old(buffer.circularBuffer) && buffer.committed == old(buffer.committed)
          invariant 0 <= done <= |sequence| && buffer.pending == old(buffer.pending) + sequence[..done]
        {
          var waits := buffer.Write(sequence[done]);
          if waits { return; }
          assert sequence[..done + 1] == sequence[..done] + [sequence[done]];
          done := done + 1;
        }
        buffer.EndLine();
        assert sequence[..|sequence|] == sequence;
        assert old(buffer.committed) + (old(buffer.pending) + sequence) == old(buffer.committed + buffer.pending) + sequence;
      }
    }

    /** One iteration of the loop of read, for a read that has `got` bytes of `size`. */
    method ReadStep(size: nat, got: nat) returns (outcome: Outcome, c: char)
      requires Valid()
      modifies this`numEof, buffer
      ensures Valid() && buffer.circularBuffer == old(buffer.circularBuffer)
      ensures outcome == Next(old(Content()), termio.input.canonical, termio.input.cc.min, size, got)
      ensures Content() == After(old(Content()), termio.input.canonical, termio.input.cc.min, size, got)
      ensures outcome.Takes? ==> old(buffer.committed) == [c] + buffer.committed
    {
      c := ' ';
      if got >= size { return Returns, c; }
      var available := buffer.Available();
      if available == 0 && numEof == 0 {
        if termio.input.canonical {
          if got > 0 { return Returns, c; }
        } else {
          if got >= termio.input.cc.min { return Returns, c; }
        }
        return Waits, c;
      }
      if numEof > 0 {
        if got > 0 { return Returns, c; }
        numEof := numEof - 1;
        return Returns, c;
      }
      c := buffer.Read();
      outcome := Takes(termio.input.canonical && c == '\n');
    }

    /** read: takes bytes until a line ends, the buffer is full or nothing is left; `waits` when it would wait for input. */
    method Read(size: nat) returns (got: string, waits: bool)
      requires Valid()
      modifies this`numEof, buffer
      ensures Valid() && buffer.circularBuffer == old(buffer.circularBuffer) && |got| <= size
      ensures old(buffer.committed) == got + buffer.committed && buffer.pending == old(buffer.pending)
      ensures termio.input.canonical ==> OneLine(got)
      ensures waits ==> buffer.committed == "" && numEof == 0 && (termio.input.canonical ==> got == "")
      ensures !waits && size > 0 && got == "" ==> old(numEof) > 0 || (!termio.input.canonical && termio.input.cc.min == 0)
      ensures numEof == if got == "" && size > 0 && old(numEof) > 0 then old(numEof) - 1 else old(numEof)
      ensures old(numEof) > 0 ==> got == ""
      // it returns with less than was asked for only at the end of a line, or with nothing left and enough for the mode
      ensures !waits && |got| < size && old(numEof) == 0 ==>
        if termio.input.canonical then got != "" && (got[|got| - 1] == '\n' || buffer.committed == "")
        else buffer.committed == "" && |got| >= termio.input.cc.min
      ensures waits ==> |got| < size && (!termio.input.canonical ==> |got| < termio.input.cc.min)
    {
      hide TerminalBuffer.Valid;
      got, waits := "", false;
      assert buffer.committed == got + buffer.committed;
      while true
        invariant Valid() && buffer.circularBuffer == old(buffer.circularBuffer) && |got| <= size
        invariant old(buffer.committed) == got + buffer.committed && buffer.pending == old(buffer.pending)
        invariant termio.input.canonical ==> NoNewline(got)
        invariant numEof == old(numEof) && (numEof > 0 ==> got == "")
        decreases size - |got|
      {
        ghost var l, before := Content(), buffer.committed;
        var outcome, c := ReadStep(size, |got|);
        match outcome
        case Waits =>
          waits := true;
          return;
        case Returns =>
          return;
        case Takes(last) =>
          assert got + before == (got + [c]) + buffer.committed;
          got := got + [c];
          if last { return; }
      }
    }

    /** New settings; with TCSAFLUSH everything typed so far is forgotten. */
    method Tcsetattr(flush: bool, settings: Termios)
      requires Valid()
      modifies this, buffer
      ensures Valid() && buffer.circularBuffer == old(buffer.circularBuffer) && termio == settings
      ensures Content() == if flush then NOTHING else old(Content())
    {
      termio := settings;
      if flush {
        buffer.Reset();
        numEof := 0;
      }
    }
  }
}
