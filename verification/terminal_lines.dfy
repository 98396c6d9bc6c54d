/**
  Terminal input on values: keystrokes edit a pending line, reads take committed
  bytes, and over every interleaving what was read is what was typed.
 */
module TerminalLines {
  const SIZE: int := 4096

  datatype Controls = Controls(eof: char, eol: char, erase: char, intr: char, kill: char, min: nat, quit: char, start: char, stop: char, susp: char)

  const CONTROLS: Controls := Controls(4 as char, 0 as char, 8 as char, 3 as char, 21 as char, 1, 28 as char, 17 as char, 19 as char, 26 as char)

  datatype Settings = Settings(canonical: bool, cc: Controls)

  /** Committed bytes wait to be read, pending ones can still be erased. */
  datatype Line = Line(committed: string, pending: string, eofs: nat)

  const NOTHING: Line := Line("", "", 0)

  predicate Full(l: Line) { |l.committed| + |l.pending| == SIZE - 1 }
  predicate Fits(l: Line) { |l.committed| + |l.pending| < SIZE }

  /** The characters that are swallowed without any effect. */
  predicate Ignored(cc: Controls, c: char) { c in {cc.eol, cc.intr, cc.kill, cc.quit, cc.start, cc.stop, cc.susp} }

  datatype Kind = Eof | Erase | Nothing | Text

  /** What a character means in canonical mode, in the order the controls are compared. */
  function KindOf(cc: Controls, c: char): Kind {
    if c == cc.eof then Eof else if c == cc.eol then Nothing else if c == cc.erase then Erase
    else if Ignored(cc, c) then Nothing else Text
  }

  /** A keystroke. */
  function Typed(st: Settings, l: Line, c: char): Line {
    if !st.canonical then Line(l.committed + l.pending + [c], "", l.eofs)
    else
      match KindOf(st.cc, c)
      case Eof => if l.pending != "" then Line(l.committed + l.pending, "", l.eofs) else l.(eofs := l.eofs + 1)
      case Erase => if l.pending != "" then l.(pending := l.pending[..|l.pending| - 1]) else l
      case Nothing => l
      case Text => if c == '\n' then Line(l.committed + l.pending + [c], "", l.eofs) else l.(pending := l.pending + [c])
  }

  /** Whether a keystroke needs room in the buffer. */
  predicate Writes(st: Settings, c: char) { st.canonical ==> KindOf(st.cc, c) == Text }

  /** A key that stands for several characters. */
  function TypedKeys(st: Settings, l: Line, keys: string): Line {
    if st.canonical then l else Line(l.committed + l.pending + keys, "", l.eofs)
  }

  // ---------- One iteration of a read ----------

  datatype Outcome = Waits | Returns | Takes(last: bool)

  /** What a read does next that was asked for `size` bytes and has `got` so far. */
  function Next(l: Line, canonical: bool, min: nat, size: nat, got: nat): Outcome {
    if got >= size then Returns
    else if l.committed == "" && l.eofs == 0 then (if (if canonical then got > 0 else got >= min) then Returns else Waits)
    else if l.eofs > 0 then Returns
    else Takes(canonical && l.committed != "" && l.committed[0] == '\n')
  }

  /** The line after that iteration; a read that has nothing yet consumes an end-of-file. */
  function After(l: Line, canonical: bool, min: nat, size: nat, got: nat): Line {
    match Next(l, canonical, min, size, got)
    case Takes(_) => if l.committed != "" then l.(committed := l.committed[1..]) else l
    case Returns => if got == 0 && size > 0 && l.eofs > 0 then l.(eofs := l.eofs - 1) else l
    case Waits => l
  }

  // ---------- Runs of keystrokes, reads and changes of the settings ----------

  datatype Event = Key(c: char) | Keys(keys: string) | Begin(size: nat) | Continue | Set(flush: bool, settings: Settings)

  datatype Reader = Idle | Reading(size: nat, got: string)

  /** The terminal, the read in progress, and what the finished reads returned. */
  datatype System = System(line: Line, settings: Settings, reader: Reader, finished: seq<string>)

  /** What can happen next: a keystroke waits for room, and reads follow one another. */
  predicate Allowed(s: System, e: Event) {
    match e
    case Key(c) => Writes(s.settings, c) ==> !Full(s.line)
    case Keys(keys) => !s.settings.canonical ==> |s.line.committed| + |s.line.pending| + |keys| < SIZE
    case Begin(_) => s.reader.Idle?
    case Continue => s.reader.Reading?
    case Set(_, _) => true
  }

  function Step(s: System, e: Event): System {
    match e
    case Key(c) => s.(line := Typed(s.settings, s.line, c))
    case Keys(keys) => s.(line := TypedKeys(s.settings, s.line, keys))
    case Begin(size) => s.(reader := Reading(size, ""))
    case Set(flush, settings) => s.(line := if flush then NOTHING else s.line, settings := settings)
    case Continue =>
      if s.reader.Idle? then s else
      var size, got, st := s.reader.size, s.reader.got, s.settings;
      var line := After(s.line, st.canonical, st.cc.min, size, |got|);
      match Next(s.line, st.canonical, st.cc.min, size, |got|)
      case Waits => s
      case Returns => System(line, st, Idle, s.finished + [got])
      case Takes(last) =>
        if s.line.committed == "" then s
        else
          var more := got + [s.line.committed[0]];
          if last then System(line, st, Idle, s.finished + [more]) else System(line, st, Reading(size, more), s.finished)
  }

  function Run(cc: Controls, events: seq<Event>): System {
    if events == [] then System(NOTHING, Settings(true, cc), Idle, [])
    else Step(Run(cc, events[..|events| - 1]), events[|events| - 1])
  }

  predicate IsRun(cc: Controls, events: seq<Event>) {
    events == [] || (IsRun(cc, events[..|events| - 1]) && Allowed(Run(cc, events[..|events| - 1]), events[|events| - 1]))
  }

  // ---------- What was typed ----------

  function InForce(cc: Controls, events: seq<Event>): Settings {
    if events == [] then Settings(true, cc)
    else if events[|events| - 1].Set? then events[|events| - 1].settings else InForce(cc, events[..|events| - 1])
  }

  /** What an event makes of the lines typed so far, whatever has been read of them. */
  function EditedBy(st: Settings, l: Line, e: Event): (r: Line)
    ensures !(e.Set? && e.flush) ==> l.committed <= r.committed
  {
    match e
    case Key(c) => Typed(st, l, c)
    case Keys(keys) => TypedKeys(st, l, keys)
    case Set(flush, _) => if flush then NOTHING else l
    case Begin(_) => l
    case Continue => l
  }

  /** Only the keystrokes since the last flush: all lines they completed, with erases applied, and the line they have begun. */
  function Edited(cc: Controls, events: seq<Event>): Line {
    if events == [] then NOTHING
    else EditedBy(InForce(cc, events[..|events| - 1]), Edited(cc, events[..|events| - 1]), events[|events| - 1])
  }

  /** How many events there are up to the last flush. */
  function LastFlush(events: seq<Event>): (n: nat)
    ensures n <= |events|
  {
    if events == [] then 0
    else if events[|events| - 1].Set? && events[|events| - 1].flush then |events| else LastFlush(events[..|events| - 1])
  }

  /** An end-of-file typed on an empty line. */
  predicate IsEof(st: Settings, l: Line, e: Event) {
    e.Key? && st.canonical && KindOf(st.cc, e.c) == Eof && l.pending == ""
  }

  /** All end-of-files typed on an empty line, and those of them that a flush has discarded. */
  function EofsTyped(cc: Controls, events: seq<Event>): nat {
    if events == [] then 0
    else
      var before := events[..|events| - 1];
      EofsTyped(cc, before) + if IsEof(InForce(cc, before), Edited(cc, before), events[|events| - 1]) then 1 else 0
  }

  function EofsFlushed(cc: Controls, events: seq<Event>): nat {
    if events == [] then 0
    else
      var before, e := events[..|events| - 1], events[|events| - 1];
      EofsFlushed(cc, before) + if e.Set? && e.flush then Run(cc, before).line.eofs else 0
  }

  // ---------- What was delivered ----------

  function Concat(parts: seq<string>): string {
    if parts == [] then "" else Concat(parts[..|parts| - 1]) + parts[|parts| - 1]
  }

  function Got(r: Reader): string { if r.Idle? then "" else r.got }

  /** All bytes the reads have taken so far. */
  function Delivered(s: System): string { Concat(s.finished) + Got(s.reader) }

  /** Reads that returned nothing. */
  function Count(parts: seq<string>): nat {
    if parts == [] then 0 else Count(parts[..|parts| - 1]) + (if parts[|parts| - 1] == "" then 1 else 0)
  }

  /** A newline can only be the last byte of what a read returns. */
  predicate OneLine(s: string) { forall k :: 0 <= k < |s| - 1 ==> s[k] != '\n' }
  predicate NoNewline(s: string) { forall k :: 0 <= k < |s| ==> s[k] != '\n' }

  lemma ConcatLast(parts: seq<string>, s: string)
    ensures Concat(parts + [s]) == Concat(parts) + s && Count(parts + [s]) == Count(parts) + (if s == "" then 1 else 0)
  {
    assert (parts + [s])[..|parts|] == parts;
  }

  /** Canonical mode is never left. */
  predicate AllCanonical(events: seq<Event>) {
    forall k :: 0 <= k < |events| && events[k].Set? ==> events[k].settings.canonical
  }

  /** Reads ask for at least one byte, and no settings make them return nothing before anything was typed. */
  predicate Patient(events: seq<Event>) {
    forall k :: 0 <= k < |events| ==>
      (events[k].Begin? ==> events[k].size > 0) && (events[k].Set? ==> events[k].settings.canonical || events[k].settings.cc.min > 0)
  }

  /** What ties a state to the keystrokes before it, and to the bytes delivered when the line was flushed last. */
  ghost predicate Faithful(s: System, st: Settings, edited: Line, base: string) {
    && Fits(s.line) && s.settings == st && s.line.pending == edited.pending
    && Delivered(s) + s.line.committed == base + edited.committed
  }

  ghost predicate LineWise(s: System) {
    s.settings.canonical && (forall k :: 0 <= k < |s.finished| ==> OneLine(s.finished[k])) && NoNewline(Got(s.reader))
  }

  /** A read in progress returns with nothing only for an end-of-file. */
  ghost predicate Waiting(s: System) {
    (s.reader.Reading? ==> s.reader.size > 0) && (s.settings.canonical || s.settings.cc.min > 0)
  }

  lemma KeyStep(s: System, st: Settings, edited: Line, base: string, e: Event)
    requires Faithful(s, st, edited, base) && Allowed(s, e) && (e.Key? || e.Keys?)
    ensures e.Key? ==> Faithful(Step(s, e), st, Typed(st, edited, e.c), base)
    ensures e.Keys? ==> Faithful(Step(s, e), st, TypedKeys(st, edited, e.keys), base)
  {
    var d, l := Delivered(s), s.line;
    var more := if e.Key? then [e.c] else e.keys;
    assert d + (l.committed + l.pending) == d + l.committed + l.pending == base + edited.committed + l.pending;
    assert d + (l.committed + l.pending + more) == d + l.committed + l.pending + more;
    assert base + (edited.committed + l.pending + more) == base + edited.committed + l.pending + more;
    assert base + (edited.committed + l.pending) == base + edited.committed + l.pending;
  }

  /** A byte read is a byte delivered. */
  lemma ContinueStep(s: System)
    requires s.reader.Reading?
    ensures var s' := Step(s, Continue);
      && Delivered(s') + s'.line.committed == Delivered(s) + s.line.committed && Delivered(s) <= Delivered(s')
      && s'.line.pending == s.line.pending && |s'.line.committed| <= |s.line.committed| && s'.settings == s.settings
  {
    hide Concat;
    var size, got, st := s.reader.size, s.reader.got, s.settings;
    match Next(s.line, st.canonical, st.cc.min, size, |got|)
    case Waits =>
    case Returns =>
      ConcatLast(s.finished, got);
      assert Concat(s.finished) + got + "" == Concat(s.finished) + got;
    case Takes(last) =>
      var c := s.line.committed[0];
      ConcatLast(s.finished, got + [c]);
      assert s.line.committed == [c] + s.line.committed[1..];
      TakeOne(Concat(s.finished), got, c, s.line.committed[1..]);
  }

  lemma ContinueLine(s: System)
    requires LineWise(s)
    ensures LineWise(Step(s, Continue))
  {
  }

  /** A read that returns nothing has consumed an end-of-file. */
  lemma ContinueCount(s: System)
    requires Waiting(s)
    ensures var s' := Step(s, Continue);
      Waiting(s') && Count(s'.finished) + s'.line.eofs == Count(s.finished) + s.line.eofs
  {
    hide Count;
    if s.reader.Reading? {
      var size, got, st := s.reader.size, s.reader.got, s.settings;
      match Next(s.line, st.canonical, st.cc.min, size, |got|)
      case Waits =>
      case Returns => ConcatLast(s.finished, got);
      case Takes(last) => ConcatLast(s.finished, got + [s.line.committed[0]]);
    }
  }

  lemma TakeOne(done: string, got: string, c: char, rest: string)
    ensures done + got + ([c] + rest) == done + (got + [c]) + rest == (done + (got + [c]) + "") + rest
    ensures done + got <= done + (got + [c]) && done + got <= done + (got + [c]) + ""
  {
    assert done + got + [c] == done + (got + [c]);
    assert done + got + ([c] + rest) == done + got + [c] + rest;
  }

  /** The bytes delivered by the time of the last flush. */
  ghost function Base(cc: Controls, events: seq<Event>): string {
    Delivered(Run(cc, events[..LastFlush(events)]))
  }

  lemma BaseStep(cc: Controls, events: seq<Event>)
    requires events != []
    ensures var before, e := events[..|events| - 1], events[|events| - 1];
      Base(cc, events) == if e.Set? && e.flush then Delivered(Run(cc, before)) else Base(cc, before)
  {
    var before := events[..|events| - 1];
    var n := LastFlush(before);
    assert events[..n] == before[..n] && events[..|events|] == events;
  }

  /**
    Over every interleaving of keystrokes, reads and changes of the settings: the bytes read so far are what was read before
    the last flush and then a prefix of the lines typed since, with erases applied, and what is missing of them is waiting;
    in canonical mode a read never goes past the end of a line.
   */
  lemma {:induction false} RunsFaithful(cc: Controls, events: seq<Event>)
    requires IsRun(cc, events)
    ensures Faithful(Run(cc, events), InForce(cc, events), Edited(cc, events), Base(cc, events))
    ensures Delivered(Run(cc, events)) <= Base(cc, events) + Edited(cc, events).committed
    ensures AllCanonical(events) ==> LineWise(Run(cc, events))
  {
    if events == [] {
      assert Delivered(Run(cc, events)) + "" == "" + "";
    } else {
      var before, e := events[..|events| - 1], events[|events| - 1];
      RunsFaithful(cc, before);
      BaseStep(cc, events);
      FewerEvents(events);
      assert Allowed(Run(cc, before), e) && Run(cc, events) == Step(Run(cc, before), e);
      hide Run, IsRun, Base, Concat, Patient, AllCanonical, Typed, TypedKeys;
      var s, st, edited, base := Run(cc, before), InForce(cc, before), Edited(cc, before), Base(cc, before);
      assert AllCanonical(events) ==> LineWise(s);
      match e
      case Key(c) => KeyStep(s, st, edited, base, e);
      case Keys(keys) => KeyStep(s, st, edited, base, e);
      case Begin(size) => assert Concat(s.finished) + "" == Concat(s.finished);
      case Continue =>
        ContinueStep(s);
        if LineWise(s) { ContinueLine(s); }
      case Set(flush, settings) =>
        assert Delivered(s) + "" == Delivered(s);
        SetCanonical(events);
    }
  }

  lemma SetCanonical(events: seq<Event>)
    requires events != [] && events[|events| - 1].Set?
    ensures AllCanonical(events) ==> events[|events| - 1].settings.canonical
  {
  }

  lemma FewerEvents(events: seq<Event>)
    requires events != []
    ensures AllCanonical(events) ==> AllCanonical(events[..|events| - 1])
    ensures Patient(events) ==> Patient(events[..|events| - 1])
  {
    assert forall k :: 0 <= k < |events| - 1 ==> events[..|events| - 1][k] == events[k];
  }

  /** Over every run: each end-of-file typed on an empty line is one read that returned nothing, still waits, or was flushed. */
  lemma {:induction false} EofsAccounted(cc: Controls, events: seq<Event>)
    requires IsRun(cc, events) && Patient(events)
    ensures Waiting(Run(cc, events))
    ensures EofsTyped(cc, events) == Count(Run(cc, events).finished) + Run(cc, events).line.eofs + EofsFlushed(cc, events)
  {
    if events != [] {
      var before, e := events[..|events| - 1], events[|events| - 1];
      FewerEvents(events);
      EofsAccounted(cc, before);
      RunsFaithful(cc, before);
      assert Run(cc, events) == Step(Run(cc, before), e);
      hide Run, IsRun, Base, Concat, Count;
      if e.Continue? { ContinueCount(Run(cc, before)); }
    }
  }

  /** No later keystroke takes back a completed line; only a flush does. */
  lemma {:induction false} CommittedStays(cc: Controls, events: seq<Event>, n: nat)
    requires LastFlush(events) <= n <= |events|
    ensures Edited(cc, events[..n]).committed <= Edited(cc, events).committed
  {
    if n == |events| {
      assert events[..n] == events;
    } else {
      var before := events[..|events| - 1];
      CommittedStays(cc, before, n);
      assert before[..n] == events[..n];
    }
  }

  // ---------- The order of lines and end-of-files ----------

  datatype Item = Byte(c: char) | End

  function Bytes(s: string): (items: seq<Item>)
    ensures |items| == |s|
  {
    seq(|s|, i requires 0 <= i < |s| => Byte(s[i]))
  }

  function Ends(n: nat): (items: seq<Item>)
    ensures |items| == n
  {
    seq(n, i => End)
  }

  /** What the results of reads mean: bytes, or an end-of-file for a read that returned nothing. */
  function Results(parts: seq<string>): seq<Item> {
    if parts == [] then []
    else Results(parts[..|parts| - 1]) + if parts[|parts| - 1] == "" then [End] else Bytes(parts[|parts| - 1])
  }

  /** What readers have got so far, and what they get next if nothing more is typed: end-of-files before bytes. */
  function Output(s: System): seq<Item> {
    Results(s.finished) + Bytes(Got(s.reader)) + (Ends(s.line.eofs) + Bytes(s.line.committed))
  }

  /** What an event puts in: the bytes it commits, or an end-of-file. */
  function PutIn(st: Settings, l: Line, e: Event): seq<Item> {
    if e.Set? && e.flush then []
    else if IsEof(st, l, e) then [End]
    else Bytes(EditedBy(st, l, e).committed[|l.committed|..])
  }

  /** What keystrokes have put in since the last flush, in the order they did. */
  function Input(cc: Controls, events: seq<Event>): seq<Item> {
    if events == [] then []
    else
      var before, e := events[..|events| - 1], events[|events| - 1];
      (if e.Set? && e.flush then [] else Input(cc, before)) + PutIn(InForce(cc, before), Edited(cc, before), e)
  }

  /** Lines and end-of-files come out in the order in which they were typed: what came out by the last flush, then all that was typed since. */
  ghost predicate Ordered(cc: Controls, events: seq<Event>) {
    var flushed := Run(cc, events[..LastFlush(events)]);
    Output(Run(cc, events)) == Results(flushed.finished) + Bytes(Got(flushed.reader)) + Input(cc, events)
  }

  /** An end-of-file typed on an empty line while committed bytes are unread. */
  ghost predicate Overtakes(cc: Controls, events: seq<Event>, k: int) {
    0 <= k < |events| && IsEof(Run(cc, events[..k]).settings, Run(cc, events[..k]).line, events[k]) && Run(cc, events[..k]).line.committed != ""
  }

  lemma BytesJoin(a: string, b: string)
    ensures Bytes(a + b) == Bytes(a) + Bytes(b)
  {
  }

  lemma ResultsLast(parts: seq<string>, s: string)
    ensures Results(parts + [s]) == Results(parts) + if s == "" then [End] else Bytes(s)
  {
    assert (parts + [s])[..|parts|] == parts;
  }

  /** Reading changes nothing about what comes out, and in which order. */
  lemma ReadStep(s: System)
    requires Waiting(s)
    ensures Output(Step(s, Continue)) == Output(s)
  {
    hide Bytes, Ends, Results;
    if s.reader.Reading? {
      var size, got, l := s.reader.size, s.reader.got, s.line;
      NoItems();
      match Next(l, s.settings.canonical, s.settings.cc.min, size, |got|)
      case Waits =>
      case Returns =>
        ResultsLast(s.finished, got);
        if got == "" {
          EndMoved(Results(s.finished), l.eofs - 1, Bytes(l.committed));
        } else {
          Regroup(Results(s.finished), Bytes(got), [], Ends(l.eofs) + Bytes(l.committed));
        }
      case Takes(last) =>
        var c, rest := l.committed[0], l.committed[1..];
        assert l.committed == [c] + rest;
        BytesJoin([c], rest);
        BytesJoin(got, [c]);
        ResultsLast(s.finished, got + [c]);
        Regroup(Results(s.finished), Bytes(got), Bytes([c]), Bytes(rest));
    }
  }

  lemma NoItems()
    ensures Bytes("") == [] && Ends(0) == [] && Results([]) == []
  {
  }

  lemma EndMoved(a: seq<Item>, n: nat, b: seq<Item>)
    ensures a + [] + (Ends(n + 1) + b) == (a + [End]) + [] + (Ends(n) + b)
  {
    assert Ends(n + 1) == [End] + Ends(n);
  }

  lemma Regroup(a: seq<Item>, b: seq<Item>, c: seq<Item>, d: seq<Item>)
    ensures a + b + ([] + (c + d)) == a + (b + c) + ([] + d) == (a + (b + c)) + [] + ([] + d)
    ensures a + b + d == (a + b) + [] + d
  {
    assert a + (b + c) == a + b + c;
  }

  /** Over every run: however reads continue after the n-th event, what they deliver is what was to come out then, in that order. */
  lemma {:induction false} ReadsDeliver(cc: Controls, events: seq<Event>, n: nat)
    requires IsRun(cc, events) && Patient(events) && n <= |events|
    requires forall k :: n <= k < |events| ==> events[k].Begin? || events[k].Continue?
    ensures Output(Run(cc, events)) == Output(Run(cc, events[..n]))
    ensures Results(Run(cc, events).finished) + Bytes(Got(Run(cc, events).reader)) <= Output(Run(cc, events[..n]))
  {
    if n == |events| {
      assert events[..n] == events;
    } else {
      var before := events[..|events| - 1];
      FewerEvents(events);
      ReadsDeliver(cc, before, n);
      assert before[..n] == events[..n];
      EofsAccounted(cc, before);
      ReadStep(Run(cc, before));
      assert Bytes("") == [];
    }
  }

  /** What a keystroke puts in comes out last, unless it is an end-of-file that overtakes committed bytes. */
  lemma TypeStep(s: System, edited: Line, e: Event, was: seq<Item>)
    requires (e.Key? || e.Keys?) && s.line.pending == edited.pending
    ensures var added := PutIn(s.settings, edited, e);
      if IsEof(s.settings, edited, e) && s.line.committed != "" then Output(Step(s, e)) != was + added
      else Output(Step(s, e)) == Output(s) + added
  {
    var l := s.line;
    var head := Results(s.finished) + Bytes(Got(s.reader));
    if IsEof(s.settings, edited, e) {
      assert Ends(l.eofs + 1) == Ends(l.eofs) + [End];
      if l.committed != "" {
        assert Output(Step(s, e))[|Output(Step(s, e))| - 1].Byte?;
        assert (was + [End])[|was|] == End;
      } else {
        assert head + (Ends(l.eofs) + Bytes("")) + [End] == head + (Ends(l.eofs) + [End] + Bytes(""));
      }
    } else {
      var done := EditedBy(s.settings, edited, e);
      var more := done.committed[|edited.committed|..];
      assert done.committed == edited.committed + more && Step(s, e).line.committed == l.committed + more;
      BytesJoin(l.committed, more);
      assert head + (Ends(l.eofs) + (Bytes(l.committed) + Bytes(more))) == head + (Ends(l.eofs) + Bytes(l.committed)) + Bytes(more);
    }
  }

  /** Nothing is out of order after a flush. */
  lemma FlushOrdered(cc: Controls, events: seq<Event>)
    requires events == [] || (events[|events| - 1].Set? && events[|events| - 1].flush)
    ensures Ordered(cc, events) && LastFlush(events) == |events|
  {
    assert events[..|events|] == events;
    var s := Run(cc, events);
    assert s.line == NOTHING && LastFlush(events) == |events|;
    assert Input(cc, events) == [] by { if events != [] { assert [] + PutIn(InForce(cc, events[..|events| - 1]), Edited(cc, events[..|events| - 1]), events[|events| - 1]) == []; } }
    hide Run, Input, LastFlush, Edited, InForce, Output;
    NothingWaits(s);
  }

  lemma NothingWaits(s: System)
    requires s.line == NOTHING
    ensures Output(s) == Results(s.finished) + Bytes(Got(s.reader)) + []
  {
    NoItems();
  }

  /** What order means before and after one event that is no flush. */
  lemma OrderedBy(cc: Controls, events: seq<Event>)
    requires events != [] && LastFlush(events) < |events|
    ensures var before, e := events[..|events| - 1], events[|events| - 1];
      var flushed := Run(cc, before[..LastFlush(before)]);
      var base := Results(flushed.finished) + Bytes(Got(flushed.reader));
      && (Ordered(cc, before) <==> Output(Run(cc, before)) == base + Input(cc, before))
      && (Ordered(cc, events) <==>
           Output(Step(Run(cc, before), e)) == base + (Input(cc, before) + PutIn(InForce(cc, before), Edited(cc, before), e)))
  {
    var before := events[..|events| - 1];
    var n := LastFlush(before);
    assert events[..n] == before[..n];
    hide Bytes, Ends, Results, Output, Step, PutIn;
  }

  /** One event that is no flush: the order stays what it was, unless the event is an end-of-file that overtakes committed bytes. */
  lemma OrderStep(cc: Controls, events: seq<Event>)
    requires events != [] && IsRun(cc, events) && Patient(events) && LastFlush(events) < |events|
    ensures Ordered(cc, events) <==> Ordered(cc, events[..|events| - 1]) && !Overtakes(cc, events, |events| - 1)
  {
    var before, e := events[..|events| - 1], events[|events| - 1];
    FewerEvents(events);
    EofsAccounted(cc, before);
    RunsFaithful(cc, before);
    OrderedBy(cc, events);
    assert Allowed(Run(cc, before), e) && !(e.Set? && e.flush);
    hide Bytes, Ends, Results, Concat, Typed, TypedKeys, KindOf, Ordered, Input, Edited, Run, LastFlush, IsRun, Output, Step, PutIn, IsEof;
    var s, edited, flushed := Run(cc, before), Edited(cc, before), Run(cc, before[..LastFlush(before)]);
    EventOrder(s, edited, e, Results(flushed.finished) + Bytes(Got(flushed.reader)), Input(cc, before));
    SameEof(s.settings, s.line, edited, e);
  }

  lemma SameEof(st: Settings, l: Line, edited: Line, e: Event)
    requires l.pending == edited.pending
    ensures IsEof(st, l, e) == IsEof(st, edited, e)
  {
  }

  lemma EventOrder(s: System, edited: Line, e: Event, base: seq<Item>, was: seq<Item>)
    requires Waiting(s) && s.line.pending == edited.pending && Allowed(s, e) && !(e.Set? && e.flush)
    ensures Output(Step(s, e)) == base + (was + PutIn(s.settings, edited, e)) <==>
      Output(s) == base + was && !(IsEof(s.settings, edited, e) && s.line.committed != "")
  {
    hide Output, Step, Bytes, Typed, TypedKeys, KindOf;
    var added := PutIn(s.settings, edited, e);
    NoItems();
    SameTail(Output(s), base, was, added);
    if e.Key? || e.Keys? {
      TypeStep(s, edited, e, base + was);
      assert base + (was + added) == base + was + added;
    } else {
      assert added == [] && Output(s) + [] == Output(s);
      if e.Continue? {
        ReadStep(s);
      } else {
        IdleStep(s, e);
      }
    }
  }

  lemma IdleStep(s: System, e: Event)
    requires (e.Begin? && s.reader.Idle?) || (e.Set? && !e.flush)
    ensures Output(Step(s, e)) == Output(s)
  {
  }

  /** Lines and end-of-files are in order exactly when, since the last flush, no end-of-file was typed on an empty line with committed bytes unread. */
  lemma {:induction false} OrderedSince(cc: Controls, events: seq<Event>)
    requires IsRun(cc, events) && Patient(events)
    ensures Ordered(cc, events) <==> forall k :: LastFlush(events) <= k < |events| ==> !Overtakes(cc, events, k)
  {
    hide Ordered, Overtakes, Run, Patient;
    if LastFlush(events) == |events| {
      FlushOrdered(cc, events);
    } else {
      var before, last := events[..|events| - 1], |events| - 1;
      FewerEvents(events);
      OrderedSince(cc, before);
      OrderStep(cc, events);
      var n := LastFlush(before);
      assert LastFlush(events) == n <= last;
      forall k | n <= k < last ensures Overtakes(cc, events, k) == Overtakes(cc, before, k) {
        OvertakesBefore(cc, events, last, k);
      }
    }
  }

  lemma OvertakesBefore(cc: Controls, events: seq<Event>, n: int, k: int)
    requires 0 <= k < n <= |events|
    ensures Overtakes(cc, events[..n], k) == Overtakes(cc, events, k)
  {
    assert events[..n][..k] == events[..k] && events[..n][k] == events[k];
  }

  lemma SameTail(a: seq<Item>, b: seq<Item>, c: seq<Item>, d: seq<Item>)
    ensures a == b + c <==> a + d == b + (c + d)
  {
    assert b + (c + d) == b + c + d;
    if a + d == b + c + d {
      assert |a| == |b + c|;
      assert a == (a + d)[..|a|] && b + c == (b + c + d)[..|b + c|];
    }
  }

  /**
    Over every run: lines and end-of-files come out in the order typed at every moment of it if and only if each end-of-file
    on an empty line was typed when no committed byte was unread.
   */
  lemma OrderedExactly(cc: Controls, events: seq<Event>)
    requires IsRun(cc, events) && Patient(events)
    ensures (forall n :: 0 <= n <= |events| ==> Ordered(cc, events[..n])) <==> (forall k :: 0 <= k < |events| ==> !Overtakes(cc, events, k))
  {
    hide Ordered, Overtakes, Run, Patient, IsRun, LastFlush;
    forall n | 0 <= n <= |events|
      ensures Ordered(cc, events[..n]) <==> forall k :: LastFlush(events[..n]) <= k < n ==> !Overtakes(cc, events, k)
    {
      Prefix(cc, events, n);
      OrderedSince(cc, events[..n]);
      forall k | 0 <= k < n ensures Overtakes(cc, events[..n], k) == Overtakes(cc, events, k) {
        OvertakesBefore(cc, events, n, k);
      }
    }
    forall k | 0 <= k < |events| && Overtakes(cc, events, k) ensures !Ordered(cc, events[..k + 1]) {
      OvertakingKey(cc, events, k);
    }
  }

  lemma OvertakingKey(cc: Controls, events: seq<Event>, k: int)
    requires Overtakes(cc, events, k)
    ensures LastFlush(events[..k + 1]) <= k
  {
    assert events[..k + 1][..k] == events[..k];
  }

  lemma {:induction false} Prefix(cc: Controls, events: seq<Event>, n: nat)
    requires IsRun(cc, events) && Patient(events) && n <= |events|
    ensures IsRun(cc, events[..n]) && Patient(events[..n])
  {
    if n == |events| {
      assert events[..n] == events;
    } else {
      var before := events[..|events| - 1];
      FewerEvents(events);
      Prefix(cc, before, n);
      assert before[..n] == events[..n];
    }
  }

  lemma RunEvent(cc: Controls, events: seq<Event>, e: Event)
    ensures Run(cc, events + [e]) == Step(Run(cc, events), e)
    ensures IsRun(cc, events + [e]) <==> IsRun(cc, events) && Allowed(Run(cc, events), e)
    ensures InForce(cc, events + [e]) == if e.Set? then e.settings else InForce(cc, events)
    ensures Edited(cc, events + [e]) == EditedBy(InForce(cc, events), Edited(cc, events), e)
    ensures !e.Set? ==> Input(cc, events + [e]) == Input(cc, events) + PutIn(InForce(cc, events), Edited(cc, events), e)
  {
    assert (events + [e])[..|events|] == events;
  }

  lemma LineThenEof()
    ensures var events := [Key('a'), Key('\n'), Key(CONTROLS.eof)]; var st := Settings(true, CONTROLS);
      && IsRun(CONTROLS, events) && Run(CONTROLS, events) == System(Line("a\n", "", 1), st, Idle, [])
      && InForce(CONTROLS, events) == st && Edited(CONTROLS, events) == Line("a\n", "", 1)
      && Input(CONTROLS, events) == [Byte('a'), Byte('\n'), End]
  {
    var cc, st := CONTROLS, Settings(true, CONTROLS);
    var e0, e1, e2, e3 := [], [Key('a')], [Key('a'), Key('\n')], [Key('a'), Key('\n'), Key(cc.eof)];
    assert KindOf(cc, 'a') == Text && KindOf(cc, '\n') == Text && KindOf(cc, cc.eof) == Eof;
    NoItems();
    assert Bytes("a\n") == [Byte('a'), Byte('\n')];
    assert e1 == e0 + [Key('a')] && e2 == e1 + [Key('\n')] && e3 == e2 + [Key(cc.eof)];
    RunEvent(cc, e0, Key('a'));
    RunEvent(cc, e1, Key('\n'));
    RunEvent(cc, e2, Key(cc.eof));
    assert Run(cc, e0) == System(NOTHING, st, Idle, []) && IsRun(cc, e0) && Edited(cc, e0) == NOTHING && Input(cc, e0) == [] && InForce(cc, e0) == st;
    hide Run, Edited, Input, InForce, IsRun, Bytes, KindOf;
    assert Edited(cc, e1) == Line("", "a", 0) && Edited(cc, e2) == Line("a\n", "", 0);
    assert Input(cc, e2) == [Byte('a'), Byte('\n')];
  }

  /** A line is completed, an end-of-file is typed, and the read that follows returns the end-of-file: the line is left unread. */
  lemma EofOvertakes()
    ensures var events := [Key('a'), Key('\n'), Key(CONTROLS.eof), Begin(10), Continue];
      && IsRun(CONTROLS, events) && Patient(events)
      && Run(CONTROLS, events) == System(Line("a\n", "", 0), Settings(true, CONTROLS), Idle, [""])
      && Input(CONTROLS, events) == [Byte('a'), Byte('\n'), End] && Output(Run(CONTROLS, events)) == [End, Byte('a'), Byte('\n')]
  {
    hide Run, Edited, Input, InForce, IsRun, Bytes, Ends, Results, KindOf, Patient, Output, Typed, TypedKeys, PutIn;
    var cc, st := CONTROLS, Settings(true, CONTROLS);
    var e3 := [Key('a'), Key('\n'), Key(cc.eof)];
    var e4, e5 := e3 + [Begin(10)], e3 + [Begin(10)] + [Continue];
    assert e5 == [Key('a'), Key('\n'), Key(cc.eof), Begin(10), Continue];
    PatientRead(cc);
    LineThenEof();
    RunEvent(cc, e3, Begin(10));
    assert Run(cc, e4) == System(Line("a\n", "", 1), st, Reading(10, ""), []) && IsRun(cc, e4);
    RunEvent(cc, e4, Continue);
    Unread(st);
    assert Input(cc, e5) == Input(cc, e3) + [] + [] by {
      NothingPutIn(st, Edited(cc, e3), Begin(10));
      NothingPutIn(st, Edited(cc, e4), Continue);
    }
  }

  lemma PatientRead(cc: Controls)
    ensures Patient([Key('a'), Key('\n'), Key(cc.eof), Begin(10), Continue])
  {
  }

  lemma NothingPutIn(st: Settings, l: Line, e: Event)
    requires e.Begin? || e.Continue?
    ensures PutIn(st, l, e) == [] && EditedBy(st, l, e) == l
  {
  }

  lemma Unread(st: Settings)
    ensures Output(System(Line("a\n", "", 0), st, Idle, [""])) == [End, Byte('a'), Byte('\n')]
  {
    NoItems();
    assert Results([""]) == [End] && Bytes("a\n") == [Byte('a'), Byte('\n')];
  }

  // ---------- A keystroke that waits for room ----------

  /** What can happen while a keystroke waits: reads, and changes of the settings that flush nothing. */
  predicate Meanwhile(s: System, events: seq<Event>)
    decreases |events|
  {
    events == []
    || (&& Allowed(s, events[0]) && (events[0].Begin? || events[0].Continue? || (events[0].Set? && !events[0].flush))
        && Meanwhile(Step(s, events[0]), events[1..]))
  }

  function Steps(s: System, events: seq<Event>): System
    decreases |events|
  {
    if events == [] then s else Steps(Step(s, events[0]), events[1..])
  }

  /** With nothing committed no read takes a byte. */
  lemma {:induction false} NoRoom(s: System, events: seq<Event>)
    requires Meanwhile(s, events) && s.line.committed == ""
    ensures Steps(s, events).line.committed == "" && Steps(s, events).line.pending == s.line.pending
    decreases |events|
  {
    if events != [] { NoRoom(Step(s, events[0]), events[1..]); }
  }

  /** How far a reader is from taking a byte, end-of-files in front of it aside. */
  function Phase(r: Reader): nat {
    if r.Idle? then 1 else if r.got == "" && r.size > 0 then 0 else 2
  }

  lemma {:induction false} MakesRoom(s: System) returns (events: seq<Event>)
    requires s.line.committed != ""
    ensures Meanwhile(s, events)
    ensures |Steps(s, events).line.committed| < |s.line.committed| && Steps(s, events).line.pending == s.line.pending
    decreases s.line.eofs, Phase(s.reader)
  {
    var e := if s.reader.Idle? then Begin(1) else Continue;
    var s' := Step(s, e);
    if |s'.line.committed| < |s.line.committed| {
      events := [e];
      assert events[1..] == [] && Steps(s', []) == s' && Meanwhile(s', []);
    } else {
      var rest := MakesRoom(s');
      events := [e] + rest;
      assert events[1..] == rest;
    }
  }

  /** A keystroke that waits in front of a full buffer can ever go on if and only if a completed line is there to be read. */
  lemma RoomExactlyWhen(s: System)
    requires Full(s.line)
    ensures (exists events :: Meanwhile(s, events) && !Full(Steps(s, events).line)) <==> s.line.committed != ""
  {
    hide Meanwhile, Steps;
    if s.line.committed != "" {
      var events := MakesRoom(s);
      assert !Full(Steps(s, events).line);
    } else {
      forall events | Meanwhile(s, events) ensures Full(Steps(s, events).line) {
        NoRoom(s, events);
      }
    }
  }
}
