/**
  What the keys of a terminal amount to, said of the sequence of keys alone: which
  characters are left, and which of them are in completed lines.
 */
module LineEditing {
  import opened TerminalLines

  /** A key with the settings in force, or the end of a key that stood for several characters. */
  datatype Stroke = Struck(st: Settings, c: char) | Commit

  /** A character that goes into the line: every one outside canonical mode, and in it those that are no control. */
  predicate Plain(k: Stroke) {
    && k.Struck?
    && (k.st.canonical ==> var cc := k.st.cc; k.c !in {cc.eof, cc.eol, cc.erase, cc.intr, cc.kill, cc.quit, cc.start, cc.stop, cc.susp})
  }

  /** The erase key; characters that are also the end-of-file or the end-of-line control are taken for those. */
  predicate Erases(k: Stroke) {
    k.Struck? && k.st.canonical && k.c == k.st.cc.erase && k.c != k.st.cc.eof && k.c != k.st.cc.eol
  }

  /** Behind this key nothing before it can be erased any more. */
  predicate Boundary(k: Stroke) {
    k.Commit? || !k.st.canonical || k.c == k.st.cc.eof || (k.c == '\n' && Plain(k))
  }

  function Weight(k: Stroke): int {
    if Plain(k) then 1 else if Erases(k) then -1 else 0
  }

  /** By how many the characters among keys i to j outnumber the erases. */
  function Balance(ks: seq<Stroke>, i: int, j: int): int
    decreases j - i
  {
    if i >= j || j > |ks| || i < 0 then 0 else Balance(ks, i, j - 1) + Weight(ks[j - 1])
  }

  /** A key's line has been completed. */
  ghost predicate Completed(ks: seq<Stroke>, i: int) {
    exists m :: i <= m < |ks| && 0 <= m && Boundary(ks[m])
  }

  /** No boundary from key i up to key j. */
  ghost predicate SameLine(ks: seq<Stroke>, i: int, j: int) {
    forall m :: 0 <= i <= m < j && m < |ks| ==> !Boundary(ks[m])
  }

  /** A character is left unless, later in its line, erases ever outnumber the characters typed after it. */
  ghost predicate Survives(ks: seq<Stroke>, i: int) {
    0 <= i < |ks| && Plain(ks[i]) && forall j :: i < j <= |ks| && SameLine(ks, i, j) ==> Balance(ks, i + 1, j) >= 0
  }

  predicate Increasing(places: seq<int>) {
    forall a, b :: 0 <= a < b < |places| ==> places[a] < places[b]
  }

  /** The places, in order, of the characters that are left: in completed lines, or in the line just begun. */
  ghost predicate Left(ks: seq<Stroke>, places: seq<int>, completed: bool) {
    Increasing(places) && forall i :: i in places <==> Survives(ks, i) && (Completed(ks, i) <==> completed)
  }

  function CharAt(ks: seq<Stroke>, i: int): char {
    if 0 <= i < |ks| && ks[i].Struck? then ks[i].c else ' '
  }

  function Chars(ks: seq<Stroke>, places: seq<int>): string {
    seq(|places|, m requires 0 <= m < |places| => CharAt(ks, places[m]))
  }

  /** The keys of a run since the last flush. */
  function Strokes(cc: Controls, events: seq<Event>): seq<Stroke> {
    if events == [] then []
    else
      var before, e := events[..|events| - 1], events[|events| - 1];
      var ks, st := Strokes(cc, before), InForce(cc, before);
      match e
      case Key(c) => ks + [Struck(st, c)]
      case Keys(keys) => if st.canonical then ks else ks + Raw(st, keys) + [Commit]
      case Set(flush, _) => if flush then [] else ks
      case Begin(_) => ks
      case Continue => ks
  }

  function Raw(st: Settings, keys: string): seq<Stroke> {
    seq(|keys|, i requires 0 <= i < |keys| => Struck(st, keys[i]))
  }

  // ---------- One more key ----------

  lemma BalanceMore(ks: seq<Stroke>, k: Stroke, i: int, j: int)
    requires 0 <= i && j <= |ks|
    ensures Balance(ks + [k], i, j) == Balance(ks, i, j)
    decreases j - i
  {
    if i < j { BalanceMore(ks, k, i, j - 1); }
  }

  lemma BalanceLast(ks: seq<Stroke>, k: Stroke, i: int)
    requires 0 <= i <= |ks|
    ensures Balance(ks + [k], i, |ks| + 1) == Balance(ks, i, |ks|) + Weight(k)
  {
    BalanceMore(ks, k, i, |ks|);
  }

  lemma CompletedMore(ks: seq<Stroke>, k: Stroke, i: int)
    requires 0 <= i <= |ks|
    ensures Completed(ks + [k], i) <==> Completed(ks, i) || Boundary(k)
    ensures SameLine(ks, i, |ks|) <==> !Completed(ks, i)
  {
    hide Boundary;
    var more := ks + [k];
    if Completed(ks, i) {
      var m :| i <= m < |ks| && 0 <= m && Boundary(ks[m]);
      assert Boundary(more[m]);
    }
    if Boundary(k) { assert Boundary(more[|ks|]); }
  }

  lemma SurvivesMore(ks: seq<Stroke>, k: Stroke, i: int)
    requires 0 <= i < |ks|
    ensures Survives(ks + [k], i) <==> Survives(ks, i) && (Completed(ks + [k], i) || Balance(ks, i + 1, |ks|) + Weight(k) >= 0)
  {
    hide Boundary, Plain, Weight, Balance;
    var more := ks + [k];
    CompletedMore(ks, k, i);
    BalanceLast(ks, k, i + 1);
    forall j | i < j <= |ks| ensures (SameLine(more, i, j) <==> SameLine(ks, i, j)) && Balance(more, i + 1, j) == Balance(ks, i + 1, j) {
      BalanceMore(ks, k, i + 1, j);
      SameLineMore(ks, k, i, j);
    }
    LastLine(more, i);
    if Survives(more, i) {
      assert Plain(ks[i]) by { assert more[i] == ks[i]; }
      assert !Completed(more, i) ==> Balance(more, i + 1, |ks| + 1) >= 0;
    }
    if Survives(ks, i) && (Completed(more, i) || Balance(ks, i + 1, |ks|) + Weight(k) >= 0) {
      assert Plain(more[i]) by { assert more[i] == ks[i]; }
    }
  }

  lemma SameLineMore(ks: seq<Stroke>, k: Stroke, i: int, j: int)
    requires 0 <= i && j <= |ks|
    ensures SameLine(ks + [k], i, j) <==> SameLine(ks, i, j)
  {
    hide Boundary;
    assert forall m :: 0 <= m < |ks| ==> (ks + [k])[m] == ks[m];
  }

  lemma WeightIs(k: Stroke)
    ensures Weight(k) == if Plain(k) then 1 else if Erases(k) then -1 else 0
    ensures Erases(k) ==> !Plain(k)
  {
  }

  lemma IncreasingJoin(a: seq<int>, b: seq<int>)
    requires Increasing(a) && Increasing(b) && forall x, y :: x in a && y in b ==> x < y
    ensures Increasing(a + b)
  {
    forall i, j | 0 <= i < j < |a + b| ensures (a + b)[i] < (a + b)[j] {
      if i < |a| <= j { assert a[i] in a && b[j - |a|] in b; }
    }
  }

  lemma LastLine(ks: seq<Stroke>, i: int)
    requires 0 <= i
    ensures SameLine(ks, i, |ks|) <==> !Completed(ks, i)
  {
    hide Boundary;
  }

  lemma SurvivesNew(ks: seq<Stroke>, k: Stroke)
    ensures Survives(ks + [k], |ks|) <==> Plain(k)
  {
    hide Boundary, Plain, Weight;
    var more := ks + [k];
    assert more[|ks|] == k;
    assert Balance(more, |ks| + 1, |more|) == 0;
  }

  /** A line as it has come about: what is left of the keys, and how many characters are left behind each of them. */
  ghost predicate Edits(ks: seq<Stroke>, kept: seq<int>, begun: seq<int>, l: Line) {
    && Left(ks, kept, true) && Left(ks, begun, false) && l.committed == Chars(ks, kept) && l.pending == Chars(ks, begun)
    && forall m :: 0 <= m < |begun| ==> Balance(ks, begun[m] + 1, |ks|) == |begun| - 1 - m
  }

  function Hit(l: Line, k: Stroke): Line {
    if k.Struck? then Typed(k.st, l, k.c) else Line(l.committed + l.pending, "", l.eofs)
  }

  lemma CharsMore(ks: seq<Stroke>, k: Stroke, places: seq<int>)
    requires forall i :: i in places ==> 0 <= i < |ks|
    ensures Chars(ks + [k], places) == Chars(ks, places)
  {
    var more := ks + [k];
    forall m | 0 <= m < |places| ensures Chars(more, places)[m] == Chars(ks, places)[m] {
      assert places[m] in places && more[places[m]] == ks[places[m]];
    }
  }

  lemma CharsJoin(ks: seq<Stroke>, a: seq<int>, b: seq<int>)
    ensures Chars(ks, a + b) == Chars(ks, a) + Chars(ks, b)
  {
  }

  /** What one key does to what is left, in the order of its possible meanings. */
  lemma Stroked(ks: seq<Stroke>, k: Stroke, kept: seq<int>, begun: seq<int>, l: Line) returns (kept': seq<int>, begun': seq<int>)
    requires Edits(ks, kept, begun, l)
    ensures Edits(ks + [k], kept', begun', Hit(l, k))
  {
    hide Left, Survives, Completed, Balance, Typed, Plain, Erases, Boundary, Chars, KindOf;
    Places(ks, kept, begun);
    HitIs(l, k);
    CharsMore(ks, k, kept);
    CharsMore(ks, k, begun);
    if Boundary(k) {
      var last := if Plain(k) then [|ks|] else [];
      kept', begun' := kept + begun + last, [];
      LeftCompleted(ks, k, kept, begun);
      CharsJoin(ks + [k], kept + begun, last);
      CharsJoin(ks + [k], kept, begun);
      NewChar(ks, k);
    } else if Plain(k) {
      kept', begun' := kept, begun + [|ks|];
      LeftPlain(ks, k, kept, begun);
      CharsJoin(ks + [k], begun, [|ks|]);
      NewChar(ks, k);
    } else if Erases(k) {
      kept', begun' := kept, if begun == [] then [] else begun[..|begun| - 1];
      LeftErased(ks, k, kept, begun);
      CharsTake(ks, k, begun);
    } else {
      kept', begun' := kept, begun;
      LeftSame(ks, k, kept, begun);
    }
  }

  lemma CharsTake(ks: seq<Stroke>, k: Stroke, places: seq<int>)
    requires forall i :: i in places ==> 0 <= i < |ks|
    ensures |Chars(ks, places)| == |places|
    ensures places != [] ==> Chars(ks + [k], places[..|places| - 1]) == Chars(ks, places)[..|places| - 1]
    ensures places == [] ==> Chars(ks + [k], places) == ""
  {
    CharsMore(ks, k, places);
  }

  lemma NewChar(ks: seq<Stroke>, k: Stroke)
    ensures Plain(k) ==> k.Struck? && Chars(ks + [k], [|ks|]) == [k.c]
    ensures Chars(ks + [k], []) == ""
  {
  }

  /** A key by what it is, without the order in which the controls are compared. */
  lemma HitIs(l: Line, k: Stroke)
    ensures var l' := Hit(l, k);
      if Boundary(k) then l'.committed == l.committed + l.pending + (if Plain(k) then [k.c] else "") && l'.pending == ""
      else l'.committed == l.committed
           && l'.pending == if Plain(k) then l.pending + [k.c] else if Erases(k) && l.pending != "" then l.pending[..|l.pending| - 1] else l.pending
  {
  }

  lemma Places(ks: seq<Stroke>, kept: seq<int>, begun: seq<int>)
    requires Left(ks, kept, true) && Left(ks, begun, false)
    ensures forall i :: i in kept ==> 0 <= i < |ks| && Completed(ks, i)
    ensures forall i :: i in begun ==> 0 <= i < |ks| && !Completed(ks, i)
    ensures forall a, b :: a in kept && b in begun ==> a < b
  {
    hide Boundary, Balance, Plain;
    forall a, b | a in kept && b in begun ensures a < b {
      var m :| a <= m < |ks| && 0 <= m && Boundary(ks[m]);
    }
  }

  lemma LeftCompleted(ks: seq<Stroke>, k: Stroke, kept: seq<int>, begun: seq<int>)
    requires Left(ks, kept, true) && Left(ks, begun, false) && Boundary(k)
    ensures Left(ks + [k], kept + begun + (if Plain(k) then [|ks|] else []), true) && Left(ks + [k], [], false)
  {
    hide Boundary, Balance, Plain, Weight, Survives, Completed;
    Places(ks, kept, begun);
    var more, places := ks + [k], kept + begun + if Plain(k) then [|ks|] else [];
    InRange(more);
    InRange(ks);
    SurvivesNew(ks, k);
    CompletedMore(ks, k, |ks|);
    forall i | 0 <= i < |ks| ensures Completed(more, i) && (Survives(more, i) <==> Survives(ks, i)) {
      CompletedMore(ks, k, i);
      SurvivesMore(ks, k, i);
    }
    IncreasingJoin(kept, begun);
    IncreasingJoin(kept + begun, if Plain(k) then [|ks|] else []);
    forall i ensures i in places <==> Survives(more, i) && Completed(more, i) {
      if 0 <= i < |ks| { assert i in kept || i in begun <==> Survives(ks, i); }
    }
  }

  lemma InRange(ks: seq<Stroke>)
    ensures forall i :: Survives(ks, i) ==> 0 <= i < |ks|
  {
  }

  lemma LeftPlain(ks: seq<Stroke>, k: Stroke, kept: seq<int>, begun: seq<int>)
    requires Left(ks, kept, true) && Left(ks, begun, false) && !Boundary(k) && Plain(k)
    requires forall m :: 0 <= m < |begun| ==> Balance(ks, begun[m] + 1, |ks|) == |begun| - 1 - m
    ensures Left(ks + [k], kept, true) && Left(ks + [k], begun + [|ks|], false)
    ensures forall m :: 0 <= m <= |begun| ==> Balance(ks + [k], (begun + [|ks|])[m] + 1, |ks| + 1) == |begun| - m
  {
    WeightIs(k);
    hide Boundary, Balance, Plain, Weight, Survives, Completed;
    Places(ks, kept, begun);
    var more, places := ks + [k], begun + [|ks|];
    InRange(more);
    InRange(ks);
    SurvivesNew(ks, k);
    CompletedMore(ks, k, |ks|);
    NoneBehind(ks);
    forall i | 0 <= i < |ks| ensures (Completed(more, i) <==> Completed(ks, i)) && (Survives(more, i) <==> Survives(ks, i)) {
      CompletedMore(ks, k, i);
      SurvivesMore(ks, k, i);
      if Survives(ks, i) && !Completed(ks, i) { Ahead(ks, begun, i); }
    }
    IncreasingJoin(begun, [|ks|]);
    forall m | 0 <= m <= |begun| ensures Balance(more, places[m] + 1, |ks| + 1) == |begun| - m {
      if m < |begun| {
        assert begun[m] in begun;
        BalanceLast(ks, k, begun[m] + 1);
      } else {
        NoBalance(more);
      }
    }
  }

  lemma NoneBehind(ks: seq<Stroke>)
    ensures !Completed(ks, |ks|)
  {
  }

  lemma NoBalance(ks: seq<Stroke>)
    ensures Balance(ks, |ks|, |ks|) == 0
  {
  }

  /** A place in the line just begun has as many characters left behind it as its balance says. */
  lemma Ahead(ks: seq<Stroke>, begun: seq<int>, i: int)
    requires Left(ks, begun, false) && Survives(ks, i) && !Completed(ks, i)
    requires forall m :: 0 <= m < |begun| ==> Balance(ks, begun[m] + 1, |ks|) == |begun| - 1 - m
    ensures exists m :: 0 <= m < |begun| && begun[m] == i && Balance(ks, i + 1, |ks|) == |begun| - 1 - m
  {
    hide Survives, Completed, Balance;
    assert i in begun;
    var m :| 0 <= m < |begun| && begun[m] == i;
  }

  lemma LeftErased(ks: seq<Stroke>, k: Stroke, kept: seq<int>, begun: seq<int>)
    requires Left(ks, kept, true) && Left(ks, begun, false) && !Boundary(k) && !Plain(k) && Erases(k)
    requires forall m :: 0 <= m < |begun| ==> Balance(ks, begun[m] + 1, |ks|) == |begun| - 1 - m
    ensures Left(ks + [k], kept, true) && Left(ks + [k], if begun == [] then [] else begun[..|begun| - 1], false)
    ensures forall m :: 0 <= m < |begun| - 1 ==> Balance(ks + [k], begun[m] + 1, |ks| + 1) == |begun| - 2 - m
  {
    WeightIs(k);
    hide Boundary, Balance, Plain, Weight, Survives, Completed, Erases;
    Places(ks, kept, begun);
    var more, places := ks + [k], if begun == [] then [] else begun[..|begun| - 1];
    InRange(more);
    InRange(ks);
    SurvivesNew(ks, k);
    CompletedMore(ks, k, |ks|);
    forall i | 0 <= i < |ks|
      ensures Completed(more, i) <==> Completed(ks, i)
      ensures Survives(more, i) <==> Survives(ks, i) && !(begun != [] && i == begun[|begun| - 1])
    {
      CompletedMore(ks, k, i);
      SurvivesMore(ks, k, i);
      if begun != [] { assert begun[|begun| - 1] in begun; }
      if Survives(ks, i) && !Completed(ks, i) { Ahead(ks, begun, i); }
    }
    assert Increasing(places);
    forall i ensures i in places <==> i in begun && !(begun != [] && i == begun[|begun| - 1]) {
      if i in begun && i != begun[|begun| - 1] {
        var m :| 0 <= m < |begun| && begun[m] == i;
        assert places[m] == i;
      }
    }
    forall m | 0 <= m < |begun| - 1 ensures Balance(more, begun[m] + 1, |ks| + 1) == |begun| - 2 - m {
      assert begun[m] in begun;
      BalanceLast(ks, k, begun[m] + 1);
    }
  }

  lemma LeftSame(ks: seq<Stroke>, k: Stroke, kept: seq<int>, begun: seq<int>)
    requires Left(ks, kept, true) && Left(ks, begun, false) && !Boundary(k) && !Plain(k) && !Erases(k)
    requires forall m :: 0 <= m < |begun| ==> Balance(ks, begun[m] + 1, |ks|) == |begun| - 1 - m
    ensures Left(ks + [k], kept, true) && Left(ks + [k], begun, false)
    ensures forall m :: 0 <= m < |begun| ==> Balance(ks + [k], begun[m] + 1, |ks| + 1) == |begun| - 1 - m
  {
    WeightIs(k);
    hide Boundary, Balance, Plain, Weight, Survives, Completed, Erases;
    Places(ks, kept, begun);
    var more := ks + [k];
    InRange(more);
    InRange(ks);
    SurvivesNew(ks, k);
    CompletedMore(ks, k, |ks|);
    forall i | 0 <= i < |ks| ensures (Completed(more, i) <==> Completed(ks, i)) && (Survives(more, i) <==> Survives(ks, i)) {
      CompletedMore(ks, k, i);
      SurvivesMore(ks, k, i);
      if Survives(ks, i) && !Completed(ks, i) { Ahead(ks, begun, i); }
    }
    forall m | 0 <= m < |begun| ensures Balance(more, begun[m] + 1, |ks| + 1) == |begun| - 1 - m {
      assert begun[m] in begun;
      BalanceLast(ks, k, begun[m] + 1);
    }
  }

  // ---------- Runs ----------

  /**
    After any run, the completed lines since the last flush are the characters that are left of the keys in completed
    lines, and the line begun those that are left behind them.
   */
  lemma {:induction false} EditedLeft(cc: Controls, events: seq<Event>) returns (kept: seq<int>, begun: seq<int>)
    ensures var ks, edited := Strokes(cc, events), Edited(cc, events);
      && Left(ks, kept, true) && Left(ks, begun, false) && edited.committed == Chars(ks, kept) && edited.pending == Chars(ks, begun)
  {
    kept, begun := EditedEdits(cc, events);
  }

  lemma {:induction false} EditedEdits(cc: Controls, events: seq<Event>) returns (kept: seq<int>, begun: seq<int>)
    ensures Edits(Strokes(cc, events), kept, begun, Edited(cc, events))
  {
    if events == [] {
      NothingLeft();
      return [], [];
    }
    var before, e := events[..|events| - 1], events[|events| - 1];
    var ks, st, l := Strokes(cc, before), InForce(cc, before), Edited(cc, before);
    kept, begun := EditedEdits(cc, before);
    hide Edits, Typed;
    match e
    case Key(c) => kept, begun := Stroked(ks, Struck(st, c), kept, begun, l);
    case Keys(keys) =>
      if !st.canonical {
        kept, begun := RawEdits(ks, st, keys, kept, begun, l);
        var raw := Line(l.committed + l.pending + keys, "", l.eofs);
        if keys == "" {
          assert ks + Raw(st, keys) == ks && l.committed + l.pending + keys == l.committed + l.pending;
          kept, begun := Stroked(ks, Commit, kept, begun, l);
        } else {
          assert raw.committed + "" == raw.committed;
          kept, begun := Stroked(ks + Raw(st, keys), Commit, kept, begun, raw);
        }
      }
    case Set(flush, _) =>
      NothingLeft();
      if flush { kept, begun := [], []; }
    case Begin(_) =>
    case Continue =>
  }

  lemma NothingLeft()
    ensures Edits([], [], [], NOTHING)
  {
  }

  /** Outside canonical mode every character of a key is committed as it comes. */
  lemma {:induction false} RawEdits(ks: seq<Stroke>, st: Settings, keys: string, kept: seq<int>, begun: seq<int>, l: Line)
    returns (kept': seq<int>, begun': seq<int>)
    requires Edits(ks, kept, begun, l) && !st.canonical
    ensures Edits(ks + Raw(st, keys), kept', begun', if keys == "" then l else Line(l.committed + l.pending + keys, "", l.eofs))
    decreases |keys|
  {
    hide Edits;
    if keys == "" {
      assert ks + Raw(st, keys) == ks;
      return kept, begun;
    }
    var n := |keys| - 1;
    kept', begun' := RawEdits(ks, st, keys[..n], kept, begun, l);
    var m := if n == 0 then l else Line(l.committed + l.pending + keys[..n], "", l.eofs);
    kept', begun' := Stroked(ks + Raw(st, keys[..n]), Struck(st, keys[n]), kept', begun', m);
    assert ks + Raw(st, keys) == ks + Raw(st, keys[..n]) + [Struck(st, keys[n])];
    assert keys == keys[..n] + [keys[n]];
    if n == 0 {
      assert keys[..n] == "" && l.committed + l.pending + [keys[n]] == l.committed + l.pending + keys;
    } else {
      assert m.committed + m.pending + [keys[n]] == l.committed + l.pending + (keys[..n] + [keys[n]]);
    }
  }

  /** Over every run: what has been read and what waits to be read since the last flush are the characters left in completed lines. */
  lemma RunsKeep(cc: Controls, events: seq<Event>) returns (kept: seq<int>)
    requires IsRun(cc, events)
    ensures Left(Strokes(cc, events), kept, true)
    ensures Delivered(Run(cc, events)) + Run(cc, events).line.committed == Base(cc, events) + Chars(Strokes(cc, events), kept)
  {
    hide Run, Base, Left, Chars, Strokes, IsRun, Edited, InForce;
    RunsFaithful(cc, events);
    var begun;
    kept, begun := EditedLeft(cc, events);
  }

  // ---------- The erase key ----------

  /** The erase key of these settings, when it is one. */
  predicate HasErase(st: Settings) {
    st.canonical && st.cc.erase != st.cc.eof && st.cc.erase != st.cc.eol
  }

  /** An ordinary character and then the erase key leave everything as it was. */
  lemma EraseUndoes(s: System, c: char)
    requires HasErase(s.settings) && Plain(Struck(s.settings, c)) && c != '\n'
    ensures Step(Step(s, Key(c)), Key(s.settings.cc.erase)) == s
  {
    assert (s.line.pending + [c])[..|s.line.pending|] == s.line.pending;
  }

  /** The erase key takes exactly the last pending character. */
  lemma EraseTakesLast(s: System)
    requires HasErase(s.settings)
    ensures var l, l' := s.line, Step(s, Key(s.settings.cc.erase)).line;
      && l'.committed == l.committed && l'.eofs == l.eofs
      && (l.pending != "" ==> exists c: char :: l.pending == l'.pending + [c]) && (l.pending == "" ==> l'.pending == "")
  {
    var l := s.line;
    if l.pending != "" {
      assert l.pending == l.pending[..|l.pending| - 1] + [l.pending[|l.pending| - 1]];
    }
  }
}
