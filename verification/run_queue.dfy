/**
  Round-robin scheduling on values: a list of processes, new ones at the head, and
  what holds over every run of adding, executing, exiting and timer ticks.
 */
module RunQueue {
  /**
    `hole` is -1 while the current process is alive. After it has exited, its link still leads to the process that
    followed it: hole is that one's place in the list.
   */
  datatype State<!P> = State(list: seq<P>, current: P, idle: P, hole: int, context: map<P, int>, changed: bool)

  datatype Event<!P> = Add(p: P, context: int) | Exec(p: P, context: int) | Exit(status: int) | Schedule(context: int)

  predicate Distinct<P(==)>(list: seq<P>) {
    forall i, k :: 0 <= i < k < |list| ==> list[i] != list[k]
  }

  function IndexOf<P(==)>(list: seq<P>, p: P): (i: int)
    ensures -1 <= i < |list| && (i >= 0 ==> list[i] == p) && (i >= 0 <==> p in list)
    ensures forall k :: 0 <= k < i ==> list[k] != p
  {
    if list == [] then -1
    else if list[0] == p then 0
    else
      var i := IndexOf(list[1..], p);
      if i < 0 then -1 else i + 1
  }

  predicate Good<P(==)>(s: State<P>) {
    && Distinct(s.list) && s.idle !in s.list && s.idle in s.context
    && (forall i :: 0 <= i < |s.list| ==> s.list[i] in s.context)
    && s.current in s.context && -1 <= s.hole <= |s.list|
    && (s.hole < 0 ==> s.current == s.idle || s.current in s.list)
    && (s.hole >= 0 ==> s.current != s.idle && s.current !in s.list)
  }

  /** The place in the list the current process's link leads to; the end of the list when there is none. */
  function NextPlace<P(==)>(s: State<P>): int {
    if s.hole >= 0 then s.hole else if s.current in s.list then IndexOf(s.list, s.current) + 1 else |s.list|
  }

  function Chosen<P(==)>(s: State<P>): P
    requires Good(s)
  {
    var k := NextPlace(s);
    if k < |s.list| then s.list[k] else if s.list != [] then s.list[0] else s.idle
  }

  function Without<P>(list: seq<P>, i: int): seq<P>
    requires 0 <= i < |list|
  {
    list[..i] + list[i + 1..]
  }

  predicate Allowed<P(==)>(s: State<P>, e: Event<P>) {
    match e
    case Add(p, _) => s.hole < 0 && p !in s.context
    case Exec(p, _) => s.hole < 0 && p in s.list
    case Exit(_) => s.hole < 0 && s.current in s.list
    case Schedule(_) => true
  }

  function Step<P(==)>(s: State<P>, e: Event<P>): State<P>
    requires Good(s) && Allowed(s, e)
  {
    match e
    case Add(p, c) => s.(list := [p] + s.list, context := s.context[p := c])
    case Exec(p, c) => s.(context := s.context[p := c], changed := s.changed || p == s.current)
    case Exit(_) => var i := IndexOf(s.list, s.current); s.(list := Without(s.list, i), hole := i)
    case Schedule(c) =>
      State(s.list, Chosen(s), s.idle, -1, if s.changed then s.context else s.context[s.current := c], false)
  }

  lemma {:induction false} IndexUnique<P>(list: seq<P>, i: int)
    requires Distinct(list) && 0 <= i < |list|
    ensures IndexOf(list, list[i]) == i
  {
    var k := IndexOf(list, list[i]);
    assert list[k] == list[i];
  }

  lemma WithoutKeeps<P>(list: seq<P>, i: int)
    requires Distinct(list) && 0 <= i < |list|
    ensures Distinct(Without(list, i)) && list[i] !in Without(list, i) && |Without(list, i)| == |list| - 1
    ensures forall k :: 0 <= k < |list| - 1 ==> Without(list, i)[k] == list[if k < i then k else k + 1]
    ensures forall p :: p in Without(list, i) <==> p in list && p != list[i]
  {
    var rest := Without(list, i);
    assert forall k :: 0 <= k < |list| - 1 ==> rest[k] == list[if k < i then k else k + 1];
    forall p | p in list && p != list[i] ensures p in rest {
      var k := IndexOf(list, p);
      assert rest[if k < i then k else k - 1] == p;
    }
  }

  lemma StepGood<P>(s: State<P>, e: Event<P>)
    requires Good(s) && Allowed(s, e)
    ensures Good(Step(s, e))
  {
    match e
    case Add(p, c) =>
    case Exec(p, c) =>
    case Exit(_) => WithoutKeeps(s.list, IndexOf(s.list, s.current));
    case Schedule(c) =>
  }

  // ---------- Runs ----------

  ghost predicate IsRun<P>(idle: P, events: seq<Event<P>>)
    decreases |events|, 0
  {
    events == [] || (IsRun(idle, events[..|events| - 1]) && Good(Run(idle, events[..|events| - 1]))
                     && Allowed(Run(idle, events[..|events| - 1]), events[|events| - 1]))
  }

  ghost function Run<P>(idle: P, events: seq<Event<P>>): State<P>
    requires IsRun(idle, events)
    decreases |events|, 1
  {
    if events == [] then State([], idle, idle, -1, map[idle := 0], false)
    else Step(Run(idle, events[..|events| - 1]), events[|events| - 1])
  }

  /** Who exited in a run, by the name of the current process at the time. */
  ghost function Exited<P>(idle: P, events: seq<Event<P>>): set<P>
    requires IsRun(idle, events)
  {
    if events == [] then {}
    else
      var before := events[..|events| - 1];
      Exited(idle, before) + if events[|events| - 1].Exit? then {Run(idle, before).current} else {}
  }

  /** The status each of them exited with. */
  ghost function Ledger<P>(idle: P, events: seq<Event<P>>): map<P, int>
    requires IsRun(idle, events)
  {
    if events == [] then map[]
    else
      var before, e := events[..|events| - 1], events[|events| - 1];
      if e.Exit? then Ledger(idle, before)[Run(idle, before).current := e.status] else Ledger(idle, before)
  }

  ghost function Added<P>(events: seq<Event<P>>): set<P> {
    if events == [] then {}
    else Added(events[..|events| - 1]) + if events[|events| - 1].Add? then {events[|events| - 1].p} else {}
  }

  /** Whether a new program was installed for the current process since it was last resumed. */
  ghost predicate Installed<P>(idle: P, events: seq<Event<P>>)
    requires IsRun(idle, events)
  {
    events != [] &&
    var before, e := events[..|events| - 1], events[|events| - 1];
    !e.Schedule? && ((e.Exec? && e.p == Run(idle, before).current) || Installed(idle, before))
  }

  /** The context process p has to be resumed with: the one last saved or installed for it. */
  ghost function Due<P>(idle: P, events: seq<Event<P>>, p: P): int
    requires IsRun(idle, events)
  {
    if events == [] then 0
    else
      var before, e := events[..|events| - 1], events[|events| - 1];
      match e
      case Add(q, c) => if p == q then c else Due(idle, before, p)
      case Exec(q, c) => if p == q then c else Due(idle, before, p)
      case Exit(_) => Due(idle, before, p)
      case Schedule(c) => if p == Run(idle, before).current && !Installed(idle, before) then c else Due(idle, before, p)
  }

  /**
    Over every run: the list holds exactly the processes that were added and have not exited, each once; whoever is
    resumed has not exited, and is resumed with the context last saved or installed for it.
   */
  lemma RunsSound<P>(idle: P, events: seq<Event<P>>)
    requires IsRun(idle, events)
    ensures Good(Run(idle, events)) && Run(idle, events).idle == idle
    ensures forall p :: p in Run(idle, events).list <==> p in Added(events) - Exited(idle, events)
    ensures Run(idle, events).context.Keys == Added(events) + {idle} && Exited(idle, events) <= Added(events)
    ensures forall p :: p in Run(idle, events).context ==> Run(idle, events).context[p] == Due(idle, events, p)
    ensures Run(idle, events).changed == Installed(idle, events)
  {
    RunsListed(idle, events);
    RunsContext(idle, events);
  }

  ghost function Members<P>(list: seq<P>): set<P> { set p | p in list }

  ghost predicate Tracks<P>(s: State<P>, idle: P, added: set<P>, exited: set<P>) {
    && Good(s) && s.idle == idle && exited <= added && s.context.Keys == added + {idle}
    && Members(s.list) == added - exited
  }

  lemma {:induction false} RunsListed<P>(idle: P, events: seq<Event<P>>)
    requires IsRun(idle, events)
    ensures Tracks(Run(idle, events), idle, Added(events), Exited(idle, events))
  {
    if events != [] {
      var before, e := events[..|events| - 1], events[|events| - 1];
      RunsListed(idle, before);
      TracksStep(Run(idle, before), e, idle, Added(before), Exited(idle, before));
      hide Tracks, Good, Step, Allowed;
    }
  }

  lemma TracksStep<P>(s: State<P>, e: Event<P>, idle: P, added: set<P>, exited: set<P>)
    requires Tracks(s, idle, added, exited) && Allowed(s, e)
    ensures Tracks(Step(s, e), idle, added + (if e.Add? then {e.p} else {}), exited + (if e.Exit? then {s.current} else {}))
  {
    StepGood(s, e);
    StepEffect(s, e);
    var t := Step(s, e);
    hide Good, Step, Allowed;
    match e
    case Add(q, c) => SameMembers(t.list, Members(s.list) + {q});
    case Exit(_) => SameMembers(t.list, Members(s.list) - {s.current});
    case Exec(q, c) =>
    case Schedule(c) =>
  }

  lemma SameMembers<P>(list: seq<P>, s: set<P>)
    requires forall p :: p in list <==> p in s
    ensures Members(list) == s
  {
  }

  lemma {:induction false} RunsContext<P>(idle: P, events: seq<Event<P>>)
    requires IsRun(idle, events)
    ensures forall p :: p in Run(idle, events).context ==> Run(idle, events).context[p] == Due(idle, events, p)
    ensures Run(idle, events).changed == Installed(idle, events)
  {
    if events != [] {
      var before, e := events[..|events| - 1], events[|events| - 1];
      RunsContext(idle, before);
      var s := Run(idle, before);
      StepEffect(s, e);
      assert Run(idle, events) == Step(s, e);
      hide Good, Step, Allowed;
      forall p | p in Run(idle, events).context ensures Run(idle, events).context[p] == Due(idle, events, p) {
        assert p in s.context ==> s.context[p] == Due(idle, before, p);
      }
    }
  }

  /** What one event does to the list and the contexts. */
  lemma StepEffect<P>(s: State<P>, e: Event<P>)
    requires Good(s) && Allowed(s, e)
    ensures var t := Step(s, e);
      && t.idle == s.idle
      && match e
         case Add(q, c) =>
           && (forall p :: p in t.list <==> p in s.list || p == q) && t.context == s.context[q := c] && t.changed == s.changed && q !in s.context
         case Exec(q, c) =>
           t.list == s.list && t.context == s.context[q := c] && q in s.list && q in s.context && t.changed == (s.changed || q == s.current)
         case Exit(_) =>
           && (forall p :: p in t.list <==> p in s.list && p != s.current) && s.current in s.list && t.context == s.context && t.changed == s.changed
         case Schedule(c) =>
           && t.list == s.list && t.context == (if s.changed then s.context else s.context[s.current := c]) && !t.changed && s.current in s.context
  {
    if e.Exit? { WithoutKeeps(s.list, IndexOf(s.list, s.current)); }
    hide Distinct, IndexOf;
  }

  /** A tick never resumes a process that has exited. */
  lemma ResumesLive<P>(idle: P, events: seq<Event<P>>)
    requires IsRun(idle, events) && Good(Run(idle, events))
    ensures var p := Chosen(Run(idle, events)); p == idle || (p in Added(events) && p !in Exited(idle, events))
    ensures Chosen(Run(idle, events)) == idle <==> Run(idle, events).list == []
  {
    RunsSound(idle, events);
    var s := Run(idle, events);
    hide Run, Added, Exited;
  }

  /** A run goes on by one event. */
  lemma RunOn<P>(idle: P, events: seq<Event<P>>, e: Event<P>)
    requires IsRun(idle, events) && Good(Run(idle, events)) && Allowed(Run(idle, events), e)
    ensures IsRun(idle, events + [e]) && Run(idle, events + [e]) == Step(Run(idle, events), e)
    ensures Ledger(idle, events + [e]) ==
            if e.Exit? then Ledger(idle, events)[Run(idle, events).current := e.status] else Ledger(idle, events)
  {
    hide Good, Allowed, Step;
    assert (events + [e])[..|events|] == events;
  }

  /** Over every run the ledger knows exactly the processes that have exited, and what it once says of one never changes. */
  lemma {:induction false} LedgerFinal<P>(idle: P, events: seq<Event<P>>, n: nat)
    requires IsRun(idle, events) && n <= |events|
    ensures IsRun(idle, events[..n]) && Ledger(idle, events).Keys == Exited(idle, events)
    ensures forall p :: p in Ledger(idle, events[..n]) ==> p in Ledger(idle, events) && Ledger(idle, events)[p] == Ledger(idle, events[..n])[p]
  {
    if events == [] {
      assert events[..n] == events;
    } else {
      var before, e := events[..|events| - 1], events[|events| - 1];
      LedgerFinal(idle, before, if n == |events| then n - 1 else n);
      RunsSound(idle, before);
      if n == |events| {
        assert events[..n] == events;
      } else {
        assert before[..n] == events[..n];
        if e.Exit? {
          assert Run(idle, before).current in Run(idle, before).list;
          assert Run(idle, before).current !in Exited(idle, before);
        }
      }
    }
  }

  // ---------- Waiting ----------

  /** How many ticks the current sweep over the list still takes. */
  function Rest<P(==)>(s: State<P>): int {
    |s.list| - (if NextPlace(s) <= |s.list| then NextPlace(s) else |s.list|)
  }

  /** Process p comes later in the current sweep. */
  predicate Ahead<P(==)>(s: State<P>, p: P) { IndexOf(s.list, p) >= NextPlace(s) }

  /** Ticks until p is chosen if nobody exits: within this sweep, or after it as many as there are in front of p. */
  function Wait<P(==)>(s: State<P>, p: P): int
    requires p in s.list
  {
    if Ahead(s, p) then IndexOf(s.list, p) - NextPlace(s) else Rest(s) + IndexOf(s.list, p)
  }

  /** A tick chooses p or brings it one closer; an exit never takes it further away; an addition by one at most. */
  lemma WaitStep<P>(s: State<P>, e: Event<P>, p: P)
    requires Good(s) && Allowed(s, e) && p in s.list && p in Step(s, e).list
    ensures Wait(s, p) >= 0 && Wait(Step(s, e), p) >= 0
    ensures e.Schedule? ==> if Chosen(s) == p then Wait(s, p) == 0 else Wait(Step(s, e), p) == Wait(s, p) - 1
    ensures e.Exec? ==> Wait(Step(s, e), p) == Wait(s, p)
    ensures e.Exit? ==> Wait(Step(s, e), p) <= Wait(s, p)
    ensures e.Add? ==> Wait(Step(s, e), p) == Wait(s, p) + if Ahead(s, p) then 0 else 1
  {
    var t := Step(s, e);
    StepGood(s, e);
    IndexUnique(s.list, IndexOf(s.list, p));
    match e
    case Add(q, c) => AddPlaces(s, q, c, p);
    case Exec(q, c) =>
    case Exit(status) => ExitPlaces(s, status, p);
    case Schedule(c) => SchedulePlaces(s, c, p);
  }

  lemma AddPlaces<P>(s: State<P>, q: P, c: int, p: P)
    requires Good(s) && Allowed(s, Add(q, c)) && p in s.list
    ensures var t := Step(s, Add(q, c)); Wait(t, p) == Wait(s, p) + (if Ahead(s, p) then 0 else 1) && Wait(s, p) >= 0
  {
    var t := Step(s, Add(q, c));
    StepGood(s, Add(q, c));
    IndexUnique(t.list, IndexOf(s.list, p) + 1);
    if s.current in s.list { IndexUnique(t.list, IndexOf(s.list, s.current) + 1); }
  }

  lemma ExitPlaces<P>(s: State<P>, status: int, p: P)
    requires Good(s) && Allowed(s, Exit(status)) && p in s.list && p in Step(s, Exit(status)).list
    ensures Wait(Step(s, Exit(status)), p) <= Wait(s, p) && Wait(Step(s, Exit(status)), p) >= 0
  {
    var i, k := IndexOf(s.list, s.current), IndexOf(s.list, p);
    WithoutKeeps(s.list, i);
    var t := Step(s, Exit(status));
    hide IndexOf, Distinct;
    assert k != i;
    IndexUnique(t.list, if k < i then k else k - 1);
    assert IndexOf(t.list, p) == if k < i then k else k - 1;
  }

  lemma SchedulePlaces<P>(s: State<P>, c: int, p: P)
    requires Good(s) && p in s.list
    ensures var t := Step(s, Schedule(c));
      && Wait(s, p) >= 0 && Wait(t, p) >= 0
      && (if Chosen(s) == p then Wait(s, p) == 0 else Wait(t, p) == Wait(s, p) - 1)
  {
    var k := NextPlace(s);
    var i := IndexOf(s.list, p);
    if k < |s.list| { IndexUnique(s.list, k); } else { IndexUnique(s.list, 0); }
  }

  function Ticks<P>(events: seq<Event<P>>): nat {
    if events == [] then 0 else Ticks(events[..|events| - 1]) + (if events[|events| - 1].Schedule? then 1 else 0)
  }

  function Adds<P>(events: seq<Event<P>>): nat {
    if events == [] then 0 else Adds(events[..|events| - 1]) + (if events[|events| - 1].Add? then 1 else 0)
  }

  /** A stretch of a run, from a given state, in which p stays listed and is not chosen. */
  ghost predicate Passes<P>(s: State<P>, events: seq<Event<P>>, p: P)
    decreases |events|, 0
  {
    if events == [] then Good(s) && p in s.list
    else
      var before, e := events[..|events| - 1], events[|events| - 1];
      && Passes(s, before, p)
      && var t := Reached(s, before, p); Good(t) && Allowed(t, e) && p in Step(t, e).list && (e.Schedule? ==> Chosen(t) != p)
  }

  ghost function Reached<P>(s: State<P>, events: seq<Event<P>>, p: P): State<P>
    requires Passes(s, events, p)
    decreases |events|, 1
  {
    if events == [] then s else Step(Reached(s, events[..|events| - 1], p), events[|events| - 1])
  }

  /**
    No process that stays listed is passed over for more ticks than the rest of the sweep and one round over the list,
    which grows by what is added meanwhile.
   */
  lemma {:induction false} BoundedWaiting<P>(s: State<P>, events: seq<Event<P>>, p: P)
    requires Passes(s, events, p)
    ensures Good(s) && p in s.list && Good(Reached(s, events, p)) && p in Reached(s, events, p).list
    ensures Ticks(events) + Wait(Reached(s, events, p), p) <= Wait(s, p) + Adds(events)
    ensures Ticks(events) <= Rest(s) + |s.list| + Adds(events)
  {
    if events != [] {
      var before, e := events[..|events| - 1], events[|events| - 1];
      BoundedWaiting(s, before, p);
      var t := Reached(s, before, p);
      StepGood(t, e);
      WaitStep(t, e, p);
    }
    WaitBound(s, p);
    WaitBound(Reached(s, events, p), p);
  }

  lemma WaitBound<P>(s: State<P>, p: P)
    requires Good(s) && p in s.list
    ensures 0 <= Wait(s, p) < Rest(s) + |s.list| && Rest(s) >= 0
  {
  }
}
