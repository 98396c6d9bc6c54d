/**
  The run list as linked process records, kept by the address of the process, and the
  children a process waits for.
 */
module Processes {
  import opened RunQueue

  const NONE: int := -1

  datatype Process = Process(next: int, prev: int, context: int, changed: bool, terminated: bool, pid: int, status: int,
                             parent: int, children: seq<int>)

  const BLANK: Process := Process(NONE, NONE, 0, false, false, 0, 0, NONE, [])

  function At(list: seq<int>, i: int): int {
    if 0 <= i < |list| then list[i] else NONE
  }

  ghost predicate Linked(procs: map<int, Process>, list: seq<int>) {
    forall i :: 0 <= i < |list| ==> list[i] in procs && procs[list[i]].next == At(list, i + 1) && procs[list[i]].prev == At(list, i - 1)
  }

  ghost function Contexts(procs: map<int, Process>): (m: map<int, int>)
    ensures m.Keys == procs.Keys
  {
    map p | p in procs :: procs[p].context
  }

  /** Only the running process can have a context installed that has not been taken yet. */
  ghost predicate Unchanged(procs: map<int, Process>, current: int) {
    forall p :: p in procs && p != current ==> !procs[p].changed
  }

  ghost predicate Terminated(procs: map<int, Process>, list: seq<int>, idle: int) {
    forall p :: p in procs ==> (procs[p].terminated <==> p !in list && p != idle)
  }

  ghost predicate Apart(deleted: set<int>, procs: map<int, Process>, list: seq<int>, current: int, idle: int) {
    deleted <= procs.Keys && current !in deleted && idle !in deleted && forall p :: p in deleted ==> p !in list
  }

  /** The links of the records run through the list. */
  ghost predicate Threaded(procs: map<int, Process>, s: State<int>, first: int) {
    && NONE !in procs && s.current in procs && s.idle in procs && procs[s.idle].next == NONE
    && Linked(procs, s.list) && first == At(s.list, 0) && (s.hole >= 0 ==> procs[s.current].next == At(s.list, s.hole))
  }

  /** The contexts and marks of the records are those of the queue. */
  ghost predicate Marked(procs: map<int, Process>, s: State<int>, deleted: set<int>) {
    && Contexts(procs) == s.context && s.current in procs && procs[s.current].changed == s.changed && Unchanged(procs, s.current)
    && Terminated(procs, s.list, s.idle) && Apart(deleted, procs, s.list, s.current, s.idle)
  }

  /** The records stand for run queue s. */
  ghost predicate Consistent(procs: map<int, Process>, s: State<int>, first: int, deleted: set<int>) {
    Good(s) && Threaded(procs, s, first) && Marked(procs, s, deleted)
  }

  /** Process numbers are unique. */
  ghost predicate Numbered(procs: map<int, Process>, idle: int, nextPid: int) {
    && nextPid >= 0 && (forall p :: p in procs && p != idle ==> 0 <= procs[p].pid < nextPid)
    && (forall p, q :: p in procs && q in procs && p != idle && q != idle && p != q ==> procs[p].pid != procs[q].pid)
  }

  /** Children are processes of this parent that are not deleted, each listed once. */
  ghost predicate Parental(procs: map<int, Process>, deleted: set<int>, idle: int) {
    && (forall p, i :: p in procs && 0 <= i < |procs[p].children| ==> Child(procs, deleted, idle, p, procs[p].children[i]))
    && (forall p :: p in procs ==> Distinct(procs[p].children))
  }

  predicate Child(procs: map<int, Process>, deleted: set<int>, idle: int, p: int, c: int) {
    c in procs && c !in deleted && c != idle && procs[c].parent == p
  }

  /** The queue is what the run so far makes it, and whoever has terminated bears the status the run's ledger says. */
  ghost predicate Recorded(procs: map<int, Process>, s: State<int>, idle: int, history: seq<Event<int>>) {
    && IsRun(idle, history) && Run(idle, history) == s
    && forall p :: p in procs && procs[p].terminated ==> p in Ledger(idle, history) && procs[p].status == Ledger(idle, history)[p]
  }

  /** Who has terminated keeps the status; who exits now gets the one given. */
  ghost predicate StatusesKept(procs: map<int, Process>, s: State<int>, e: Event<int>, after: map<int, Process>) {
    forall p :: p in after && after[p].terminated ==>
      if e.Exit? && p == s.current then after[p].status == e.status
      else p in procs && procs[p].terminated && after[p].status == procs[p].status
  }

  lemma RecordedSame(procs: map<int, Process>, s: State<int>, idle: int, history: seq<Event<int>>, after: map<int, Process>)
    requires Recorded(procs, s, idle, history) && after.Keys == procs.Keys
    requires forall p :: p in procs ==> after[p].terminated == procs[p].terminated && after[p].status == procs[p].status
    ensures Recorded(after, s, idle, history)
  {
    hide IsRun, Run, Ledger;
  }

  lemma ReapedStatus(procs: map<int, Process>, s: State<int>, idle: int, history: seq<Event<int>>, c: int)
    requires Recorded(procs, s, idle, history) && c in procs && procs[c].terminated
    ensures IsRun(idle, history) && c in Ledger(idle, history) && procs[c].status == Ledger(idle, history)[c]
  {
  }

  lemma ExitedStatuses(procs: map<int, Process>, s: State<int>, status: int, after: map<int, Process>)
    requires OnlyExited(procs, s.current, status, after)
    ensures StatusesKept(procs, s, RunQueue.Exit(status), after)
  {
  }

  lemma RecordedStep(procs: map<int, Process>, s: State<int>, idle: int, history: seq<Event<int>>, e: Event<int>, after: map<int, Process>)
    requires Recorded(procs, s, idle, history) && Good(s) && Allowed(s, e) && StatusesKept(procs, s, e, after)
    ensures Recorded(after, Step(s, e), idle, history + [e])
  {
    hide Good, Allowed, Step, IsRun, Run, Ledger;
    RunOn(idle, history, e);
  }

  class Scheduler {
    /** All processes there ever were. */
    var procs: map<int, Process>
    var firstProcess: int
    var current: int
    const idle: int
    var nextPid: int
    ghost var list: seq<int>
    ghost var hole: int
    ghost var deleted: set<int>
    /** What has happened since the scheduler was set up. */
    ghost var history: seq<Event<int>>

    /** The run queue this stands for. */
    ghost function Queue(): State<int>
      reads this
    {
      State(list, current, idle, hole, Contexts(procs), current in procs && procs[current].changed)
    }

    ghost predicate Valid()
      reads this
    {
      && Consistent(procs, Queue(), firstProcess, deleted)
      && Numbered(procs, idle, nextPid) && Parental(procs, deleted, idle) && Recorded(procs, Queue(), idle, history)
    }

    /** Process::initialize: only the idle process. */
    constructor (idle: int)
      requires idle != NONE
      ensures Valid() && Queue() == State([], idle, idle, -1, map[idle := 0], false) && this.idle == idle && deleted == {} && history == []
    {
      this.idle, current, firstProcess, nextPid, procs := idle, idle, NONE, 0, map[idle := BLANK];
      list, hole, deleted, history := [], -1, {}, [];
    }

    /** addProcess: a new process at the head of the list. */
    method AddProcess(p: int, record: Process)
      requires Valid() && hole < 0 && p !in procs && p != NONE && !record.terminated && !record.changed && record.children == [] && record.prev == NONE
      modifies this`procs, this`firstProcess, this`nextPid, this`list, this`history
      ensures Valid() && Queue() == Step(old(Queue()), Add(p, record.context)) && history == old(history) + [Add(p, record.context)]
      ensures nextPid == old(nextPid) + 1 && procs.Keys == old(procs.Keys) + {p} && procs[p].pid == old(nextPid) && procs[p].parent == record.parent
      ensures forall q :: q in old(procs) ==> procs[q] == old(procs[q]).(prev := procs[q].prev)
      ensures procs[p] == record.(pid := old(nextPid), next := old(firstProcess))
    {
      hide Consistent, Step, Good, Numbered, Parental, Recorded;
      ghost var before := Queue();
      AddConsistent(procs, before, firstProcess, deleted, nextPid, p, record, idle);
      var added := record.(pid := nextPid, next := firstProcess);
      procs, nextPid := procs[p := added], nextPid + 1;
      if firstProcess != NONE {
        procs := procs[firstProcess := procs[firstProcess].(prev := p)];
      }
      firstProcess := p;
      list := [p] + list;
      RecordedStep(old(procs), before, idle, history, Add(p, record.context), procs);
      history := history + [Add(p, record.context)];
    }

    /** schedule: saves the context unless a new one was installed, and takes the next process of the list. */
    method Schedule(context: int) returns (resumed: int)
      requires Valid()
      modifies this`procs, this`current, this`hole, this`history
      ensures Valid() && Queue() == Step(old(Queue()), RunQueue.Schedule(context)) && history == old(history) + [RunQueue.Schedule(context)]
      ensures current == Chosen(old(Queue())) && current in procs && resumed == procs[current].context
      ensures !procs[current].terminated && current !in deleted
      // of all records only the saved context and the mark of the one that was running change
      ensures old(current) in old(procs)
      ensures var record := old(procs[current]);
        procs == old(procs)[old(current) := record.(context := if record.changed then record.context else context, changed := false)]
    {
      hide Consistent, Step, Good, Chosen, Numbered, Parental, Recorded;
      ghost var before := Queue();
      ScheduleConsistent(procs, before, firstProcess, deleted, context);
      ghost var was := procs;
      if !procs[current].changed {
        procs := procs[current := procs[current].(context := context)];
      } else {
        procs := procs[current := procs[current].(changed := false)];
      }
      if procs[current].next != NONE {
        current := procs[current].next;
      } else if firstProcess != NONE {
        current := firstProcess;
      } else {
        current := idle;
      }
      hole := -1;
      FamiliesSame(was, deleted, idle, nextPid, procs);
      RecordedStep(was, before, idle, history, RunQueue.Schedule(context), procs);
      history := history + [RunQueue.Schedule(context)];
      resumed := procs[current].context;
    }

    /** The end of execute: a new program's context, which for the running process the next tick must not overwrite. */
    method Execute(p: int, context: int)
      requires Valid() && hole < 0 && p in list
      modifies this`procs, this`history
      ensures Valid() && Queue() == Step(old(Queue()), Exec(p, context)) && history == old(history) + [Exec(p, context)]
      ensures p in old(procs)
      ensures procs == old(procs)[p := old(procs[p]).(context := context, changed := old(procs[p]).changed || p == current)]
    {
      hide Consistent, Step, Good, Numbered, Parental, Recorded;
      ghost var before := Queue();
      ExecConsistent(procs, Queue(), firstProcess, deleted, p, context);
      ghost var was := procs;
      if p == current {
        procs := procs[p := procs[p].(changed := true)];
      }
      procs := procs[p := procs[p].(context := context)];
      assert procs == Executed(was, current, p, context);
      FamiliesSame(was, deleted, idle, nextPid, procs);
      RecordedStep(was, before, idle, history, Exec(p, context), procs);
      history := history + [Exec(p, context)];
    }

    /** exit of the running process: it leaves the list but stays current until the next tick. */
    method Exit(status: int)
      requires Valid() && hole < 0 && current in list
      modifies this`procs, this`firstProcess, this`list, this`hole, this`history
      ensures Valid() && Queue() == Step(old(Queue()), RunQueue.Exit(status)) && history == old(history) + [RunQueue.Exit(status)]
      // apart from the links that lead around the process only its end and its status are new
      ensures OnlyExited(old(procs), current, status, procs)
    {
      hide Consistent, Step, Good, Without, Numbered, Parental, Recorded, OnlyExited, Contexts;
      ExitSound(procs, Queue(), firstProcess, deleted, idle, nextPid, history, status);
      ghost var was := procs;
      ghost var i := IndexOf(list, current);
      var record := procs[current];
      if record.next != NONE {
        procs := procs[record.next := procs[record.next].(prev := record.prev)];
      }
      if record.prev != NONE {
        procs := procs[record.prev := procs[record.prev].(next := record.next)];
      }
      if current == firstProcess {
        firstProcess := record.next;
      }
      procs := procs[current := procs[current].(terminated := true, status := status)];
      assert procs == Detached(was, current, status);
      list, hole, history := Without(list, i), i, history + [RunQueue.Exit(status)];
    }

    /** regfork: a child of the running process, with the given registers, at the head of the list. */
    method Fork(child: int, registers: int)
      requires Valid() && hole < 0 && current in list && child !in procs && child != NONE
      modifies this`procs, this`firstProcess, this`nextPid, this`list, this`history
      ensures Valid() && Queue() == Step(old(Queue()), Add(child, registers)) && history == old(history) + [Add(child, registers)]
      ensures current in procs && child in procs && procs[child].parent == current && procs[child].pid == old(nextPid)
      ensures current in old(procs) && procs[current].children == old(procs[current]).children + [child]
      ensures procs.Keys == old(procs).Keys + {child} && nextPid == old(nextPid) + 1
      ensures procs[child] == Process(old(firstProcess), NONE, registers, false, false, old(nextPid), 0, current, [])
      ensures forall p :: p in old(procs) ==>
        procs[p] == old(procs[p]).(prev := procs[p].prev, children := if p == current then old(procs[p]).children + [child] else old(procs[p]).children)
    {
      hide Consistent, Step, Good, Numbered, Parental, Contexts, Recorded;
      CurrentKnown(procs, Queue(), firstProcess, deleted);
      ghost var before := procs;
      AddProcess(child, BLANK.(parent := current, context := registers));
      ghost var added, queue := procs, Queue();
      // the entry among the children; the source makes it before the process joins the list
      procs := procs[current := procs[current].(children := procs[current].children + [child])];
      ChildrenIgnored(added, queue, firstProcess, deleted, procs);
      ChildAdded(before, added, deleted, idle, nextPid, current, child, procs);
      RecordedSame(added, queue, idle, history, procs);
    }

    /** waitpid with the deletion that follows it: NONE without such a child, `waits` while the child runs. */
    method Waitpid(pid: int) returns (result: int, status: int, waits: bool)
      requires Valid() && hole < 0 && current in list
      modifies this`procs, this`deleted
      ensures Valid() && Queue() == old(Queue()) && current in procs && current in old(procs)
      ensures waits ==> result == NONE && procs == old(procs) && deleted == old(deleted)
      ensures waits ==> exists c :: c in procs[current].children && c in procs && procs[c].pid == pid && !procs[c].terminated
      ensures !waits && result == NONE ==> procs == old(procs) && deleted == old(deleted)
      ensures !waits && result == NONE ==> forall c :: c in procs[current].children ==> c in procs && procs[c].pid != pid
      ensures result != NONE ==> result in old(procs[current].children) && result in procs && procs[result].pid == pid && procs[result].terminated
      ensures result != NONE ==> result !in old(deleted) && deleted == old(deleted) + {result} && result !in list && result != current
      ensures result != NONE ==> forall c :: c in procs[current].children <==> c in old(procs[current].children) && c != result
      ensures procs == old(procs)[current := old(procs[current]).(children := procs[current].children)]
      // over the whole run: the status is the one the child exited with
      ensures IsRun(idle, history)
      ensures result != NONE ==> result in Ledger(idle, history) && status == procs[result].status == Ledger(idle, history)[result]
    {
      hide Step, Good, Numbered, Linked, Contexts, Unchanged, IsRun, Run, Ledger;
      CurrentKnown(procs, Queue(), firstProcess, deleted);
      var children := procs[current].children;
      result, status, waits := NONE, 0, false;
      for i := 0 to |children|
        invariant forall k :: 0 <= k < i ==> children[k] in procs && procs[children[k]].pid != pid
      {
        var c := children[i];
        assert Child(procs, deleted, idle, current, c);
        if procs[c].pid == pid {
          if !procs[c].terminated {
            waits := true;
            assert c in procs[current].children;
            return;
          }
          ghost var before := procs;
          var last := children[|children| - 1];
          var fewer := (if i < |children| - 1 then children[i := last] else children)[..|children| - 1];
          FewerChildren(children, i, fewer);
          procs := procs[current := procs[current].(children := fewer)];
          hide Consistent, Parental, Recorded;
          RecordedSame(before, old(Queue()), idle, history, procs);
          ReapedStatus(before, old(Queue()), idle, history, c);
          ChildrenIgnored(before, old(Queue()), firstProcess, deleted, procs);
          ChildReaped(before, old(Queue()), firstProcess, deleted, nextPid, c, fewer, procs);
          deleted := deleted + {c};
          result, status := c, procs[c].status;
          return;
        }
      }
    }
  }

  // ---------- What the operations do to the records ----------

  function Added(procs: map<int, Process>, first: int, nextPid: int, p: int, record: Process): map<int, Process>
    requires first != NONE ==> first in procs || first == p
  {
    var more := procs[p := record.(pid := nextPid, next := first)];
    if first != NONE then more[first := more[first].(prev := p)] else more
  }

  lemma AddConsistent(procs: map<int, Process>, s: State<int>, first: int, deleted: set<int>, nextPid: int, p: int, record: Process, idle: int)
    requires Consistent(procs, s, first, deleted) && s.hole < 0 && Numbered(procs, idle, nextPid) && Parental(procs, deleted, idle) && idle == s.idle
    requires p !in procs && p != NONE && !record.terminated && !record.changed && record.children == [] && record.prev == NONE
    ensures first != NONE ==> first in procs
    ensures Good(s) && Allowed(s, Add(p, record.context))
    ensures var t, after := Step(s, Add(p, record.context)), Added(procs, first, nextPid, p, record);
      && Consistent(after, t, p, deleted) && Numbered(after, idle, nextPid + 1) && Parental(after, deleted, idle)
      && t == State([p] + s.list, s.current, s.idle, s.hole, Contexts(after), s.changed)
      && s.current in procs && after[s.current].changed == s.changed
  {
    var t, after := Step(s, Add(p, record.context)), Added(procs, first, nextPid, p, record);
    StepGood(s, Add(p, record.context));
    GoodParts(s);
    FirstKnown(procs, s, first);
    hide Good, Threaded, Marked, Contexts, Numbered, Parental;
    AddThreaded(procs, s, first, nextPid, p, record);
    AddMarked(procs, s, deleted, first, nextPid, p, record);
    FamiliesMore(procs, deleted, idle, nextPid, after, p);
  }

  lemma GoodParts(s: State<int>)
    requires Good(s)
    ensures s.current in s.context && s.idle in s.context && s.idle !in s.list && Distinct(s.list) && forall p :: p in s.list ==> p in s.context
    ensures s.hole < 0 ==> s.current == s.idle || s.current in s.list
    ensures s.current == s.idle || s.hole >= 0 || s.current in s.list
  {
  }

  lemma FirstKnown(procs: map<int, Process>, s: State<int>, first: int)
    requires Threaded(procs, s, first)
    ensures first == At(s.list, 0) && (s.list != [] ==> first in procs) && (s.list == [] ==> first == NONE) && NONE !in procs
  {
  }

  lemma AddThreaded(procs: map<int, Process>, s: State<int>, first: int, nextPid: int, p: int, record: Process)
    requires Threaded(procs, s, first) && Distinct(s.list) && s.idle !in s.list && s.hole < 0 && (first != NONE ==> first in procs)
    requires p !in procs && p != NONE && record.prev == NONE
    ensures var after := Added(procs, first, nextPid, p, record);
            Threaded(after, State([p] + s.list, s.current, s.idle, s.hole, s.context[p := record.context], s.changed), p)
  {
    LinkedMore(procs, s.list, Added(procs, first, nextPid, p, record), p);
    hide Linked;
  }

  lemma AddMarked(procs: map<int, Process>, s: State<int>, deleted: set<int>, first: int, nextPid: int, p: int, record: Process)
    requires Marked(procs, s, deleted) && (first != NONE ==> first in procs) && s.idle in procs
    requires p !in procs && p != NONE && !record.terminated && !record.changed
    ensures var after := Added(procs, first, nextPid, p, record);
            && Contexts(after) == s.context[p := record.context] && s.current in procs && after[s.current].changed == s.changed
            && Marked(after, State([p] + s.list, s.current, s.idle, s.hole, s.context[p := record.context], s.changed), deleted)
  {
    var after := Added(procs, first, nextPid, p, record);
    assert Contexts(after) == s.context[p := record.context];
  }

  lemma LinkedMore(procs: map<int, Process>, list: seq<int>, after: map<int, Process>, p: int)
    requires Linked(procs, list) && Distinct(list) && p !in procs && p in after && after[p].next == At(list, 0) && after[p].prev == NONE
    requires forall q :: q in procs ==> q in after && after[q] == if q == At(list, 0) then procs[q].(prev := p) else procs[q]
    ensures Linked(after, [p] + list)
  {
    var more := [p] + list;
    forall i | 0 <= i < |more| ensures more[i] in after && after[more[i]].next == At(more, i + 1) && after[more[i]].prev == At(more, i - 1) {
      if i > 0 {
        assert more[i] == list[i - 1] && list[i - 1] in procs;
        assert i > 1 ==> list[i - 1] != list[0];
      }
    }
  }

  lemma FamiliesMore(procs: map<int, Process>, deleted: set<int>, idle: int, nextPid: int, after: map<int, Process>, p: int)
    requires Numbered(procs, idle, nextPid) && Parental(procs, deleted, idle) && p !in procs && after.Keys == procs.Keys + {p}
    requires after[p].pid == nextPid && after[p].children == [] && (forall q :: q in procs ==> after[q] == procs[q].(prev := after[q].prev))
    ensures Numbered(after, idle, nextPid + 1) && Parental(after, deleted, idle)
  {
    assert Numbered(after, idle, nextPid + 1);
    hide Numbered, Distinct;
    forall q, i | q in after && 0 <= i < |after[q].children| ensures Child(after, deleted, idle, q, after[q].children[i]) {
      assert Child(procs, deleted, idle, q, procs[q].children[i]);
    }
  }

  function Saved(procs: map<int, Process>, current: int, context: int): map<int, Process>
    requires current in procs
  {
    if !procs[current].changed then procs[current := procs[current].(context := context)]
    else procs[current := procs[current].(changed := false)]
  }

  lemma ScheduleConsistent(procs: map<int, Process>, s: State<int>, first: int, deleted: set<int>, context: int)
    requires Consistent(procs, s, first, deleted)
    ensures Good(s) && s.current in procs && s.changed == procs[s.current].changed
    ensures Chosen(s) == if procs[s.current].next != NONE then procs[s.current].next else if first != NONE then first else s.idle
    ensures Chosen(s) in procs && !procs[Chosen(s)].terminated && Chosen(s) !in deleted
    ensures var t, after := Step(s, Schedule(context)), Saved(procs, s.current, context);
      && Consistent(after, t, first, deleted)
      && t == State(s.list, Chosen(s), s.idle, -1, Contexts(after), false) && !after[Chosen(s)].changed
  {
    StepGood(s, Schedule(context));
    GoodParts(s);
    ChosenLink(procs, s, first);
    var t, after := Step(s, Schedule(context)), Saved(procs, s.current, context);
    hide Good, Chosen, Linked, Contexts, Distinct, IndexOf, NextPlace, Threaded;
    SavedMarked(procs, s, deleted, context, Chosen(s));
    SavedThreaded(procs, s, first, context, Chosen(s));
    hide Marked;
  }

  lemma SavedThreaded(procs: map<int, Process>, s: State<int>, first: int, context: int, p: int)
    requires Threaded(procs, s, first) && p in procs
    ensures s.current in procs
    ensures var after := Saved(procs, s.current, context); Threaded(after, State(s.list, p, s.idle, -1, Contexts(after), false), first)
  {
    LinkedSame(procs, s.list, Saved(procs, s.current, context));
    hide Linked;
  }

  lemma SavedMarked(procs: map<int, Process>, s: State<int>, deleted: set<int>, context: int, p: int)
    requires Marked(procs, s, deleted) && (p in s.list || p == s.idle) && (forall q :: q in s.list ==> q in s.context) && s.idle in s.context
    ensures s.current in procs && p in procs && !procs[p].terminated && p !in deleted
    ensures var after := Saved(procs, s.current, context);
      && Contexts(after) == (if s.changed then s.context else s.context[s.current := context]) && !after[p].changed
      && Marked(after, State(s.list, p, s.idle, -1, Contexts(after), false), deleted)
  {
    var after := Saved(procs, s.current, context);
    assert Contexts(after) == if s.changed then s.context else s.context[s.current := context];
  }

  /** The current process's link, or else the head of the list, or else the idle process. */
  lemma ChosenLink(procs: map<int, Process>, s: State<int>, first: int)
    requires Good(s) && Threaded(procs, s, first)
    ensures Chosen(s) == if procs[s.current].next != NONE then procs[s.current].next else if first != NONE then first else s.idle
    ensures Chosen(s) in s.list || Chosen(s) == s.idle
  {
    if s.current in s.list { LinkAt(procs, s.list, s.current); }
    if s.list != [] { LinkAt(procs, s.list, s.list[0]); }
    AtListed(procs, s.list);
    hide Linked, IndexOf, Distinct;
  }

  lemma LinkAt(procs: map<int, Process>, list: seq<int>, p: int)
    requires Linked(procs, list) && p in list
    ensures p in procs && procs[p].next == At(list, IndexOf(list, p) + 1) && procs[p].prev == At(list, IndexOf(list, p) - 1)
  {
    var i := IndexOf(list, p);
    assert list[i] == p;
  }

  lemma AtListed(procs: map<int, Process>, list: seq<int>)
    requires Linked(procs, list) && NONE !in procs
    ensures forall i :: 0 <= i < |list| ==> At(list, i) == list[i] != NONE && list[i] in list
  {
  }

  lemma LinkedSame(procs: map<int, Process>, list: seq<int>, after: map<int, Process>)
    requires Linked(procs, list)
    requires forall p :: p in procs ==> p in after && after[p].next == procs[p].next && after[p].prev == procs[p].prev
    ensures Linked(after, list)
  {
    forall i | 0 <= i < |list| ensures list[i] in after && after[list[i]].next == At(list, i + 1) && after[list[i]].prev == At(list, i - 1) {
      var p := list[i];
      assert p in procs;
    }
  }

  lemma FamiliesSame(procs: map<int, Process>, deleted: set<int>, idle: int, nextPid: int, after: map<int, Process>)
    requires Numbered(procs, idle, nextPid) && Parental(procs, deleted, idle) && after.Keys == procs.Keys
    requires forall p :: p in procs ==> after[p].pid == procs[p].pid && after[p].children == procs[p].children && after[p].parent == procs[p].parent
    ensures Numbered(after, idle, nextPid) && Parental(after, deleted, idle)
  {
    assert Numbered(after, idle, nextPid) by { hide Parental; }
    hide Numbered, Distinct;
    forall q, i | q in after && 0 <= i < |after[q].children| ensures Child(after, deleted, idle, q, after[q].children[i]) {
      assert Child(procs, deleted, idle, q, procs[q].children[i]);
    }
  }

  /** The records after execute. */
  function Executed(procs: map<int, Process>, current: int, p: int, context: int): map<int, Process>
    requires p in procs
  {
    procs[p := procs[p].(changed := procs[p].changed || p == current, context := context)]
  }

  lemma ExecConsistent(procs: map<int, Process>, s: State<int>, first: int, deleted: set<int>, p: int, context: int)
    requires Consistent(procs, s, first, deleted) && s.hole < 0 && p in s.list
    ensures Good(s) && p in procs && s.current in procs && Allowed(s, Exec(p, context))
    ensures var after := Executed(procs, s.current, p, context);
      && Consistent(after, Step(s, Exec(p, context)), first, deleted)
      && Step(s, Exec(p, context)) == State(s.list, s.current, s.idle, s.hole, Contexts(after), after[s.current].changed)
  {
    StepGood(s, Exec(p, context));
    ListedRecord(procs, s.list, p);
    hide Good;
    ExecMarked(procs, s, deleted, p, context);
    var after := Executed(procs, s.current, p, context);
    LinkedSame(procs, s.list, after);
    hide Linked, Contexts, Marked;
  }

  lemma ListedRecord(procs: map<int, Process>, list: seq<int>, p: int)
    requires Linked(procs, list) && p in list
    ensures p in procs
  {
  }

  lemma ExecMarked(procs: map<int, Process>, s: State<int>, deleted: set<int>, p: int, context: int)
    requires Marked(procs, s, deleted) && p in procs
    ensures s.current in procs
    ensures var after := Executed(procs, s.current, p, context);
      && Contexts(after) == s.context[p := context] && after[s.current].changed == (s.changed || p == s.current)
      && Marked(after, State(s.list, s.current, s.idle, s.hole, Contexts(after), after[s.current].changed), deleted)
  {
    var after := Executed(procs, s.current, p, context);
    assert Contexts(after) == s.context[p := context];
  }

  lemma ExitSound(procs: map<int, Process>, s: State<int>, first: int, deleted: set<int>, idle: int, nextPid: int, history: seq<Event<int>>, status: int)
    requires Consistent(procs, s, first, deleted) && s.hole < 0 && s.current in s.list && idle == s.idle
    requires Numbered(procs, idle, nextPid) && Parental(procs, deleted, idle) && Recorded(procs, s, idle, history)
    ensures Good(s) && Allowed(s, RunQueue.Exit(status)) && 0 <= IndexOf(s.list, s.current) < |s.list|
    ensures s.current in procs && (procs[s.current].next in procs || procs[s.current].next == NONE)
    ensures procs[s.current].prev in procs || procs[s.current].prev == NONE
    ensures var t, after, i := Step(s, RunQueue.Exit(status)), Detached(procs, s.current, status), IndexOf(s.list, s.current);
      && t == State(Without(s.list, i), s.current, s.idle, i, Contexts(after), s.changed) && s.current in after && after[s.current].changed == s.changed
      && Consistent(after, t, if s.current == first then procs[s.current].next else first, deleted)
      && Numbered(after, idle, nextPid) && Parental(after, deleted, idle)
      && Recorded(after, t, idle, history + [RunQueue.Exit(status)]) && OnlyExited(procs, s.current, status, after)
  {
    hide Consistent, Step, Good, Without, Numbered, Parental, Recorded, Contexts, OnlyExited;
    ExitConsistent(procs, s, first, deleted, status);
    var after := Detached(procs, s.current, status);
    FamiliesSame(procs, deleted, idle, nextPid, after);
    ExitedStatuses(procs, s, status, after);
    RecordedStep(procs, s, idle, history, RunQueue.Exit(status), after);
  }

  /** The records after exit: the neighbours joined, the process marked. */
  function Detached(procs: map<int, Process>, current: int, status: int): map<int, Process>
    requires current in procs && (procs[current].next in procs || procs[current].next == NONE)
    requires (procs[current].prev in procs || procs[current].prev == NONE)
  {
    var record := procs[current];
    var one := if record.next != NONE then procs[record.next := procs[record.next].(prev := record.prev)] else procs;
    var two := if record.prev != NONE then one[record.prev := one[record.prev].(next := record.next)] else one;
    two[current := two[current].(terminated := true, status := status)]
  }

  lemma ExitConsistent(procs: map<int, Process>, s: State<int>, first: int, deleted: set<int>, status: int)
    requires Consistent(procs, s, first, deleted) && s.hole < 0 && s.current in s.list
    ensures Good(s) && Allowed(s, RunQueue.Exit(status)) && 0 <= IndexOf(s.list, s.current) < |s.list|
    ensures s.current in procs && (procs[s.current].next in procs || procs[s.current].next == NONE)
    ensures procs[s.current].prev in procs || procs[s.current].prev == NONE
    ensures var t, after, i := Step(s, RunQueue.Exit(status)), Detached(procs, s.current, status), IndexOf(s.list, s.current);
      && Consistent(after, t, if s.current == first then procs[s.current].next else first, deleted)
      && t == State(Without(s.list, i), s.current, s.idle, i, Contexts(after), s.changed) && after[s.current].changed == s.changed
    ensures SameFamilies(procs, Detached(procs, s.current, status)) && OnlyExited(procs, s.current, status, Detached(procs, s.current, status))
  {
    StepGood(s, RunQueue.Exit(status));
    GoodParts(s);
    var i := IndexOf(s.list, s.current);
    var t, after := Step(s, RunQueue.Exit(status)), Detached(procs, s.current, status);
    FirstIndex(s.list, i);
    assert s.list[i] == s.current;
    hide Good, IndexOf;
    DetachedRecords(procs, s, first, i, status);
    hide Detached;
    DetachedOnly(procs, s.list, i, status, after);
    ExitThreaded(procs, s, first, i, after, status);
    ExitMarked(procs, s, deleted, i, after, status);
  }

  /** Apart from links, an exit changes the end and the status of one record. */
  ghost predicate OnlyExited(procs: map<int, Process>, current: int, status: int, after: map<int, Process>) {
    && after.Keys == procs.Keys && current in after && after[current].terminated && after[current].status == status
    && forall p :: p in procs ==>
      after[p] == procs[p].(prev := after[p].prev, next := after[p].next, terminated := procs[p].terminated || p == current,
                            status := if p == current then status else procs[p].status)
  }

  lemma FirstIndex(list: seq<int>, i: int)
    requires 0 <= i < |list| && Distinct(list)
    ensures i == 0 <==> list[i] == list[0]
  {
  }

  lemma ExitThreaded(procs: map<int, Process>, s: State<int>, first: int, i: int, after: map<int, Process>, status: int)
    requires Threaded(procs, s, first) && Distinct(s.list) && 0 <= i < |s.list| && s.list[i] == s.current && s.idle !in s.list
    requires (i == 0 <==> s.list[i] == s.list[0]) && DetachedTo(procs, s.list, i, status, after)
    ensures procs[s.current].next == At(s.list, i + 1)
    ensures Threaded(after, State(Without(s.list, i), s.current, s.idle, i, s.context, s.changed), if s.current == first then procs[s.current].next else first)
  {
    NeighboursOf(procs, s.list, i);
    assert Spliced(procs, s.list, i, after);
    assert s.idle != At(s.list, i - 1);
    assert after[s.idle].next == NONE;
    hide DetachedTo, AfterExit;
    LinkedLess(procs, s.list, i, after);
    hide Linked, Distinct, Without, Spliced;
  }

  lemma ExitMarked(procs: map<int, Process>, s: State<int>, deleted: set<int>, i: int, after: map<int, Process>, status: int)
    requires Marked(procs, s, deleted) && Distinct(s.list) && 0 <= i < |s.list| && s.list[i] == s.current && s.current != s.idle
    requires DetachedTo(procs, s.list, i, status, after)
    ensures Contexts(after) == s.context && after[s.current].changed == s.changed
    ensures Marked(after, State(Without(s.list, i), s.current, s.idle, i, s.context, s.changed), deleted)
  {
    WithoutKeeps(s.list, i);
    hide Without, Distinct;
    forall q | q in procs
      ensures after[q].context == procs[q].context && after[q].changed == procs[q].changed
      ensures after[q].terminated == (procs[q].terminated || q == s.list[i])
    {
      assert after[q] == AfterExit(procs[q], q, s.list, i, status);
    }
    assert after.Keys == procs.Keys;
    hide AfterExit, DetachedTo;
    assert Contexts(after) == s.context;
  }

  /** Only pids, children and parents matter to families, and they are as before. */
  ghost predicate SameFamilies(procs: map<int, Process>, after: map<int, Process>) {
    && after.Keys == procs.Keys
    && (forall p :: p in procs ==> after[p].pid == procs[p].pid && after[p].children == procs[p].children && after[p].parent == procs[p].parent)
  }

  /** The record of process q after process i of the list has left. */
  function AfterExit(record: Process, q: int, list: seq<int>, i: int, status: int): Process
    requires 0 <= i < |list|
  {
    record.(prev := if q == At(list, i + 1) then At(list, i - 1) else record.prev,
            next := if q == At(list, i - 1) then At(list, i + 1) else record.next,
            terminated := record.terminated || q == list[i], status := if q == list[i] then status else record.status)
  }

  /** The records before and after exit. */
  ghost predicate DetachedTo(procs: map<int, Process>, list: seq<int>, i: int, status: int, after: map<int, Process>)
    requires 0 <= i < |list|
  {
    && after.Keys == procs.Keys
    && (forall q :: q in procs ==> after[q] == AfterExit(procs[q], q, list, i, status))
  }

  lemma DetachedOnly(procs: map<int, Process>, list: seq<int>, i: int, status: int, after: map<int, Process>)
    requires 0 <= i < |list| && list[i] in procs && DetachedTo(procs, list, i, status, after)
    ensures OnlyExited(procs, list[i], status, after)
  {
    hide At;
  }

  lemma NeighboursOf(procs: map<int, Process>, list: seq<int>, i: int)
    requires Linked(procs, list) && Distinct(list) && 0 <= i < |list|
    ensures procs[list[i]].next == At(list, i + 1) && procs[list[i]].prev == At(list, i - 1)
    ensures i + 1 < |list| ==> list[i + 1] in procs && list[i + 1] != list[i]
    ensures i > 0 ==> list[i - 1] in procs && list[i - 1] != list[i]
    ensures 0 < i < |list| - 1 ==> list[i - 1] != list[i + 1]
  {
  }

  lemma DetachedRecords(procs: map<int, Process>, s: State<int>, first: int, i: int, status: int)
    requires Threaded(procs, s, first) && Distinct(s.list) && 0 <= i < |s.list|
    ensures var p, next, prev := s.list[i], At(s.list, i + 1), At(s.list, i - 1);
      && p in procs && procs[p].next == next && procs[p].prev == prev && (next in procs || next == NONE) && (prev in procs || prev == NONE)
      && DetachedTo(procs, s.list, i, status, Detached(procs, p, status)) && SameFamilies(procs, Detached(procs, p, status))
  {
    NeighboursOf(procs, s.list, i);
    var p, next, prev := s.list[i], At(s.list, i + 1), At(s.list, i - 1);
    assert NONE !in procs && next != p && prev != p && (next != NONE ==> next != prev);
    hide Linked, Distinct, Threaded;
    forall q | q in procs ensures Detached(procs, p, status)[q] == AfterExit(procs[q], q, s.list, i, status) {
      DetachedAt(procs, p, next, prev, status, q);
    }
    hide Detached, At;
  }

  lemma DetachedAt(procs: map<int, Process>, p: int, next: int, prev: int, status: int, q: int)
    requires p in procs && q in procs && NONE !in procs && procs[p].next == next && procs[p].prev == prev
    requires (next in procs || next == NONE) && (prev in procs || prev == NONE) && next != p && prev != p && (next != NONE ==> next != prev)
    ensures Detached(procs, p, status).Keys == procs.Keys
    ensures Detached(procs, p, status)[q] ==
            procs[q].(prev := if q == next then prev else procs[q].prev, next := if q == prev then next else procs[q].next,
                      terminated := procs[q].terminated || q == p, status := if q == p then status else procs[q].status)
  {
  }

  /** The neighbours of process i point to each other: the list without it is linked. */
  lemma LinkedLess(procs: map<int, Process>, list: seq<int>, i: int, after: map<int, Process>)
    requires Linked(procs, list) && Distinct(list) && 0 <= i < |list| && Spliced(procs, list, i, after)
    ensures Linked(after, Without(list, i)) && list[i] in after && after[list[i]].next == At(Without(list, i), i)
    ensures At(Without(list, i), 0) == if i == 0 then At(list, 1) else At(list, 0)
  {
    hide Linked, Distinct, Spliced, Without, At;
    WithoutAt(list, i);
    MemberLinks(procs, list, i, after, i);
    var rest := Without(list, i);
    forall k | 0 <= k < |rest|
      ensures rest[k] in after && after[rest[k]].next == At(rest, k + 1) && after[rest[k]].prev == At(rest, k - 1)
    {
      var j := if k < i then k else k + 1;
      MemberLinks(procs, list, i, after, j);
      assert rest[k] == list[j];
      WithoutPlace(list, i, k + 1);
      WithoutPlace(list, i, k - 1);
    }
    WithoutPlace(list, i, i);
    WithoutPlace(list, i, 0);
    IsLinked(after, rest);
  }

  lemma IsLinked(procs: map<int, Process>, list: seq<int>)
    requires forall k :: 0 <= k < |list| ==> list[k] in procs && procs[list[k]].next == At(list, k + 1) && procs[list[k]].prev == At(list, k - 1)
    ensures Linked(procs, list)
  {
  }

  /** The links of records around the one that leaves. */
  ghost predicate Spliced(procs: map<int, Process>, list: seq<int>, i: int, after: map<int, Process>) {
    && after.Keys == procs.Keys && NONE !in procs
    && (forall q :: q in procs ==> after[q].prev == (if q == At(list, i + 1) then At(list, i - 1) else procs[q].prev))
    && (forall q :: q in procs ==> after[q].next == (if q == At(list, i - 1) then At(list, i + 1) else procs[q].next))
  }

  lemma MemberLinks(procs: map<int, Process>, list: seq<int>, i: int, after: map<int, Process>, j: int)
    requires Linked(procs, list) && Distinct(list) && Spliced(procs, list, i, after) && 0 <= j < |list|
    ensures list[j] in after
    ensures after[list[j]].next == At(list, if j == i - 1 then i + 1 else j + 1)
    ensures after[list[j]].prev == At(list, if j == i + 1 then i - 1 else j - 1)
  {
    var p := list[j];
    assert p in procs && procs[p].next == At(list, j + 1) && procs[p].prev == At(list, j - 1);
    hide Linked;
    SamePlace(list, j, i - 1);
    SamePlace(list, j, i + 1);
  }

  lemma SamePlace(list: seq<int>, j: int, k: int)
    requires Distinct(list) && 0 <= j < |list| && list[j] != NONE
    ensures list[j] == At(list, k) <==> j == k
  {
  }

  /** Where the members of a list are after one has been taken out. */
  lemma WithoutAt(list: seq<int>, i: int)
    requires Distinct(list) && 0 <= i < |list|
    ensures |Without(list, i)| == |list| - 1
    ensures forall k :: 0 <= k < |list| - 1 ==> Without(list, i)[k] == list[if k < i then k else k + 1]
  {
    WithoutKeeps(list, i);
  }

  lemma WithoutPlace(list: seq<int>, i: int, k: int)
    requires Distinct(list) && 0 <= i < |list|
    ensures At(Without(list, i), k) == At(list, if k < i then k else k + 1)
  {
    WithoutKeeps(list, i);
  }

  // ---------- Children ----------

  lemma CurrentKnown(procs: map<int, Process>, s: State<int>, first: int, deleted: set<int>)
    requires Consistent(procs, s, first, deleted)
    ensures s.current in procs && s.idle in procs && deleted <= procs.Keys && NONE !in procs && s.idle !in s.list
    ensures (s.hole < 0 && s.current in s.list) ==> !procs[s.current].terminated
  {
  }

  /** The run queue does not depend on who is whose child. */
  lemma ChildrenIgnored(procs: map<int, Process>, s: State<int>, first: int, deleted: set<int>, after: map<int, Process>)
    requires Consistent(procs, s, first, deleted) && after.Keys == procs.Keys
    requires forall p :: p in procs ==> after[p] == procs[p].(children := after[p].children)
    ensures Consistent(after, s, first, deleted) && Contexts(after) == Contexts(procs)
  {
    forall p | p in procs
      ensures after[p].context == procs[p].context && after[p].changed == procs[p].changed && after[p].terminated == procs[p].terminated
      ensures after[p].next == procs[p].next && after[p].prev == procs[p].prev
    {
      var q := after[p];
      assert q == procs[p].(children := q.children);
    }
    assert Contexts(after) == Contexts(procs);
    hide Good;
    LinkedSame(procs, s.list, after);
    hide Linked, Contexts;
  }

  lemma ChildAdded(before: map<int, Process>, added: map<int, Process>, deleted: set<int>, idle: int, nextPid: int,
                   current: int, child: int, after: map<int, Process>)
    requires Numbered(added, idle, nextPid) && Parental(added, deleted, idle) && child !in before && child in added && child != idle && child !in deleted
    requires current in before && current in added && added[child].parent == current && added[current].children == before[current].children
    requires Parental(before, deleted, idle) && child != current
    requires after == added[current := added[current].(children := added[current].children + [child])]
    ensures Numbered(after, idle, nextPid) && Parental(after, deleted, idle)
  {
    assert Numbered(after, idle, nextPid) by { hide Parental; }
    hide Numbered;
    var children := before[current].children;
    forall k | 0 <= k < |children| ensures children[k] != child {
      assert Child(before, deleted, idle, current, children[k]);
    }
    assert Distinct(children + [child]);
    hide Distinct;
    forall q, i | q in after && 0 <= i < |after[q].children| ensures Child(after, deleted, idle, q, after[q].children[i]) {
      if q != current || i < |children| { assert Child(added, deleted, idle, q, added[q].children[i]); }
    }
  }

  /** The last child takes the place of the one that is gone. */
  lemma FewerChildren(children: seq<int>, i: int, fewer: seq<int>)
    requires Distinct(children) && 0 <= i < |children|
    requires fewer == (if i < |children| - 1 then children[i := children[|children| - 1]] else children)[..|children| - 1]
    ensures Distinct(fewer) && forall c :: c in fewer <==> c in children && c != children[i]
  {
    var last := |children| - 1;
    forall c | c in children && c != children[i] ensures c in fewer {
      var k :| 0 <= k < |children| && children[k] == c;
      assert fewer[if k == last then i else k] == c;
    }
  }

  lemma ChildReaped(procs: map<int, Process>, s: State<int>, first: int, deleted: set<int>, nextPid: int, c: int, fewer: seq<int>, after: map<int, Process>)
    requires Consistent(procs, s, first, deleted) && Numbered(procs, s.idle, nextPid) && Parental(procs, deleted, s.idle) && s.current in procs
    requires c in procs && procs[c].terminated && Child(procs, deleted, s.idle, s.current, c) && s.hole < 0 && s.current in s.list
    requires Distinct(fewer) && forall x :: x in fewer <==> x in procs[s.current].children && x != c
    requires after == procs[s.current := procs[s.current].(children := fewer)] && Consistent(after, s, first, deleted)
    ensures Consistent(after, s, first, deleted + {c}) && Numbered(after, s.idle, nextPid) && Parental(after, deleted + {c}, s.idle)
    ensures c !in s.list && c != s.current && c !in deleted
  {
    hide Good, Threaded, Contexts, Unchanged;
    assert Numbered(after, s.idle, nextPid) by { hide Parental; }
    hide Numbered, Distinct;
    forall q, i | q in after && 0 <= i < |after[q].children| ensures Child(after, deleted + {c}, s.idle, q, after[q].children[i]) {
      var x := after[q].children[i];
      if q == s.current {
        assert x in fewer;
        var k :| 0 <= k < |procs[q].children| && procs[q].children[k] == x;
        assert Child(procs, deleted, s.idle, q, procs[q].children[k]);
      } else {
        assert Child(procs, deleted, s.idle, q, procs[q].children[i]);
      }
    }
  }
}
