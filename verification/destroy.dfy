/**
  The destructor of an address space: what it gives back and what it leaves behind.
 */
module Destruction {
  import opened FrameStacks
  import opened PageTables
  import opened AddressSpaces
  import opened FlatMaps
  import opened Segments
  import opened SpaceSegments
  import opened SpaceRules
  import opened SpaceTables
  import opened MemoryMaps
  import opened Forks
  import opened Lifecycles
  import L = SegmentLists
  import T = SegmentTables

  /** Frames are free again that were memory of space id, and no others. */
  ghost predicate Dropped(owner: map<int, Owner>, held: set<int>, owner': map<int, Owner>, held': set<int>, id: int) {
    && (forall f :: f in owner' ==> f in owner && owner'[f] == owner[f])
    && (forall f :: f in owner && f !in owner' ==> owner[f].Data? && owner[f].id == id)
    && held' == held + (owner.Keys - owner'.Keys)
  }

  /** Where the destructor's loop is. */
  ghost predicate Emptied(mem: Memory, owner: map<int, Owner>, held: set<int>, mem': Memory, owner': map<int, Owner>, held': set<int>,
                          dirs: map<int, int>, id: int) {
    && SamePages(mem, mem', dirs, id, 0, KERNEL * ENTRIES) && Dropped(owner, held, owner', held', id)
    && MemoryKept(mem, mem', owner') && TablesStay(mem, mem', dirs)
  }

  /** The list still holds the segments from the i-th on and the two reserved ones. */
  ghost predicate ListLeft(left: seq<Segment>, segs: seq<Segment>, i: int) {
    0 <= i <= |segs| && forall x :: x in left <==> x in segs[i..] || x == USER_HEAD || x == USER_TAIL
  }

  /** The loop of the destructor, along the links of the list: the memory of every segment that is not reserved is unmapped. */
  method EmptySpace(s: Spaces, id: int)
    requires s.Sound() && id in s.vm.dirs && id != 0 && id in s.segments
    modifies s`segments, s.table, s.vm`mem, s.vm`owner, s.vm.frames
    ensures s.Sound() && s.segments == old(s.segments)[id := NEW_LIST] && s.Slots() >= old(s.Slots())
    ensures Emptied(old(s.vm.mem), old(s.vm.owner), old(s.vm.frames.Held()), s.vm.mem, s.vm.owner, s.vm.frames.Held(), s.vm.dirs, id)
  {
    hide Get, Walk, Flat, Core, Windows, SamePages, DataOk, UserReady, FrameStack.Valid, FrameStack.Held, FrameStack.StoredIn,
      OwnPage, FramesOk,
      KernelCovers, Agree, Between, Lists, List, ListOk, AllCovered, Removable, Removed, Exact, MemoryUnmapped, Emptied, ListLeft, Reserved, Spare,
      L.FreeSlots, Spaces.Described;
    var vm := s.vm;
    ghost var mem0, owner0, held0, segments0 := vm.mem, vm.owner, vm.frames.Held(), s.segments;
    ghost var segs, i := s.segments[id], 0;
    ListOf(s.segments, vm.dirs, id);
    EmptyStart(mem0, owner0, held0, vm.dirs, id, segs);
    ReadDescriptor(s, id, 0);
    var currentSegment := s.heads[id];
    while currentSegment != L.Null
      invariant 0 <= i <= |segs| && s.Sound() && id in s.segments && s.segments == segments0[id := s.segments[id]] && ListLeft(s.segments[id], segs, i)
      invariant id in s.heads && s.heads[id] in s.table.lists && At(s.Descriptors(id), |segs|, i, currentSegment)
      invariant Emptied(mem0, owner0, held0, vm.mem, vm.owner, vm.frames.Held(), vm.dirs, id) && s.Slots() >= old(s.Slots())
      decreases |segs| - i
    {
      ghost var left, refs, k := s.segments[id], s.Descriptors(id), if i == 0 then 0 else 1;
      ListOf(s.segments, vm.dirs, id);
      LeftIs(segs, left, id, i);
      ReadDescriptor(s, id, k);
      var x := L.Value(s.table.node[currentSegment]);
      var next := s.table.node[currentSegment].next;
      if !Reserved(x) {
        var v, n := x.address / PAGE, x.size / PAGE;
        ghost var mem1, owner1, held1 := vm.mem, vm.owner, vm.frames.Held();
        LeftRange(segs, left, id, i, v, n);
        s.UnmapMemory(id, v, n);
        EmptyNext(mem0, owner0, held0, mem1, owner1, held1, vm.mem, vm.owner, vm.frames.Held(), vm.dirs, id, v, n);
        LeftNext(segs, left, id, i);
      } else {
        LeftSkip(segs, left, id, i);
      }
      ReadDescriptor(s, id, 1);
      NextAt(segs, left, refs, s.Descriptors(id), id, i, currentSegment, next);
      currentSegment := next;
      i := i + 1;
    }
    ReadDescriptor(s, id, 1);
    ListOf(s.segments, vm.dirs, id);
    LeftDone(segs, s.segments[id], id);
  }

  /** The destructor's cursor before the i-th of m segments: the head at first, then the descriptor behind it. */
  ghost predicate At(refs: seq<L.Ref>, m: int, i: int, current: L.Ref) {
    && |refs| == (if i == 0 then m else if i < m then m - i + 1 else 2)
    && if i < m then |refs| > (if i == 0 then 0 else 1) && current == refs[if i == 0 then 0 else 1] != L.Null else current == L.Null
  }

  /** What is left when the first i segments are done: the head and then the others. */
  lemma LeftIs(segs: seq<Segment>, left: seq<Segment>, id: int, i: int)
    requires List(segs, id) && List(left, id) && id != 0 && 0 <= i < |segs| && ListLeft(left, segs, i)
    ensures left == [USER_HEAD] + segs[if i == 0 then 1 else i..] && left[if i == 0 then 0 else 1] == segs[i]
  {
    var rest := [USER_HEAD] + segs[if i == 0 then 1 else i..];
    assert segs[0] == USER_HEAD && segs[|segs| - 1] == USER_TAIL;
    assert segs[0..] == [segs[0]] + segs[1..];
    assert USER_TAIL == rest[|rest| - 1];
    assert Sorted(rest) by {
      forall k | 0 <= k < |rest| ensures Proper(rest[k]) {
        assert k > 0 ==> rest[k] == segs[k - 1 + if i == 0 then 1 else i];
      }
    }
    SortedUnique(left, rest);
  }

  /** The descriptor read before the memory is unmapped is the next one behind the head. */
  lemma NextAt(segs: seq<Segment>, left: seq<Segment>, refs: seq<L.Ref>, refs': seq<L.Ref>, id: int, i: int, current: L.Ref, next: L.Ref)
    requires List(segs, id) && id != 0 && 0 <= i < |segs| && At(refs, |segs|, i, current) && |refs| == |left|
    requires left == [USER_HEAD] + segs[if i == 0 then 1 else i..] && left[if i == 0 then 0 else 1] == segs[i]
    requires next == L.NextRef(refs, if i == 0 then 0 else 1)
    requires if Reserved(segs[i]) then refs' == refs else forall k :: IsSegment(left, k, segs[i].address, segs[i].size) ==> L.Without(refs, refs', k)
    requires |refs'| > 1 ==> refs'[1] != L.Null
    ensures At(refs', |segs|, i + 1, next)
  {
    assert Reserved(USER_TAIL) && Reserved(USER_HEAD);
    assert i > 0 ==> IsSegment(left, 1, segs[i].address, segs[i].size);
    if Reserved(segs[i]) {
      assert i == 0 || i == |segs| - 1;
    } else {
      hide Reserved;
      assert 0 < i < |segs| - 1;
    }
  }

  lemma EmptyStart(mem: Memory, owner: map<int, Owner>, held: set<int>, dirs: map<int, int>, id: int, segs: seq<Segment>)
    requires List(segs, id) && id != 0
    ensures Emptied(mem, owner, held, mem, owner, held, dirs, id) && ListLeft(segs, segs, 0)
  {
    hide Get, Flat, OwnPage;
    assert segs[0..] == segs && segs[0] == USER_HEAD && segs[|segs| - 1] == USER_TAIL;
  }

  lemma LeftRange(segs: seq<Segment>, left: seq<Segment>, id: int, i: int, v: int, n: int)
    requires List(segs, id) && List(left, id) && id != 0 && 0 <= i < |segs| && !Reserved(segs[i]) && ListLeft(left, segs, i)
    requires v == segs[i].address / PAGE && n == segs[i].size / PAGE
    ensures v * PAGE == segs[i].address && n * PAGE == segs[i].size && n > 0 && Between(id, v, n)
    ensures AllCovered(left, v * PAGE, n * PAGE) && exists k :: 0 <= k < |left| && left[k].address == v * PAGE
  {
    assert Reserved(USER_TAIL) && Reserved(USER_HEAD);
    hide Reserved;
    assert 0 < i < |segs| - 1 && Proper(segs[i]);
    assert WholePages(segs[i].address) && WholePages(segs[i].size);
    assert segs[0].End() <= segs[i].address && segs[i].End() <= segs[|segs| - 1].address;
    assert segs[i] in segs[i..];
    hide AllCovered, Sorted;
    MemberCovered(left, segs[i]);
  }

  lemma LeftNext(segs: seq<Segment>, left: seq<Segment>, id: int, i: int)
    requires List(segs, id) && List(left, id) && id != 0 && 0 <= i < |segs| && !Reserved(segs[i]) && ListLeft(left, segs, i)
    requires Removable(left, segs[i].address, segs[i].size)
    ensures ListLeft(Removed(left, segs[i].address, segs[i].size), segs, i + 1)
  {
    hide Removable, Removed;
    assert Reserved(USER_TAIL) && Reserved(USER_HEAD);
    assert segs[i] in segs[i..];
    var k :| 0 <= k < |left| && left[k] == segs[i];
    assert 0 < k < |left| - 1;
    RemovedWhole(left, k);
    assert segs[i..] == [segs[i]] + segs[i + 1..];
    var rest := segs[i + 1..];
    forall x | x in rest ensures x != segs[i] {
      var j :| i < j < |segs| && segs[j] == x;
      assert segs[i].End() <= segs[j].address && Proper(segs[i]);
    }
  }

  lemma LeftSkip(segs: seq<Segment>, left: seq<Segment>, id: int, i: int)
    requires List(segs, id) && id != 0 && 0 <= i < |segs| && Reserved(segs[i]) && ListLeft(left, segs, i)
    ensures ListLeft(left, segs, i + 1)
  {
    assert i == 0 || i == |segs| - 1;
    assert segs[i..] == [segs[i]] + segs[i + 1..];
  }

  lemma LeftDone(segs: seq<Segment>, left: seq<Segment>, id: int)
    requires List(left, id) && id != 0 && ListLeft(left, segs, |segs|)
    ensures left == NEW_LIST
  {
    NewListOk(id);
    SortedUnique(left, NEW_LIST);
  }

  lemma EmptyNext(mem0: Memory, owner0: map<int, Owner>, held0: set<int>, mem1: Memory, owner1: map<int, Owner>, held1: set<int>,
                  mem2: Memory, owner2: map<int, Owner>, held2: set<int>, dirs: map<int, int>, id: int, v: int, n: int)
    requires Emptied(mem0, owner0, held0, mem1, owner1, held1, dirs, id) && Between(id, v, n) && id != 0
    requires MemoryUnmapped(mem1, owner1, held1, mem2, owner2, held2, dirs, id, v, v + n)
    ensures Emptied(mem0, owner0, held0, mem2, owner2, held2, dirs, id)
  {
    WithinUser(id, v, n);
    hide Flat, OwnPage, Between, MemoryKept, TablesStay;
    WiderPages(mem0, mem1, mem2, dirs, id, v, v + n);
    TablesStayTrans(mem0, mem1, mem2, dirs);
    MemoryTrans(mem0, mem1, owner1, mem2, owner2);
    assert owner0.Keys - owner2.Keys == (owner0.Keys - owner1.Keys) + (owner1.Keys - owner2.Keys) by {
      assert forall f :: f in owner2.Keys ==> f in owner1.Keys;
      assert forall f :: f in owner1.Keys ==> f in owner0.Keys;
    }
  }

  // ---------- Taking the space out ----------

  /** The list without one space. */
  function Unlinked(spaces: seq<int>, id: int): (r: seq<int>)
    ensures forall j :: j in r <==> j in spaces && j != id
  {
    if spaces == [] then []
    else if spaces[0] == id then Unlinked(spaces[1..], id)
    else [spaces[0]] + Unlinked(spaces[1..], id)
  }

  /** Space id is gone: its memory and its directory are free, the tables it had are neither free nor in use by any space. */
  ghost predicate Gone(mem: Memory, owner: map<int, Owner>, held: set<int>, mem': Memory, owner': map<int, Owner>, held': set<int>,
                       dirs: map<int, int>, mapped: map<int, (int, int)>, id: int) {
    && id in dirs && 0 in dirs && id in mapped
    // exactly the directory and the memory of the space are given back
    && (forall f :: f in owner' <==> f in owner && f != dirs[id] && !(owner[f].Data? && owner[f].id == id))
    && (forall f :: f in owner' ==> owner'[f] == owner[f])
    && held' == held + (owner.Keys - owner'.Keys)
    // the tables stay used although no directory leads to them
    && (forall pd :: Private(id, pd) && Get(mem, dirs[id], pd) != NONE ==>
         var e := Get(mem, dirs[id], pd); e.frame in owner' && e.frame !in held')
    // the directory's frame is free but stays mapped in the kernel
    && dirs[id] in held' && Walk(mem', dirs[0], mapped[id].0, mapped[id].1).frame == dirs[id]
    // no page of another space changed but for the window of the frame stack, and no memory still in use
    && (forall j, v :: j in dirs && j != id && OwnPage(j, v) ==> Flat(mem', dirs, j, v) == Flat(mem, dirs, j, v))
    && MemoryKept(mem, mem', owner')
  }

  /** The frames that are in use for space id: its directory, its memory and the tables its directory leads to. */
  ghost predicate UsedFor(mem: Memory, dirs: map<int, int>, owner: map<int, Owner>, id: int, f: int)
    requires id in dirs
  {
    f == dirs[id] || (f in owner && owner[f].Data? && owner[f].id == id) || TableOf(mem, dirs, id, f)
  }

  ghost predicate TableOf(mem: Memory, dirs: map<int, int>, id: int, f: int)
    requires id in dirs
  {
    exists pd :: Private(id, pd) && Get(mem, dirs[id], pd) != NONE && Get(mem, dirs[id], pd).frame == f
  }

  /** All frames in use for a destroyed space are free again exactly when it had no table of its own; else its tables, and only they, are lost. */
  lemma LeakExactly(mem: Memory, owner: map<int, Owner>, held: set<int>, mem': Memory, owner': map<int, Owner>, held': set<int>,
                    dirs: map<int, int>, mapped: map<int, (int, int)>, id: int)
    requires Gone(mem, owner, held, mem', owner', held', dirs, mapped, id)
    ensures (forall f :: UsedFor(mem, dirs, owner, id, f) ==> f in held') <==> (forall pd :: Private(id, pd) ==> Get(mem, dirs[id], pd) == NONE)
    ensures forall f :: UsedFor(mem, dirs, owner, id, f) ==> (f in held' <==> !TableOf(mem, dirs, id, f))
  {
    hide Get, Walk, Flat, OwnPage, MemoryKept;
    forall f | UsedFor(mem, dirs, owner, id, f) ensures f in held' <==> !TableOf(mem, dirs, id, f) {
      if !TableOf(mem, dirs, id, f) && f != dirs[id] {
        assert f in owner.Keys && f !in owner'.Keys;
      }
    }
    forall pd | Private(id, pd) && Get(mem, dirs[id], pd) != NONE
      ensures UsedFor(mem, dirs, owner, id, Get(mem, dirs[id], pd).frame) && Get(mem, dirs[id], pd).frame !in held'
    {
      assert TableOf(mem, dirs, id, Get(mem, dirs[id], pd).frame);
    }
  }

  /** The destructor of a user address space, which may be the one the processor runs in. */
  method Destroy(s: Spaces, id: int)
    requires s.Valid() && id in s.vm.dirs && id != 0 && id in s.segments
    modifies s`segments, s`heads, s.table, s.vm`mem, s.vm`owner, s.vm`dirs, s.vm`mapped, s.vm`spaces, s.vm.frames
    ensures s.Settled() && s.vm.Listed() && (s.vm.current != id ==> s.Valid())
    ensures s.vm.dirs == old(s.vm.dirs) - {id} && s.vm.spaces == Unlinked(old(s.vm.spaces), id)
    ensures s.segments == old(s.segments) - {id}
    // the list with the two reserved segments is left in the table
    ensures id in old(s.heads) && old(s.heads[id]) in s.table.lists && L.Values(s.table.node, s.table.lists[old(s.heads[id])]) == NEW_LIST
    ensures Gone(old(s.vm.mem), old(s.vm.owner), old(s.vm.frames.Held()), s.vm.mem, s.vm.owner, s.vm.frames.Held(),
                 old(s.vm.dirs), old(s.vm.mapped), id)
  {
    hide Get, Walk, Flat, Core, Windows, SamePages, SameAll, DataOk, UserReady, FrameStack.Valid, FrameStack.Held,
      FrameStack.StoredIn, OwnPage, FramesOk,
      KernelCovers, Agree, Lists, Emptied, Gone, Spare, TablesStay, L.FreeSlots, L.Values, Spaces.Described,
      Describes, T.SegmentTable.Valid;
    var vm := s.vm;
    ghost var mem0, owner0, held0, dirs0, mapped0 := vm.mem, vm.owner, vm.frames.Held(), vm.dirs, vm.mapped;
    vm.spaces := Unlinked(vm.spaces, id);
    assert forall k :: 0 <= k < |vm.spaces| ==> vm.spaces[k] in vm.spaces;
    EmptySpace(s, id);
    ghost var mem1, owner1, held1 := vm.mem, vm.owner, vm.frames.Held();
    var frame := vm.dirs[id];
    DirectoryUsed(mem1, dirs0, owner1, held1, id);
    StackTable(vm);
    vm.PushPageFrame(frame);
    FrameGiven(mem1, vm.mem, dirs0, owner1, held1, 0, 0);
    AgreeSame(mem1, vm.mem, dirs0, s.segments);
    SpaceDropped(vm.mem, dirs0, owner1, held1, mapped0, s.segments, id);
    DirectoryGiven(mem0, owner0, held0, mem1, vm.mem, owner1, held1, dirs0, id, Get(mem1, dirs0[0], STACK_PD).frame);
    SpaceGone(mem0, owner0, held0, vm.mem, owner1, held1, dirs0, mapped0, s.segments, id);
    ListLeftBehind(s, id);
    Forget(s, id, frame);
  }

  lemma DirectoryUsed(mem: Memory, dirs: map<int, int>, owner: map<int, Owner>, held: set<int>, id: int)
    requires Core(mem, dirs, owner, -1) && FramesOk(owner, held) && id in dirs
    ensures 0 < dirs[id] < FRAMES && dirs[id] !in held
  {
    DirOwner(mem, dirs, owner, -1, id);
  }

  lemma ListLeftBehind(s: Spaces, id: int)
    requires s.Described() && id in s.vm.dirs
    ensures id in s.heads && s.heads[id] in s.table.lists && id in s.segments
    ensures L.Values(s.table.node, s.table.lists[s.heads[id]]) == s.segments[id]
    ensures s.table.Valid()
    ensures id != 0 ==>
      Describes(s.table.node, s.table.lists, s.table.kernelFirst, s.heads - {id}, s.segments - {id}, s.vm.dirs - {id})
  {
    hide L.FreeSlots, L.Values, T.PoolOk, T.ListsOk;
  }

  /** Giving back the directory's frame changes no flat map and no memory. */
  lemma DirectoryGiven(mem0: Memory, owner0: map<int, Owner>, held0: set<int>, mem1: Memory, mem2: Memory, owner1: map<int, Owner>, held1: set<int>,
                       dirs: map<int, int>, id: int, t: int)
    requires Emptied(mem0, owner0, held0, mem1, owner1, held1, dirs, id) && SamePages(mem1, mem2, dirs, 0, 0, 0) && TablesStay(mem1, mem2, dirs)
    requires FramesOk(owner1, held1) && t in owner1 && owner1[t].Table?
    requires forall g, i :: Get(mem2, g, i) == Get(mem1, g, i) || g == t || g in held1
    ensures Emptied(mem0, owner0, held0, mem2, owner1, held1, dirs, id)
  {
    hide Get, Flat, OwnPage, Dropped, TablesStay;
    TablesStayTrans(mem0, mem1, mem2, dirs);
    JoinedPages(mem0, mem1, mem2, dirs, id, 0, KERNEL * ENTRIES);
    forall g, i | g in owner1 && owner1[g].Data? ensures Get(mem2, g, i) == Get(mem0, g, i) {
      assert g in owner1.Keys && g !in held1 && g != t;
    }
  }

  /** The object of the space is gone. */
  method Forget(s: Spaces, id: int, frame: int)
    requires var vm := s.vm;
      var dirs, owner, mapped, segments := vm.dirs - {id}, vm.owner - {frame}, vm.mapped - {id}, s.segments - {id};
      && vm.frames.Valid() && id != 0 && 0 in dirs && 0 in segments && Walk(vm.mem, dirs[0], TEMP_PD, 0x3FF) == NONE
      && Core(vm.mem, dirs, owner, -1) && Windows(vm.mem, dirs, mapped) && FramesOk(owner, vm.frames.Held()) && vm.frames.StoredIn(vm.mem, dirs[0])
      && DataOk(vm.mem, dirs, owner) && UserReady(vm.mem, dirs) && Agree(vm.mem, dirs, segments) && Lists(segments, dirs)
      && KernelCovers(owner, dirs, mapped, segments[0])
      && s.table.Valid() && Describes(s.table.node, s.table.lists, s.table.kernelFirst, s.heads - {id}, segments, dirs)
    modifies s`segments, s`heads, s.vm`owner, s.vm`dirs, s.vm`mapped
    ensures s.Settled() && s.vm.dirs == old(s.vm.dirs) - {id} && s.vm.owner == old(s.vm.owner) - {frame}
    ensures s.segments == old(s.segments) - {id}
  {
    hide Get, Walk, Core, Windows, DataOk, UserReady, FrameStack.Valid, FrameStack.Held, FrameStack.StoredIn, KernelCovers, Agree,
      Lists, FramesOk,
      L.FreeSlots, Describes, T.SegmentTable.Valid;
    var vm := s.vm;
    vm.owner := vm.owner - {frame};
    vm.dirs := vm.dirs - {id};
    vm.mapped := vm.mapped - {id};
    s.heads := s.heads - {id};
    s.segments := s.segments - {id};
  }

  /** Without an emptied space all invariants hold. */
  lemma SpaceDropped(mem: Memory, dirs: map<int, int>, owner: map<int, Owner>, held: set<int>, mapped: map<int, (int, int)>,
                     segments: map<int, seq<Segment>>, id: int)
    requires Core(mem, dirs, owner, -1) && Windows(mem, dirs, mapped) && DataOk(mem, dirs, owner) && UserReady(mem, dirs) && FramesOk(owner, held)
    requires Agree(mem, dirs, segments) && Lists(segments, dirs) && 0 in segments && KernelCovers(owner, dirs, mapped, segments[0])
    requires 0 in dirs && id in dirs && id != 0 && id in segments && segments[id] == NEW_LIST
    ensures var dirs', owner', mapped', segments' := dirs - {id}, owner - {dirs[id]}, mapped - {id}, segments - {id};
            && Core(mem, dirs', owner', -1) && Windows(mem, dirs', mapped') && DataOk(mem, dirs', owner') && UserReady(mem, dirs')
            && Agree(mem, dirs', segments') && Lists(segments', dirs') && KernelCovers(owner', dirs', mapped', segments'[0])
            && FramesOk(owner', held + {dirs[id]}) && 0 < dirs[id] < FRAMES && dirs[id] !in held && dirs'[0] == dirs[0]
  {
    hide Get, Walk, Flat, OwnPage, Covered, List, Pd, Pt, PageNo;
    DirOwner(mem, dirs, owner, -1, id);
    NoMemoryLeft(mem, dirs, owner, segments, id);
    DroppedCore(mem, dirs, owner, id);
    DroppedWindows(mem, dirs, mapped, id);
    DroppedData(mem, dirs, owner, id);
    DroppedAgree(mem, dirs, segments, id);
  }

  lemma NoMemoryLeft(mem: Memory, dirs: map<int, int>, owner: map<int, Owner>, segments: map<int, seq<Segment>>, id: int)
    requires DataOk(mem, dirs, owner) && Agree(mem, dirs, segments) && id in dirs && id != 0 && id in segments && segments[id] == NEW_LIST
    ensures forall f :: f in owner && owner[f].Data? ==> owner[f].id != id
    ensures forall v :: OwnPage(id, v) ==> Flat(mem, dirs, id, v) == NONE
  {
    forall v | OwnPage(id, v) ensures Flat(mem, dirs, id, v) == NONE {
      NewUncovered(id, v);
    }
    hide Flat, OwnPage;
    forall f | f in owner && owner[f].Data? ensures owner[f].id != id {
      assert Placed(mem, dirs, owner[f].id, owner[f].page, f);
    }
  }

  lemma DroppedCore(mem: Memory, dirs: map<int, int>, owner: map<int, Owner>, id: int)
    requires Core(mem, dirs, owner, -1) && id in dirs && id != 0
    ensures Core(mem, dirs - {id}, owner - {dirs[id]}, -1)
  {
    hide Get;
    DirOwner(mem, dirs, owner, -1, id);
    var dirs', owner' := dirs - {id}, owner - {dirs[id]};
    forall j | j in dirs' ensures dirs'[j] in owner' && owner'[dirs'[j]] == Directory(j) {
      DirOwner(mem, dirs, owner, -1, j);
    }
    forall j, p | j in dirs' && Private(j, p) && Get(mem, dirs'[j], p) != NONE
      ensures var e := Get(mem, dirs'[j], p); TableEntry(e, j) && e.frame in owner' && owner'[e.frame] == Table(j, p)
    {
      TableFrame(mem, dirs, owner, -1, j, p);
    }
  }

  lemma DroppedWindows(mem: Memory, dirs: map<int, int>, mapped: map<int, (int, int)>, id: int)
    requires Windows(mem, dirs, mapped) && id in dirs && id != 0
    ensures Windows(mem, dirs - {id}, mapped - {id})
  {
    hide Walk;
    forall j | j in dirs - {id} && j != 0 ensures Window(mem, dirs - {id}, mapped - {id}, j) {
      assert Window(mem, dirs, mapped, j);
    }
  }

  lemma FlatFewer(mem: Memory, dirs: map<int, int>, id: int)
    ensures forall j, v :: j in dirs && j != id ==> Flat(mem, dirs - {id}, j, v) == Flat(mem, dirs, j, v)
  {
  }

  lemma DroppedData(mem: Memory, dirs: map<int, int>, owner: map<int, Owner>, id: int)
    requires DataOk(mem, dirs, owner) && UserReady(mem, dirs) && id in dirs && id != 0
    requires dirs[id] in owner && owner[dirs[id]] == Directory(id) && forall f :: f in owner && owner[f].Data? ==> owner[f].id != id
    ensures DataOk(mem, dirs - {id}, owner - {dirs[id]}) && UserReady(mem, dirs - {id})
  {
    FlatFewer(mem, dirs, id);
    hide Flat, OwnPage, Get;
    var dirs', owner' := dirs - {id}, owner - {dirs[id]};
    forall g | g in owner' && owner'[g].Data? ensures Placed(mem, dirs', owner'[g].id, owner'[g].page, g) {
      assert Placed(mem, dirs, owner[g].id, owner[g].page, g);
    }
    forall j, v | j in dirs' && j != 0 && OwnPage(j, v) && Flat(mem, dirs', j, v) != NONE
      ensures var f := Flat(mem, dirs', j, v).frame; f in owner' && owner'[f] == Data(j, v)
    {
      assert owner[Flat(mem, dirs, j, v).frame] == Data(j, v);
    }
  }

  lemma DroppedAgree(mem: Memory, dirs: map<int, int>, segments: map<int, seq<Segment>>, id: int)
    requires Agree(mem, dirs, segments) && Lists(segments, dirs) && id in dirs && id != 0
    ensures Agree(mem, dirs - {id}, segments - {id}) && Lists(segments - {id}, dirs - {id})
  {
    FlatFewer(mem, dirs, id);
    hide Flat, OwnPage, Covered, List;
  }

  lemma SpaceGone(mem0: Memory, owner0: map<int, Owner>, held0: set<int>, mem1: Memory, owner1: map<int, Owner>, held1: set<int>,
                  dirs: map<int, int>, mapped: map<int, (int, int)>, segments: map<int, seq<Segment>>, id: int)
    requires Emptied(mem0, owner0, held0, mem1, owner1, held1, dirs, id) && id in dirs && 0 in dirs && id != 0
    requires Core(mem0, dirs, owner0, -1) && Core(mem1, dirs, owner1, -1) && Windows(mem1, dirs, mapped) && FramesOk(owner1, held1)
    requires DataOk(mem0, dirs, owner0) && DataOk(mem1, dirs, owner1) && Agree(mem1, dirs, segments) && id in segments && segments[id] == NEW_LIST
    ensures Gone(mem0, owner0, held0, mem1, owner1 - {dirs[id]}, held1 + {dirs[id]}, dirs, mapped, id)
  {
    DirOwner(mem1, dirs, owner1, -1, id);
    NoMemoryLeft(mem1, dirs, owner1, segments, id);
    assert Window(mem1, dirs, mapped, id);
    hide Get, Walk, Flat, OwnPage, Windows, DataOk, Agree;
    assert forall f :: f in owner1 - {dirs[id]} ==> f in owner1;
    var owner2, held2 := owner1 - {dirs[id]}, held1 + {dirs[id]};
    forall pd | Private(id, pd) && Get(mem0, dirs[id], pd) != NONE
      ensures var e := Get(mem0, dirs[id], pd); e.frame in owner2 && e.frame !in held2
    {
      TableFrame(mem0, dirs, owner0, -1, id, pd);
    }
    assert held2 == held0 + (owner0.Keys - owner2.Keys);
  }

  /** Loading CR3: the processor runs in another space. */
  method Activate(s: Spaces, id: int)
    requires s.Settled() && s.vm.Listed() && id in s.vm.dirs
    modifies s.vm`current
    ensures s.Valid() && s.vm.current == id
  {
    hide Get, Walk, Flat, Core, Windows, DataOk, UserReady, FrameStack.Valid, FrameStack.Held, FrameStack.StoredIn, FramesOk,
      KernelCovers, Agree, Lists,
      Spaces.Described;
    s.vm.current := id;
  }
}
