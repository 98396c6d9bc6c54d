/**
  Creating, forking and destroying address spaces.
 */
module Lifecycles {
  import opened FrameStacks
  import opened PageTables
  import opened AddressSpaces
  import opened FlatMaps
  import opened Segments
  import opened SpaceSegments
  import opened SpaceRules
  import opened SpaceTables
  import opened MemoryMaps
  import opened Forks
  import L = SegmentLists
  import T = SegmentTables

  /** What copying one range into space c does. */
  ghost predicate CopiedIn(mem: Memory, owner: map<int, Owner>, held: set<int>, mem': Memory, owner': map<int, Owner>, held': set<int>,
                           dirs: map<int, int>, p: int, c: int, v: int, n: int, flags: int) {
    && SamePages(mem, mem', dirs, c, v, v + n) && Taken(owner, held, owner', held', c, v, v + n) && TablesStay(mem, mem', dirs)
    && Untouched(mem, mem', owner', c, v, v + n) && Duplicated(mem, mem', dirs, p, c, v, v + n)
    && forall u :: v <= u < v + n ==> Flat(mem', dirs, c, u) != NONE && Flat(mem', dirs, c, u).flags == MapFlags(c, flags)
  }

  /** One segment of fork: memory of the same range and protection in the child, with the same contents. */
  method CopySegment(s: Spaces, p: int, c: int, v: int, n: nat, flags: int)
    requires s.Valid() && p in s.vm.dirs && c in s.vm.dirs && p != 0 && c != 0 && p != c && 0 in s.segments && c in s.segments
    requires Between(c, v, n) && Vacant(s.segments[c], v * PAGE, n * PAGE) && Owned(s.vm.mem, s.vm.dirs, s.vm.owner, p, v, n)
    requires s.SpareIn(c) >= n && 0 <= flags < NOUNMAP && Room(s.segments[0], n * PAGE) && s.Slots() >= 3 && Foreseen(s.vm.needed, c, v, n)
    modifies s`segments, s.table, s.vm`mem, s.vm`owner, s.vm.frames
    ensures s.Valid() && s.segments == WithSegment(old(s.segments), c, Segment(v * PAGE, n * PAGE, flags))
    ensures s.SpareIn(c) == old(s.SpareIn(c)) - n && s.Slots() >= old(s.Slots()) - 3
    ensures OthersStay(old(s.table.lists), s.table.lists, s.heads, s.vm.dirs, c)
    ensures CopiedIn(old(s.vm.mem), old(s.vm.owner), old(s.vm.frames.Held()), s.vm.mem, s.vm.owner, s.vm.frames.Held(), s.vm.dirs, p, c, v, n, flags)
  {
    hide Get, Walk, Flat, Core, Windows, SamePages, Spare, DataOk, UserReady, FrameStack.Valid, FrameStack.Held, FrameStack.StoredIn,
      OwnPage,
      KernelCovers, Agree, Between, Vacant, Lists, Effect, MapFlags, Owned, Added, TablesStay, Restored, MemoryMapped, CopiedIn, Room,
      L.FreeSlots, Spaces.Described, OthersStay;
    var vm := s.vm;
    ghost var lists0 := s.table.lists;
    ghost var mem0, owner0, held0 := vm.mem, vm.owner, vm.frames.Held();
    var _, _, _, _ := s.MapMemory(c, v, n, flags);
    ghost var mem1, owner1, held1 := vm.mem, vm.owner, vm.frames.Held();
    MappedOwned(mem0, owner0, held0, mem1, owner1, held1, vm.dirs, p, c, v, n, flags);
    SpareOrder(mem1, vm.dirs, vm.needed, held1, c);
    NonEmptyRange(c, v, n);
    ghost var lists1 := s.table.lists;
    CopyThrough(s, p, c, v, n);
    OthersTrans(lists0, lists1, s.table.lists, s.heads, vm.dirs, c, 0);
    CopyJoined(mem0, owner0, held0, mem1, owner1, held1, vm.mem, vm.owner, vm.frames.Held(), vm.dirs, p, c, v, n, flags);
  }

  lemma NonEmptyRange(id: int, v: int, n: int)
    requires Between(id, v, n)
    ensures n > 0
  {
  }

  lemma MappedOwned(mem: Memory, owner: map<int, Owner>, held: set<int>, mem': Memory, owner': map<int, Owner>, held': set<int>,
                    dirs: map<int, int>, p: int, c: int, v: int, n: int, flags: int)
    requires MemoryMapped(mem, owner, held, mem', owner', held', dirs, c, v, v + n, flags) && Owned(mem, dirs, owner, p, v, n) && p != c
    requires Between(c, v, n)
    ensures Owned(mem', dirs, owner', p, v, n) && Owned(mem', dirs, owner', c, v, n)
  {
    hide Flat, OwnPage, ContentsKept, TablesStay, Between;
    MappedBacked(mem, owner, held, mem', owner', held', dirs, c, v, n, flags);
    forall u | v <= u < v + n
      ensures OwnPage(p, u) && Backed(mem', dirs, owner', p, u) && OwnPage(c, u) && Backed(mem', dirs, owner', c, u)
    {
      assert OwnPage(p, u) && Backed(mem, dirs, owner, p, u);
      BetweenOwn(c, v, n, u);
      SameWindows(mem, mem', dirs, p, u, c, v, v + n);
    }
  }

  lemma CopyJoined(mem0: Memory, owner0: map<int, Owner>, held0: set<int>, mem1: Memory, owner1: map<int, Owner>, held1: set<int>,
                   mem2: Memory, owner2: map<int, Owner>, held2: set<int>, dirs: map<int, int>, p: int, c: int, v: int, n: int, flags: int)
    requires MemoryMapped(mem0, owner0, held0, mem1, owner1, held1, dirs, c, v, v + n, flags) && n > 0
    requires Restored(mem1, owner1, held1, mem2, owner2, held2, dirs, p, c, v, n)
    requires Owned(mem1, dirs, owner1, c, v, n) && Owned(mem1, dirs, owner1, p, v, n) && Owned(mem0, dirs, owner0, p, v, n) && p != c && c != 0
    ensures CopiedIn(mem0, owner0, held0, mem2, owner2, held2, dirs, p, c, v, n, flags)
  {
    hide Flat, OwnPage, Get, SamePages, Taken, Grew, ContentsKept, Untouched, TablesStay, MapFlags;
    GrewTaken(owner1, held1, owner2, held2, c, v + n);
    TakenTrans(owner0, held0, owner1, held1, owner2, held2, c, v, v + n, v + n);
    TablesStayTrans(mem0, mem1, mem2, dirs);
    JoinedPages(mem0, mem1, mem2, dirs, c, v, v + n);
    KeptUntouched(mem0, mem1, owner1, c, v, v + n);
    MoreTablesOwner(owner1, owner2);
    UntouchedTrans(mem0, mem1, owner1, mem2, owner2, c, v, v + n);
    MappedRange(mem0, owner0, held0, mem1, owner1, held1, dirs, c, v, n, flags);
    forall u | v <= u < v + n ensures Flat(mem2, dirs, c, u) != NONE && Flat(mem2, dirs, c, u).flags == MapFlags(c, flags) {
      assert OwnPage(c, u) && Backed(mem1, dirs, owner1, c, u) && IsMapped(mem1, owner1, dirs, held0, c, u, flags);
      SameWindows(mem1, mem2, dirs, c, u, 0, 0, 0);
    }
    forall u, k | v <= u < v + n && 0 <= k < ENTRIES ensures WordOf(mem2, dirs, c, u, k) == WordOf(mem0, dirs, p, u, k) {
      assert OwnPage(p, u) && Backed(mem0, dirs, owner0, p, u) && Backed(mem1, dirs, owner1, p, u);
      SameWindows(mem0, mem1, dirs, p, u, c, v, v + n);
      WordKept(mem0, mem1, owner1, Flat(mem0, dirs, p, u).frame, k);
      assert WordOf(mem2, dirs, c, u, k) == WordOf(mem1, dirs, p, u, k);
    }
  }

  lemma MoreTablesOwner(owner: map<int, Owner>, owner': map<int, Owner>)
    requires MoreTables(owner, owner')
    ensures forall f :: f in owner ==> f in owner' && owner'[f] == owner[f]
  {
  }

  lemma JoinedPages(mem0: Memory, mem1: Memory, mem2: Memory, dirs: map<int, int>, id: int, lo: int, hi: int)
    requires SamePages(mem0, mem1, dirs, id, lo, hi) && SamePages(mem1, mem2, dirs, 0, 0, 0)
    ensures SamePages(mem0, mem2, dirs, id, lo, hi)
  {
    hide Flat, OwnPage;
  }

  // ---------- Creating a space ----------

  /** The list of a new user space. */
  const NEW_LIST: seq<Segment> := [USER_HEAD, USER_TAIL]

  /** What is different after creating space id with directory frame f, shown to the kernel at page d. */
  ghost predicate Created(mem: Memory, owner: map<int, Owner>, held: set<int>, mem': Memory, owner': map<int, Owner>, held': set<int>,
                          dirs: map<int, int>, id: int, f: int, d: int) {
    && SamePages(mem, mem', dirs, 0, d, d + 1) && ContentsKept(mem, mem', owner') && f in held
    && (forall g :: g in owner ==> g in owner' && owner'[g] == owner[g])
    && (forall g :: g in owner' && g !in owner ==> g in held && (owner'[g].Table? || (g == f && owner'[g] == Directory(id))))
    && held' == held - owner'.Keys
  }

  /** The constructor of a user address space; `first` is where operator new puts the first descriptor of its list. */
  method Create(s: Spaces, id: int, first: L.Ref) returns (ghost f: int, ghost d: int)
    requires s.Valid() && id !in s.vm.dirs && id != 0 && s.SpareIn(0) >= 1 && 0 in s.segments && HasGap(s.segments[0], PAGE)
    requires s.Slots() >= 2 && first.Own? && first !in s.table.node
    modifies s`segments, s`heads, s.table, s.vm`mem, s.vm`owner, s.vm`dirs, s.vm`mapped, s.vm`spaces, s.vm.frames
    ensures s.Valid() && s.vm.dirs == old(s.vm.dirs)[id := f] && s.vm.spaces == [id] + old(s.vm.spaces)
    ensures s.segments == WithSegment(old(s.segments), 0, old(AtGap(s.segments[0], PAGE, READ_WRITE)))[id := NEW_LIST]
    ensures s.SpareIn(id) == old(s.SpareIn(0)) - 1 - Wanted(s.vm.needed) && s.Slots() == old(s.Slots()) - 2
    ensures Created(old(s.vm.mem), old(s.vm.owner), old(s.vm.frames.Held()), s.vm.mem, s.vm.owner, s.vm.frames.Held(), old(s.vm.dirs), id, f, d)
    ensures d * PAGE == old(AtGap(s.segments[0], PAGE, READ_WRITE)).address
  {
    hide Get, Walk, Flat, Core, Windows, SamePages, SameAll, Spare, DataOk, UserReady, FrameStack.Valid, FrameStack.Held,
      FrameStack.StoredIn, OwnPage,
      FreePage, KernelCovers, Agree, NoData, Between, Vacant, ListOk, List, Lists, GapFrom, Effect, Added, TablesStay, Created, Pd, Pt, Grew, MoreTables,
      ContentsKept, Covered, MapFlags, FramesOk, L.FreeSlots, Describes, Spaces.Described;
    var vm := s.vm;
    ghost var mem0, owner0, held0, dirs0, segments0 := vm.mem, vm.owner, vm.frames.Held(), vm.dirs, s.segments;
    var frame, page := PrepareDirectory(s);
    Unused(s, first);
    f, d := frame, page;
    ghost var mem2, owner2, held2 := vm.mem, vm.owner, vm.frames.Held();
    AddList(s, id, first, frame);
    CopyDirectory(s, page, frame);
    SameWindows(mem2, vm.mem, dirs0, 0, page, 0, 0, 0);
    SpaceCreated(mem2, vm.mem, dirs0, owner2, held2, vm.mapped, s.segments, id, frame, page);
    CreatedJoined(mem0, owner0, held0, mem2, owner2, held2, vm.mem, dirs0, id, frame, page);
    SpareNew(mem2, vm.mem, dirs0, vm.needed, owner2, held2, id, frame);
    FrameUsed(owner2, held2, held0, id, frame);
    Link(s, id, first, frame, page);
  }

  /** What is no descriptor yet is on no list. */
  lemma Unused(s: Spaces, first: L.Ref)
    requires s.Described() && first !in s.table.node
    ensures !T.Listed(s.table.lists, first) && first !in s.table.lists
  {
    hide L.FreeSlots, L.Values, T.PoolOk, Describes;
    var node, lists := s.table.node, s.table.lists;
    forall h | h in lists ensures first !in lists[h] && h != first {
      assert T.ListOk(node, lists[h], h);
      forall i | 0 <= i < |lists[h]| ensures lists[h][i] in node {
        assert L.LinkedAt(node, lists[h], i);
      }
    }
  }

  /** The list of a new space: the two reserved segments. */
  method AddList(s: Spaces, id: int, first: L.Ref, ghost frame: int)
    requires s.Described() && id !in s.vm.dirs && s.Slots() >= 1
    requires first.Own? && first !in s.table.node && !T.Listed(s.table.lists, first) && first !in s.table.lists
    modifies s.table
    ensures s.table.Valid() && s.Slots() == old(s.Slots()) - 1
    ensures Describes(s.table.node, s.table.lists, s.table.kernelFirst, s.heads[id := first], s.segments[id := NEW_LIST], s.vm.dirs[id := frame])
  {
    hide L.FreeSlots, L.Values, T.PoolOk, T.ListsOk, T.Listed, Describes;
    ghost var node0, lists0 := s.table.node, s.table.lists;
    s.table.NewSpace(first);
    DescribedNew(node0, lists0, s.table.node, s.table.lists, s.table.kernelFirst, s.heads, s.segments, s.vm.dirs, id, frame, first);
  }

  /** The new space is complete: it joins the list at the head. */
  method Link(s: Spaces, id: int, first: L.Ref, frame: int, page: int)
    requires var vm := s.vm;
      var dirs, owner, mapped := vm.dirs[id := frame], vm.owner[frame := Directory(id)], vm.mapped[id := (Pd(page), Pt(page))];
      var segments := s.segments[id := NEW_LIST];
      && vm.Listed() && vm.frames.Valid() && vm.current in vm.dirs && 0 in vm.dirs && id !in vm.dirs && id != 0 && 0 in s.segments
      && Core(vm.mem, dirs, owner, -1) && Windows(vm.mem, dirs, mapped) && FramesOk(owner, vm.frames.Held()) && vm.TempFree()
      && vm.frames.StoredIn(vm.mem, vm.dirs[0])
      && DataOk(vm.mem, dirs, owner) && UserReady(vm.mem, dirs) && Agree(vm.mem, dirs, segments) && Lists(segments, dirs)
      && KernelCovers(owner, dirs, mapped, segments[0])
      && s.table.Valid() && Describes(s.table.node, s.table.lists, s.table.kernelFirst, s.heads[id := first], segments, dirs)
    modifies s`segments, s`heads, s.vm`owner, s.vm`dirs, s.vm`mapped, s.vm`spaces
    ensures s.Valid() && s.vm.dirs == old(s.vm.dirs)[id := frame] && s.vm.spaces == [id] + old(s.vm.spaces)
    ensures s.vm.owner == old(s.vm.owner)[frame := Directory(id)] && s.segments == old(s.segments)[id := NEW_LIST]
  {
    hide Get, Walk, Core, Windows, DataOk, UserReady, FrameStack.Valid, FrameStack.Held, FrameStack.StoredIn, KernelCovers, Agree,
      Lists, Pd, Pt, FramesOk,
      L.FreeSlots, Describes, T.SegmentTable.Valid;
    var vm := s.vm;
    vm.dirs := vm.dirs[id := frame];
    vm.mapped := vm.mapped[id := (Pd(page), Pt(page))];
    vm.owner := vm.owner[frame := Directory(id)];
    vm.spaces := [id] + vm.spaces;
    s.heads := s.heads[id := first];
    s.segments := s.segments[id := NEW_LIST];
  }

  /** The frame for a new directory, mapped in the kernel. */
  method PrepareDirectory(s: Spaces) returns (frame: int, page: int)
    requires s.Valid() && s.SpareIn(0) >= 1 && 0 in s.segments && HasGap(s.segments[0], PAGE) && s.Slots() >= 1
    modifies s`segments, s.table, s.vm`mem, s.vm`owner, s.vm.frames
    ensures s.Pages() && s.vm.Listed() && s.SpareIn(0) == old(s.SpareIn(0)) - 1
    ensures s.Described() && s.Slots() == old(s.Slots()) - 1 && s.table.node.Keys == old(s.table.node).Keys
    ensures Prepared(old(s.vm.mem), old(s.vm.owner), old(s.vm.frames.Held()), s.vm.mem, s.vm.owner, s.vm.frames.Held(), s.vm.dirs, s.vm.mapped,
                     old(s.segments), s.segments, frame, page)
  {
    hide Get, Walk, Flat, Core, Windows, SamePages, SameAll, Spare, DataOk, UserReady, FrameStack.Valid, FrameStack.Held,
      FrameStack.StoredIn, OwnPage,
      FreePage, KernelCovers, Agree, NoData, Between, Vacant, ListOk, List, Lists, GapFrom, Effect, Added, TablesStay, Created, Pd, Pt, Grew, MoreTables,
      ContentsKept, Covered, MapFlags, L.FreeSlots, Spaces.Described;
    var vm := s.vm;
    ghost var mem0, owner0, held0, dirs0, segments0 := vm.mem, vm.owner, vm.frames.Held(), vm.dirs, s.segments;
    SpareHeld(mem0, dirs0, vm.needed, held0, 0);
    frame := vm.PopPageFrame();
    ghost var mem1, held1 := vm.mem, vm.frames.Held();
    SpareLess(mem0, dirs0, vm.needed, held0, held1, 0);
    WindowCovered(owner0, dirs0, vm.mapped, segments0[0]);
    page := s.FindGap(0, 1);
    VacantFree(mem0, dirs0, owner0, vm.mapped, s.segments, 0, page, 1);
    ListsAdd(s.segments, dirs0, 0, page, 1, READ_WRITE);
    var _ := s.Reserve(0, page, 1, READ_WRITE);
    FrameTaken(mem0, mem1, dirs0, owner0, held1, 0, page);
    assert FreePage(dirs0, vm.mapped, 0, page);
    FreeIsOwn(dirs0, vm.mapped, 0, page);
    s.SetPage(0, page, Word(frame, MapFlags(0, READ_WRITE)));
    ghost var mem2, owner2, held2 := vm.mem, vm.owner, vm.frames.Held();
    EffectTrans(mem0, owner0, held1, mem1, owner0, held1, mem2, owner2, held2, dirs0);
    SamePagesTrans(mem0, mem1, mem2, dirs0, 0, page, page, page + 1);
    NewFrame(owner0, held0, mem0, mem2, owner2, held2, dirs0, frame);
    EffectParts(mem0, owner0, held1, mem2, owner2, held2, dirs0);
    DataKept(mem0, mem2, dirs0, owner0, owner2, page, page + 1);
    FlagsNotNone(0, READ_WRITE, frame);
    AgreeMapped(mem0, mem2, dirs0, segments0, 0, page, 1, READ_WRITE);
    MoreTablesData(owner0, owner2);
    CoversMore(owner0, owner2, dirs0, vm.mapped, segments0[0], page, 1, READ_WRITE);
    FreeCovered(dirs0, vm.mapped, segments0[0], page);
  }

  ghost predicate Prepared(mem: Memory, owner: map<int, Owner>, held: set<int>, mem': Memory, owner': map<int, Owner>, held': set<int>,
                           dirs: map<int, int>, mapped: map<int, (int, int)>, segments: map<int, seq<Segment>>, segments': map<int, seq<Segment>>,
                           f: int, d: int) {
    && Effect(mem, owner, held - {f}, mem', owner', held', dirs) && SamePages(mem, mem', dirs, 0, d, d + 1) && f in held && f !in owner'
    && f !in held' && 0 in dirs && Flat(mem', dirs, 0, d) == Word(f, MapFlags(0, READ_WRITE)) && OwnPage(0, d) && d != TEMPORARY
    && FramesOk(owner, held) && 0 < f < FRAMES && 0 in segments && HasGap(segments[0], PAGE)
    && d * PAGE == AtGap(segments[0], PAGE, READ_WRITE).address && segments' == WithSegment(segments, 0, AtGap(segments[0], PAGE, READ_WRITE))
    && Agree(mem', dirs, segments') && Lists(segments', dirs) && 0 in segments' && KernelCovers(owner', dirs, mapped, segments'[0])
    && Covered(segments'[0], d * PAGE)
  }

  /** The frame of the directory is a used frame now. */
  lemma FrameUsed(owner: map<int, Owner>, held: set<int>, held0: set<int>, id: int, f: int)
    requires FramesOk(owner, held) && f !in held && 0 < f < FRAMES
    ensures FramesOk(owner[f := Directory(id)], held)
  {
  }

  /** The kernel's directory copied into the new frame, word by word. */
  method CopyDirectory(s: Spaces, page: int, frame: int)
    requires s.Pages() && OwnPage(0, page) && s.FlatIn(0, page) == Word(frame, MapFlags(0, READ_WRITE))
    requires frame !in s.vm.owner && frame !in s.vm.frames.Held()
    modifies s.vm`mem
    ensures s.Pages() && OnlyFrame(old(s.vm.mem), s.vm.mem, frame) && SamePages(old(s.vm.mem), s.vm.mem, s.vm.dirs, 0, 0, 0)
    ensures forall k :: 0 <= k < ENTRIES ==> Get(s.vm.mem, frame, k) == Get(s.vm.mem, s.vm.dirs[0], k)
  {
    hide Get, Set, Walk, Flat, Core, Windows, SamePages, SameAll, DataOk, UserReady, FrameStack.Valid, FrameStack.Held,
      FrameStack.StoredIn, OwnPage, Pd, Pt, MapFlags;
    var vm := s.vm;
    ghost var mem0 := vm.mem;
    FlagsNotNone(0, READ_WRITE, frame);
    DirOwner(mem0, vm.dirs, vm.owner, -1, 0);
    for k := 0 to ENTRIES
      invariant OnlyFrame(mem0, vm.mem, frame) && forall j :: 0 <= j < k ==> Get(vm.mem, frame, j) == Get(mem0, vm.dirs[0], j)
    {
      UnownedWritten(mem0, vm.mem, vm.dirs, vm.owner, frame);
      ShownAt(mem0, vm.mem, vm.dirs, vm.owner, vm.current, page);
      MayStore(mem0, vm.mem, vm.dirs, vm.owner, vm.current, page);
      TableReached(vm.mem, vm.dirs, vm.owner, -1, vm.current, RECURSIVE);
      var w := vm.Load(RECURSIVE, RECURSIVE, k);
      GetSet(vm.mem, frame, k, w);
      vm.Store(Pd(page), Pt(page), k, w);
    }
    UnownedWritten(mem0, vm.mem, vm.dirs, vm.owner, frame);
    StackEntry(vm.frames, mem0, vm.dirs, vm.owner);
    FrameSpared(mem0, vm.mem, vm.dirs[0], vm.frames.Held(), frame);
    StaysStored(vm.frames, mem0, vm.mem, vm.dirs[0]);
    SameAllPages(mem0, vm.mem, vm.dirs, 0, 0);
    CopyKept(mem0, vm.mem, vm.dirs, vm.mapped, vm.owner, vm.frames.Held(), 0, 0);
  }

  lemma FrameSpared(mem: Memory, mem': Memory, dir: int, held: set<int>, g: int)
    requires OnlyFrame(mem, mem', g) && g !in held && g != dir && g != Get(mem, dir, STACK_PD).frame
    ensures StackWords(mem, mem', dir, held)
  {
  }

  lemma NewFrame(owner: map<int, Owner>, held: set<int>, mem: Memory, mem': Memory, owner': map<int, Owner>, held': set<int>,
                 dirs: map<int, int>, f: int)
    requires FramesOk(owner, held) && f in held && Effect(mem, owner, held - {f}, mem', owner', held', dirs)
    ensures f !in owner' && f !in held'
  {
    hide Get;
  }

  /** The copied directory makes a space that has no page of its own yet. */
  lemma SpaceCreated(mem: Memory, mem': Memory, dirs: map<int, int>, owner: map<int, Owner>, held: set<int>, mapped: map<int, (int, int)>,
                 segments: map<int, seq<Segment>>, id: int, f: int, page: int)
    requires Core(mem', dirs, owner, -1) && Windows(mem', dirs, mapped) && DataOk(mem', dirs, owner) && UserReady(mem', dirs)
    requires Agree(mem, dirs, segments) && Lists(segments, dirs) && 0 in segments && KernelCovers(owner, dirs, mapped, segments[0])
    requires SamePages(mem, mem', dirs, 0, 0, 0) && 0 in dirs && id !in dirs && id != 0 && f !in owner
    requires forall k :: 0 <= k < ENTRIES ==> Get(mem', f, k) == Get(mem', dirs[0], k)
    requires OwnPage(0, page) && page != TEMPORARY && Covered(segments[0], page * PAGE)
    requires Flat(mem', dirs, 0, page) == Word(f, MapFlags(0, READ_WRITE))
    ensures var dirs', owner', mapped', segments' := dirs[id := f], owner[f := Directory(id)], mapped[id := (Pd(page), Pt(page))], segments[id := NEW_LIST];
            && Core(mem', dirs', owner', -1) && Windows(mem', dirs', mapped') && DataOk(mem', dirs', owner') && UserReady(mem', dirs')
            && Agree(mem', dirs', segments') && Lists(segments', dirs') && KernelCovers(owner', dirs', mapped', segments'[0])
  {
    hide Get, Walk, Flat, Core, Windows, DataOk, UserReady, OwnPage, Pd, Pt, Agree, Lists, KernelCovers, SamePages, Covered, MapFlags;
    NewCore(mem', dirs, owner, id, f);
    NewWindow(mem', dirs, owner, mapped, id, f, page);
    NewUnmapped(mem', dirs, owner, id, f);
    NewData(mem', dirs, owner, id, f);
    AgreeSame(mem, mem', dirs, segments);
    NewAgree(mem', dirs, segments, id, f);
    NewCovers(owner, dirs, mapped, segments, id, f, page);
  }

  lemma NewCore(mem: Memory, dirs: map<int, int>, owner: map<int, Owner>, id: int, f: int)
    requires Core(mem, dirs, owner, -1) && id !in dirs && id != 0 && f !in owner
    requires 0 in dirs && forall k :: 0 <= k < ENTRIES ==> Get(mem, f, k) == Get(mem, dirs[0], k)
    ensures Core(mem, dirs[id := f], owner[f := Directory(id)], -1)
  {
    hide Get;
    var dirs', owner' := dirs[id := f], owner[f := Directory(id)];
    forall j | j in dirs' ensures dirs'[j] in owner' && owner'[dirs'[j]] == Directory(j) {
      if j != id { DirOwner(mem, dirs, owner, -1, j); }
    }
    assert Shared(mem, dirs', -1);
    forall j, p | j in dirs' && Private(j, p) && Get(mem, dirs'[j], p) != NONE
      ensures var e := Get(mem, dirs'[j], p); Present(e) && e.frame in owner' && owner'[e.frame] == Table(j, p)
    {
      assert j != id by { assert Get(mem, f, p) == Get(mem, dirs[0], p); }
      TableFrame(mem, dirs, owner, -1, j, p);
    }
  }

  lemma NewWindow(mem: Memory, dirs: map<int, int>, owner: map<int, Owner>, mapped: map<int, (int, int)>, id: int, f: int, page: int)
    requires Windows(mem, dirs, mapped) && id !in dirs && id != 0 && OwnPage(0, page) && page != TEMPORARY
    requires 0 in dirs && Flat(mem, dirs, 0, page) == Word(f, MapFlags(0, READ_WRITE))
    ensures Windows(mem, dirs[id := f], mapped[id := (Pd(page), Pt(page))])
  {
    hide Walk, Pd, Pt;
    FlagsNotNone(0, READ_WRITE, f);
    OwnIndex(0, page);
    PageIndex(page);
    PageIndex(TEMPORARY);
    OwnIndex(0, TEMPORARY);
    var dirs', mapped' := dirs[id := f], mapped[id := (Pd(page), Pt(page))];
    forall j | j in dirs' && j != 0 ensures Window(mem, dirs', mapped', j) {
      if j != id { assert Window(mem, dirs, mapped, j); }
    }
  }

  lemma NewUnmapped(mem: Memory, dirs: map<int, int>, owner: map<int, Owner>, id: int, f: int)
    requires Core(mem, dirs, owner, -1) && id != 0 && 0 in dirs && forall k :: 0 <= k < ENTRIES ==> Get(mem, f, k) == Get(mem, dirs[0], k)
    ensures forall v :: OwnPage(id, v) ==> Flat(mem, dirs[id := f], id, v) == NONE
  {
    hide Get, TablesOwned, Directories;
    forall v | OwnPage(id, v) ensures Flat(mem, dirs[id := f], id, v) == NONE {
      OwnIndex(id, v);
      assert Get(mem, f, Pd(v)) == Get(mem, dirs[0], Pd(v));
    }
  }

  lemma NewData(mem: Memory, dirs: map<int, int>, owner: map<int, Owner>, id: int, f: int)
    requires DataOk(mem, dirs, owner) && UserReady(mem, dirs) && id !in dirs && id != 0 && f !in owner
    requires forall v :: OwnPage(id, v) ==> Flat(mem, dirs[id := f], id, v) == NONE
    ensures DataOk(mem, dirs[id := f], owner[f := Directory(id)]) && UserReady(mem, dirs[id := f])
  {
    var dirs', owner' := dirs[id := f], owner[f := Directory(id)];
    FlatOthers(mem, dirs, id, f);
    hide Flat, OwnPage, Get;
    forall g | g in owner' && owner'[g].Data? ensures Placed(mem, dirs', owner'[g].id, owner'[g].page, g) {
      assert Placed(mem, dirs, owner[g].id, owner[g].page, g);
    }
  }

  lemma FlatOthers(mem: Memory, dirs: map<int, int>, id: int, f: int)
    ensures forall j, v :: j in dirs && j != id ==> Flat(mem, dirs[id := f], j, v) == Flat(mem, dirs, j, v)
  {
  }

  lemma NewAgree(mem: Memory, dirs: map<int, int>, segments: map<int, seq<Segment>>, id: int, f: int)
    requires Agree(mem, dirs, segments) && id !in dirs && id != 0 && Lists(segments, dirs)
    requires forall v :: OwnPage(id, v) ==> Flat(mem, dirs[id := f], id, v) == NONE
    ensures Agree(mem, dirs[id := f], segments[id := NEW_LIST]) && Lists(segments[id := NEW_LIST], dirs[id := f])
  {
    FlatOthers(mem, dirs, id, f);
    NewListOk(id);
    hide Flat, OwnPage, Covered, List;
    var dirs', segments' := dirs[id := f], segments[id := NEW_LIST];
    forall j, v | j in dirs' && OwnPage(j, v) && j in segments'
      ensures Flat(mem, dirs', j, v) != NONE ==> v >= 1 && Covered(segments'[j], v * PAGE)
      ensures j != 0 && v >= 1 && Covered(segments'[j], v * PAGE) ==> Flat(mem, dirs', j, v) != NONE
    {
      NewUncovered(id, v);
    }
  }

  lemma NewListOk(id: int)
    requires id != 0
    ensures List(NEW_LIST, id)
  {
  }

  lemma NewUncovered(id: int, v: int)
    requires id != 0
    ensures OwnPage(id, v) && v >= 1 ==> !Covered(NEW_LIST, v * PAGE)
  {
  }

  lemma NewCovers(owner: map<int, Owner>, dirs: map<int, int>, mapped: map<int, (int, int)>, segments: map<int, seq<Segment>>, id: int, f: int, page: int)
    requires 0 in segments && KernelCovers(owner, dirs, mapped, segments[0]) && id != 0 && f !in owner && Covered(segments[0], page * PAGE)
    ensures KernelCovers(owner[f := Directory(id)], dirs[id := f], mapped[id := (Pd(page), Pt(page))], segments[id := NEW_LIST][0])
  {
    hide Covered, Pd, Pt, PageNo;
    PageIndex(page);
  }

  lemma FreeCovered(dirs: map<int, int>, mapped: map<int, (int, int)>, segs: seq<Segment>, page: int)
    requires FreePage(dirs, mapped, 0, page) && |segs| > 0
    ensures page != TEMPORARY && Covered(Added(segs, Segment(page * PAGE, PAGE, READ_WRITE)), page * PAGE)
  {
    hide Added;
    AddCovers(segs, Segment(page * PAGE, PAGE, READ_WRITE), page * PAGE);
  }

  lemma MoreTablesData(owner: map<int, Owner>, owner': map<int, Owner>)
    requires MoreTables(owner, owner')
    ensures forall f :: f in owner' && owner'[f].Data? ==> f in owner && owner[f] == owner'[f]
  {
  }

  lemma CreatedJoined(mem0: Memory, owner0: map<int, Owner>, held0: set<int>, mem2: Memory, owner2: map<int, Owner>, held2: set<int>,
                      mem3: Memory, dirs: map<int, int>, id: int, f: int, d: int)
    requires Effect(mem0, owner0, held0 - {f}, mem2, owner2, held2, dirs) && SamePages(mem0, mem2, dirs, 0, d, d + 1)
    requires OnlyFrame(mem2, mem3, f) && SamePages(mem2, mem3, dirs, 0, 0, 0) && f in held0 && f !in owner2 && FramesOk(owner0, held0)
    ensures Created(mem0, owner0, held0, mem3, owner2[f := Directory(id)], held2, dirs, id, f, d)
  {
  }

  /** How many entries of a user directory are in `need`. */
  ghost function Wanted(need: set<int>): int {
    |set pd: int | 0 <= pd < KERNEL && pd in need|
  }

  lemma SpareNew(mem: Memory, mem': Memory, dirs: map<int, int>, need: set<int>, owner: map<int, Owner>, held: set<int>, id: int, f: int)
    requires Core(mem, dirs, owner, -1) && OnlyFrame(mem, mem', f) && f !in owner && 0 in dirs && id !in dirs && id != 0
    requires forall k :: 0 <= k < ENTRIES ==> Get(mem', f, k) == Get(mem', dirs[0], k)
    ensures Spare(mem', dirs[id := f], need, held, id) == Spare(mem, dirs, need, held, 0) - Wanted(need)
  {
    hide Get, MissingIn, TablesOwned;
    DirOwner(mem, dirs, owner, -1, 0);
    MissingSame(mem, mem', dirs, 0);
    MissingAll(mem', f, need, 0, KERNEL);
  }

  lemma {:induction false} MissingAll(mem: Memory, dir: int, need: set<int>, lo: int, hi: int)
    requires lo <= hi && forall p :: lo <= p < hi ==> Get(mem, dir, p) == NONE
    ensures MissingIn(mem, dir, need, lo, hi) == |set pd: int | lo <= pd < hi && pd in need|
    decreases hi - lo
  {
    hide Get;
    if lo < hi {
      MissingAll(mem, dir, need, lo + 1, hi);
      var rest := set pd: int | lo + 1 <= pd < hi && pd in need;
      assert (set pd: int | lo <= pd < hi && pd in need) == rest + if lo in need then {lo} else {};
    } else {
      assert (set pd: int | lo <= pd < hi && pd in need) == {};
    }
  }

  // ---------- fork ----------

  /** Pages of the segments fork copies, from the i-th on. */
  ghost function PagesFrom(segs: seq<Segment>, i: int): (n: int)
    ensures n >= 0
    decreases |segs| - i
  {
    if !(0 <= i < |segs|) then 0
    else (if Reserved(segs[i]) || segs[i].size <= 0 then 0 else segs[i].size / PAGE) + PagesFrom(segs, i + 1)
  }

  /** The directory entries in which the pages of a list's segments lie that fork copies. */
  ghost function TablesOf(segs: seq<Segment>): set<int> {
    set pd: int | 0 <= pd < KERNEL && TouchedBy(segs, pd)
  }

  ghost predicate TouchedBy(segs: seq<Segment>, pd: int) {
    exists k :: 0 <= k < |segs| && !Reserved(segs[k]) && Touched(segs[k], pd)
  }

  ghost predicate Touched(x: Segment, pd: int) {
    exists u :: x.address <= u * PAGE < x.End() && Pd(u) == pd
  }

  lemma SegmentForeseen(need: set<int>, segs: seq<Segment>, c: int, k: int, v: int, n: int)
    requires TablesOf(segs) <= need && 0 <= k < |segs| && !Reserved(segs[k]) && Between(c, v, n) && c != 0
    requires v * PAGE == segs[k].address && n * PAGE == segs[k].size
    ensures Foreseen(need, c, v, n)
  {
    hide Reserved, Between;
    WithinUser(c, v, n);
    forall u | v <= u < v + n ensures Pd(u) in need {
      assert segs[k].address <= u * PAGE < segs[k].End() && 0 <= Pd(u) < KERNEL;
      assert Touched(segs[k], Pd(u)) && TouchedBy(segs, Pd(u));
      assert Pd(u) in TablesOf(segs);
    }
  }

  /** What is spare for the kernel's own tables does not depend on what is needed for those of user spaces. */
  lemma SpareKernel(mem: Memory, dirs: map<int, int>, need: set<int>, need': set<int>, held: set<int>)
    requires 0 in dirs
    ensures Spare(mem, dirs, need, held, 0) == Spare(mem, dirs, need', held, 0)
  {
    hide MissingIn;
  }

  lemma TablesWanted(segs: seq<Segment>)
    ensures Wanted(TablesOf(segs)) == |TablesOf(segs)|
  {
    hide TouchedBy;
    assert (set pd: int | 0 <= pd < KERNEL && pd in TablesOf(segs)) == TablesOf(segs);
  }

  /** The kernel has room to copy every segment of a list. */
  ghost predicate RoomForAll(kernel: seq<Segment>, segs: seq<Segment>) {
    forall k :: 0 <= k < |segs| && !Reserved(segs[k]) ==> Room(kernel, segs[k].size)
  }

  /** The child's pages of a segment are mapped with its protection and read as the parent's did. */
  ghost predicate SegmentCopied(mem: Memory, mem': Memory, dirs: map<int, int>, p: int, c: int, x: Segment) {
    && p in dirs && c in dirs
    && (forall u :: x.address <= u * PAGE < x.End() ==> Flat(mem', dirs, c, u) != NONE && Flat(mem', dirs, c, u).flags == MapFlags(c, x.flags))
    && (forall u, k :: x.address <= u * PAGE < x.End() && 0 <= k < ENTRIES ==> WordOf(mem', dirs, c, u, k) == WordOf(mem, dirs, p, u, k))
  }

  /** Where fork is after copying the first i segments of the parent's list. */
  ghost predicate Forked(mem: Memory, owner: map<int, Owner>, held: set<int>, mem': Memory, owner': map<int, Owner>, held': set<int>,
                         dirs: map<int, int>, p: int, c: int, segs: seq<Segment>, i: int) {
    && 0 <= i <= |segs| && SamePages(mem, mem', dirs, c, 0, KERNEL * ENTRIES) && Taken(owner, held, owner', held', c, 0, KERNEL * ENTRIES)
    && TablesStay(mem, mem', dirs) && Untouched(mem, mem', owner', c, 0, KERNEL * ENTRIES)
    && forall j :: 0 <= j < i && !Reserved(segs[j]) ==> SegmentCopied(mem, mem', dirs, p, c, segs[j])
  }

  /** The child's list after the first i segments: those, and the reserved one at the end. */
  ghost predicate ListCopied(child: seq<Segment>, segs: seq<Segment>, i: int) {
    0 <= i <= |segs| && forall x :: x in child <==> x in segs[..i] || x == USER_TAIL
  }

  /** The loop of fork, along the links of the parent's list. */
  method CopySegments(s: Spaces, p: int, c: int)
    requires s.Valid() && p in s.vm.dirs && c in s.vm.dirs && p != 0 && c != 0 && p != c && 0 in s.segments && p in s.segments
    requires c in s.segments && s.segments[c] == NEW_LIST && NoData(s.vm.owner, c, 0, KERNEL * ENTRIES)
    requires s.SpareIn(c) >= PagesFrom(s.segments[p], 1) && RoomForAll(s.segments[0], s.segments[p]) && s.Slots() >= 3 * |s.segments[p]|
    requires TablesOf(s.segments[p]) <= s.vm.needed
    modifies s`segments, s.table, s.vm`mem, s.vm`owner, s.vm.frames
    ensures s.Valid() && s.segments == old(s.segments[c := s.segments[p]])
    ensures Forked(old(s.vm.mem), old(s.vm.owner), old(s.vm.frames.Held()), s.vm.mem, s.vm.owner, s.vm.frames.Held(), s.vm.dirs, p, c,
                   old(s.segments[p]), |old(s.segments[p])|)
  {
    hide Get, Walk, Flat, Core, Windows, SamePages, Spare, DataOk, UserReady, FrameStack.Valid, FrameStack.Held, FrameStack.StoredIn,
      OwnPage, FramesOk,
      KernelCovers, Agree, Between, Vacant, Lists, List, ListOk, Effect, MapFlags, Owned, Added, TablesStay, CopiedIn, Room, RoomForAll, Forked, ListCopied,
      PagesFrom, Reserved, NoData, L.FreeSlots, Spaces.Described, TablesOf;
    var vm := s.vm;
    ghost var mem0, owner0, held0, segments0 := vm.mem, vm.owner, vm.frames.Held(), s.segments;
    ghost var segs := s.segments[p];
    ListOf(s.segments, vm.dirs, p);
    ListSorted(segs, p);
    ForkStart(mem0, owner0, held0, vm.dirs, p, c, segs);
    ReadDescriptor(s, p, 0);
    ReadDescriptor(s, p, 1);
    ghost var refs, i := s.Descriptors(p), 1;
    var segment := s.table.node[s.heads[p]].next;
    while segment != L.Null
      invariant 1 <= i <= |segs| && s.Valid()
      invariant p in s.heads && s.heads[p] in s.table.lists && s.Descriptors(p) == refs && |refs| == |segs|
      invariant if i < |segs| then segment == refs[i] != L.Null else segment == L.Null
      invariant c in s.segments && s.segments == segments0[c := s.segments[c]] && ListCopied(s.segments[c], segs, i)
      invariant s.SpareIn(c) >= PagesFrom(segs, i) && s.Slots() >= 3 * (|segs| - i)
      invariant Forked(mem0, owner0, held0, vm.mem, vm.owner, vm.frames.Held(), vm.dirs, p, c, segs, i)
      decreases |segs| - i
    {
      ForkStep(segs, i);
      ReadDescriptor(s, p, i);
      var x := L.Value(s.table.node[segment]);
      if !Reserved(x) {
        ghost var mem1, owner1, held1, child := vm.mem, vm.owner, vm.frames.Held(), s.segments[c];
        var v, n := x.address / PAGE, x.size / PAGE;
        ForkRange(s.segments, vm.dirs, p, c, i, v, n);
        ForkOwned(mem1, vm.dirs, owner1, s.segments, p, v, n, i);
        ForkRoom(s.segments[0], segs, i);
        SegmentForeseen(vm.needed, segs, c, i, v, n);
        CopySegment(s, p, c, v, n, x.flags);
        ForkNext(mem0, owner0, held0, mem1, owner1, held1, vm.mem, vm.owner, vm.frames.Held(), vm.dirs, p, c, segs, i, v, n);
        ListNext(child, segs, i);
      } else {
        ForkSkip(mem0, owner0, held0, vm.mem, vm.owner, vm.frames.Held(), vm.dirs, p, c, segs, i);
        ListSkip(s.segments[c], segs, p, i);
      }
      ReadDescriptor(s, p, i);
      segment := s.table.node[segment].next;
      i := i + 1;
      ReadDescriptor(s, p, i);
    }
    ListDone(s.segments, vm.dirs, p, c, segs);
  }

  lemma ForkStart(mem: Memory, owner: map<int, Owner>, held: set<int>, dirs: map<int, int>, p: int, c: int, segs: seq<Segment>)
    requires List(segs, p) && p != 0 && c in dirs && FramesOk(owner, held)
    ensures Forked(mem, owner, held, mem, owner, held, dirs, p, c, segs, 1) && ListCopied(NEW_LIST, segs, 1)
  {
    hide Get, Flat, OwnPage;
    assert segs[..1] == [USER_HEAD];
    assert Reserved(segs[0]);
  }

  lemma ListSorted(segs: seq<Segment>, id: int)
    requires List(segs, id)
    ensures Sorted(segs) && |segs| >= 2
  {
  }

  lemma ForkStep(segs: seq<Segment>, i: int)
    requires 0 <= i < |segs| && Sorted(segs)
    ensures PagesFrom(segs, i) == (if Reserved(segs[i]) then 0 else segs[i].size / PAGE) + PagesFrom(segs, i + 1)
  {
    hide Reserved;
    assert Proper(segs[i]);
  }

  /** A segment to be copied lies in whole pages between the ends, and the child has nothing there yet. */
  lemma ForkRange(segments: map<int, seq<Segment>>, dirs: map<int, int>, p: int, c: int, i: int, v: int, n: int)
    requires Lists(segments, dirs) && p in dirs && c in dirs && p in segments && c in segments && p != 0 && c != 0
    requires 1 <= i < |segments[p]| && !Reserved(segments[p][i]) && ListCopied(segments[c], segments[p], i)
    requires v == segments[p][i].address / PAGE && n == segments[p][i].size / PAGE
    ensures v * PAGE == segments[p][i].address && n * PAGE == segments[p][i].size && n > 0 && Between(c, v, n) && Between(p, v, n)
    ensures Vacant(segments[c], v * PAGE, n * PAGE) && segments[c] != []
  {
    var segs := segments[p];
    assert List(segments[p], p) && List(segments[c], c);
    assert Reserved(USER_TAIL);
    assert i < |segs| - 1 && Proper(segs[i]);
    hide Reserved;
    assert WholePages(segs[i].address) && WholePages(segs[i].size);
    assert segs[0].End() <= segs[i].address && segs[i].End() <= segs[|segs| - 1].address;
    forall k | 0 <= k < |segments[c]| ensures segments[c][k].End() <= segs[i].address || segs[i].End() <= segments[c][k].address {
      var x := segments[c][k];
      if x in segs[..i] { var j :| 0 <= j < i && segs[j] == x; }
    }
  }

  lemma ForkOwned(mem: Memory, dirs: map<int, int>, owner: map<int, Owner>, segments: map<int, seq<Segment>>, p: int, v: int, n: int, i: int)
    requires DataOk(mem, dirs, owner) && Agree(mem, dirs, segments) && p in dirs && p != 0 && p in segments && Between(p, v, n)
    requires 0 <= i < |segments[p]| && v * PAGE == segments[p][i].address && n * PAGE == segments[p][i].size
    ensures Owned(mem, dirs, owner, p, v, n)
  {
    hide Flat, OwnPage, DataOk, Agree, Between;
    forall u | v <= u < v + n ensures OwnPage(p, u) && Backed(mem, dirs, owner, p, u) {
      BetweenOwn(p, v, n, u);
      assert Covered(segments[p], u * PAGE);
      CoveredBacked(mem, dirs, owner, segments, p, u);
    }
  }

  lemma ForkRoom(kernel: seq<Segment>, segs: seq<Segment>, i: int)
    requires RoomForAll(kernel, segs) && 0 <= i < |segs| && !Reserved(segs[i])
    ensures Room(kernel, segs[i].size) && 0 <= segs[i].flags < NOUNMAP
  {
  }

  lemma ForkSkip(mem: Memory, owner: map<int, Owner>, held: set<int>, mem': Memory, owner': map<int, Owner>, held': set<int>,
                 dirs: map<int, int>, p: int, c: int, segs: seq<Segment>, i: int)
    requires Forked(mem, owner, held, mem', owner', held', dirs, p, c, segs, i) && i < |segs| && Reserved(segs[i])
    ensures Forked(mem, owner, held, mem', owner', held', dirs, p, c, segs, i + 1)
  {
    hide SamePages, Taken, TablesStay, Untouched, SegmentCopied;
  }

  lemma ListNext(child: seq<Segment>, segs: seq<Segment>, i: int)
    requires ListCopied(child, segs, i) && i < |segs| && child != []
    ensures ListCopied(Added(child, segs[i]), segs, i + 1)
  {
    hide Added;
    AddedElements(child, segs[i]);
    assert segs[..i + 1] == segs[..i] + [segs[i]];
  }

  lemma ListSkip(child: seq<Segment>, segs: seq<Segment>, p: int, i: int)
    requires ListCopied(child, segs, i) && List(segs, p) && p != 0 && 1 <= i < |segs| && Reserved(segs[i])
    ensures ListCopied(child, segs, i + 1)
  {
    assert i == |segs| - 1 && segs[i] == USER_TAIL;
    assert segs[..i + 1] == segs[..i] + [segs[i]];
  }

  lemma ListDone(segments: map<int, seq<Segment>>, dirs: map<int, int>, p: int, c: int, segs: seq<Segment>)
    requires Lists(segments, dirs) && p in dirs && c in dirs && p in segments && c in segments && p != 0
    requires segments[p] == segs && ListCopied(segments[c], segs, |segs|)
    ensures segments[c] == segs
  {
    assert List(segs, p) && List(segments[c], c);
    assert segs[..|segs|] == segs && segs[|segs| - 1] == USER_TAIL;
    SortedUnique(segments[c], segs);
  }

  /** One more segment copied. */
  lemma ForkNext(mem0: Memory, owner0: map<int, Owner>, held0: set<int>, mem1: Memory, owner1: map<int, Owner>, held1: set<int>,
                 mem2: Memory, owner2: map<int, Owner>, held2: set<int>, dirs: map<int, int>, p: int, c: int,
                 segs: seq<Segment>, i: int, v: int, n: int)
    requires Forked(mem0, owner0, held0, mem1, owner1, held1, dirs, p, c, segs, i) && i < |segs| && p != c && p != 0 && c != 0
    requires CopiedIn(mem1, owner1, held1, mem2, owner2, held2, dirs, p, c, v, n, segs[i].flags)
    requires v * PAGE == segs[i].address && n * PAGE == segs[i].size && Between(c, v, n) && Owned(mem1, dirs, owner1, p, v, n)
    requires DataOk(mem1, dirs, owner1) && List(segs, p)
    ensures Forked(mem0, owner0, held0, mem2, owner2, held2, dirs, p, c, segs, i + 1)
  {
    hide Get, Flat, OwnPage, Taken, TablesStay, SamePages, Untouched, Owned, DataOk, MapFlags, List, Between, Duplicated, Reserved;
    WithinUser(c, v, n);
    WiderTaken(owner0, held0, owner1, held1, owner2, held2, c, v, v + n);
    WiderPages(mem0, mem1, mem2, dirs, c, v, v + n);
    TablesStayTrans(mem0, mem1, mem2, dirs);
    WiderUntouched(mem0, mem1, owner1, held1, mem2, owner2, held2, c, v, v + n);
    NewSegment(mem0, owner1, mem1, mem2, dirs, p, c, segs[i], v, n);
    forall j | 0 <= j < i && !Reserved(segs[j]) ensures SegmentCopied(mem0, mem2, dirs, p, c, segs[j]) {
      SegmentsApart(segs, p, j, i);
      OldSegment(mem0, owner1, held1, mem1, mem2, owner2, held2, dirs, p, c, segs[j], v, n);
    }
  }

  lemma WithinUser(id: int, v: int, n: int)
    requires Between(id, v, n) && id != 0
    ensures 0 <= v && v + n <= KERNEL * ENTRIES && n > 0
  {
  }

  lemma WiderTaken(owner0: map<int, Owner>, held0: set<int>, owner1: map<int, Owner>, held1: set<int>, owner2: map<int, Owner>, held2: set<int>,
                   c: int, lo: int, hi: int)
    requires Taken(owner0, held0, owner1, held1, c, 0, KERNEL * ENTRIES) && Taken(owner1, held1, owner2, held2, c, lo, hi)
    requires 0 <= lo && hi <= KERNEL * ENTRIES
    ensures Taken(owner0, held0, owner2, held2, c, 0, KERNEL * ENTRIES)
    ensures forall f :: f in owner1 ==> f in owner2 && owner2[f] == owner1[f]
  {
    assert forall f :: f in owner1.Keys ==> f in owner2.Keys;
    assert held2 == held0 - owner2.Keys;
  }

  lemma WiderPages(mem0: Memory, mem1: Memory, mem2: Memory, dirs: map<int, int>, c: int, lo: int, hi: int)
    requires SamePages(mem0, mem1, dirs, c, 0, KERNEL * ENTRIES) && SamePages(mem1, mem2, dirs, c, lo, hi) && 0 <= lo && hi <= KERNEL * ENTRIES
    ensures SamePages(mem0, mem2, dirs, c, 0, KERNEL * ENTRIES)
  {
    hide Flat, OwnPage;
  }

  lemma WiderUntouched(mem0: Memory, mem1: Memory, owner1: map<int, Owner>, held1: set<int>, mem2: Memory, owner2: map<int, Owner>, held2: set<int>,
                       c: int, lo: int, hi: int)
    requires Untouched(mem0, mem1, owner1, c, 0, KERNEL * ENTRIES) && Untouched(mem1, mem2, owner2, c, lo, hi)
    requires 0 <= lo && hi <= KERNEL * ENTRIES && forall f :: f in owner1 ==> f in owner2 && owner2[f] == owner1[f]
    ensures Untouched(mem0, mem2, owner2, c, 0, KERNEL * ENTRIES)
  {
    assert Untouched(mem1, mem2, owner2, c, 0, KERNEL * ENTRIES) by { hide Get; }
    hide Get, Untouched;
    UntouchedTrans(mem0, mem1, owner1, mem2, owner2, c, 0, KERNEL * ENTRIES);
  }

  lemma SegmentsApart(segs: seq<Segment>, p: int, j: int, i: int)
    requires List(segs, p) && p != 0 && 0 <= j < i < |segs| && !Reserved(segs[j])
    ensures segs[j].End() <= segs[i].address && USER_HEAD.End() <= segs[j].address && segs[j].End() <= USER_TAIL.address
  {
    assert Reserved(USER_HEAD) && j != 0;
    assert segs[0].End() <= segs[j].address && segs[j].End() <= segs[|segs| - 1].address;
  }

  /** The parent's memory still reads as before fork, so the new segment reads as the parent's did then. */
  lemma NewSegment(mem0: Memory, owner1: map<int, Owner>, mem1: Memory, mem2: Memory, dirs: map<int, int>, p: int, c: int, x: Segment, v: int, n: int)
    requires Untouched(mem0, mem1, owner1, c, 0, KERNEL * ENTRIES) && SamePages(mem0, mem1, dirs, c, 0, KERNEL * ENTRIES)
    requires Duplicated(mem1, mem2, dirs, p, c, v, v + n) && Owned(mem1, dirs, owner1, p, v, n) && p != c
    requires v * PAGE == x.address && n * PAGE == x.size
    requires forall u :: v <= u < v + n ==> Flat(mem2, dirs, c, u) != NONE && Flat(mem2, dirs, c, u).flags == MapFlags(c, x.flags)
    ensures SegmentCopied(mem0, mem2, dirs, p, c, x)
  {
    hide Get, Flat, OwnPage, MapFlags;
    forall u, k | x.address <= u * PAGE < x.End() && 0 <= k < ENTRIES ensures WordOf(mem2, dirs, c, u, k) == WordOf(mem0, dirs, p, u, k) {
      assert v <= u < v + n;
      assert OwnPage(p, u) && Backed(mem1, dirs, owner1, p, u);
      SameWindows(mem0, mem1, dirs, p, u, c, 0, KERNEL * ENTRIES);
      assert WordOf(mem2, dirs, c, u, k) == WordOf(mem1, dirs, p, u, k);
      UntouchedWord(mem0, mem1, owner1, c, 0, KERNEL * ENTRIES, Flat(mem1, dirs, p, u).frame, k);
    }
  }

  lemma UntouchedWord(mem: Memory, mem': Memory, owner': map<int, Owner>, c: int, lo: int, hi: int, g: int, k: int)
    requires Untouched(mem, mem', owner', c, lo, hi) && g in owner' && owner'[g].Data? && !InRange(owner'[g], c, lo, hi)
    ensures Get(mem', g, k) == Get(mem, g, k)
  {
  }

  /** Segments copied before are not written again. */
  lemma OldSegment(mem0: Memory, owner1: map<int, Owner>, held1: set<int>, mem1: Memory, mem2: Memory, owner2: map<int, Owner>, held2: set<int>,
                   dirs: map<int, int>, p: int, c: int, x: Segment, v: int, n: int)
    requires SegmentCopied(mem0, mem1, dirs, p, c, x) && DataOk(mem1, dirs, owner1) && c != 0
    requires SamePages(mem1, mem2, dirs, c, v, v + n) && Untouched(mem1, mem2, owner2, c, v, v + n)
    requires forall f :: f in owner1 ==> f in owner2 && owner2[f] == owner1[f]
    requires x.End() <= v * PAGE && USER_HEAD.End() <= x.address && x.End() <= USER_TAIL.address
    ensures SegmentCopied(mem0, mem2, dirs, p, c, x)
  {
    hide Get, Flat, OwnPage, MapFlags;
    forall u | x.address <= u * PAGE < x.End()
      ensures Flat(mem2, dirs, c, u) == Flat(mem1, dirs, c, u) && forall k :: 0 <= k < ENTRIES ==> WordOf(mem2, dirs, c, u, k) == WordOf(mem1, dirs, c, u, k)
    {
      UserPage(c, u, x);
      SameWindows(mem1, mem2, dirs, c, u, c, v, v + n);
      var g := Flat(mem1, dirs, c, u).frame;
      assert g in owner1 && owner1[g] == Data(c, u);
      forall k | 0 <= k < ENTRIES ensures WordOf(mem2, dirs, c, u, k) == WordOf(mem1, dirs, c, u, k) {
        UntouchedWord(mem1, mem2, owner2, c, v, v + n, g, k);
      }
    }
  }

  lemma UserPage(id: int, u: int, x: Segment)
    requires id != 0 && x.address <= u * PAGE < x.End() && USER_HEAD.End() <= x.address && x.End() <= USER_TAIL.address
    ensures OwnPage(id, u)
  {
  }

  /** What a child created for space p has in common with it. */
  ghost predicate SameMemory(mem: Memory, mem': Memory, dirs: map<int, int>, dirs': map<int, int>, p: int, c: int) {
    && p in dirs && p in dirs' && c in dirs'
    && (forall v :: OwnPage(p, v) ==> (Flat(mem', dirs', c, v) == NONE <==> Flat(mem, dirs, p, v) == NONE))
    && (forall v, k :: OwnPage(p, v) && Flat(mem, dirs, p, v) != NONE && 0 <= k < ENTRIES ==>
         WordOf(mem', dirs', c, v, k) == WordOf(mem, dirs, p, v, k) == WordOf(mem', dirs', p, v, k))
    && (forall v, u :: OwnPage(p, v) && OwnPage(c, u) && Flat(mem, dirs, p, v) != NONE && Flat(mem', dirs', c, u) != NONE ==>
         Flat(mem', dirs', c, u).frame != Flat(mem, dirs, p, v).frame)
  }

  /** Frames newly used by fork are tables, the child's directory and its memory, all taken from the free ones. */
  ghost predicate TakenForChild(owner: map<int, Owner>, held: set<int>, owner': map<int, Owner>, held': set<int>, c: int) {
    && (forall g :: g in owner ==> g in owner' && owner'[g] == owner[g])
    && (forall g :: g in owner' && g !in owner ==> g in held && (owner'[g].Table? || owner'[g].id == c))
    && held' == held - owner'.Keys
  }

  /** Every flat map, but for kernel page d, and the words of all memory in use are as before. */
  ghost predicate OthersSame(mem: Memory, owner: map<int, Owner>, mem': Memory, dirs: map<int, int>, dirs': map<int, int>, d: int) {
    && (forall j, v :: j in dirs && OwnPage(j, v) && (j, v) != (0, d) ==> j in dirs' && Flat(mem', dirs', j, v) == Flat(mem, dirs, j, v))
    && (forall g, i :: g in owner && owner[g].Data? ==> Get(mem', g, i) == Get(mem, g, i))
  }

  /**
    AddressSpace::fork: with enough frames (for the child's directory, pages and page tables), descriptors and room in the kernel, the child gets the parent's segments, every byte
    in them reads the same in frames of its own, the kernel's list gains the page at which the child's directory is mapped,
    and nothing else in any space changes but for the window of the frame stack.
   */
  method Fork(s: Spaces, p: int, c: int, first: L.Ref) returns (ghost d: int)
    requires s.Valid() && p in s.vm.dirs && p != 0 && c !in s.vm.dirs && c != 0 && 0 in s.segments && p in s.segments
    requires HasGap(s.segments[0], PAGE) && s.segments[0] != []
    requires RoomForAll(Added(s.segments[0], AtGap(s.segments[0], PAGE, READ_WRITE)), s.segments[p])
    requires s.SpareIn(0) >= 1 + |TablesOf(s.segments[p])| + PagesFrom(s.segments[p], 1)
    requires s.Slots() >= 2 + 3 * |s.segments[p]| && first.Own? && first !in s.table.node
    modifies s`segments, s`heads, s.table, s.vm`mem, s.vm`owner, s.vm`dirs, s.vm`mapped, s.vm`spaces, s.vm`needed, s.vm.frames
    ensures s.Valid() && s.vm.needed == old(s.vm.needed) && s.vm.dirs.Keys == old(s.vm.dirs.Keys) + {c} && s.vm.spaces == [c] + old(s.vm.spaces)
    ensures c in s.segments && s.segments[c] == old(s.segments[p])
    ensures forall j :: j in old(s.vm.dirs) && j != 0 ==> j in s.segments && s.segments[j] == old(s.segments[j])
    ensures 0 in s.segments && s.segments[0] == old(Added(s.segments[0], AtGap(s.segments[0], PAGE, READ_WRITE)))
    ensures d * PAGE == old(AtGap(s.segments[0], PAGE, READ_WRITE)).address
    ensures SameMemory(old(s.vm.mem), s.vm.mem, old(s.vm.dirs), s.vm.dirs, p, c)
    ensures forall k :: 0 <= k < |s.segments[c]| && !Reserved(s.segments[c][k]) ==>
      forall u :: s.segments[c][k].address <= u * PAGE < s.segments[c][k].End() ==>
        Protected(s.vm.mem, s.vm.dirs, c, u, s.segments[c][k].flags)
    ensures TakenForChild(old(s.vm.owner), old(s.vm.frames.Held()), s.vm.owner, s.vm.frames.Held(), c)
    ensures OthersSame(old(s.vm.mem), old(s.vm.owner), s.vm.mem, old(s.vm.dirs), s.vm.dirs, d)
  {
    hide Get, Walk, Flat, Core, Windows, SamePages, Spare, DataOk, UserReady, FrameStack.Valid, FrameStack.Held, FrameStack.StoredIn,
      OwnPage, FramesOk,
      KernelCovers, Agree, Vacant, Lists, List, ListOk, MapFlags, Added, Room, RoomForAll, Forked, PagesFrom, Reserved, NoData, HasGap, AtGap,
      Created, SameMemory, TakenForChild, OthersSame, L.FreeSlots, Spaces.Described, TablesOf, Wanted, Protected;
    var vm := s.vm;
    ghost var mem0, owner0, held0, dirs0, segments0 := vm.mem, vm.owner, vm.frames.Held(), vm.dirs, s.segments;
    ListsKeys(s.segments, vm.dirs);
    vm.needed := TablesOf(s.segments[p]);
    SpareKernel(mem0, dirs0, old(vm.needed), vm.needed, held0);
    TablesWanted(s.segments[p]);
    ghost var f;
    f, d := Create(s, c, first);
    ghost var mem1, owner1, held1, dirs1 := vm.mem, vm.owner, vm.frames.Held(), vm.dirs;
    ChildEmpty(mem0, owner0, held0, mem1, owner1, held1, dirs0, c, f, d);
    CopySegments(s, p, c);
    vm.needed := old(vm.needed);
    ghost var mem2, owner2, held2 := vm.mem, vm.owner, vm.frames.Held();
    ForkPages(mem0, owner0, held0, mem1, owner1, held1, mem2, owner2, held2, dirs0, p, c, f, d, segments0[p]);
    ForkMemory(mem0, owner0, held0, mem1, owner1, held1, mem2, owner2, held2, dirs0, p, c, f, d, segments0, s.segments);
    ListOf(s.segments, dirs1, c);
    ForkProtects(mem1, owner1, held1, mem2, owner2, held2, dirs1, p, c, segments0[p]);
  }

  lemma ListsKeys(segments: map<int, seq<Segment>>, dirs: map<int, int>)
    requires Lists(segments, dirs)
    ensures forall j :: j in dirs ==> j in segments
  {
    hide List;
  }

  lemma ChildEmpty(mem0: Memory, owner0: map<int, Owner>, held0: set<int>, mem1: Memory, owner1: map<int, Owner>, held1: set<int>,
                   dirs: map<int, int>, c: int, f: int, d: int)
    requires DataOk(mem0, dirs, owner0) && c !in dirs && Created(mem0, owner0, held0, mem1, owner1, held1, dirs, c, f, d)
    ensures NoData(owner1, c, 0, KERNEL * ENTRIES)
  {
    hide Flat, OwnPage, Get;
    forall g | g in owner1 && owner1[g].Data? ensures owner1[g].id != c {
      assert Placed(mem0, dirs, owner0[g].id, owner0[g].page, g);
    }
  }

  lemma ForkPages(mem0: Memory, owner0: map<int, Owner>, held0: set<int>, mem1: Memory, owner1: map<int, Owner>, held1: set<int>,
                  mem2: Memory, owner2: map<int, Owner>, held2: set<int>, dirs: map<int, int>, p: int, c: int, f: int, d: int, segs: seq<Segment>)
    requires Created(mem0, owner0, held0, mem1, owner1, held1, dirs, c, f, d) && c !in dirs && c != 0
    requires Forked(mem1, owner1, held1, mem2, owner2, held2, dirs[c := f], p, c, segs, |segs|) && DataOk(mem0, dirs, owner0)
    ensures TakenForChild(owner0, held0, owner2, held2, c) && OthersSame(mem0, owner0, mem2, dirs, dirs[c := f], d)
  {
    FlatOthers(mem1, dirs, c, f);
    FlatOthers(mem2, dirs, c, f);
    hide Flat, OwnPage, Get, TablesStay, SegmentCopied;
    assert held2 == held0 - owner2.Keys by {
      assert forall g :: g in owner1.Keys ==> g in owner2.Keys;
    }
    forall g, i | g in owner0 && owner0[g].Data? ensures Get(mem2, g, i) == Get(mem0, g, i) {
      assert Placed(mem0, dirs, owner0[g].id, owner0[g].page, g);
      WordKept(mem0, mem1, owner1, g, i);
      UntouchedWord(mem1, mem2, owner2, c, 0, KERNEL * ENTRIES, g, i);
    }
  }

  lemma ForkMemory(mem0: Memory, owner0: map<int, Owner>, held0: set<int>, mem1: Memory, owner1: map<int, Owner>, held1: set<int>,
                   mem2: Memory, owner2: map<int, Owner>, held2: set<int>, dirs: map<int, int>, p: int, c: int, f: int, d: int,
                   segments: map<int, seq<Segment>>, segments': map<int, seq<Segment>>)
    requires Created(mem0, owner0, held0, mem1, owner1, held1, dirs, c, f, d) && c !in dirs && c != 0 && p in dirs && p != 0
    requires p in segments && c in segments' && segments'[c] == segments[p] && Lists(segments, dirs)
    requires Forked(mem1, owner1, held1, mem2, owner2, held2, dirs[c := f], p, c, segments[p], |segments[p]|)
    requires DataOk(mem0, dirs, owner0) && DataOk(mem2, dirs[c := f], owner2)
    requires Agree(mem0, dirs, segments) && Agree(mem2, dirs[c := f], segments')
    ensures SameMemory(mem0, mem2, dirs, dirs[c := f], p, c)
  {
    ForkPages(mem0, owner0, held0, mem1, owner1, held1, mem2, owner2, held2, dirs, p, c, f, d, segments[p]);
    var dirs' := dirs[c := f];
    hide Flat, OwnPage, Get, TablesStay, TakenForChild, Lists, DataOk, Created, Forked, Agree;
    forall v | OwnPage(p, v) ensures Flat(mem2, dirs', c, v) == NONE <==> Flat(mem0, dirs, p, v) == NONE {
      SameOwn(p, c, v);
      AgreeBoth(mem0, dirs, segments, p, mem2, dirs', segments', c, v);
    }
    forall v, k | OwnPage(p, v) && Flat(mem0, dirs, p, v) != NONE && 0 <= k < ENTRIES
      ensures WordOf(mem2, dirs', c, v, k) == WordOf(mem0, dirs, p, v, k) == WordOf(mem2, dirs', p, v, k)
    {
      ForkWord(mem0, owner0, held0, mem1, owner1, held1, mem2, owner2, held2, dirs, p, c, f, d, segments, v, k);
    }
    forall v, u | OwnPage(p, v) && OwnPage(c, u) && Flat(mem0, dirs, p, v) != NONE && Flat(mem2, dirs', c, u) != NONE
      ensures Flat(mem2, dirs', c, u).frame != Flat(mem0, dirs, p, v).frame
    {
      FramesApart(mem2, dirs', owner2, c, u, p, v);
    }
  }

  lemma SameOwn(p: int, c: int, v: int)
    requires p != 0 && c != 0
    ensures OwnPage(p, v) <==> OwnPage(c, v)
  {
  }

  lemma AgreeBoth(mem0: Memory, dirs0: map<int, int>, segments0: map<int, seq<Segment>>, p: int,
                  mem2: Memory, dirs2: map<int, int>, segments2: map<int, seq<Segment>>, c: int, v: int)
    requires Agree(mem0, dirs0, segments0) && Agree(mem2, dirs2, segments2) && p in dirs0 && c in dirs2 && p != 0 && c != 0
    requires p in segments0 && c in segments2 && segments0[p] == segments2[c] && OwnPage(p, v) && OwnPage(c, v)
    ensures Flat(mem2, dirs2, c, v) == NONE <==> Flat(mem0, dirs0, p, v) == NONE
  {
    hide Flat, OwnPage, Covered;
  }

  /** A mapped page of a user space lies in a segment that fork copies. */
  lemma MappedSegment(mem: Memory, dirs: map<int, int>, segments: map<int, seq<Segment>>, p: int, v: int) returns (k: int)
    requires Agree(mem, dirs, segments) && Lists(segments, dirs) && p in dirs && p != 0 && p in segments && OwnPage(p, v)
    requires Flat(mem, dirs, p, v) != NONE
    ensures 0 <= k < |segments[p]| && !Reserved(segments[p][k]) && segments[p][k].address <= v * PAGE < segments[p][k].End()
  {
    hide Flat, Reserved;
    assert v >= 1 && Covered(segments[p], v * PAGE);
    assert List(segments[p], p);
    k :| 0 <= k < |segments[p]| && segments[p][k].address <= v * PAGE < segments[p][k].End();
    assert 0 < k < |segments[p]| - 1;
  }

  lemma ForkWord(mem0: Memory, owner0: map<int, Owner>, held0: set<int>, mem1: Memory, owner1: map<int, Owner>, held1: set<int>,
                 mem2: Memory, owner2: map<int, Owner>, held2: set<int>, dirs: map<int, int>, p: int, c: int, f: int, d: int,
                 segments: map<int, seq<Segment>>, v: int, k: int)
    requires Created(mem0, owner0, held0, mem1, owner1, held1, dirs, c, f, d) && c !in dirs && c != 0 && p in dirs && p != 0
    requires p in segments && Lists(segments, dirs) && DataOk(mem0, dirs, owner0) && Agree(mem0, dirs, segments)
    requires Forked(mem1, owner1, held1, mem2, owner2, held2, dirs[c := f], p, c, segments[p], |segments[p]|)
    requires OthersSame(mem0, owner0, mem2, dirs, dirs[c := f], d)
    requires OwnPage(p, v) && Flat(mem0, dirs, p, v) != NONE && 0 <= k < ENTRIES
    ensures WordOf(mem2, dirs[c := f], c, v, k) == WordOf(mem0, dirs, p, v, k) == WordOf(mem2, dirs[c := f], p, v, k)
  {
    var dirs' := dirs[c := f];
    var g := Flat(mem0, dirs, p, v).frame;
    assert g in owner0 && owner0[g] == Data(p, v);
    FlatOthers(mem1, dirs, c, f);
    var j := MappedSegment(mem0, dirs, segments, p, v);
    hide Flat, OwnPage, Get, TablesStay, Lists, Agree, Reserved, DataOk;
    SameWindows(mem0, mem1, dirs, p, v, 0, d, d + 1);
    WordKept(mem0, mem1, owner1, g, k);
    assert Flat(mem1, dirs', p, v).frame == g;
    assert SegmentCopied(mem1, mem2, dirs', p, c, segments[p][j]);
  }

  /** The child's pages allow what their segment says. */
  lemma ForkProtects(mem1: Memory, owner1: map<int, Owner>, held1: set<int>, mem2: Memory, owner2: map<int, Owner>, held2: set<int>,
                     dirs: map<int, int>, p: int, c: int, segs: seq<Segment>)
    requires Forked(mem1, owner1, held1, mem2, owner2, held2, dirs, p, c, segs, |segs|) && c in dirs && c != 0
    requires List(segs, c) && Core(mem2, dirs, owner2, -1)
    ensures forall k :: 0 <= k < |segs| && !Reserved(segs[k]) ==>
      forall u :: segs[k].address <= u * PAGE < segs[k].End() ==> Protected(mem2, dirs, c, u, segs[k].flags)
  {
    hide Flat, MapFlags, Reserved, Get, List, Protected, Core, OwnPage, SamePages, Taken, TablesStay, Untouched;
    forall k | 0 <= k < |segs| && !Reserved(segs[k])
      ensures forall u :: segs[k].address <= u * PAGE < segs[k].End() ==> Protected(mem2, dirs, c, u, segs[k].flags)
    {
      assert SegmentCopied(mem1, mem2, dirs, p, c, segs[k]);
      forall u | segs[k].address <= u * PAGE < segs[k].End() ensures Protected(mem2, dirs, c, u, segs[k].flags) {
        SegmentPages(segs, c, k, u);
        FlagsProtect(mem2, dirs, owner2, c, u, segs[k].flags);
      }
    }
  }

  /** The pages of a segment that is not reserved are the space's own. */
  lemma SegmentPages(segs: seq<Segment>, id: int, k: int, u: int)
    requires List(segs, id) && id != 0 && 0 <= k < |segs| && !Reserved(segs[k]) && segs[k].address <= u * PAGE < segs[k].End()
    ensures OwnPage(id, u)
  {
    assert Reserved(USER_TAIL) && Reserved(USER_HEAD);
    hide Reserved;
    assert 0 < k < |segs| - 1;
    assert segs[0].End() <= segs[k].address && segs[k].End() <= segs[|segs| - 1].address;
  }
}
