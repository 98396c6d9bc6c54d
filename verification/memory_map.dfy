/**
  Mapping and unmapping memory in address spaces: segments, flat maps and free
  frames change together.
 */
module MemoryMaps {
  import opened FrameStacks
  import opened PageTables
  import opened AddressSpaces
  import opened FlatMaps
  import opened Segments
  import opened SpaceSegments
  import opened SpaceRules
  import opened SpaceTables
  import L = SegmentLists
  import T = SegmentTables

  const WRITE: int := 2

  /** protectionToFlags, with PAGE_USER for user spaces. */
  function MapFlags(id: int, protection: int): (flags: int)
    ensures flags % 2 == 1
  {
    1 + (if protection / WRITE % 2 == 1 then 2 else 0) + (if id == 0 then 0 else 4)
  }

  /** Used frames grew by tables and by memory for pages [lo, hi) of space id, all taken from the free frames. */
  ghost predicate Taken(owner: map<int, Owner>, held: set<int>, owner': map<int, Owner>, held': set<int>, id: int, lo: int, hi: int) {
    && (forall f :: f in owner ==> f in owner' && owner'[f] == owner[f])
    && (forall f :: f in owner' && f !in owner ==>
         f in held && (owner'[f].Table? || (owner'[f].Data? && owner'[f].id == id && lo <= owner'[f].page < hi)))
    && held' == held - owner'.Keys
  }

  lemma TakenTrans(owner0: map<int, Owner>, held0: set<int>, owner1: map<int, Owner>, held1: set<int>,
                   owner2: map<int, Owner>, held2: set<int>, id: int, lo: int, mid: int, hi: int)
    requires Taken(owner0, held0, owner1, held1, id, lo, mid) && Taken(owner1, held1, owner2, held2, id, mid, hi) && lo <= mid <= hi
    ensures Taken(owner0, held0, owner2, held2, id, lo, hi)
  {
    assert forall f :: f in owner1.Keys ==> f in owner2;
    assert held2 == held0 - owner2.Keys;
  }

  /** A page of memory taken from the free frames after the tables it needed. */
  lemma TakenPage(owner: map<int, Owner>, held: set<int>, owner1: map<int, Owner>, held1: set<int>, f: int, id: int, v: int)
    requires f in held && held !! owner.Keys && Grew(owner, held - {f}, owner1, held1)
    ensures f !in owner1 && Taken(owner, held, owner1[f := Data(id, v)], held1, id, v, v + 1) && MoreTables(owner, owner1)
    ensures held1 !! owner1[f := Data(id, v)].Keys
  {
    assert held1 == held - owner1[f := Data(id, v)].Keys;
  }

  lemma GrewTaken(owner: map<int, Owner>, held: set<int>, owner': map<int, Owner>, held': set<int>, id: int, v: int)
    requires Grew(owner, held, owner', held')
    ensures Taken(owner, held, owner', held', id, v, v) && MoreTables(owner, owner')
  {
  }

  lemma ContentsTrans(mem0: Memory, mem1: Memory, owner1: map<int, Owner>, mem2: Memory, owner2: map<int, Owner>)
    requires ContentsKept(mem0, mem1, owner1) && ContentsKept(mem1, mem2, owner2)
    requires forall f :: f in owner1 ==> f in owner2 && owner2[f] == owner1[f]
    ensures ContentsKept(mem0, mem2, owner2)
  {
    hide Get;
    forall g, i ensures Get(mem2, g, i) == Get(mem0, g, i) || (g in owner2 && !owner2[g].Data?) {
      assert Get(mem1, g, i) == Get(mem0, g, i) || (g in owner1 && !owner1[g].Data?);
    }
  }

  /** The words of all frames used as memory are as before. */
  ghost predicate MemoryKept(mem: Memory, mem': Memory, owner: map<int, Owner>) {
    forall g, i :: g in owner && owner[g].Data? ==> Get(mem', g, i) == Get(mem, g, i)
  }

  lemma MemoryTrans(mem0: Memory, mem1: Memory, owner1: map<int, Owner>, mem2: Memory, owner2: map<int, Owner>)
    requires MemoryKept(mem0, mem1, owner1) && MemoryKept(mem1, mem2, owner2)
    requires forall f :: f in owner2 ==> f in owner1 && owner2[f] == owner1[f]
    ensures MemoryKept(mem0, mem2, owner2)
  {
    hide Get;
  }

  /** Taking a frame changes no flat map and no memory. */
  lemma FrameTaken(mem: Memory, mem': Memory, dirs: map<int, int>, owner: map<int, Owner>, held: set<int>, id: int, v: int)
    requires DataOk(mem, dirs, owner) && UserReady(mem, dirs) && SameAll(mem, mem', dirs) && 0 in dirs
    requires Effect(mem, owner, held, mem', owner, held, dirs)
    ensures DataOk(mem', dirs, owner) && UserReady(mem', dirs) && SamePages(mem, mem', dirs, id, v, v)
    ensures Walk(mem', dirs[0], TEMP_PD, 0x3FF) == Walk(mem, dirs[0], TEMP_PD, 0x3FF)
  {
    hide Get, Walk, Flat, DataOk, UserReady, OwnPage, SameAll;
    SameAllPages(mem, mem', dirs, id, v);
    EffectParts(mem, owner, held, mem', owner, held, dirs);
    AllKept(mem, mem', dirs, owner, id, v);
    TempStill(mem, mem', dirs);
  }

  /** Giving a frame back changes no flat map and no memory. */
  lemma FrameGiven(mem: Memory, mem': Memory, dirs: map<int, int>, owner: map<int, Owner>, held: set<int>, id: int, v: int)
    requires DataOk(mem, dirs, owner) && UserReady(mem, dirs) && SameAll(mem, mem', dirs) && TablesStay(mem, mem', dirs) && 0 in dirs
    ensures DataOk(mem', dirs, owner) && UserReady(mem', dirs) && SamePages(mem, mem', dirs, id, v, v) && SamePages(mem, mem', dirs, id, v + 1, v + 1)
    ensures Walk(mem', dirs[0], TEMP_PD, 0x3FF) == Walk(mem, dirs[0], TEMP_PD, 0x3FF)
  {
    hide Get, Walk, Flat, DataOk, UserReady, OwnPage, SameAll;
    SameAllPages(mem, mem', dirs, id, v);
    SameAllPages(mem, mem', dirs, id, v + 1);
    AllKept(mem, mem', dirs, owner, id, v);
    TempStill(mem, mem', dirs);
  }

  lemma GivenContents(mem0: Memory, mem2: Memory, mem3: Memory, owner0: map<int, Owner>, owner2: map<int, Owner>, held: set<int>, f: int, t: int)
    requires ContentsKept(mem0, mem2, owner0) && FramesOk(owner0, held) && owner2 == owner0 - {f}
    requires t in owner0 && owner0[t].Table? && forall g, i :: Get(mem3, g, i) == Get(mem2, g, i) || g == t || g in held
    ensures MemoryKept(mem0, mem3, owner2)
  {
    hide Get;
    forall g, i | g in owner2 && owner2[g].Data? ensures Get(mem3, g, i) == Get(mem0, g, i) {
      assert g in owner0.Keys && g !in held && g != t;
    }
  }

  /** The page table of the stack's window is a used frame. */
  lemma StackTable(vm: Vm)
    requires vm.Ok()
    ensures 0 in vm.dirs && var t := Get(vm.mem, vm.dirs[0], STACK_PD).frame; t in vm.owner && vm.owner[t] == Table(0, STACK_PD)
  {
    hide Get, FrameStack.Valid, FrameStack.Held, FrameStack.StoredIn, Windows, Core;
    StackEntry(vm.frames, vm.mem, vm.dirs, vm.owner);
  }

  /** What is read in the i-th descriptor of a space: its segment, and where the next one is. */
  lemma ReadDescriptor(s: Spaces, id: int, i: int)
    requires s.Described() && id in s.vm.dirs && id in s.segments
    ensures id in s.heads && s.heads[id] in s.table.lists && |s.Descriptors(id)| == |s.segments[id]|
    ensures s.Descriptors(id) != [] && s.Descriptors(id)[0] == s.heads[id]
    ensures 0 <= i < |s.segments[id]| ==>
      var refs := s.Descriptors(id);
      && refs[i] != L.Null && refs[i] in s.table.node && L.Value(s.table.node[refs[i]]) == s.segments[id][i]
      && s.table.node[refs[i]].next == L.NextRef(refs, i)
  {
    hide L.FreeSlots, T.PoolOk, T.ListsOk, L.ListRep, L.Values, T.Space;
    T.ListOf(s.table.node, s.table.lists, s.heads[id]);
    if 0 <= i < |s.segments[id]| { T.ReadHere(s.table.node, s.Descriptors(id), i); }
  }

  class Spaces {
    const vm: Vm
    /** The descriptors of all lists, and where the list of each space starts. */
    const table: T.SegmentTable
    var heads: map<int, L.Ref>
    /** The lists as values. */
    var segments: map<int, seq<Segment>>

    constructor (vm: Vm, table: T.SegmentTable, segments: map<int, seq<Segment>>)
      ensures this.vm == vm && this.table == table && this.segments == segments && heads == map[0 := table.kernelFirst]
    {
      this.vm, this.table, this.heads, this.segments := vm, table, map[0 := table.kernelFirst], segments;
    }

    /** How many segments can be added before the pool of descriptors maps itself another page. */
    ghost function Slots(): int
      reads table
    {
      L.FreeSlots(table.node, L.SLOTS * table.pages) - 2
    }

    /** The table is in order, and its lists are those of the spaces. */
    ghost predicate Described()
      reads `heads, `segments, vm`dirs, table
    {
      table.Valid() && Describes(table.node, table.lists, table.kernelFirst, heads, segments, vm.dirs)
    }

    /** The descriptors of a space, in the order in which they are linked. */
    ghost function Descriptors(id: int): seq<L.Ref>
      reads `heads, table
      requires id in heads && heads[id] in table.lists
    {
      table.lists[heads[id]]
    }

    /** findFreeSegment, in pages. */
    method FindGap(id: int, n: nat) returns (v: int)
      requires Described() && Lists(segments, vm.dirs) && id in vm.dirs && id in segments && n > 0 && HasGap(segments[id], n * PAGE)
      requires id == 0 ==> AllCovered(segments[0], STACK_WINDOW.address, STACK_WINDOW.size)
      ensures v * PAGE == segments[id][GapIndex(segments[id], n * PAGE)].End()
      ensures Between(id, v, n) && Vacant(segments[id], v * PAGE, n * PAGE)
    {
      hide Between, Vacant, AllCovered, L.Values, T.ListsOk, T.PoolOk, L.FreeSlots, GapIndex, HasGap;
      assert List(segments[id], id);
      GapRange(segments[id], id, n);
      var address := table.FindFreeSegment(heads[id], n * PAGE);
      v := address / PAGE;
    }

    /** addSegment: the range goes into the list and, when it takes the last slot but one, the kernel's list gets the pool's next page. */
    method Reserve(id: int, v: int, n: int, flags: int) returns (grew: bool)
      requires Described() && Lists(segments, vm.dirs) && id in vm.dirs && id in segments
      requires Between(id, v, n) && Vacant(segments[id], v * PAGE, n * PAGE)
      requires Slots() == 0 ==> PageFits(WithSegment(segments, id, Segment(v * PAGE, n * PAGE, flags)))
      modifies `segments, table
      ensures Described() && grew == (old(Slots()) == 0) && OthersStay(old(table.lists), table.lists, heads, vm.dirs, id)
      ensures var after := WithSegment(old(segments), id, Segment(v * PAGE, n * PAGE, flags));
              && (old(Slots()) != 0 ==> segments == after && Slots() == old(Slots()) - 1 && table.node.Keys == old(table.node).Keys)
              && (old(Slots()) == 0 ==> PageFits(after) && segments == WithPage(after) && Slots() == L.SLOTS - 2)
    {
      hide Between, Vacant, L.Values, T.ListsOk, T.PoolOk, L.FreeSlots, T.AfterAdd, T.PoolCanGrow, T.Fresh, Describes, PageFits,
        WithSegment, WithPage;
      ghost var node0, lists0 := table.node, table.lists;
      var pages, s := table.pages, Segment(v * PAGE, n * PAGE, flags);
      assert List(segments[id], id);
      RangeFresh(segments[id], id, v, n, flags);
      NotEmpty(segments[id], id);
      TableReady(table.node, table.lists, table.pages, table.kernelFirst, heads, segments, vm.dirs, id, s);
      table.AddSegment(heads[id], v * PAGE, n * PAGE, flags);
      DescribedAdd(node0, lists0, table.node, table.lists, pages, table.kernelFirst, heads, segments, vm.dirs, id, s);
      grew := table.pages > pages;
      segments := if grew then WithPage(WithSegment(segments, id, s)) else WithSegment(segments, id, s);
    }

    /** Where the range is that of one segment, its descriptor and no other has been taken out of the list. */
    ghost predicate DescriptorGone(segments0: map<int, seq<Segment>>, lists0: L.Lists, id: int, v: int, n: int)
      reads `heads, table
    {
      id in segments0 && id in heads && heads[id] in lists0 && heads[id] in table.lists
      && forall k :: IsSegment(segments0[id], k, v * PAGE, n * PAGE) ==> L.Without(lists0[heads[id]], table.lists[heads[id]], k)
    }

    /** removeSegment of covered pages, from a segment's start on. */
    method Release(id: int, v: int, n: int)
      requires Described() && Lists(segments, vm.dirs) && id in vm.dirs && id in segments
      requires Between(id, v, n) && AllCovered(segments[id], v * PAGE, n * PAGE)
      requires exists k :: 0 <= k < |segments[id]| && segments[id][k].address == v * PAGE
      modifies `segments, table
      ensures Described() && Slots() >= old(Slots()) && old(Removable(segments[id], v * PAGE, n * PAGE))
      ensures segments == old(segments[id := Removed(segments[id], v * PAGE, n * PAGE)])
      ensures OthersStay(old(table.lists), table.lists, heads, vm.dirs, id) && DescriptorGone(old(segments), old(table.lists), id, v, n)
    {
      hide Between, AllCovered, L.Values, T.ListsOk, T.PoolOk, L.FreeSlots, Removable, Removed, Clean, Exact;
      ghost var node0, lists0 := table.node, table.lists;
      assert List(segments[id], id);
      RangeClean(segments[id], id, v, n);
      table.RemoveSegment(heads[id], v * PAGE, n * PAGE);
      segments := segments[id := Removed(segments[id], v * PAGE, n * PAGE)];
      DescribedRemoved(node0, lists0, table.node, table.lists, table.kernelFirst, heads, old(segments), vm.dirs, id, segments[id]);
    }

    /** The page tables and frames are in order between operations. */
    ghost predicate Pages()
      reads this, vm, vm.frames
    {
      vm.Ok() && vm.TempFree() && DataOk(vm.mem, vm.dirs, vm.owner) && UserReady(vm.mem, vm.dirs)
    }

    ghost function SpareIn(id: int): int
      reads this, vm, vm.frames
    {
      Spare(vm.mem, vm.dirs, vm.needed, vm.frames.Held(), id)
    }

    ghost function FlatIn(id: int, v: int): Word
      reads this, vm
      requires id in vm.dirs
    {
      Flat(vm.mem, vm.dirs, id, v)
    }

    /** mapAtWithFlags for page v of a space: the flat map changes there and nowhere else. */
    method SetPage(id: int, v: int, w: Word)
      requires vm.Ok() && vm.TempFree() && UserReady(vm.mem, vm.dirs) && id in vm.dirs && FreePage(vm.dirs, vm.mapped, id, v)
      requires (vm.Listed() && SpareIn(id) >= 0 && Foreseen(vm.needed, id, v, 1)) || FlatIn(id, v) != NONE
      modifies vm`mem, vm`owner, vm.frames
      ensures vm.Ok() && vm.TempFree() && UserReady(vm.mem, vm.dirs)
      ensures FlatIn(id, v) == w && SamePages(old(vm.mem), vm.mem, vm.dirs, id, v, v + 1)
      ensures Effect(old(vm.mem), old(vm.owner), old(vm.frames.Held()), vm.mem, vm.owner, vm.frames.Held(), vm.dirs)
      ensures SpareIn(id) == old(SpareIn(id))
      ensures id == 0 ==> forall j :: j in vm.dirs ==> SpareIn(j) == old(SpareIn(j))
      ensures old(FlatIn(id, v)) != NONE ==> vm.owner == old(vm.owner) && vm.frames.Held() == old(vm.frames.Held())
    {
      hide Get, Walk, Core, Windows, SameAll, SameBut, SamePages, Spare, Effect, FrameStack.Valid, FrameStack.Held,
        FrameStack.StoredIn, OwnPage, Own, Pd, Pt;
      ghost var mem0, owner0, held0 := vm.mem, vm.owner, vm.frames.Held();
      OwnIndex(id, v);
      PageIndex(v);
      PageIndex(TEMPORARY);
      OwnTable(vm.mem, vm.dirs, vm.owner, id, v);
      if id == 0 {
        if Get(mem0, vm.dirs[0], Pd(v)) == NONE { SpareMissing(mem0, vm.dirs, vm.needed, held0, 0, 0, Pd(v)); }
        vm.KernelMap(Pd(v), Pt(v), w);
      } else {
        vm.UserMap(id, Pd(v), Pt(v), w);
      }
      SameButPages(mem0, vm.mem, vm.dirs, id, v);
      TempKept(mem0, vm.mem, vm.dirs, id, v);
      ReadyKept(mem0, owner0, held0, vm.mem, vm.owner, vm.frames.Held(), vm.dirs, id, v);
    }

    /** One step of mapMemory: a free frame becomes the memory of page v. */
    method MapPage(id: int, v: int, protection: int)
      requires Pages() && vm.Listed() && id in vm.dirs && FreePage(vm.dirs, vm.mapped, id, v) && NoData(vm.owner, id, v, v + 1)
      requires SpareIn(id) >= 1 && Foreseen(vm.needed, id, v, 1)
      modifies vm`mem, vm`owner, vm.frames
      ensures Pages() && IsMapped(vm.mem, vm.owner, vm.dirs, old(vm.frames.Held()), id, v, protection)
      ensures SamePages(old(vm.mem), vm.mem, vm.dirs, id, v, v + 1)
      ensures Taken(old(vm.owner), old(vm.frames.Held()), vm.owner, vm.frames.Held(), id, v, v + 1)
      ensures ContentsKept(old(vm.mem), vm.mem, vm.owner) && TablesStay(old(vm.mem), vm.mem, vm.dirs)
      ensures SpareIn(id) == old(SpareIn(id)) - 1 && (id == 0 ==> forall j :: j in vm.dirs ==> SpareIn(j) == old(SpareIn(j)) - 1)
    {
      hide Get, Walk, Core, Windows, SamePages, Spare, Effect, DataOk, UserReady, Taken, MoreTables, NoData, ContentsKept,
        TablesStay, Grew, FrameStack.Valid, FrameStack.Held, FrameStack.StoredIn, OwnPage, Pd, Pt, MapFlags;
      ghost var mem0, owner0, held0 := vm.mem, vm.owner, vm.frames.Held();
      SpareHeld(vm.mem, vm.dirs, vm.needed, held0, id);
      var f := vm.PopPageFrame();
      assert f !in owner0;
      ghost var mem1, held1 := vm.mem, vm.frames.Held();
      forall j | j in vm.dirs
        ensures Spare(mem0, vm.dirs, vm.needed, held1, j) - Spare(mem0, vm.dirs, vm.needed, held0, j) == |held1| - |held0|
      {
        SpareLess(mem0, vm.dirs, vm.needed, held0, held1, j);
      }
      FrameTaken(mem0, mem1, vm.dirs, owner0, held1, id, v);
      SetPage(id, v, Word(f, MapFlags(id, protection)));
      ghost var owner2, held2 := vm.owner, vm.frames.Held();
      EffectTrans(mem0, owner0, held1, mem1, owner0, held1, vm.mem, owner2, held2, vm.dirs);
      SamePagesTrans(mem0, mem1, vm.mem, vm.dirs, id, v, v, v + 1);
      EffectParts(mem0, owner0, held1, vm.mem, owner2, held2, vm.dirs);
      TakenPage(owner0, held0, owner2, held2, f, id, v);
      FlagsNotNone(id, protection, f);
      DataMapped(mem0, vm.mem, vm.dirs, owner0, owner2, id, v, f);
      CoreMore(vm.mem, vm.dirs, owner2, -1, f, id, v);
      ContentsMore(mem0, vm.mem, owner2, f, id, v);
      vm.owner := vm.owner[f := Data(id, v)];
    }

    /** The loop of mapMemory: pages [v, v + n) are backed by frames that were free, each by one of its own. */
    method MapFrames(id: int, v: int, n: nat, protection: int)
      requires Pages() && vm.Listed() && id in vm.dirs && SpareIn(id) >= n && Foreseen(vm.needed, id, v, n)
      requires (forall u :: v <= u < v + n ==> FreePage(vm.dirs, vm.mapped, id, u)) && NoData(vm.owner, id, v, v + n)
      modifies vm`mem, vm`owner, vm.frames
      ensures Pages() && SpareIn(id) == old(SpareIn(id)) - n && (id == 0 ==> forall j :: j in vm.dirs ==> SpareIn(j) == old(SpareIn(j)) - n)
      ensures MemoryMapped(old(vm.mem), old(vm.owner), old(vm.frames.Held()), vm.mem, vm.owner, vm.frames.Held(), vm.dirs, id, v, v + n, protection)
    {
      hide Get, Walk, Flat, Core, Windows, SamePages, Spare, Effect, DataOk, UserReady, Taken, MoreTables, NoData, ContentsKept,
        TablesStay, Grew, FrameStack.Valid, FrameStack.Held, FrameStack.StoredIn, OwnPage, Pd, Pt, MapFlags;
      ghost var mem0, owner0, held0 := vm.mem, vm.owner, vm.frames.Held();
      NothingTaken(mem0, owner0, held0, vm.dirs, id, v);
      forall u | v <= u < v + n ensures OwnPage(id, u) {
        assert FreePage(vm.dirs, vm.mapped, id, u);
      }
      hide FreePage;
      for i := 0 to n
        invariant Pages() && (forall u :: v <= u < v + i ==> IsMapped(vm.mem, vm.owner, vm.dirs, held0, id, u, protection))
        invariant SamePages(mem0, vm.mem, vm.dirs, id, v, v + i)
        invariant Taken(owner0, held0, vm.owner, vm.frames.Held(), id, v, v + i)
        invariant ContentsKept(mem0, vm.mem, vm.owner) && TablesStay(mem0, vm.mem, vm.dirs)
        invariant SpareIn(id) == old(SpareIn(id)) - i && (id == 0 ==> forall j :: j in vm.dirs ==> SpareIn(j) == old(SpareIn(j)) - i)
      {
        ghost var mem1, owner1, held1 := vm.mem, vm.owner, vm.frames.Held();
        NoDataRest(owner0, held0, owner1, held1, id, v, v + i, v + n);
        MapPage(id, v + i, protection);
        MappedKept(mem1, owner1, held1, vm.mem, vm.owner, vm.frames.Held(), vm.dirs, held0, id, v, v + i, protection);
        SamePagesTrans(mem0, mem1, vm.mem, vm.dirs, id, v, v + i, v + i + 1);
        TakenMore(owner0, held0, owner1, held1, id, v, v + i);
        TakenMore(owner1, held1, vm.owner, vm.frames.Held(), id, v + i, v + i + 1);
        ContentsTrans(mem0, mem1, owner1, vm.mem, vm.owner);
        TablesStayTrans(mem0, mem1, vm.mem, vm.dirs);
        TakenTrans(owner0, held0, owner1, held1, vm.owner, vm.frames.Held(), id, v, v + i, v + i + 1);
      }
    }

    /** getPhysicalAddress for a mapped page of a space. */
    method GetPage(id: int, v: int) returns (frame: int)
      requires Pages() && id in vm.dirs && OwnPage(id, v) && FlatIn(id, v) != NONE
      modifies vm`mem, vm`owner, vm.frames
      ensures Pages() && frame == old(FlatIn(id, v)).frame && SamePages(old(vm.mem), vm.mem, vm.dirs, id, v, v)
      ensures vm.owner == old(vm.owner) && vm.frames.Held() == old(vm.frames.Held())
      ensures ContentsKept(old(vm.mem), vm.mem, vm.owner) && TablesStay(old(vm.mem), vm.mem, vm.dirs)
      ensures forall j :: j in vm.dirs ==> SpareIn(j) == old(SpareIn(j))
    {
      hide Get, Walk, Flat, Core, Windows, SameAll, SamePages, Spare, Effect, DataOk, UserReady, Taken, MoreTables, NoData,
        ContentsKept, TablesStay, Grew, FrameStack.Valid, FrameStack.Held, FrameStack.StoredIn, OwnPage, Pd, Pt, MapFlags;
      ghost var mem0, owner0, held0 := vm.mem, vm.owner, vm.frames.Held();
      OwnIndex(id, v);
      OwnTable(vm.mem, vm.dirs, vm.owner, id, v);
      ReadyFor(vm.mem, vm.dirs, id, v);
      frame := vm.GetPhysicalAddress(id, Pd(v), Pt(v));
      FlatWalk(mem0, vm.dirs, id, v);
      EffectParts(mem0, owner0, held0, vm.mem, vm.owner, vm.frames.Held(), vm.dirs);
      SameAllPages(mem0, vm.mem, vm.dirs, id, v);
      AllKept(mem0, vm.mem, vm.dirs, owner0, id, v);
    }

    /** One step of unmapMemory: page v is unmapped and its frame is free again. */
    method UnmapPage(id: int, v: int)
      requires Pages() && id in vm.dirs && FreePage(vm.dirs, vm.mapped, id, v) && Backed(vm.mem, vm.dirs, vm.owner, id, v)
      modifies vm`mem, vm`owner, vm.frames
      ensures Pages() && SpareIn(id) == old(SpareIn(id)) + 1
      ensures MemoryUnmapped(old(vm.mem), old(vm.owner), old(vm.frames.Held()), vm.mem, vm.owner, vm.frames.Held(), vm.dirs, id, v, v + 1)
    {
      hide Get, Walk, Flat, Core, Windows, SameAll, SamePages, Spare, Effect, DataOk, UserReady, Taken, MoreTables, NoData,
        ContentsKept, TablesStay, Grew, FrameStack.Valid, FrameStack.Held, FrameStack.StoredIn, OwnPage, Pd, Pt, MapFlags;
      ghost var mem0, owner0, held0 := vm.mem, vm.owner, vm.frames.Held();
      var frame := GetPage(id, v);
      ghost var mem1 := vm.mem;
      SameAt(mem0, mem1, vm.dirs, id, v);
      SetPage(id, v, NONE);
      assert frame in owner0 && owner0[frame] == Data(id, v);
      hide FreePage, Backed, MemoryUnmapped, Returned, InRange, FramesOk;
      EffectParts(mem1, owner0, held0, vm.mem, vm.owner, held0, vm.dirs);
      ContentsTrans(mem0, mem1, owner0, vm.mem, owner0);
      TablesStayTrans(mem0, mem1, vm.mem, vm.dirs);
      SamePagesTrans(mem0, mem1, vm.mem, vm.dirs, id, v, v, v + 1);
      vm.owner := vm.owner - {frame};
      DataUnmapped(mem0, vm.mem, vm.dirs, owner0, vm.owner, id, v, frame);
      CoreLess(vm.mem, vm.dirs, owner0, vm.owner, -1);
      FrameReturned(owner0, held0, frame);
      ghost var mem2, owner2 := vm.mem, vm.owner;
      StackTable(vm);
      vm.PushPageFrame(frame);
      SpareLess(mem2, vm.dirs, vm.needed, held0, vm.frames.Held(), id);
      FrameGiven(mem2, vm.mem, vm.dirs, owner2, held0, id, v);
      SamePagesTrans(mem0, mem2, vm.mem, vm.dirs, id, v, v + 1, v + 1);
      TablesStayTrans(mem0, mem2, vm.mem, vm.dirs);
      GivenContents(mem0, mem2, vm.mem, owner0, owner2, held0, frame, Get(mem2, vm.dirs[0], STACK_PD).frame);
      SameAt(mem2, vm.mem, vm.dirs, id, v);
      UnmappedPage(mem0, owner0, held0, vm.mem, vm.owner, vm.frames.Held(), vm.dirs, id, v, frame);
    }

    /** The loop of unmapMemory: pages [v, v + n) are unmapped and their frames, and no others, are free again. */
    method UnmapFrames(id: int, v: int, n: nat)
      requires Pages() && id in vm.dirs
      requires forall u :: v <= u < v + n ==> FreePage(vm.dirs, vm.mapped, id, u) && Backed(vm.mem, vm.dirs, vm.owner, id, u)
      modifies vm`mem, vm`owner, vm.frames
      ensures Pages() && SpareIn(id) == old(SpareIn(id)) + n
      ensures MemoryUnmapped(old(vm.mem), old(vm.owner), old(vm.frames.Held()), vm.mem, vm.owner, vm.frames.Held(), vm.dirs, id, v, v + n)
    {
      hide Get, Walk, Flat, Core, Windows, SameAll, SamePages, Spare, DataOk, UserReady, FrameStack.Valid, FrameStack.Held,
        FrameStack.StoredIn, OwnPage, Pd, Pt, MemoryUnmapped, Backed, FreePage;
      ghost var mem0, owner0, held0 := vm.mem, vm.owner, vm.frames.Held();
      NothingReturned(mem0, owner0, held0, vm.dirs, id, v);
      forall u | v <= u < v + n ensures OwnPage(id, u) {
        FreeIsOwn(vm.dirs, vm.mapped, id, u);
      }
      for i := 0 to n
        invariant Pages() && SpareIn(id) == old(SpareIn(id)) + i
        invariant MemoryUnmapped(mem0, owner0, held0, vm.mem, vm.owner, vm.frames.Held(), vm.dirs, id, v, v + i)
        invariant forall u :: v + i <= u < v + n ==> FreePage(vm.dirs, vm.mapped, id, u) && Backed(vm.mem, vm.dirs, vm.owner, id, u)
      {
        ghost var mem1, owner1, held1 := vm.mem, vm.owner, vm.frames.Held();
        UnmapPage(id, v + i);
        BackedKept(mem1, owner1, held1, vm.mem, vm.owner, vm.frames.Held(), vm.dirs, vm.mapped, id, v + i, v + n);
        UnmappedTrans(mem0, owner0, held0, mem1, owner1, held1, vm.mem, vm.owner, vm.frames.Held(), vm.dirs, id, v, v + i);
      }
    }

    /** Segment lists, flat maps and frames agree, whichever space the processor runs in. */
    ghost predicate Settled()
      reads this, vm, vm.frames, table
    {
      && Described()
      && vm.InOrder() && vm.TempFree() && DataOk(vm.mem, vm.dirs, vm.owner) && UserReady(vm.mem, vm.dirs)
      && Lists(segments, vm.dirs) && Agree(vm.mem, vm.dirs, segments)
      && 0 in segments && KernelCovers(vm.owner, vm.dirs, vm.mapped, segments[0])
    }

    ghost predicate Sound()
      reads this, vm, vm.frames, table
    {
      Settled() && vm.current in vm.dirs
    }

    /** The invariant over every run of mapping, unmapping, creating, forking and destroying. */
    ghost predicate Valid()
      reads this, vm, vm.frames, table
    {
      Sound() && vm.Listed()
    }

    /**
      mapMemory at a given, vacant range of whole pages.  When the pool has no slot to spare it first maps itself a page, at
      the lowest gap of the kernel's list once the range is reserved: mem1, owner1 and held1 are the state after that.
     */
    method MapMemory(id: int, v: int, n: nat, protection: int)
      returns (page: int, ghost mem1: Memory, ghost owner1: map<int, Owner>, ghost held1: set<int>)
      requires Valid() && id in vm.dirs && id in segments && Between(id, v, n) && Vacant(segments[id], v * PAGE, n * PAGE)
      requires SpareIn(id) >= n + (if Slots() == 0 then 1 else 0) && 0 <= protection < NOUNMAP
      requires Slots() == 0 ==> PageFits(WithSegment(segments, id, Segment(v * PAGE, n * PAGE, protection)))
      requires Foreseen(vm.needed, id, v, n)
      modifies `segments, table, vm`mem, vm`owner, vm.frames
      ensures Valid() && SpareIn(id) == old(SpareIn(id) - n - (if Slots() == 0 then 1 else 0))
      ensures MemoryMapped(mem1, owner1, held1, vm.mem, vm.owner, vm.frames.Held(), vm.dirs, id, v, v + n, protection)
      ensures old(Slots()) != 0 ==>
        && mem1 == old(vm.mem) && owner1 == old(vm.owner) && held1 == old(vm.frames.Held()) && Slots() == old(Slots()) - 1
        && segments == WithSegment(old(segments), id, Segment(v * PAGE, n * PAGE, protection))
      ensures old(Slots()) == 0 ==>
        && MemoryMapped(old(vm.mem), old(vm.owner), old(vm.frames.Held()), mem1, owner1, held1, vm.dirs, 0, page, page + 1, READ_WRITE)
        && Slots() == L.SLOTS - 2
        && var after := WithSegment(old(segments), id, Segment(v * PAGE, n * PAGE, protection));
           PageFits(after) && page * PAGE == AtGap(after[0], PAGE, READ_WRITE).address && segments == WithPage(after)
      ensures OthersStay(old(table.lists), table.lists, heads, vm.dirs, id)
      ensures forall u :: v <= u < v + n ==> Protected(vm.mem, vm.dirs, id, u, protection)
    {
      hide Get, Walk, Flat, Core, Windows, SameAll, SamePages, Spare, DataOk, UserReady, FrameStack.Valid, FrameStack.Held,
        FrameStack.StoredIn, OwnPage, Pd, Pt, MemoryUnmapped, MemoryMapped, Backed, FreePage, KernelCovers, Agree, NoData, Between,
        Vacant, ListOk, Vm.NoWindow, Lists, List, WithSegment, WithPage, AtGap, HasGap, L.FreeSlots, Spaces.Described, OthersStay;
      ghost var k := segments;
      var after := WithSegment(segments, id, Segment(v * PAGE, n * PAGE, protection));
      var grew := Reserve(id, v, n, protection);
      page := -1;
      if grew {
        page := AtGap(after[0], PAGE, READ_WRITE).address / PAGE;
        SpareOrder(vm.mem, vm.dirs, vm.needed, vm.frames.Held(), id);
        PoolPage(vm.mem, vm.dirs, vm.owner, vm.mapped, k, id, v, n, protection);
        MapFrames(0, page, 1, READ_WRITE);
        RangeMapped(old(vm.mem), old(vm.owner), old(vm.frames.Held()), vm.mem, vm.owner, vm.frames.Held(), vm.dirs, vm.mapped,
                    k, 0, page, 1, READ_WRITE);
        k := WithSegment(k, 0, AtGap(after[0], PAGE, READ_WRITE));
      }
      mem1, owner1, held1 := vm.mem, vm.owner, vm.frames.Held();
      VacantFree(vm.mem, vm.dirs, vm.owner, vm.mapped, k, id, v, n);
      MapFrames(id, v, n, protection);
      RangeMapped(mem1, owner1, held1, vm.mem, vm.owner, vm.frames.Held(), vm.dirs, vm.mapped, k, id, v, n, protection);
      forall u | v <= u < v + n ensures Protected(vm.mem, vm.dirs, id, u, protection) {
        MemoryProtected(mem1, owner1, held1, vm.mem, vm.owner, vm.frames.Held(), vm.dirs, id, v, n, protection, u);
      }
    }

    /** mapMemory where the lowest gap is. */
    method MapMemoryAnywhere(id: int, n: nat, protection: int)
      returns (v: int, page: int, ghost mem1: Memory, ghost owner1: map<int, Owner>, ghost held1: set<int>)
      requires Valid() && id in vm.dirs && id in segments && n > 0 && HasGap(segments[id], n * PAGE)
      requires SpareIn(id) >= n + (if Slots() == 0 then 1 else 0) && 0 <= protection < NOUNMAP
      requires Slots() == 0 ==> PageFits(WithSegment(segments, id, AtGap(segments[id], n * PAGE, protection)))
      requires Foreseen(vm.needed, id, AtGap(segments[id], n * PAGE, protection).address / PAGE, n)
      modifies `segments, table, vm`mem, vm`owner, vm.frames
      ensures Valid() && SpareIn(id) == old(SpareIn(id) - n - (if Slots() == 0 then 1 else 0))
      ensures v * PAGE == old(AtGap(segments[id], n * PAGE, protection)).address
      ensures MemoryMapped(mem1, owner1, held1, vm.mem, vm.owner, vm.frames.Held(), vm.dirs, id, v, v + n, protection)
      ensures forall u :: v <= u < v + n ==> Protected(vm.mem, vm.dirs, id, u, protection)
      ensures old(Slots()) != 0 ==>
        && mem1 == old(vm.mem) && owner1 == old(vm.owner) && held1 == old(vm.frames.Held()) && Slots() == old(Slots()) - 1
        && segments == WithSegment(old(segments), id, old(AtGap(segments[id], n * PAGE, protection)))
      ensures old(Slots()) == 0 ==>
        && MemoryMapped(old(vm.mem), old(vm.owner), old(vm.frames.Held()), mem1, owner1, held1, vm.dirs, 0, page, page + 1, READ_WRITE)
        && Slots() == L.SLOTS - 2
        && var after := WithSegment(old(segments), id, old(AtGap(segments[id], n * PAGE, protection)));
           PageFits(after) && page * PAGE == AtGap(after[0], PAGE, READ_WRITE).address && segments == WithPage(after)
    {
      hide Get, Walk, Flat, Core, Windows, SameAll, SamePages, Spare, DataOk, UserReady, FrameStack.Valid, FrameStack.Held,
        FrameStack.StoredIn, OwnPage, Pd, Pt, MemoryUnmapped, MemoryMapped, Backed, FreePage, KernelCovers, Agree, NoData, Between,
        Vacant, ListOk, Vm.NoWindow, Lists, List, PageFits, WithSegment, WithPage, GapIndex, HasGap, L.FreeSlots, Spaces.Described;
      WindowCovered(vm.owner, vm.dirs, vm.mapped, segments[0]);
      v := FindGap(id, n);
      page, mem1, owner1, held1 := MapMemory(id, v, n, protection);
    }

    /** unmapMemory of whole pages that are all covered, from a segment's start on. */
    method UnmapMemory(id: int, v: int, n: nat)
      requires Sound() && id in vm.dirs && id in segments && Between(id, v, n) && AllCovered(segments[id], v * PAGE, n * PAGE)
      requires exists k :: 0 <= k < |segments[id]| && segments[id][k].address == v * PAGE
      requires id == 0 ==> forall u :: v <= u < v + n ==> Backed(vm.mem, vm.dirs, vm.owner, 0, u)
      modifies `segments, table, vm`mem, vm`owner, vm.frames
      ensures Sound() && SpareIn(id) == old(SpareIn(id)) + n && Slots() >= old(Slots())
      ensures old(Removable(segments[id], v * PAGE, n * PAGE))
      ensures segments == old(segments[id := Removed(segments[id], v * PAGE, n * PAGE)])
      ensures Exact(old(segments[id]), segments[id], v * PAGE, n * PAGE)
      ensures MemoryUnmapped(old(vm.mem), old(vm.owner), old(vm.frames.Held()), vm.mem, vm.owner, vm.frames.Held(), vm.dirs, id, v, v + n)
      ensures DescriptorGone(old(segments), old(table.lists), id, v, n)
    {
      hide Get, Walk, Flat, Core, Windows, SameAll, SamePages, Spare, DataOk, UserReady, FrameStack.Valid, FrameStack.Held,
        FrameStack.StoredIn, OwnPage, Pd, Pt, MemoryUnmapped, MemoryMapped, Backed, FreePage, KernelCovers, Agree, NoData, Between,
        Vacant, ListOk, Vm.NoWindow, Lists, List, Removable, Removed, Exact, AllCovered,
        L.FreeSlots, Spaces.Described, OthersStay, Spaces.DescriptorGone;
      ghost var mem0, owner0, held0 := vm.mem, vm.owner, vm.frames.Held();
      SomePages(id, v, n);
      RangeBacked(vm.mem, vm.dirs, vm.owner, vm.mapped, segments, id, v, n);
      ListsRemove(segments, vm.dirs, id, v, n);
      UnmapFrames(id, v, n);
      UnmappedRange(mem0, owner0, held0, vm.mem, vm.owner, vm.frames.Held(), vm.dirs, id, v, n);
      WindowOffsets(vm.mem, vm.dirs, vm.mapped);
      Release(id, v, n);
      AgreeUnmapped(mem0, vm.mem, vm.dirs, old(segments), id, v, n, segments[id]);
      if id == 0 {
        CoversLess(owner0, vm.owner, vm.dirs, vm.mapped, old(segments[0]), segments[0], v, n);
      } else {
        CoversSame(owner0, vm.owner, vm.dirs, vm.mapped, segments[0]);
      }
    }


    /**
      mapMemory followed by unmapMemory of the same range: the segment lists and all flat maps are as before, and the
      free frames too, apart from frames that became tables and from the page the pool may have mapped itself.
     */
    method MapAndUnmapMemory(id: int, v: int, n: nat, protection: int)
      returns (page: int, ghost mem1: Memory, ghost owner1: map<int, Owner>, ghost held1: set<int>)
      requires Valid() && id in vm.dirs && id in segments && Between(id, v, n) && Vacant(segments[id], v * PAGE, n * PAGE)
      requires SpareIn(id) >= n + (if Slots() == 0 then 1 else 0) && 0 <= protection < NOUNMAP
      requires Slots() == 0 ==> PageFits(WithSegment(segments, id, Segment(v * PAGE, n * PAGE, protection)))
      requires Foreseen(vm.needed, id, v, n)
      modifies `segments, table, vm`mem, vm`owner, vm.frames
      ensures Valid() && SpareIn(id) == old(SpareIn(id) - (if Slots() == 0 then 1 else 0))
      ensures SamePages(mem1, vm.mem, vm.dirs, id, v, v) && Grew(owner1, held1, vm.owner, vm.frames.Held())
      ensures old(Slots()) != 0 ==>
        segments == old(segments) && mem1 == old(vm.mem) && owner1 == old(vm.owner) && held1 == old(vm.frames.Held())
      ensures old(Slots()) == 0 ==>
        && MemoryMapped(old(vm.mem), old(vm.owner), old(vm.frames.Held()), mem1, owner1, held1, vm.dirs, 0, page, page + 1, READ_WRITE)
        && segments == WithSegment(old(segments), 0, Segment(page * PAGE, PAGE, READ_WRITE))
    {
      hide Get, Walk, Flat, Core, Windows, SameAll, SamePages, Spare, DataOk, UserReady, FrameStack.Valid, FrameStack.Held,
        FrameStack.StoredIn, OwnPage, Pd, Pt, MemoryUnmapped, MemoryMapped, Backed, FreePage, KernelCovers, Agree, NoData, Between,
        Vacant, ListOk, Vm.NoWindow, Lists, List, Removable, Removed, Exact, AllCovered,
        L.FreeSlots, Spaces.Described, PageFits, WithPage, AtGap, HasGap, Added, Grew;
      ghost var mem0, owner0, held0, k := vm.mem, vm.owner, vm.frames.Held(), segments;
      VacantFree(vm.mem, vm.dirs, vm.owner, vm.mapped, segments, id, v, n);
      page, mem1, owner1, held1 := MapMemory(id, v, n, protection);
      if old(Slots()) == 0 {
        PoolFirst(mem0, owner0, held0, mem1, owner1, held1, vm.dirs, vm.mapped, k, id, v, n, protection, page);
        k := WithSegment(k, 0, Segment(page * PAGE, PAGE, READ_WRITE));
      }
      VacantUnmapped(mem1, vm.dirs, k, id, v, n);
      ListsAddRemove(k, vm.dirs, id, v, n, protection);
      ghost var mem2, owner2, held2 := vm.mem, vm.owner, vm.frames.Held();
      MappedBacked(mem1, owner1, held1, mem2, owner2, held2, vm.dirs, id, v, n, protection);
      UnmapMemory(id, v, n);
      RestoredPages(mem1, owner1, held1, mem2, owner2, held2, vm.mem, vm.owner, vm.frames.Held(), vm.dirs, id, v, n, protection);
    }
  }

  lemma FreeIsOwn(dirs: map<int, int>, mapped: map<int, (int, int)>, id: int, v: int)
    requires FreePage(dirs, mapped, id, v)
    ensures OwnPage(id, v)
  {
  }

  lemma NothingReturned(mem: Memory, owner: map<int, Owner>, held: set<int>, dirs: map<int, int>, id: int, v: int)
    requires id in dirs
    ensures MemoryUnmapped(mem, owner, held, mem, owner, held, dirs, id, v, v)
  {
    hide Flat, Get;
  }

  lemma BackedKept(mem: Memory, owner: map<int, Owner>, held: set<int>, mem': Memory, owner': map<int, Owner>, held': set<int>,
                   dirs: map<int, int>, mapped: map<int, (int, int)>, id: int, v: int, hi: int)
    requires MemoryUnmapped(mem, owner, held, mem', owner', held', dirs, id, v, v + 1)
    requires forall u :: v <= u < hi ==> FreePage(dirs, mapped, id, u) && Backed(mem, dirs, owner, id, u)
    ensures forall u :: v < u < hi ==> Backed(mem', dirs, owner', id, u)
  {
    hide Flat, OwnPage, MemoryKept, TablesStay;
    forall u | v < u < hi ensures Backed(mem', dirs, owner', id, u) {
      assert FreePage(dirs, mapped, id, u) && Backed(mem, dirs, owner, id, u);
      SameWindows(mem, mem', dirs, id, u, id, v, v + 1);
    }
  }

  lemma UnmappedTrans(mem0: Memory, owner0: map<int, Owner>, held0: set<int>, mem1: Memory, owner1: map<int, Owner>, held1: set<int>,
                      mem2: Memory, owner2: map<int, Owner>, held2: set<int>, dirs: map<int, int>, id: int, lo: int, mid: int)
    requires MemoryUnmapped(mem0, owner0, held0, mem1, owner1, held1, dirs, id, lo, mid) && lo <= mid
    requires MemoryUnmapped(mem1, owner1, held1, mem2, owner2, held2, dirs, id, mid, mid + 1)
    requires forall u :: lo <= u < mid ==> OwnPage(id, u)
    ensures MemoryUnmapped(mem0, owner0, held0, mem2, owner2, held2, dirs, id, lo, mid + 1)
  {
    hide Flat, OwnPage, MemoryKept, TablesStay;
    forall u | lo <= u < mid + 1 ensures Flat(mem2, dirs, id, u) == NONE {
      if u < mid {
        assert OwnPage(id, u);
        SameWindows(mem1, mem2, dirs, id, u, id, mid, mid + 1);
      }
    }
    SamePagesTrans(mem0, mem1, mem2, dirs, id, lo, mid, mid + 1);
    TablesStayTrans(mem0, mem1, mem2, dirs);
    ReturnedTrans(owner0, held0, owner1, held1, owner2, held2, id, lo, mid);
    MemoryTrans(mem0, mem1, owner1, mem2, owner2);
  }

  lemma ReturnedTrans(owner0: map<int, Owner>, held0: set<int>, owner1: map<int, Owner>, held1: set<int>,
                      owner2: map<int, Owner>, held2: set<int>, id: int, lo: int, mid: int)
    requires Returned(owner0, held0, owner1, held1, id, lo, mid) && Returned(owner1, held1, owner2, held2, id, mid, mid + 1) && lo <= mid
    ensures Returned(owner0, held0, owner2, held2, id, lo, mid + 1)
  {
    assert forall f :: f in owner2.Keys ==> f in owner1.Keys;
    assert forall f :: f in owner1.Keys ==> f in owner0.Keys;
    assert owner0.Keys - owner2.Keys == (owner0.Keys - owner1.Keys) + (owner1.Keys - owner2.Keys);
  }

  /** The frames used as memory of pages [lo, hi) of space id are free again, and no other frame. */
  ghost predicate Returned(owner: map<int, Owner>, held: set<int>, owner': map<int, Owner>, held': set<int>, id: int, lo: int, hi: int) {
    && (forall f :: f in owner' <==> f in owner && !InRange(owner[f], id, lo, hi))
    && (forall f :: f in owner' ==> owner'[f] == owner[f])
    && held' == held + (owner.Keys - owner'.Keys)
  }

  predicate InRange(o: Owner, id: int, lo: int, hi: int) {
    o.Data? && o.id == id && lo <= o.page < hi
  }

  ghost predicate MemoryUnmapped(mem: Memory, owner: map<int, Owner>, held: set<int>, mem': Memory, owner': map<int, Owner>, held': set<int>,
                                 dirs: map<int, int>, id: int, lo: int, hi: int) {
    && id in dirs && (forall u :: lo <= u < hi ==> Flat(mem', dirs, id, u) == NONE)
    && SamePages(mem, mem', dirs, id, lo, hi) && Returned(owner, held, owner', held', id, lo, hi)
    && MemoryKept(mem, mem', owner') && TablesStay(mem, mem', dirs)
  }

  lemma ReadyFor(mem: Memory, dirs: map<int, int>, id: int, v: int)
    requires UserReady(mem, dirs) && id in dirs && OwnPage(id, v) && Flat(mem, dirs, id, v) != NONE
    ensures 0 in dirs && (id != 0 ==> Get(mem, dirs[0], TEMP_PD) != NONE)
  {
    hide Flat;
  }

  lemma FlatWalk(mem: Memory, dirs: map<int, int>, id: int, v: int)
    requires id in dirs
    ensures Flat(mem, dirs, id, v) == Walk(mem, dirs[id], Pd(v), Pt(v))
  {
  }

  lemma SameAt(mem: Memory, mem': Memory, dirs: map<int, int>, id: int, v: int)
    requires SamePages(mem, mem', dirs, id, v, v) && id in dirs && OwnPage(id, v)
    ensures Flat(mem', dirs, id, v) == Flat(mem, dirs, id, v)
  {
  }

  lemma AllKept(mem: Memory, mem': Memory, dirs: map<int, int>, owner: map<int, Owner>, id: int, v: int)
    requires DataOk(mem, dirs, owner) && UserReady(mem, dirs) && SamePages(mem, mem', dirs, id, v, v) && TablesStay(mem, mem', dirs)
    ensures DataOk(mem', dirs, owner) && UserReady(mem', dirs)
  {
    hide Flat, Get, OwnPage;
    forall f | f in owner && owner[f].Data? ensures Placed(mem', dirs, owner[f].id, owner[f].page, f) {
      assert Placed(mem, dirs, owner[f].id, owner[f].page, f);
    }
  }

  lemma UnmappedPage(mem: Memory, owner: map<int, Owner>, held: set<int>, mem': Memory, owner': map<int, Owner>, held': set<int>,
                     dirs: map<int, int>, id: int, v: int, f: int)
    requires DataOk(mem, dirs, owner) && f in owner && owner[f] == Data(id, v) && owner' == owner - {f} && held' == held + {f}
    requires id in dirs && Flat(mem', dirs, id, v) == NONE && SamePages(mem, mem', dirs, id, v, v + 1)
    requires MemoryKept(mem, mem', owner') && TablesStay(mem, mem', dirs)
    ensures MemoryUnmapped(mem, owner, held, mem', owner', held', dirs, id, v, v + 1)
  {
    hide Flat, SamePages, MemoryKept, TablesStay, DataOk, Returned;
    ReturnedPage(mem, owner, held, mem', owner', held', dirs, id, v, f);
  }

  lemma ReturnedPage(mem: Memory, owner: map<int, Owner>, held: set<int>, mem': Memory, owner': map<int, Owner>, held': set<int>,
                     dirs: map<int, int>, id: int, v: int, f: int)
    requires DataOk(mem, dirs, owner) && f in owner && owner[f] == Data(id, v) && owner' == owner - {f} && held' == held + {f}
    ensures Returned(owner, held, owner', held', id, v, v + 1)
  {
    hide Flat;
    forall g | g in owner && InRange(owner[g], id, v, v + 1) ensures g == f {
      assert Placed(mem, dirs, id, v, g) && Placed(mem, dirs, id, v, f);
    }
    assert owner.Keys - owner'.Keys == {f};
  }

  /** Page v is mapped, with the flags of its protection, to a frame of `held` that is used as its memory. */
  ghost predicate IsMapped(mem: Memory, owner: map<int, Owner>, dirs: map<int, int>, held: set<int>, id: int, v: int, protection: int)
    requires id in dirs
  {
    var w := Flat(mem, dirs, id, v);
    w.flags == MapFlags(id, protection) && w.frame in held && w.frame in owner && owner[w.frame] == Data(id, v)
  }

  /** Pages [lo, hi) of space id are now backed by frames that were free, each by one of its own; no other page changed. */
  ghost predicate MemoryMapped(mem: Memory, owner: map<int, Owner>, held: set<int>, mem': Memory, owner': map<int, Owner>, held': set<int>,
                               dirs: map<int, int>, id: int, lo: int, hi: int, protection: int) {
    && id in dirs && (forall u :: lo <= u < hi ==> IsMapped(mem', owner', dirs, held, id, u, protection))
    && SamePages(mem, mem', dirs, id, lo, hi) && Taken(owner, held, owner', held', id, lo, hi)
    && ContentsKept(mem, mem', owner') && TablesStay(mem, mem', dirs)
  }

  /** What the flags of a page let the processor do. */
  lemma FlagsProtect(mem: Memory, dirs: map<int, int>, owner: map<int, Owner>, id: int, u: int, protection: int)
    requires Core(mem, dirs, owner, -1) && id in dirs && OwnPage(id, u) && Flat(mem, dirs, id, u).flags == MapFlags(id, protection)
    ensures Protected(mem, dirs, id, u, protection)
  {
    hide Get, Core;
    var e := Get(mem, dirs[id], Pd(u));
    PageIndex(u);
    TableFrame(mem, dirs, owner, -1, id, Pd(u));
    hide OwnPage, Pd, Pt, PageNo;
    assert Flat(mem, dirs, id, u) == Get(mem, e.frame, Pt(u));
  }

  lemma MemoryProtected(mem: Memory, owner: map<int, Owner>, held: set<int>, mem': Memory, owner': map<int, Owner>, held': set<int>,
                     dirs: map<int, int>, id: int, v: int, n: int, protection: int, u: int)
    requires MemoryMapped(mem, owner, held, mem', owner', held', dirs, id, v, v + n, protection) && Core(mem', dirs, owner', -1)
    requires v <= u < v + n && DataOk(mem', dirs, owner')
    ensures Protected(mem', dirs, id, u, protection)
  {
    hide Get, Core, Flat, OwnPage, MapFlags, Protected, SamePages, Taken, ContentsKept, TablesStay;
    assert IsMapped(mem', owner', dirs, held, id, u, protection);
    assert Placed(mem', dirs, id, u, Flat(mem', dirs, id, u).frame);
    FlagsProtect(mem', dirs, owner', id, u, protection);
  }

  lemma NothingTaken(mem: Memory, owner: map<int, Owner>, held: set<int>, dirs: map<int, int>, id: int, v: int)
    requires held !! owner.Keys
    ensures Taken(owner, held, owner, held, id, v, v) && SamePages(mem, mem, dirs, id, v, v)
    ensures ContentsKept(mem, mem, owner) && TablesStay(mem, mem, dirs)
  {
    hide Get, Flat;
  }

  lemma NoDataRest(owner: map<int, Owner>, held: set<int>, owner': map<int, Owner>, held': set<int>, id: int, lo: int, mid: int, hi: int)
    requires NoData(owner, id, lo, hi) && Taken(owner, held, owner', held', id, lo, mid) && lo <= mid < hi
    ensures NoData(owner', id, mid, mid + 1)
  {
  }

  lemma TakenMore(owner: map<int, Owner>, held: set<int>, owner': map<int, Owner>, held': set<int>, id: int, lo: int, hi: int)
    requires Taken(owner, held, owner', held', id, lo, hi)
    ensures forall f :: f in owner ==> f in owner' && owner'[f] == owner[f]
    ensures held' <= held
  {
  }

  lemma TablesStayTrans(mem0: Memory, mem1: Memory, mem2: Memory, dirs: map<int, int>)
    requires TablesStay(mem0, mem1, dirs) && TablesStay(mem1, mem2, dirs)
    ensures TablesStay(mem0, mem2, dirs)
  {
    hide Get;
  }

  lemma MappedKept(mem: Memory, owner: map<int, Owner>, held: set<int>, mem': Memory, owner': map<int, Owner>, held': set<int>,
                   dirs: map<int, int>, held0: set<int>, id: int, v: int, mid: int, protection: int)
    requires SamePages(mem, mem', dirs, id, mid, mid + 1) && Taken(owner, held, owner', held', id, mid, mid + 1) && id in dirs
    requires forall u :: v <= u < mid ==> OwnPage(id, u) && IsMapped(mem, owner, dirs, held0, id, u, protection)
    ensures forall u :: v <= u < mid ==> IsMapped(mem', owner', dirs, held0, id, u, protection)
  {
    hide Flat, OwnPage;
    forall u | v <= u < mid ensures IsMapped(mem', owner', dirs, held0, id, u, protection) {
      assert IsMapped(mem, owner, dirs, held0, id, u, protection);
      SameWindows(mem, mem', dirs, id, u, id, mid, mid + 1);
    }
  }

  lemma SpareOrder(mem: Memory, dirs: map<int, int>, need: set<int>, held: set<int>, id: int)
    requires 0 in dirs
    ensures Spare(mem, dirs, need, held, 0) >= Spare(mem, dirs, need, held, id)
  {
    hide MissingIn;
  }

  lemma SpareHeld(mem: Memory, dirs: map<int, int>, need: set<int>, held: set<int>, id: int)
    requires 0 in dirs && id in dirs && Spare(mem, dirs, need, held, id) >= 1
    ensures held != {}
  {
    hide MissingIn;
  }

  lemma SpareLess(mem: Memory, dirs: map<int, int>, need: set<int>, held: set<int>, held': set<int>, id: int)
    requires 0 in dirs && id in dirs
    ensures Spare(mem, dirs, need, held', id) - Spare(mem, dirs, need, held, id) == |held'| - |held|
  {
    hide Missing;
  }

  lemma EffectParts(mem: Memory, owner: map<int, Owner>, held: set<int>, mem': Memory, owner': map<int, Owner>, held': set<int>, dirs: map<int, int>)
    requires Effect(mem, owner, held, mem', owner', held', dirs)
    ensures Grew(owner, held, owner', held') && ContentsKept(mem, mem', owner') && TablesStay(mem, mem', dirs) && MoreTables(owner, owner')
  {
    hide Get;
  }

  lemma FlagsNotNone(id: int, protection: int, f: int)
    ensures Word(f, MapFlags(id, protection)) != NONE && Present(Word(f, MapFlags(id, protection)))
    ensures protection / WRITE % 2 == 1 ==> Writable(Word(f, MapFlags(id, protection)))
  {
  }

  lemma ContentsMore(mem: Memory, mem': Memory, owner: map<int, Owner>, f: int, id: int, v: int)
    requires ContentsKept(mem, mem', owner) && f !in owner
    ensures ContentsKept(mem, mem', owner[f := Data(id, v)])
  {
    hide Get;
  }

  /** A mapped page has a table. */
  lemma OwnTable(mem: Memory, dirs: map<int, int>, owner: map<int, Owner>, id: int, v: int)
    requires Core(mem, dirs, owner, -1) && id in dirs && OwnPage(id, v)
    ensures Private(id, Pd(v)) && 0 <= Pt(v) < ENTRIES && (id == 0 ==> Pd(v) != STACK_PD)
    ensures Flat(mem, dirs, id, v) != NONE ==> Get(mem, dirs[id], Pd(v)) != NONE
  {
    OwnIndex(id, v);
    WalkEntry(mem, dirs, owner, id, Pd(v), Pt(v));
  }

  lemma TempKept(mem: Memory, mem': Memory, dirs: map<int, int>, id: int, v: int)
    requires SamePages(mem, mem', dirs, id, v, v + 1) && 0 in dirs && (id == 0 ==> v != TEMPORARY)
    ensures Walk(mem', dirs[0], TEMP_PD, 0x3FF) == Walk(mem, dirs[0], TEMP_PD, 0x3FF)
  {
    hide Walk;
    OwnIndex(0, TEMPORARY);
    SameWindows(mem, mem', dirs, 0, TEMPORARY, id, v, v + 1);
  }

  lemma ReadyKept(mem: Memory, owner: map<int, Owner>, held: set<int>, mem': Memory, owner': map<int, Owner>, held': set<int>,
                  dirs: map<int, int>, id: int, v: int)
    requires UserReady(mem, dirs) && SamePages(mem, mem', dirs, id, v, v + 1) && Effect(mem, owner, held, mem', owner', held', dirs)
    requires id != 0 ==> Get(mem', dirs[0], TEMP_PD) != NONE
    ensures UserReady(mem', dirs)
  {
    hide Flat, Get, OwnPage;
  }

  /** A range reserved in one list. */
  lemma ListsAdd(segments: map<int, seq<Segment>>, dirs: map<int, int>, id: int, v: int, n: int, flags: int)
    requires Lists(segments, dirs) && id in dirs && id in segments && Between(id, v, n) && Vacant(segments[id], v * PAGE, n * PAGE)
    requires 0 <= flags < NOUNMAP
    ensures |segments[id]| > 0 && Lists(segments[id := Added(segments[id], Segment(v * PAGE, n * PAGE, flags))], dirs)
  {
    hide Vacant, Added, ListOk;
    assert List(segments[id], id);
    NotEmpty(segments[id], id);
    ListAdd(segments[id], FirstOf(id), LastOf(id), id != 0, Segment(v * PAGE, n * PAGE, flags));
  }

  lemma NotEmpty(segs: seq<Segment>, id: int)
    requires List(segs, id)
    ensures |segs| > 0
  {
  }

  lemma ListsRemove(segments: map<int, seq<Segment>>, dirs: map<int, int>, id: int, v: int, n: int)
    requires Lists(segments, dirs) && id in dirs && id in segments && Between(id, v, n) && AllCovered(segments[id], v * PAGE, n * PAGE)
    requires exists k :: 0 <= k < |segments[id]| && segments[id][k].address == v * PAGE
    ensures Removable(segments[id], v * PAGE, n * PAGE)
    ensures Lists(segments[id := Removed(segments[id], v * PAGE, n * PAGE)], dirs)
    ensures Exact(segments[id], Removed(segments[id], v * PAGE, n * PAGE), v * PAGE, n * PAGE)
  {
    hide AllCovered, ListOk, Removable, Removed, Exact;
    assert List(segments[id], id);
    ListUnmap(segments[id], FirstOf(id), LastOf(id), id != 0, v * PAGE, n * PAGE);
  }

  lemma GapRange(segs: seq<Segment>, id: int, n: int)
    requires List(segs, id) && n > 0 && HasGap(segs, n * PAGE)
    requires id == 0 ==> AllCovered(segs, STACK_WINDOW.address, STACK_WINDOW.size)
    ensures var v := segs[GapIndex(segs, n * PAGE)].End() / PAGE;
            v * PAGE == segs[GapIndex(segs, n * PAGE)].End() && Between(id, v, n) && Vacant(segs, v * PAGE, n * PAGE)
  {
    hide GapFrom, AllCovered, Vacant;
    ListGap(segs, FirstOf(id), LastOf(id), id != 0, n * PAGE);
    if id == 0 { BelowWindow(segs, segs[GapIndex(segs, n * PAGE)].End(), n * PAGE); }
  }

  /** Reserving a range and mapping memory there keeps lists, flat maps and the kernel's own pages in agreement. */
  lemma RangeMapped(mem: Memory, owner: map<int, Owner>, held: set<int>, mem': Memory, owner': map<int, Owner>, held': set<int>,
                    dirs: map<int, int>, mapped: map<int, (int, int)>, segments: map<int, seq<Segment>>, id: int, v: int, n: int, protection: int)
    requires MemoryMapped(mem, owner, held, mem', owner', held', dirs, id, v, v + n, protection) && 0 <= protection < NOUNMAP
    requires Lists(segments, dirs) && Agree(mem, dirs, segments) && id in segments && 0 in segments
    requires KernelCovers(owner, dirs, mapped, segments[0]) && Between(id, v, n) && Vacant(segments[id], v * PAGE, n * PAGE) && id in dirs
    ensures var segments' := WithSegment(segments, id, Segment(v * PAGE, n * PAGE, protection));
      && Lists(segments', dirs) && Agree(mem', dirs, segments') && 0 in segments' && KernelCovers(owner', dirs, mapped, segments'[0])
  {
    hide MemoryMapped, Lists, Agree, KernelCovers, Between, Vacant, Added, SamePages, Flat;
    ListsAdd(segments, dirs, id, v, n, protection);
    MappedRange(mem, owner, held, mem', owner', held', dirs, id, v, n, protection);
    AgreeMapped(mem, mem', dirs, segments, id, v, n, protection);
    if id == 0 {
      CoversMore(owner, owner', dirs, mapped, segments[0], v, n, protection);
    } else {
      CoversSame(owner, owner', dirs, mapped, segments[0]);
    }
  }

  /** The page the pool maps itself once a range has been reserved: it could as well have been reserved before. */
  lemma PoolPage(mem: Memory, dirs: map<int, int>, owner: map<int, Owner>, mapped: map<int, (int, int)>, segments: map<int, seq<Segment>>,
                 id: int, v: int, n: int, protection: int)
    requires DataOk(mem, dirs, owner) && Lists(segments, dirs) && Agree(mem, dirs, segments) && 0 in dirs && 0 in segments
    requires id in dirs && id in segments
    requires KernelCovers(owner, dirs, mapped, segments[0]) && Between(id, v, n) && Vacant(segments[id], v * PAGE, n * PAGE)
    requires 0 <= protection < NOUNMAP && PageFits(WithSegment(segments, id, Segment(v * PAGE, n * PAGE, protection)))
    ensures var s := Segment(v * PAGE, n * PAGE, protection);
      var after := WithSegment(segments, id, s); var p := AtGap(after[0], PAGE, READ_WRITE); var page := p.address / PAGE;
      && p == Segment(page * PAGE, 1 * PAGE, READ_WRITE) && Between(0, page, 1) && Vacant(segments[0], page * PAGE, 1 * PAGE)
      && FreePage(dirs, mapped, 0, page) && NoData(owner, 0, page, page + 1) && (id == 0 ==> page + 1 <= v || v + n <= page)
      && var before := WithSegment(segments, 0, p);
         id in before && Vacant(before[id], v * PAGE, n * PAGE) && WithSegment(before, id, s) == WithPage(after)
  {
    hide DataOk, Lists, Agree, KernelCovers, Between, Vacant, Added, GapIndex, HasGap, NoData, FreePage, ListOk, AllCovered;
    var s := Segment(v * PAGE, n * PAGE, protection);
    ListsAdd(segments, dirs, id, v, n, protection);
    var after := WithSegment(segments, id, s);
    SpaceList(after, dirs, 0);
    SpaceList(segments, dirs, 0);
    WindowCovered(owner, dirs, mapped, segments[0]);
    WindowStays(segments, id, s);
    GapRange(after[0], 0, 1);
    var p := AtGap(after[0], PAGE, READ_WRITE);
    var page := p.address / PAGE;
    if id == 0 {
      NotEmpty(segments[0], 0);
      VacantBefore(segments[0], s, page * PAGE, PAGE);
    }
    VacantFree(mem, dirs, owner, mapped, segments, 0, page, 1);
    ListsAdd(segments, dirs, 0, page, 1, READ_WRITE);
    var before := WithSegment(segments, 0, p);
    if id == 0 {
      VacantMore(segments[0], p, v * PAGE, n * PAGE);
      ListsAdd(before, dirs, 0, v, n, protection);
      ListsAdd(after, dirs, 0, page, 1, READ_WRITE);
      SpaceList(before, dirs, 0);
      SpaceList(WithSegment(before, 0, s), dirs, 0);
      SpaceList(WithPage(after), dirs, 0);
      AddedCommute(segments[0], KERNEL_HEAD, KERNEL_TAIL, false, p, s);
    }
  }

  /** The state after the pool has mapped itself a page: the range is still vacant, unmapped and no one's memory. */
  lemma PoolFirst(mem: Memory, owner: map<int, Owner>, held: set<int>, mem1: Memory, owner1: map<int, Owner>, held1: set<int>,
                  dirs: map<int, int>, mapped: map<int, (int, int)>, segments: map<int, seq<Segment>>,
                  id: int, v: int, n: int, protection: int, page: int)
    requires DataOk(mem, dirs, owner) && Lists(segments, dirs) && Agree(mem, dirs, segments) && 0 in dirs && 0 in segments
    requires id in dirs && id in segments && FramesOk(owner, held)
    requires KernelCovers(owner, dirs, mapped, segments[0]) && Between(id, v, n) && Vacant(segments[id], v * PAGE, n * PAGE)
    requires 0 <= protection < NOUNMAP && NoData(owner, id, v, v + n)
    requires var after := WithSegment(segments, id, Segment(v * PAGE, n * PAGE, protection));
      PageFits(after) && page * PAGE == AtGap(after[0], PAGE, READ_WRITE).address
    requires MemoryMapped(mem, owner, held, mem1, owner1, held1, dirs, 0, page, page + 1, READ_WRITE)
    ensures held1 !! owner1.Keys && NoData(owner1, id, v, v + n)
    ensures var s := Segment(v * PAGE, n * PAGE, protection); var before := WithSegment(segments, 0, Segment(page * PAGE, PAGE, READ_WRITE));
      && Lists(before, dirs) && Agree(mem1, dirs, before) && id in before && Vacant(before[id], v * PAGE, n * PAGE)
      && PageFits(WithSegment(segments, id, s)) && WithSegment(before, id, s) == WithPage(WithSegment(segments, id, s))
  {
    hide DataOk, Lists, Agree, KernelCovers, Between, Vacant, Added, HasGap, FreePage, Flat, OwnPage, WithSegment, WithPage;
    PoolPage(mem, dirs, owner, mapped, segments, id, v, n, protection);
    RangeMapped(mem, owner, held, mem1, owner1, held1, dirs, mapped, segments, 0, page, 1, READ_WRITE);
  }

  lemma SpaceList(segments: map<int, seq<Segment>>, dirs: map<int, int>, id: int)
    requires Lists(segments, dirs) && id in dirs
    ensures id in segments && List(segments[id], id)
  {
  }

  lemma WindowStays(segments: map<int, seq<Segment>>, id: int, s: Segment)
    requires 0 in segments && AllCovered(segments[0], STACK_WINDOW.address, STACK_WINDOW.size)
    ensures 0 in WithSegment(segments, id, s) && AllCovered(WithSegment(segments, id, s)[0], STACK_WINDOW.address, STACK_WINDOW.size)
  {
    hide Covered, Added;
    if id == 0 && segments[0] != [] {
      forall x ensures Covered(segments[0], x) ==> Covered(Added(segments[0], s), x) {
        AddCovers(segments[0], s, x);
      }
    }
  }

  /** A vacant range below the recursive mapping is below the frame stack. */
  lemma BelowWindow(segs: seq<Segment>, address: int, size: int)
    requires Vacant(segs, address, size) && AllCovered(segs, STACK_WINDOW.address, STACK_WINDOW.size) && size > 0
    requires address + size <= KERNEL_TAIL.address
    ensures address + size <= STACK_WINDOW.address
  {
    hide Covered;
    assert !Covered(segs, address + size - 1) by { VacantByte(segs, address, size, address + size - 1); }
  }

  lemma VacantByte(segs: seq<Segment>, address: int, size: int, x: int)
    requires Vacant(segs, address, size) && address <= x < address + size
    ensures !Covered(segs, x)
  {
  }

  lemma WindowCovered(owner: map<int, Owner>, dirs: map<int, int>, mapped: map<int, (int, int)>, segs: seq<Segment>)
    requires KernelCovers(owner, dirs, mapped, segs)
    ensures AllCovered(segs, STACK_WINDOW.address, STACK_WINDOW.size)
  {
    hide Covered;
  }

  lemma SomePages(id: int, v: int, n: int)
    requires Between(id, v, n)
    ensures n > 0
  {
  }

  lemma MappedRange(mem: Memory, owner: map<int, Owner>, held: set<int>, mem': Memory, owner': map<int, Owner>, held': set<int>,
                    dirs: map<int, int>, id: int, v: int, n: int, protection: int)
    requires MemoryMapped(mem, owner, held, mem', owner', held', dirs, id, v, v + n, protection)
    ensures SamePages(mem, mem', dirs, id, v, v + n) && forall u :: v <= u < v + n ==> Flat(mem', dirs, id, u) != NONE
    ensures forall f :: f in owner' && owner'[f].Data? ==> (f in owner && owner[f] == owner'[f]) || (owner'[f].id == id && v <= owner'[f].page < v + n)
  {
    hide Flat, OwnPage, ContentsKept, TablesStay;
    forall u | v <= u < v + n ensures Flat(mem', dirs, id, u) != NONE {
      assert IsMapped(mem', owner', dirs, held, id, u, protection);
      FlagsNotNone(id, protection, Flat(mem', dirs, id, u).frame);
    }
  }

  lemma UnmappedRange(mem: Memory, owner: map<int, Owner>, held: set<int>, mem': Memory, owner': map<int, Owner>, held': set<int>,
                      dirs: map<int, int>, id: int, v: int, n: int)
    requires MemoryUnmapped(mem, owner, held, mem', owner', held', dirs, id, v, v + n)
    ensures SamePages(mem, mem', dirs, id, v, v + n) && forall u :: v <= u < v + n ==> Flat(mem', dirs, id, u) == NONE
    ensures forall f :: f in owner' && owner'[f].Data? ==>
      f in owner && owner[f] == owner'[f] && !(owner'[f].id == id && v <= owner'[f].page < v + n)
  {
    hide Flat, OwnPage, MemoryKept, TablesStay;
  }

  lemma CoversSame(owner: map<int, Owner>, owner': map<int, Owner>, dirs: map<int, int>, mapped: map<int, (int, int)>, segs: seq<Segment>)
    requires KernelCovers(owner, dirs, mapped, segs)
    requires forall f :: f in owner' && owner'[f].Data? && owner'[f].id == 0 ==> f in owner && owner[f] == owner'[f]
    ensures KernelCovers(owner', dirs, mapped, segs)
  {
    hide Covered;
  }

  lemma WindowOffsets(mem: Memory, dirs: map<int, int>, mapped: map<int, (int, int)>)
    requires Windows(mem, dirs, mapped)
    ensures forall j :: j in dirs && j != 0 && j in mapped ==> 0 <= mapped[j].1 < ENTRIES
  {
    hide Walk;
    forall j | j in dirs && j != 0 && j in mapped ensures 0 <= mapped[j].1 < ENTRIES {
      assert Window(mem, dirs, mapped, j);
    }
  }

  /** Every page of a covered range is backed and free to be unmapped. */
  lemma RangeBacked(mem: Memory, dirs: map<int, int>, owner: map<int, Owner>, mapped: map<int, (int, int)>,
                    segments: map<int, seq<Segment>>, id: int, v: int, n: int)
    requires Core(mem, dirs, owner, -1) && Windows(mem, dirs, mapped) && 0 in dirs && Walk(mem, dirs[0], TEMP_PD, 0x3FF) == NONE
    requires DataOk(mem, dirs, owner) && Agree(mem, dirs, segments) && id in dirs && id in segments && Between(id, v, n)
    requires AllCovered(segments[id], v * PAGE, n * PAGE)
    requires id == 0 ==> forall u :: v <= u < v + n ==> Backed(mem, dirs, owner, 0, u)
    ensures forall u :: v <= u < v + n ==> FreePage(dirs, mapped, id, u) && Backed(mem, dirs, owner, id, u)
  {
    hide Core, Windows, Walk, Flat, OwnPage, Covered, Agree, DataOk, Backed, FreePage, Between;
    forall u | v <= u < v + n ensures FreePage(dirs, mapped, id, u) && Backed(mem, dirs, owner, id, u) {
      BetweenOwn(id, v, n, u);
      if id != 0 { CoveredBacked(mem, dirs, owner, segments, id, u); }
      BackedFree(mem, dirs, owner, mapped, id, u);
    }
  }

  /** A range just reserved is covered, starts at a segment, and removing it restores the list. */
  lemma ListsAddRemove(segments: map<int, seq<Segment>>, dirs: map<int, int>, id: int, v: int, n: int, flags: int)
    requires Lists(segments, dirs) && id in dirs && id in segments && Between(id, v, n) && Vacant(segments[id], v * PAGE, n * PAGE)
    requires 0 <= flags < NOUNMAP
    ensures segments[id] != []
    ensures var segs := Added(segments[id], Segment(v * PAGE, n * PAGE, flags));
            && AllCovered(segs, v * PAGE, n * PAGE) && (exists k :: 0 <= k < |segs| && segs[k].address == v * PAGE)
            && Removable(segs, v * PAGE, n * PAGE) && Removed(segs, v * PAGE, n * PAGE) == segments[id]
  {
    hide Removable, Removed, Added, Wrap;
    var s := Segment(v * PAGE, n * PAGE, flags);
    var segs := Added(segments[id], s);
    assert List(segments[id], id);
    ListsAdd(segments, dirs, id, v, n, flags);
    assert List(segs, id) by { assert List(segments[id := segs][id], id); }
    AddedElements(segments[id], s);
    assert s in segs;
    assert s !in segments[id];
    RemovedIs(segs, FirstOf(id), LastOf(id), id != 0, s, segments[id]);
    assert exists k :: 0 <= k < |segs| && segs[k] == s;
  }

  lemma MappedBacked(mem: Memory, owner: map<int, Owner>, held: set<int>, mem': Memory, owner': map<int, Owner>, held': set<int>,
                     dirs: map<int, int>, id: int, v: int, n: int, protection: int)
    requires MemoryMapped(mem, owner, held, mem', owner', held', dirs, id, v, v + n, protection)
    ensures forall u :: v <= u < v + n ==> Backed(mem', dirs, owner', id, u)
  {
    MappedRange(mem, owner, held, mem', owner', held', dirs, id, v, n, protection);
    hide Flat, OwnPage, ContentsKept, TablesStay;
    forall u | v <= u < v + n ensures Backed(mem', dirs, owner', id, u) {
      assert IsMapped(mem', owner', dirs, held, id, u, protection);
    }
  }

  lemma RestoredPages(mem0: Memory, owner0: map<int, Owner>, held0: set<int>, mem1: Memory, owner1: map<int, Owner>, held1: set<int>,
                      mem2: Memory, owner2: map<int, Owner>, held2: set<int>, dirs: map<int, int>, id: int, v: int, n: int, protection: int)
    requires MemoryMapped(mem0, owner0, held0, mem1, owner1, held1, dirs, id, v, v + n, protection) && held0 !! owner0.Keys
    requires MemoryUnmapped(mem1, owner1, held1, mem2, owner2, held2, dirs, id, v, v + n) && NoData(owner0, id, v, v + n)
    requires forall u :: v <= u < v + n ==> OwnPage(id, u) && Flat(mem0, dirs, id, u) == NONE
    ensures SamePages(mem0, mem2, dirs, id, v, v) && Grew(owner0, held0, owner2, held2)
  {
    UnmappedRange(mem1, owner1, held1, mem2, owner2, held2, dirs, id, v, n);
    hide Flat, OwnPage, ContentsKept, TablesStay;
    forall f | f in owner1 && f !in owner2 ensures f in held0 {
      NewlyTaken(owner0, held0, owner1, held1, id, v, v + n, f);
    }
    assert forall f :: f in owner2.Keys ==> f in owner1.Keys;
    assert held2 == held0 - owner2.Keys;
  }

  lemma NewlyTaken(owner: map<int, Owner>, held: set<int>, owner': map<int, Owner>, held': set<int>, id: int, lo: int, hi: int, f: int)
    requires Taken(owner, held, owner', held', id, lo, hi) && NoData(owner, id, lo, hi) && f in owner' && InRange(owner'[f], id, lo, hi)
    ensures f in held
  {
  }

  lemma FrameReturned(owner: map<int, Owner>, held: set<int>, f: int)
    requires FramesOk(owner, held) && f in owner
    ensures FramesOk(owner - {f}, held + {f}) && 0 < f < FRAMES && f !in held
  {
  }
}
