/**
  Borrowing pages of one address space in the kernel, and what is built on it:
  creating, copying and destroying address spaces.
 */
module Forks {
  import opened FrameStacks
  import opened PageTables
  import opened AddressSpaces
  import opened FlatMaps
  import opened Segments
  import opened SpaceSegments
  import opened SpaceRules
  import opened SpaceTables
  import opened MemoryMaps
  import L = SegmentLists

  const PROT_READ: int := 1
  const PROT_WRITE: int := 2

  /** Kernel pages [d, d + n) now show the frames of pages [v, v + n) of space src; no other page changed. */
  ghost predicate Borrowed(mem: Memory, owner: map<int, Owner>, held: set<int>, mem': Memory, owner': map<int, Owner>, held': set<int>,
                           dirs: map<int, int>, src: int, v: int, d: int, n: int, protection: int) {
    && 0 in dirs && src in dirs && Effect(mem, owner, held, mem', owner', held', dirs) && SamePages(mem, mem', dirs, 0, d, d + n)
    && forall u :: d <= u < d + n ==> Flat(mem', dirs, 0, u) == Word(Flat(mem, dirs, src, u - d + v).frame, MapFlags(0, protection))
  }

  /** mapFromOtherAddressSpace of the kernel. */
  method MapFrom(s: Spaces, src: int, v: int, n: nat, protection: int) returns (d: int)
    requires s.Valid() && src in s.vm.dirs && src != 0 && n > 0 && 0 <= protection < NOUNMAP
    requires 0 in s.segments && HasGap(s.segments[0], n * PAGE) && s.SpareIn(0) >= 0 && s.Slots() != 0
    requires forall u :: v <= u < v + n ==> OwnPage(src, u) && Flat(s.vm.mem, s.vm.dirs, src, u) != NONE
    modifies s`segments, s.table, s.vm`mem, s.vm`owner, s.vm.frames
    ensures s.Valid() && d * PAGE == old(AtGap(s.segments[0], n * PAGE, protection)).address && Between(0, d, n) && s.Slots() == old(s.Slots()) - 1
    ensures s.segments == WithSegment(old(s.segments), 0, old(AtGap(s.segments[0], n * PAGE, protection)))
    ensures Borrowed(old(s.vm.mem), old(s.vm.owner), old(s.vm.frames.Held()), s.vm.mem, s.vm.owner, s.vm.frames.Held(),
                     s.vm.dirs, src, v, d, n, protection)
    ensures NoData(s.vm.owner, 0, d, d + n) && forall u :: d <= u < d + n ==> FreePage(s.vm.dirs, s.vm.mapped, 0, u)
    ensures forall u :: d <= u < d + n ==> Protected(s.vm.mem, s.vm.dirs, 0, u, protection)
    ensures forall j :: j in s.vm.dirs ==> s.SpareIn(j) == old(s.SpareIn(j))
    ensures OthersStay(old(s.table.lists), s.table.lists, s.heads, s.vm.dirs, 0)
  {
    hide Get, Walk, Flat, Core, Windows, SamePages, Spare, DataOk, UserReady, FrameStack.Valid, FrameStack.Held, FrameStack.StoredIn,
      OwnPage, Pd, Pt,
      FreePage, KernelCovers, Agree, NoData, Between, Vacant, ListOk, List, Lists, GapFrom, Effect, Borrowed, MapFlags, L.FreeSlots, Spaces.Described,
      OthersStay, Protected;
    var vm := s.vm;
    ghost var mem0, owner0, held0 := vm.mem, vm.owner, vm.frames.Held();
    WindowCovered(owner0, vm.dirs, vm.mapped, s.segments[0]);
    d := s.FindGap(0, n);
    VacantFree(mem0, vm.dirs, owner0, vm.mapped, s.segments, 0, d, n);
    ListsAdd(s.segments, vm.dirs, 0, d, n, protection);
    var _ := s.Reserve(0, d, n, protection);
    BorrowNone(mem0, owner0, held0, vm.dirs, src, v, d, protection);
    forall u | d <= u < d + n ensures OwnPage(0, u) { FreeIsOwn(vm.dirs, vm.mapped, 0, u); }
    for i := 0 to n
      invariant s.Pages() && Borrowed(mem0, owner0, held0, vm.mem, vm.owner, vm.frames.Held(), vm.dirs, src, v, d, i, protection)
      invariant NoData(vm.owner, 0, d, d + n) && s.segments == WithSegment(old(s.segments), 0, Segment(d * PAGE, n * PAGE, protection))
      invariant s.Described() && s.Slots() == old(s.Slots()) - 1 && OthersStay(old(s.table.lists), s.table.lists, s.heads, vm.dirs, 0)
      invariant forall j :: j in vm.dirs ==> s.SpareIn(j) == old(s.SpareIn(j))
    {
      ghost var mem1, owner1, held1 := vm.mem, vm.owner, vm.frames.Held();
      FreeIsOwn(vm.dirs, vm.mapped, 0, d + i);
      assert OwnPage(src, v + i) && Flat(mem0, vm.dirs, src, v + i) != NONE;
      BorrowedSame(mem0, owner0, held0, mem1, owner1, held1, vm.dirs, src, v, d, i, protection, src, v + i);
      var f := s.GetPage(src, v + i);
      ghost var mem2 := vm.mem;
      s.SetPage(0, d + i, Word(f, MapFlags(0, protection)));
      ghost var mem3, owner3, held3 := vm.mem, vm.owner, vm.frames.Held();
      StepEffect(mem1, mem2, mem3, owner1, held1, owner3, held3, vm.dirs);
      StepPages(mem1, mem2, mem3, vm.dirs, src, v + i, 0, d + i);
      BorrowNext(mem0, owner0, held0, mem1, owner1, held1, mem3, owner3, held3, vm.dirs, src, v, d, i, protection);
      NoDataTables(mem1, owner1, held1, mem3, owner3, held3, vm.dirs, 0, d, d + n);
      EffectParts(mem1, owner1, held1, mem3, owner3, held3, vm.dirs);
      NoDataOne(owner1, 0, d, d + n, d + i);
      DataKept(mem1, mem3, vm.dirs, owner1, owner3, d + i, d + i + 1);
    }
    BorrowedProtected(mem0, owner0, held0, vm.mem, vm.owner, vm.frames.Held(), vm.dirs, src, v, d, n, protection);
    BorrowedParts(mem0, owner0, held0, vm.mem, vm.owner, vm.frames.Held(), vm.dirs, src, v, d, n, protection);
    AgreeMapped(mem0, vm.mem, vm.dirs, old(s.segments), 0, d, n, protection);
    CoversMore(owner0, vm.owner, vm.dirs, vm.mapped, old(s.segments[0]), d, n, protection);
  }

  lemma BorrowNone(mem: Memory, owner: map<int, Owner>, held: set<int>, dirs: map<int, int>, src: int, v: int, d: int, protection: int)
    requires FramesOk(owner, held) && 0 in dirs && src in dirs
    ensures Borrowed(mem, owner, held, mem, owner, held, dirs, src, v, d, 0, protection)
  {
    hide Get, Flat;
  }

  lemma BorrowedSame(mem: Memory, owner: map<int, Owner>, held: set<int>, mem': Memory, owner': map<int, Owner>, held': set<int>,
                     dirs: map<int, int>, src: int, v: int, d: int, n: int, protection: int, j: int, u: int)
    requires Borrowed(mem, owner, held, mem', owner', held', dirs, src, v, d, n, protection) && j in dirs && j != 0 && OwnPage(j, u)
    ensures Flat(mem', dirs, j, u) == Flat(mem, dirs, j, u)
  {
    hide Flat, Effect;
  }

  lemma StepEffect(mem1: Memory, mem2: Memory, mem3: Memory, owner1: map<int, Owner>, held1: set<int>, owner3: map<int, Owner>, held3: set<int>,
                   dirs: map<int, int>)
    requires FramesOk(owner1, held1) && ContentsKept(mem1, mem2, owner1) && TablesStay(mem1, mem2, dirs)
    requires Effect(mem2, owner1, held1, mem3, owner3, held3, dirs)
    ensures Effect(mem1, owner1, held1, mem3, owner3, held3, dirs)
  {
    hide Get;
    EffectTrans(mem1, owner1, held1, mem2, owner1, held1, mem3, owner3, held3, dirs);
  }

  lemma StepPages(mem1: Memory, mem2: Memory, mem3: Memory, dirs: map<int, int>, src: int, v: int, id: int, u: int)
    requires SamePages(mem1, mem2, dirs, src, v, v) && SamePages(mem2, mem3, dirs, id, u, u + 1)
    ensures SamePages(mem1, mem3, dirs, id, u, u + 1)
  {
    hide Flat, OwnPage;
  }

  lemma BorrowNext(mem0: Memory, owner0: map<int, Owner>, held0: set<int>, mem1: Memory, owner1: map<int, Owner>, held1: set<int>,
                   mem3: Memory, owner3: map<int, Owner>, held3: set<int>, dirs: map<int, int>, src: int, v: int, d: int, i: nat, protection: int)
    requires Borrowed(mem0, owner0, held0, mem1, owner1, held1, dirs, src, v, d, i, protection) && src != 0
    requires Effect(mem1, owner1, held1, mem3, owner3, held3, dirs) && SamePages(mem1, mem3, dirs, 0, d + i, d + i + 1)
    requires OwnPage(src, v + i) && Flat(mem3, dirs, 0, d + i) == Word(Flat(mem1, dirs, src, v + i).frame, MapFlags(0, protection))
    requires forall u :: d <= u < d + i ==> OwnPage(0, u)
    ensures Borrowed(mem0, owner0, held0, mem3, owner3, held3, dirs, src, v, d, i + 1, protection)
  {
    EffectTrans(mem0, owner0, held0, mem1, owner1, held1, mem3, owner3, held3, dirs);
    hide Flat, Effect, OwnPage, MapFlags;
    SamePagesTrans(mem0, mem1, mem3, dirs, 0, d, d + i, d + i + 1);
    forall u | d <= u < d + i + 1 ensures Flat(mem3, dirs, 0, u) == Word(Flat(mem0, dirs, src, u - d + v).frame, MapFlags(0, protection)) {
      if u < d + i {
        SameWindows(mem1, mem3, dirs, 0, u, 0, d + i, d + i + 1);
      } else {
        BorrowedSame(mem0, owner0, held0, mem1, owner1, held1, dirs, src, v, d, i, protection, src, v + i);
      }
    }
  }

  lemma NoDataTables(mem: Memory, owner: map<int, Owner>, held: set<int>, mem': Memory, owner': map<int, Owner>, held': set<int>,
                     dirs: map<int, int>, id: int, lo: int, hi: int)
    requires Effect(mem, owner, held, mem', owner', held', dirs) && NoData(owner, id, lo, hi)
    ensures NoData(owner', id, lo, hi)
  {
    hide Get;
  }

  lemma NoDataOne(owner: map<int, Owner>, id: int, lo: int, hi: int, u: int)
    requires NoData(owner, id, lo, hi) && lo <= u < hi
    ensures NoData(owner, id, u, u + 1)
  {
  }

  lemma BorrowedParts(mem: Memory, owner: map<int, Owner>, held: set<int>, mem': Memory, owner': map<int, Owner>, held': set<int>,
                      dirs: map<int, int>, src: int, v: int, d: int, n: int, protection: int)
    requires Borrowed(mem, owner, held, mem', owner', held', dirs, src, v, d, n, protection)
    ensures SamePages(mem, mem', dirs, 0, d, d + n) && forall u :: d <= u < d + n ==> Flat(mem', dirs, 0, u) != NONE
    ensures forall f :: f in owner' && owner'[f].Data? ==> f in owner && owner[f] == owner'[f]
  {
    hide Flat, Get;
    forall u | d <= u < d + n ensures Flat(mem', dirs, 0, u) != NONE {
      FlagsNotNone(0, protection, Flat(mem, dirs, src, u - d + v).frame);
    }
  }

  lemma ListOf(segments: map<int, seq<Segment>>, dirs: map<int, int>, id: int)
    requires Lists(segments, dirs) && id in dirs
    ensures id in segments && List(segments[id], id)
  {
  }

  lemma BorrowedProtected(mem: Memory, owner: map<int, Owner>, held: set<int>, mem': Memory, owner': map<int, Owner>, held': set<int>,
                          dirs: map<int, int>, src: int, v: int, d: int, n: int, protection: int)
    requires Borrowed(mem, owner, held, mem', owner', held', dirs, src, v, d, n, protection) && Core(mem', dirs, owner', -1)
    requires forall u :: d <= u < d + n ==> OwnPage(0, u)
    ensures forall u :: d <= u < d + n ==> Protected(mem', dirs, 0, u, protection)
  {
    hide Flat, OwnPage, Core, Protected, MapFlags, SamePages, Effect;
    forall u | d <= u < d + n ensures Protected(mem', dirs, 0, u, protection) { FlagsProtect(mem', dirs, owner', 0, u, protection); }
  }

  /** Kernel pages [d, d + n) show nothing any more; no other page changed. */
  ghost predicate Withdrawn(mem: Memory, owner: map<int, Owner>, held: set<int>, mem': Memory, owner': map<int, Owner>, held': set<int>,
                            dirs: map<int, int>, d: int, n: int) {
    && 0 in dirs && Effect(mem, owner, held, mem', owner', held', dirs) && SamePages(mem, mem', dirs, 0, d, d + n)
    && forall u :: d <= u < d + n ==> Flat(mem', dirs, 0, u) == NONE
  }

  /** unmapPhysical of the kernel for a range that is no memory: no frame is given back. */
  method UnmapPhysical(s: Spaces, d: int, n: nat)
    requires s.Valid() && n > 0 && 0 in s.segments && s.SpareIn(0) >= 0 && Between(0, d, n) && NoData(s.vm.owner, 0, d, d + n)
    requires forall u :: d <= u < d + n ==> FreePage(s.vm.dirs, s.vm.mapped, 0, u)
    requires AllCovered(s.segments[0], d * PAGE, n * PAGE)
    requires exists k :: 0 <= k < |s.segments[0]| && s.segments[0][k].address == d * PAGE
    modifies s`segments, s.table, s.vm`mem, s.vm`owner, s.vm.frames
    ensures s.Valid() && old(Removable(s.segments[0], d * PAGE, n * PAGE)) && s.Slots() >= old(s.Slots())
    ensures s.segments == old(s.segments[0 := Removed(s.segments[0], d * PAGE, n * PAGE)])
    ensures Withdrawn(old(s.vm.mem), old(s.vm.owner), old(s.vm.frames.Held()), s.vm.mem, s.vm.owner, s.vm.frames.Held(), s.vm.dirs, d, n)
    ensures forall j :: j in s.vm.dirs ==> s.SpareIn(j) == old(s.SpareIn(j))
    ensures OthersStay(old(s.table.lists), s.table.lists, s.heads, s.vm.dirs, 0)
  {
    hide Get, Walk, Flat, Core, Windows, SamePages, Spare, DataOk, UserReady, FrameStack.Valid, FrameStack.Held, FrameStack.StoredIn,
      OwnPage, Pd, Pt,
      FreePage, KernelCovers, Agree, NoData, Between, ListOk, List, Lists, Effect, Withdrawn, Removable, Removed, AllCovered, Exact,
      L.FreeSlots, Spaces.Described, OthersStay, Spaces.DescriptorGone;
    var vm := s.vm;
    ghost var mem0, owner0, held0 := vm.mem, vm.owner, vm.frames.Held();
    ListsRemove(s.segments, vm.dirs, 0, d, n);
    WindowOffsets(mem0, vm.dirs, vm.mapped);
    WithdrawNone(mem0, owner0, held0, vm.dirs, d);
    forall u | d <= u < d + n ensures OwnPage(0, u) { FreeIsOwn(vm.dirs, vm.mapped, 0, u); }
    for i := 0 to n
      invariant s.Pages() && Withdrawn(mem0, owner0, held0, vm.mem, vm.owner, vm.frames.Held(), vm.dirs, d, i)
      invariant NoData(vm.owner, 0, d, d + n) && s.segments == old(s.segments)
      invariant s.Described() && s.Slots() == old(s.Slots()) && s.table.lists == old(s.table.lists)
      invariant forall j :: j in vm.dirs ==> s.SpareIn(j) == old(s.SpareIn(j))
    {
      ghost var mem1, owner1, held1 := vm.mem, vm.owner, vm.frames.Held();
      s.SetPage(0, d + i, NONE);
      ghost var mem2, owner2, held2 := vm.mem, vm.owner, vm.frames.Held();
      WithdrawNext(mem0, owner0, held0, mem1, owner1, held1, mem2, owner2, held2, vm.dirs, d, i);
      NoDataTables(mem1, owner1, held1, mem2, owner2, held2, vm.dirs, 0, d, d + n);
      EffectParts(mem1, owner1, held1, mem2, owner2, held2, vm.dirs);
      NoDataOne(owner1, 0, d, d + n, d + i);
      DataKept(mem1, mem2, vm.dirs, owner1, owner2, d + i, d + i + 1);
    }
    WithdrawnParts(mem0, owner0, held0, vm.mem, vm.owner, vm.frames.Held(), vm.dirs, d, n);
    s.Release(0, d, n);
    AgreeUnmapped(mem0, vm.mem, vm.dirs, old(s.segments), 0, d, n, s.segments[0]);
    NoDataRange(owner0, vm.owner, d, n);
    CoversLess(owner0, vm.owner, vm.dirs, vm.mapped, old(s.segments[0]), s.segments[0], d, n);
  }

  lemma WithdrawNone(mem: Memory, owner: map<int, Owner>, held: set<int>, dirs: map<int, int>, d: int)
    requires FramesOk(owner, held) && 0 in dirs
    ensures Withdrawn(mem, owner, held, mem, owner, held, dirs, d, 0)
  {
    hide Get, Flat;
  }

  lemma WithdrawNext(mem0: Memory, owner0: map<int, Owner>, held0: set<int>, mem1: Memory, owner1: map<int, Owner>, held1: set<int>,
                     mem2: Memory, owner2: map<int, Owner>, held2: set<int>, dirs: map<int, int>, d: int, i: nat)
    requires Withdrawn(mem0, owner0, held0, mem1, owner1, held1, dirs, d, i) && Effect(mem1, owner1, held1, mem2, owner2, held2, dirs)
    requires SamePages(mem1, mem2, dirs, 0, d + i, d + i + 1) && Flat(mem2, dirs, 0, d + i) == NONE
    requires forall u :: d <= u < d + i ==> OwnPage(0, u)
    ensures Withdrawn(mem0, owner0, held0, mem2, owner2, held2, dirs, d, i + 1)
  {
    EffectTrans(mem0, owner0, held0, mem1, owner1, held1, mem2, owner2, held2, dirs);
    hide Flat, Effect, OwnPage;
    SamePagesTrans(mem0, mem1, mem2, dirs, 0, d, d + i, d + i + 1);
    forall u | d <= u < d + i + 1 ensures Flat(mem2, dirs, 0, u) == NONE {
      if u < d + i { SameWindows(mem1, mem2, dirs, 0, u, 0, d + i, d + i + 1); }
    }
  }

  lemma WithdrawnParts(mem: Memory, owner: map<int, Owner>, held: set<int>, mem': Memory, owner': map<int, Owner>, held': set<int>,
                       dirs: map<int, int>, d: int, n: int)
    requires Withdrawn(mem, owner, held, mem', owner', held', dirs, d, n)
    ensures SamePages(mem, mem', dirs, 0, d, d + n) && forall u :: d <= u < d + n ==> Flat(mem', dirs, 0, u) == NONE
    ensures forall f :: f in owner' && owner'[f].Data? ==> f in owner && owner[f] == owner'[f]
  {
    hide Flat, Get;
  }

  lemma NoDataRange(owner: map<int, Owner>, owner': map<int, Owner>, d: int, n: int)
    requires NoData(owner', 0, d, d + n) && forall f :: f in owner' && owner'[f].Data? ==> f in owner && owner[f] == owner'[f]
    ensures forall f :: f in owner' && owner'[f].Data? && owner'[f].id == 0 ==>
      f in owner && owner[f] == owner'[f] && !(d <= owner'[f].page < d + n)
  {
  }

  // ---------- Copying memory through borrowed pages ----------

  /** Only words of frames that are memory of pages [lo, hi) of space id changed. */
  ghost predicate OnlyMemory(mem: Memory, mem': Memory, owner: map<int, Owner>, id: int, lo: int, hi: int) {
    forall g, i :: !(g in owner && InRange(owner[g], id, lo, hi)) ==> Get(mem', g, i) == Get(mem, g, i)
  }

  /** Writing memory changes no table. */
  lemma MemoryWritten(mem: Memory, mem': Memory, dirs: map<int, int>, owner: map<int, Owner>, id: int, lo: int, hi: int)
    requires Core(mem, dirs, owner, -1) && OnlyMemory(mem, mem', owner, id, lo, hi)
    ensures Core(mem', dirs, owner, -1) && SameAll(mem, mem', dirs) && DirectoriesSame(mem, mem', owner)
  {
    hide Get;
    assert DirectoriesSame(mem, mem', owner);
    CoreKept(mem, mem', dirs, owner, -1);
    forall j, p, t | j in dirs && Own(j, p, t) ensures Walk(mem', dirs[j], p, t) == Walk(mem, dirs[j], p, t) {
      DirOwner(mem, dirs, owner, -1, j);
      if Get(mem, dirs[j], p) != NONE { TableFrame(mem, dirs, owner, -1, j, p); }
    }
  }

  /** Kernel pages [d, d + n) show the memory of pages [v, v + n) of space id. */
  ghost predicate Shows(mem: Memory, dirs: map<int, int>, owner: map<int, Owner>, id: int, v: int, d: int, n: int) {
    && 0 in dirs
    && forall u :: d <= u < d + n ==>
         && OwnPage(0, u) && Present(Flat(mem, dirs, 0, u)) && Flat(mem, dirs, 0, u).frame in owner
         && owner[Flat(mem, dirs, 0, u).frame] == Data(id, u - d + v)
  }

  /** Word k of a page. */
  function WordOf(mem: Memory, dirs: map<int, int>, id: int, v: int, k: int): Word
    requires id in dirs
  {
    Get(mem, Flat(mem, dirs, id, v).frame, k)
  }

  /** The words of kernel pages from `to` on are those of the pages from `from` on, for n pages. */
  ghost predicate Copied(mem: Memory, mem': Memory, dirs: map<int, int>, from: int, to: int, n: int) {
    0 in dirs && forall u, k :: to <= u < to + n && 0 <= k < ENTRIES ==> WordOf(mem', dirs, 0, u, k) == WordOf(mem, dirs, 0, u - to + from, k)
  }

  /** The kernel may write pages [d, d + n) of its own. */
  ghost predicate MayWrite(mem: Memory, dirs: map<int, int>, d: int, n: int) {
    0 in dirs && forall u :: d <= u < d + n ==> Writable(Flat(mem, dirs, 0, u))
  }

  /** memcpy of one page, word by word, from the frame shown at kernel page `from` to the memory shown at `to`. */
  method CopyPage(vm: Vm, from: int, to: int)
    requires vm.current in vm.dirs && Core(vm.mem, vm.dirs, vm.owner, -1) && 0 in vm.dirs && OwnPage(0, from) && OwnPage(0, to)
    requires Present(Flat(vm.mem, vm.dirs, 0, from)) && Present(Flat(vm.mem, vm.dirs, 0, to)) && Writable(Flat(vm.mem, vm.dirs, 0, to))
    requires var g := Flat(vm.mem, vm.dirs, 0, to).frame; g != Flat(vm.mem, vm.dirs, 0, from).frame && g in vm.owner && vm.owner[g].Data?
    modifies vm`mem
    ensures OnlyFrame(old(vm.mem), vm.mem, old(Flat(vm.mem, vm.dirs, 0, to)).frame)
    ensures forall k :: 0 <= k < ENTRIES ==>
      Get(vm.mem, old(Flat(vm.mem, vm.dirs, 0, to)).frame, k) == Get(old(vm.mem), old(Flat(vm.mem, vm.dirs, 0, from)).frame, k)
  {
    hide Get, Set, Walk, Core, OwnPage, Pd, Pt, SameAll;
    ghost var mem0 := vm.mem;
    ghost var f, g := Flat(mem0, vm.dirs, 0, from).frame, Flat(mem0, vm.dirs, 0, to).frame;
    for k := 0 to ENTRIES
      invariant OnlyFrame(mem0, vm.mem, g) && forall j :: 0 <= j < k ==> Get(vm.mem, g, j) == Get(mem0, f, j)
    {
      FrameWritten(mem0, vm.mem, vm.dirs, vm.owner, g);
      ShownAt(mem0, vm.mem, vm.dirs, vm.owner, vm.current, from);
      ShownAt(mem0, vm.mem, vm.dirs, vm.owner, vm.current, to);
      MayStore(mem0, vm.mem, vm.dirs, vm.owner, vm.current, to);
      var w := vm.Load(Pd(from), Pt(from), k);
      GetSet(vm.mem, g, k, w);
      vm.Store(Pd(to), Pt(to), k, w);
    }
  }

  lemma FrameWritten(mem: Memory, mem': Memory, dirs: map<int, int>, owner: map<int, Owner>, g: int)
    requires Core(mem, dirs, owner, -1) && OnlyFrame(mem, mem', g) && g in owner && owner[g].Data?
    ensures Core(mem', dirs, owner, -1) && SameAll(mem, mem', dirs)
  {
    hide Get, Core, SameAll;
    assert OnlyMemory(mem, mem', owner, owner[g].id, owner[g].page, owner[g].page + 1);
    MemoryWritten(mem, mem', dirs, owner, owner[g].id, owner[g].page, owner[g].page + 1);
  }

  /** The running space still shows at a kernel page what the kernel's tables said. */
  lemma ShownAt(mem: Memory, mem': Memory, dirs: map<int, int>, owner: map<int, Owner>, c: int, v: int)
    requires Core(mem', dirs, owner, -1) && SameAll(mem, mem', dirs) && c in dirs && 0 in dirs && OwnPage(0, v)
    ensures Walk(mem', dirs[c], Pd(v), Pt(v)) == Flat(mem, dirs, 0, v)
  {
    hide Get, Walk, Core;
    OwnIndex(0, v);
    KernelReached(mem', dirs, owner, -1, c, Pd(v), Pt(v));
  }

  lemma MayStore(mem: Memory, mem': Memory, dirs: map<int, int>, owner: map<int, Owner>, c: int, v: int)
    requires Core(mem', dirs, owner, -1) && SameAll(mem, mem', dirs) && c in dirs && 0 in dirs && OwnPage(0, v)
    requires Present(Flat(mem, dirs, 0, v)) && Writable(Flat(mem, dirs, 0, v))
    ensures KernelWrites(mem', dirs[c], Pd(v), Pt(v))
  {
    hide Get, Walk, Core, Present, Writable;
    OwnIndex(0, v);
    KernelWritable(mem', dirs, owner, -1, c, Pd(v), Pt(v));
  }

  /** memcpy of n pages from the memory of space p to that of space c, both borrowed in the kernel. */
  method CopyPages(s: Spaces, from: int, to: int, n: nat, ghost p: int, ghost c: int, ghost v: int)
    requires s.Pages() && p != c
    requires Shows(s.vm.mem, s.vm.dirs, s.vm.owner, p, v, from, n) && Shows(s.vm.mem, s.vm.dirs, s.vm.owner, c, v, to, n)
    requires MayWrite(s.vm.mem, s.vm.dirs, to, n)
    modifies s.vm`mem
    ensures s.Pages() && SameAll(old(s.vm.mem), s.vm.mem, s.vm.dirs) && TablesStay(old(s.vm.mem), s.vm.mem, s.vm.dirs)
    ensures OnlyMemory(old(s.vm.mem), s.vm.mem, s.vm.owner, c, v, v + n) && Copied(old(s.vm.mem), s.vm.mem, s.vm.dirs, from, to, n)
    ensures forall j :: j in s.vm.dirs ==> s.SpareIn(j) == old(s.SpareIn(j))
  {
    hide Get, Walk, Flat, Core, Windows, SameAll, Spare, DataOk, UserReady, FrameStack.Valid, FrameStack.Held, FrameStack.StoredIn,
      OwnPage, Pd, Pt, Shows, MayWrite;
    var vm := s.vm;
    ghost var mem0 := vm.mem;
    SameRefl(mem0, vm.dirs);
    for i := 0 to n
      invariant Core(vm.mem, vm.dirs, vm.owner, -1) && SameAll(mem0, vm.mem, vm.dirs)
      invariant OnlyMemory(mem0, vm.mem, vm.owner, c, v, v + i) && Copied(mem0, vm.mem, vm.dirs, from, to, i)
    {
      ghost var mem1 := vm.mem;
      ShownPair(mem0, mem1, vm.dirs, vm.owner, p, c, v, from, to, n, i);
      assert Writable(Flat(mem0, vm.dirs, 0, to + i)) by { WritableAt(mem0, vm.dirs, to, n, to + i); }
      CopyPage(vm, from + i, to + i);
      FrameWritten(mem1, vm.mem, vm.dirs, vm.owner, Flat(mem1, vm.dirs, 0, to + i).frame);
      SameTrans(mem0, mem1, vm.mem, vm.dirs);
      CopiedNext(mem0, mem1, vm.mem, vm.dirs, vm.owner, p, c, v, from, to, n, i,
                 Flat(mem1, vm.dirs, 0, from + i).frame, Flat(mem1, vm.dirs, 0, to + i).frame);
    }
    MemoryWritten(mem0, vm.mem, vm.dirs, vm.owner, c, v, v + n);
    SameAllPages(mem0, vm.mem, vm.dirs, 0, 0);
    StackEntry(vm.frames, mem0, vm.dirs, vm.owner);
    MemorySpared(mem0, vm.mem, vm.dirs, vm.owner, vm.frames.Held(), c, v, v + n);
    StaysStored(vm.frames, mem0, vm.mem, vm.dirs[0]);
    CopyKept(mem0, vm.mem, vm.dirs, vm.mapped, vm.owner, vm.frames.Held(), 0, 0);
  }

  /** Memory is no part of the frame stack. */
  lemma MemorySpared(mem: Memory, mem': Memory, dirs: map<int, int>, owner: map<int, Owner>, held: set<int>, id: int, lo: int, hi: int)
    requires Core(mem, dirs, owner, -1) && 0 in dirs && FramesOk(owner, held) && Get(mem, dirs[0], STACK_PD) != NONE
    requires OnlyMemory(mem, mem', owner, id, lo, hi)
    ensures StackWords(mem, mem', dirs[0], held)
  {
    hide Get;
    TableFrame(mem, dirs, owner, -1, 0, STACK_PD);
    DirOwner(mem, dirs, owner, -1, 0);
    forall g, i | g in held ensures Get(mem', g, i) == Get(mem, g, i) {
      assert g !in owner.Keys;
    }
  }

  lemma ShownPair(mem0: Memory, mem1: Memory, dirs: map<int, int>, owner: map<int, Owner>, p: int, c: int, v: int,
                  from: int, to: int, n: int, i: int)
    requires SameAll(mem0, mem1, dirs) && 0 <= i < n && p != c
    requires Shows(mem0, dirs, owner, p, v, from, n) && Shows(mem0, dirs, owner, c, v, to, n)
    ensures 0 in dirs && OwnPage(0, from + i) && OwnPage(0, to + i)
    ensures Flat(mem1, dirs, 0, from + i) == Flat(mem0, dirs, 0, from + i) && Flat(mem1, dirs, 0, to + i) == Flat(mem0, dirs, 0, to + i)
    ensures Present(Flat(mem1, dirs, 0, from + i)) && Present(Flat(mem1, dirs, 0, to + i))
    ensures var f, g := Flat(mem1, dirs, 0, from + i).frame, Flat(mem1, dirs, 0, to + i).frame;
            f in owner && owner[f] == Data(p, v + i) && g in owner && owner[g] == Data(c, v + i) && f != g
  {
    hide Flat, OwnPage, SameAll;
    SameAllPages(mem0, mem1, dirs, 0, 0);
    assert OwnPage(0, from + i) && OwnPage(0, to + i);
    SameWindows(mem0, mem1, dirs, 0, from + i, 0, 0, 0);
    SameWindows(mem0, mem1, dirs, 0, to + i, 0, 0, 0);
  }

  lemma CopiedNext(mem0: Memory, mem1: Memory, mem2: Memory, dirs: map<int, int>, owner: map<int, Owner>, p: int, c: int, v: int,
                   from: int, to: int, n: int, i: nat, f: int, g: int)
    requires i < n && p != c && Shows(mem0, dirs, owner, p, v, from, n) && Shows(mem0, dirs, owner, c, v, to, n)
    requires SameAll(mem0, mem1, dirs) && SameAll(mem0, mem2, dirs)
    requires OnlyMemory(mem0, mem1, owner, c, v, v + i) && Copied(mem0, mem1, dirs, from, to, i)
    requires 0 in dirs && f == Flat(mem1, dirs, 0, from + i).frame && g == Flat(mem1, dirs, 0, to + i).frame
    requires OnlyFrame(mem1, mem2, g) && forall k :: 0 <= k < ENTRIES ==> Get(mem2, g, k) == Get(mem1, f, k)
    ensures OnlyMemory(mem0, mem2, owner, c, v, v + i + 1) && Copied(mem0, mem2, dirs, from, to, i + 1)
  {
    hide Get, Flat, OwnPage, SameAll;
    ShownPair(mem0, mem1, dirs, owner, p, c, v, from, to, n, i);
    SameAllPages(mem0, mem2, dirs, 0, 0);
    SameAllPages(mem0, mem1, dirs, 0, 0);
    forall u, k | to <= u < to + i + 1 && 0 <= k < ENTRIES
      ensures WordOf(mem2, dirs, 0, u, k) == WordOf(mem0, dirs, 0, u - to + from, k)
    {
      assert OwnPage(0, u);
      SameWindows(mem0, mem2, dirs, 0, u, 0, 0, 0);
      SameWindows(mem0, mem1, dirs, 0, u, 0, 0, 0);
      if u < to + i {
        assert WordOf(mem1, dirs, 0, u, k) == WordOf(mem0, dirs, 0, u - to + from, k);
        assert owner[Flat(mem0, dirs, 0, u).frame] == Data(c, u - to + v);
      } else {
        assert Get(mem1, f, k) == Get(mem0, f, k);
      }
    }
  }

  lemma CopyKept(mem: Memory, mem': Memory, dirs: map<int, int>, mapped: map<int, (int, int)>, owner: map<int, Owner>, held: set<int>, lo: int, hi: int)
    requires Core(mem, dirs, owner, -1) && Windows(mem, dirs, mapped) && DataOk(mem, dirs, owner) && UserReady(mem, dirs)
    requires SameAll(mem, mem', dirs) && SamePages(mem, mem', dirs, 0, 0, 0) && DirectoriesSame(mem, mem', owner)
    ensures Windows(mem', dirs, mapped) && DataOk(mem', dirs, owner) && UserReady(mem', dirs) && TablesStay(mem, mem', dirs)
    ensures Walk(mem', dirs[0], TEMP_PD, 0x3FF) == Walk(mem, dirs[0], TEMP_PD, 0x3FF)
    ensures forall j, need :: j in dirs ==> Spare(mem', dirs, need, held, j) == Spare(mem, dirs, need, held, j)
  {
    hide Get, Walk, Flat, SameAll, DataOk, UserReady, Windows, MissingIn, Spare, TablesOwned, Shared;
    assert Directories(dirs, owner);
    DirectoriesStay(mem, mem', dirs, owner);
    WindowsAll(mem, mem', dirs, mapped);
    AllKept(mem, mem', dirs, owner, 0, 0);
    SpareStays(mem, mem', dirs, owner, held);
    TempStill(mem, mem', dirs);
  }

  lemma DirectoriesStay(mem: Memory, mem': Memory, dirs: map<int, int>, owner: map<int, Owner>)
    requires Directories(dirs, owner) && DirectoriesSame(mem, mem', owner)
    ensures TablesStay(mem, mem', dirs) && forall j, i :: j in dirs ==> Get(mem', dirs[j], i) == Get(mem, dirs[j], i)
  {
    hide Get;
    assert forall j :: j in dirs ==> dirs[j] in owner && owner[dirs[j]] == Directory(j);
  }

  lemma SpareStays(mem: Memory, mem': Memory, dirs: map<int, int>, owner: map<int, Owner>, held: set<int>)
    requires Directories(dirs, owner) && forall j, i :: j in dirs ==> Get(mem', dirs[j], i) == Get(mem, dirs[j], i)
    ensures forall j, need :: j in dirs ==> Spare(mem', dirs, need, held, j) == Spare(mem, dirs, need, held, j)
  {
    hide Get, Missing;
    forall j | j in dirs ensures forall need :: Missing(mem', dirs, need, j) == Missing(mem, dirs, need, j) {
      MissingSame(mem, mem', dirs, j);
    }
  }

  // ---------- Copying the memory of one range into another space ----------

  /** Words change only in tables, directories and the memory of pages [lo, hi) of space c. */
  ghost predicate Untouched(mem: Memory, mem': Memory, owner': map<int, Owner>, c: int, lo: int, hi: int) {
    forall g, i :: Get(mem', g, i) == Get(mem, g, i) || (g in owner' && (!owner'[g].Data? || InRange(owner'[g], c, lo, hi)))
  }

  /** The memory of pages [lo, hi) of space c reads as that of the same pages of space p did. */
  ghost predicate Duplicated(mem: Memory, mem': Memory, dirs: map<int, int>, p: int, c: int, lo: int, hi: int) {
    p in dirs && c in dirs && forall u, k :: lo <= u < hi && 0 <= k < ENTRIES ==> WordOf(mem', dirs, c, u, k) == WordOf(mem, dirs, p, u, k)
  }

  /** The kernel's list has room for two ranges of a size, one after the other. */
  ghost predicate Room(segs: seq<Segment>, size: int) {
    HasGap(segs, size) && |segs| > 0 && HasGap(Added(segs, AtGap(segs, size, PROT_READ)), size)
  }

  /** fork's copy of one range: borrow source and destination in the kernel, copy, and withdraw both. */
  method CopyThrough(s: Spaces, p: int, c: int, v: int, n: nat)
    requires s.Valid() && p in s.vm.dirs && c in s.vm.dirs && p != 0 && c != 0 && p != c && n > 0 && s.SpareIn(0) >= 0
    requires s.Slots() >= 2 && 0 in s.segments && Room(s.segments[0], n * PAGE)
    requires Owned(s.vm.mem, s.vm.dirs, s.vm.owner, p, v, n) && Owned(s.vm.mem, s.vm.dirs, s.vm.owner, c, v, n)
    modifies s`segments, s.table, s.vm`mem, s.vm`owner, s.vm.frames
    ensures s.Valid() && s.segments == old(s.segments) && s.Slots() >= old(s.Slots()) - 2
    ensures Restored(old(s.vm.mem), old(s.vm.owner), old(s.vm.frames.Held()), s.vm.mem, s.vm.owner, s.vm.frames.Held(), s.vm.dirs, p, c, v, n)
    ensures forall j :: j in s.vm.dirs ==> s.SpareIn(j) == old(s.SpareIn(j))
    ensures OthersStay(old(s.table.lists), s.table.lists, s.heads, s.vm.dirs, 0)
  {
    hide Get, Walk, Flat, Core, Windows, SamePages, SameAll, Spare, DataOk, UserReady, FrameStack.Valid, FrameStack.Held,
      FrameStack.StoredIn, OwnPage, Pd, Pt,
      FreePage, KernelCovers, Agree, NoData, Between, Vacant, ListOk, List, Lists, GapFrom, Effect, Borrowed, Withdrawn, MapFlags, Owned,
      AllCovered, Removable, Removed, Added, HasGap, TablesStay, Copied, Shows, OnlyMemory, Restored, Covered,
      L.FreeSlots, Spaces.Described, OthersStay, MayWrite, Protected;
    var vm := s.vm;
    ghost var lists1 := s.table.lists;
    ghost var mem1, owner1, held1, k0 := vm.mem, vm.owner, vm.frames.Held(), s.segments[0];
    ListOf(s.segments, vm.dirs, 0);
    BorrowTwice(k0, n);
    OwnedMapped(mem1, vm.dirs, owner1, p, v, n);
    var from := MapFrom(s, p, v, n, PROT_READ);
    ghost var mem2, owner2, held2, k1 := vm.mem, vm.owner, vm.frames.Held(), s.segments[0];
    OwnedBorrowed(mem1, owner1, held1, mem2, owner2, held2, vm.dirs, p, v, from, n, PROT_READ, p);
    OwnedBorrowed(mem1, owner1, held1, mem2, owner2, held2, vm.dirs, p, v, from, n, PROT_READ, c);
    OwnedMapped(mem2, vm.dirs, owner2, c, v, n);
    ghost var lists2 := s.table.lists;
    var to := MapFrom(s, c, v, n, PROT_WRITE);
    OthersTrans(lists1, lists2, s.table.lists, s.heads, vm.dirs, 0, 0);
    ghost var mem3, owner3, held3 := vm.mem, vm.owner, vm.frames.Held();
    BorrowedNothing(mem1, mem2, vm.dirs, old(s.segments), WithSegment(old(s.segments), 0, AtGap(k0, n * PAGE, PROT_READ)), from, to, n);
    PairShown(mem1, owner1, held1, mem2, owner2, held2, mem3, owner3, held3, vm.dirs, p, c, v, from, to, n);
    BorrowedWritable(mem3, vm.dirs, to, n);
    CopyPages(s, from, to, n, p, c, v);
    ghost var mem4 := vm.mem;
    SameAllPages(mem3, mem4, vm.dirs, 0, 0);
    AgreeSame(mem3, mem4, vm.dirs, s.segments);
    NoDataBorrowed(mem2, owner2, held2, mem3, owner3, held3, vm.dirs, c, v, to, n, PROT_WRITE, from);
    ghost var lists4 := s.table.lists;
    UnmapPhysical(s, from, n);
    OthersTrans(lists1, lists4, s.table.lists, s.heads, vm.dirs, 0, 0);
    ghost var mem5, owner5, held5 := vm.mem, vm.owner, vm.frames.Held();
    NoDataWithdrawn(mem4, owner3, held3, mem5, owner5, held5, vm.dirs, from, to, n);
    ghost var lists5 := s.table.lists;
    UnmapPhysical(s, to, n);
    OthersTrans(lists1, lists5, s.table.lists, s.heads, vm.dirs, 0, 0);
    AllRestored(mem1, owner1, held1, mem2, owner2, held2, mem3, owner3, held3, mem4, mem5, owner5, held5, vm.mem, vm.owner, vm.frames.Held(),
                vm.dirs, p, c, v, from, to, n);
  }

  lemma WritableAt(mem: Memory, dirs: map<int, int>, d: int, n: int, u: int)
    requires MayWrite(mem, dirs, d, n) && d <= u < d + n
    ensures Writable(Flat(mem, dirs, 0, u))
  {
    hide Flat;
  }

  lemma BorrowedWritable(mem: Memory, dirs: map<int, int>, d: int, n: int)
    requires 0 in dirs && forall u :: d <= u < d + n ==> Protected(mem, dirs, 0, u, PROT_WRITE)
    ensures MayWrite(mem, dirs, d, n)
  {
    hide Get, Pd, Pt;
    forall u | d <= u < d + n ensures Writable(Flat(mem, dirs, 0, u)) {
      assert Protected(mem, dirs, 0, u, PROT_WRITE);
    }
  }

  /** Pages [v, v + n) of space id are mapped to frames used as their memory. */
  ghost predicate Owned(mem: Memory, dirs: map<int, int>, owner: map<int, Owner>, id: int, v: int, n: int) {
    id in dirs && forall u :: v <= u < v + n ==> OwnPage(id, u) && Backed(mem, dirs, owner, id, u)
  }

  /** All flat maps and segments are as before, and the memory of space c has become that of space p. */
  ghost predicate Restored(mem: Memory, owner: map<int, Owner>, held: set<int>, mem': Memory, owner': map<int, Owner>, held': set<int>,
                           dirs: map<int, int>, p: int, c: int, v: int, n: int) {
    && Grew(owner, held, owner', held') && TablesStay(mem, mem', dirs) && SamePages(mem, mem', dirs, 0, 0, 0)
    && Untouched(mem, mem', owner', c, v, v + n) && Duplicated(mem, mem', dirs, p, c, v, v + n)
  }

  lemma BorrowTwice(k0: seq<Segment>, n: nat)
    requires List(k0, 0) && n > 0 && Room(k0, n * PAGE)
    ensures var size := n * PAGE; var a := AtGap(k0, size, PROT_READ); var one := Added(k0, a); var b := AtGap(one, size, PROT_WRITE);
            var two := Added(one, b);
            && HasGap(one, size) && one != [] && two != [] && k0 != [] && Vacant(k0, a.address, size) && Vacant(one, b.address, size)
            && (a.End() <= b.address || b.End() <= a.address)
            && AllCovered(two, a.address, size) && (exists k :: 0 <= k < |two| && two[k].address == a.address)
            && Removable(two, a.address, size)
            && var only := Removed(two, a.address, size);
               && AllCovered(only, b.address, size) && (exists k :: 0 <= k < |only| && only[k].address == b.address)
               && Removable(only, b.address, size) && Removed(only, b.address, size) == k0
  {
    hide Removable, Removed, Added, HasGap, GapFrom, Covered;
    var size := n * PAGE;
    var a := AtGap(k0, size, PROT_READ);
    var one := Added(k0, a);
    SizePages(n);
    ListAtGap(k0, KERNEL_HEAD, KERNEL_TAIL, false, size, PROT_READ);
    ListGap(k0, KERNEL_HEAD, KERNEL_TAIL, false, size);
    ListAtGap(one, KERNEL_HEAD, KERNEL_TAIL, false, size, PROT_WRITE);
    ListGap(one, KERNEL_HEAD, KERNEL_TAIL, false, size);
    TwoReserved(k0, KERNEL_HEAD, KERNEL_TAIL, size, PROT_READ, PROT_WRITE);
    var b := AtGap(one, size, PROT_WRITE);
    var two := Added(one, b);
    hide AtGap, WholePages, ListOk;
    MemberCovered(two, a);
    MemberCovered(Removed(two, a.address, size), b);
    MemberApart(one, a, b);
  }

  lemma SizePages(n: int)
    ensures WholePages(n * PAGE)
  {
  }

  lemma MemberCovered(segs: seq<Segment>, s: Segment)
    requires s in segs
    ensures AllCovered(segs, s.address, s.size) && exists k :: 0 <= k < |segs| && segs[k].address == s.address
  {
    var k :| 0 <= k < |segs| && segs[k] == s;
    assert segs[k].address == s.address;
    forall x | s.address <= x < s.address + s.size ensures Covered(segs, x) {
      assert segs[k].address <= x < segs[k].End();
    }
  }

  lemma MemberApart(segs: seq<Segment>, a: Segment, b: Segment)
    requires a in segs && Vacant(segs, b.address, b.size)
    ensures a.End() <= b.address || b.End() <= a.address
  {
    var i :| 0 <= i < |segs| && segs[i] == a;
    assert segs[i].End() <= b.address || b.address + b.size <= segs[i].address;
  }

  lemma OwnedMapped(mem: Memory, dirs: map<int, int>, owner: map<int, Owner>, id: int, v: int, n: int)
    requires Owned(mem, dirs, owner, id, v, n)
    ensures forall u :: v <= u < v + n ==> OwnPage(id, u) && Flat(mem, dirs, id, u) != NONE
  {
    hide Flat, OwnPage;
    forall u | v <= u < v + n ensures OwnPage(id, u) && Flat(mem, dirs, id, u) != NONE {
      assert Backed(mem, dirs, owner, id, u);
    }
  }

  lemma OwnedBorrowed(mem: Memory, owner: map<int, Owner>, held: set<int>, mem': Memory, owner': map<int, Owner>, held': set<int>,
                      dirs: map<int, int>, src: int, v: int, d: int, n: int, protection: int, id: int)
    requires Borrowed(mem, owner, held, mem', owner', held', dirs, src, v, d, n, protection) && Owned(mem, dirs, owner, id, v, n) && id != 0
    ensures Owned(mem', dirs, owner', id, v, n)
  {
    hide Flat, OwnPage, ContentsKept, TablesStay;
    forall u | v <= u < v + n ensures OwnPage(id, u) && Backed(mem', dirs, owner', id, u) {
      assert OwnPage(id, u) && Backed(mem, dirs, owner, id, u);
      SameWindows(mem, mem', dirs, id, u, 0, d, d + n);
    }
  }

  /** What is borrowed was mapped nowhere before. */
  lemma BorrowedNothing(mem1: Memory, mem2: Memory, dirs: map<int, int>, segments1: map<int, seq<Segment>>, segments2: map<int, seq<Segment>>,
                        from: int, to: int, n: int)
    requires Agree(mem1, dirs, segments1) && Agree(mem2, dirs, segments2) && 0 in dirs && 0 in segments1 && 0 in segments2
    requires Between(0, from, n) && Between(0, to, n)
    requires Vacant(segments1[0], from * PAGE, n * PAGE) && Vacant(segments2[0], to * PAGE, n * PAGE)
    ensures forall u :: from <= u < from + n ==> OwnPage(0, u) && Flat(mem1, dirs, 0, u) == NONE
    ensures forall u :: to <= u < to + n ==> OwnPage(0, u) && Flat(mem2, dirs, 0, u) == NONE
  {
    hide Flat, OwnPage, Vacant, Agree, Between;
    VacantUnmapped(mem1, dirs, segments1, 0, from, n);
    VacantUnmapped(mem2, dirs, segments2, 0, to, n);
  }

  lemma ShownBorrowed(mem: Memory, owner: map<int, Owner>, held: set<int>, mem': Memory, owner': map<int, Owner>, held': set<int>,
                      dirs: map<int, int>, src: int, v: int, d: int, n: int, protection: int)
    requires Borrowed(mem, owner, held, mem', owner', held', dirs, src, v, d, n, protection) && Owned(mem, dirs, owner, src, v, n)
    requires forall u :: d <= u < d + n ==> OwnPage(0, u)
    ensures Shows(mem', dirs, owner', src, v, d, n)
  {
    hide Flat, OwnPage, ContentsKept, TablesStay;
    forall u | d <= u < d + n
      ensures Present(Flat(mem', dirs, 0, u)) && Flat(mem', dirs, 0, u).frame in owner'
      ensures owner'[Flat(mem', dirs, 0, u).frame] == Data(src, u - d + v)
    {
      assert Backed(mem, dirs, owner, src, u - d + v);
      FlagsNotNone(0, protection, Flat(mem, dirs, src, u - d + v).frame);
    }
  }

  lemma ShownKept(mem: Memory, owner: map<int, Owner>, held: set<int>, mem': Memory, owner': map<int, Owner>, held': set<int>,
                  dirs: map<int, int>, src: int, v: int, d: int, n: int, protection: int, id: int, from: int)
    requires Borrowed(mem, owner, held, mem', owner', held', dirs, src, v, d, n, protection) && Shows(mem, dirs, owner, id, v, from, n)
    requires from + n <= d || d + n <= from
    ensures Shows(mem', dirs, owner', id, v, from, n)
  {
    hide Flat, OwnPage, ContentsKept, TablesStay;
    forall u | from <= u < from + n
      ensures OwnPage(0, u) && Present(Flat(mem', dirs, 0, u)) && Flat(mem', dirs, 0, u).frame in owner'
      ensures owner'[Flat(mem', dirs, 0, u).frame] == Data(id, u - from + v)
    {
      SameWindows(mem, mem', dirs, 0, u, 0, d, d + n);
    }
  }

  lemma PairShown(mem1: Memory, owner1: map<int, Owner>, held1: set<int>, mem2: Memory, owner2: map<int, Owner>, held2: set<int>,
                  mem3: Memory, owner3: map<int, Owner>, held3: set<int>, dirs: map<int, int>, p: int, c: int, v: int, from: int, to: int, n: int)
    requires Borrowed(mem1, owner1, held1, mem2, owner2, held2, dirs, p, v, from, n, PROT_READ) && Owned(mem1, dirs, owner1, p, v, n)
    requires Borrowed(mem2, owner2, held2, mem3, owner3, held3, dirs, c, v, to, n, PROT_WRITE) && Owned(mem2, dirs, owner2, c, v, n)
    requires (forall u :: from <= u < from + n ==> OwnPage(0, u)) && (forall u :: to <= u < to + n ==> OwnPage(0, u))
    requires from + n <= to || to + n <= from
    ensures Shows(mem3, dirs, owner3, p, v, from, n) && Shows(mem3, dirs, owner3, c, v, to, n)
  {
    hide Borrowed, Owned, Shows, OwnPage, Flat;
    ShownBorrowed(mem1, owner1, held1, mem2, owner2, held2, dirs, p, v, from, n, PROT_READ);
    ShownKept(mem2, owner2, held2, mem3, owner3, held3, dirs, c, v, to, n, PROT_WRITE, p, from);
    ShownBorrowed(mem2, owner2, held2, mem3, owner3, held3, dirs, c, v, to, n, PROT_WRITE);
  }

  lemma NoDataBorrowed(mem: Memory, owner: map<int, Owner>, held: set<int>, mem': Memory, owner': map<int, Owner>, held': set<int>,
                       dirs: map<int, int>, src: int, v: int, d: int, n: int, protection: int, lo: int)
    requires Borrowed(mem, owner, held, mem', owner', held', dirs, src, v, d, n, protection) && NoData(owner, 0, lo, lo + n)
    ensures NoData(owner', 0, lo, lo + n)
  {
    hide Effect, NoData, Flat;
    NoDataTables(mem, owner, held, mem', owner', held', dirs, 0, lo, lo + n);
  }

  lemma NoDataWithdrawn(mem: Memory, owner: map<int, Owner>, held: set<int>, mem': Memory, owner': map<int, Owner>, held': set<int>,
                        dirs: map<int, int>, d: int, lo: int, n: int)
    requires Withdrawn(mem, owner, held, mem', owner', held', dirs, d, n) && NoData(owner, 0, lo, lo + n)
    ensures NoData(owner', 0, lo, lo + n)
  {
    hide Effect, NoData, Flat;
    NoDataTables(mem, owner, held, mem', owner', held', dirs, 0, lo, lo + n);
  }

  lemma GrewTrans(owner0: map<int, Owner>, held0: set<int>, owner1: map<int, Owner>, held1: set<int>, owner2: map<int, Owner>, held2: set<int>)
    requires Grew(owner0, held0, owner1, held1) && Grew(owner1, held1, owner2, held2)
    ensures Grew(owner0, held0, owner2, held2)
  {
    assert forall f :: f in owner1.Keys ==> f in owner2;
    assert held2 == held0 - owner2.Keys;
  }

  lemma UntouchedTrans(mem0: Memory, mem1: Memory, owner1: map<int, Owner>, mem2: Memory, owner2: map<int, Owner>, c: int, lo: int, hi: int)
    requires Untouched(mem0, mem1, owner1, c, lo, hi) && Untouched(mem1, mem2, owner2, c, lo, hi)
    requires forall f :: f in owner1 ==> f in owner2 && owner2[f] == owner1[f]
    ensures Untouched(mem0, mem2, owner2, c, lo, hi)
  {
    hide Get;
    forall g, i ensures Get(mem2, g, i) == Get(mem0, g, i) || (g in owner2 && (!owner2[g].Data? || InRange(owner2[g], c, lo, hi))) {
      assert Get(mem1, g, i) == Get(mem0, g, i) || (g in owner1 && (!owner1[g].Data? || InRange(owner1[g], c, lo, hi)));
    }
  }

  lemma KeptUntouched(mem: Memory, mem': Memory, owner': map<int, Owner>, c: int, lo: int, hi: int)
    requires ContentsKept(mem, mem', owner') || OnlyMemory(mem, mem', owner', c, lo, hi)
    ensures Untouched(mem, mem', owner', c, lo, hi)
  {
    hide Get;
  }

  /** The kernel's flat map after withdrawing both ranges is the one before borrowing them. */
  lemma PagesRestored(mem1: Memory, mem2: Memory, mem3: Memory, mem4: Memory, mem5: Memory, mem6: Memory, dirs: map<int, int>, from: int, to: int, n: int)
    requires 0 in dirs && SamePages(mem1, mem2, dirs, 0, from, from + n) && SamePages(mem2, mem3, dirs, 0, to, to + n)
    requires SamePages(mem3, mem4, dirs, 0, 0, 0)
    requires SamePages(mem4, mem5, dirs, 0, from, from + n) && SamePages(mem5, mem6, dirs, 0, to, to + n)
    requires forall u :: from <= u < from + n ==> Flat(mem1, dirs, 0, u) == NONE == Flat(mem5, dirs, 0, u)
    requires forall u :: to <= u < to + n ==> Flat(mem2, dirs, 0, u) == NONE == Flat(mem6, dirs, 0, u)
    requires from + n <= to || to + n <= from
    ensures SamePages(mem1, mem6, dirs, 0, 0, 0)
  {
    hide Flat, OwnPage;
  }

  lemma AllRestored(mem1: Memory, owner1: map<int, Owner>, held1: set<int>, mem2: Memory, owner2: map<int, Owner>, held2: set<int>,
                    mem3: Memory, owner3: map<int, Owner>, held3: set<int>, mem4: Memory,
                    mem5: Memory, owner5: map<int, Owner>, held5: set<int>, mem6: Memory, owner6: map<int, Owner>, held6: set<int>,
                    dirs: map<int, int>, p: int, c: int, v: int, from: int, to: int, n: int)
    requires Borrowed(mem1, owner1, held1, mem2, owner2, held2, dirs, p, v, from, n, PROT_READ) && p != 0 && c != 0
    requires Borrowed(mem2, owner2, held2, mem3, owner3, held3, dirs, c, v, to, n, PROT_WRITE)
    requires SameAll(mem3, mem4, dirs) && TablesStay(mem3, mem4, dirs) && OnlyMemory(mem3, mem4, owner3, c, v, v + n)
    requires Copied(mem3, mem4, dirs, from, to, n) && Shows(mem3, dirs, owner3, p, v, from, n) && Shows(mem3, dirs, owner3, c, v, to, n)
    requires Withdrawn(mem4, owner3, held3, mem5, owner5, held5, dirs, from, n) && Withdrawn(mem5, owner5, held5, mem6, owner6, held6, dirs, to, n)
    requires forall u :: from <= u < from + n ==> OwnPage(0, u) && Flat(mem1, dirs, 0, u) == NONE
    requires forall u :: to <= u < to + n ==> OwnPage(0, u) && Flat(mem2, dirs, 0, u) == NONE
    requires from + n <= to || to + n <= from
    requires Owned(mem1, dirs, owner1, p, v, n) && Owned(mem1, dirs, owner1, c, v, n)
    ensures Restored(mem1, owner1, held1, mem6, owner6, held6, dirs, p, c, v, n)
  {
    hide Get, Flat, OwnPage, SameAll, SamePages, Shows, Owned, Copied, OnlyMemory, Untouched, Duplicated, Grew, ContentsKept,
      TablesStay, MapFlags;
    SameAllPages(mem3, mem4, dirs, 0, 0);
    PagesRestored(mem1, mem2, mem3, mem4, mem5, mem6, dirs, from, to, n);
    GrewTrans(owner1, held1, owner2, held2, owner3, held3);
    GrewTrans(owner1, held1, owner3, held3, owner5, held5);
    GrewTrans(owner1, held1, owner5, held5, owner6, held6);
    TablesStayTrans(mem1, mem2, mem3, dirs);
    TablesStayTrans(mem1, mem3, mem4, dirs);
    TablesStayTrans(mem1, mem4, mem5, dirs);
    TablesStayTrans(mem1, mem5, mem6, dirs);
    KeptUntouched(mem1, mem2, owner2, c, v, v + n);
    KeptUntouched(mem2, mem3, owner3, c, v, v + n);
    KeptUntouched(mem3, mem4, owner3, c, v, v + n);
    KeptUntouched(mem4, mem5, owner5, c, v, v + n);
    KeptUntouched(mem5, mem6, owner6, c, v, v + n);
    GrewOwner(owner1, held1, owner2, held2, owner3, held3);
    GrewOwner(owner3, held3, owner5, held5, owner6, held6);
    UntouchedTrans(mem1, mem2, owner2, mem3, owner3, c, v, v + n);
    UntouchedTrans(mem1, mem3, owner3, mem4, owner3, c, v, v + n);
    UntouchedTrans(mem1, mem4, owner3, mem5, owner5, c, v, v + n);
    UntouchedTrans(mem1, mem5, owner5, mem6, owner6, c, v, v + n);
    hide Borrowed, Withdrawn, Untouched;
    AllDuplicated(mem1, owner1, held1, mem2, owner2, held2, mem3, owner3, held3, mem4, mem5, owner5, held5, mem6, owner6, held6,
                  dirs, p, c, v, from, to, n);
  }

  lemma GrewOwner(owner0: map<int, Owner>, held0: set<int>, owner1: map<int, Owner>, held1: set<int>, owner2: map<int, Owner>, held2: set<int>)
    requires Grew(owner0, held0, owner1, held1) && Grew(owner1, held1, owner2, held2)
    ensures forall f :: f in owner0 ==> f in owner1 && owner1[f] == owner0[f]
    ensures forall f :: f in owner1 ==> f in owner2 && owner2[f] == owner1[f]
  {
  }

  lemma AllDuplicated(mem1: Memory, owner1: map<int, Owner>, held1: set<int>, mem2: Memory, owner2: map<int, Owner>, held2: set<int>,
                      mem3: Memory, owner3: map<int, Owner>, held3: set<int>, mem4: Memory,
                      mem5: Memory, owner5: map<int, Owner>, held5: set<int>, mem6: Memory, owner6: map<int, Owner>, held6: set<int>,
                      dirs: map<int, int>, p: int, c: int, v: int, from: int, to: int, n: int)
    requires Borrowed(mem1, owner1, held1, mem2, owner2, held2, dirs, p, v, from, n, PROT_READ) && p != 0 && c != 0
    requires Borrowed(mem2, owner2, held2, mem3, owner3, held3, dirs, c, v, to, n, PROT_WRITE) && (from + n <= to || to + n <= from)
    requires SameAll(mem3, mem4, dirs) && Copied(mem3, mem4, dirs, from, to, n)
    requires Withdrawn(mem4, owner3, held3, mem5, owner5, held5, dirs, from, n) && Withdrawn(mem5, owner5, held5, mem6, owner6, held6, dirs, to, n)
    requires (forall u :: from <= u < from + n ==> OwnPage(0, u)) && (forall u :: to <= u < to + n ==> OwnPage(0, u))
    requires Owned(mem1, dirs, owner1, p, v, n) && Owned(mem1, dirs, owner1, c, v, n)
    ensures Duplicated(mem1, mem6, dirs, p, c, v, v + n)
  {
    hide Get, Flat, OwnPage, SameAll, SamePages, Grew, TablesStay, MapFlags;
    SameAllPages(mem3, mem4, dirs, 0, 0);
    GrewOwner(owner1, held1, owner2, held2, owner3, held3);
    GrewOwner(owner3, held3, owner5, held5, owner6, held6);
    forall u, k | v <= u < v + n && 0 <= k < ENTRIES ensures WordOf(mem6, dirs, c, u, k) == WordOf(mem1, dirs, p, u, k) {
      var f, g := Flat(mem1, dirs, p, u).frame, Flat(mem1, dirs, c, u).frame;
      var x, y := u - v + from, u - v + to;
      assert OwnPage(p, u) && Backed(mem1, dirs, owner1, p, u) && OwnPage(c, u) && Backed(mem1, dirs, owner1, c, u);
      SameWindows(mem1, mem2, dirs, c, u, 0, from, from + n);
      SameWindows(mem2, mem3, dirs, c, u, 0, to, to + n);
      SameWindows(mem3, mem4, dirs, c, u, 0, 0, 0);
      SameWindows(mem4, mem5, dirs, c, u, 0, from, from + n);
      SameWindows(mem5, mem6, dirs, c, u, 0, to, to + n);
      SameWindows(mem2, mem3, dirs, 0, x, 0, to, to + n);
      SameWindows(mem3, mem4, dirs, 0, y, 0, 0, 0);
      assert Flat(mem3, dirs, 0, x).frame == f && Flat(mem4, dirs, 0, y).frame == g;
      assert WordOf(mem4, dirs, 0, y, k) == WordOf(mem3, dirs, 0, x, k);
      WordKept(mem1, mem2, owner2, f, k);
      WordKept(mem2, mem3, owner3, f, k);
      WordKept(mem4, mem5, owner5, g, k);
      WordKept(mem5, mem6, owner6, g, k);
    }
  }

  /** A word of memory is as before. */
  lemma WordKept(mem: Memory, mem': Memory, owner': map<int, Owner>, g: int, k: int)
    requires ContentsKept(mem, mem', owner') && g in owner' && owner'[g].Data?
    ensures Get(mem', g, k) == Get(mem, g, k)
  {
  }

  lemma AgreeSame(mem: Memory, mem': Memory, dirs: map<int, int>, segments: map<int, seq<Segment>>)
    requires Agree(mem, dirs, segments) && SamePages(mem, mem', dirs, 0, 0, 0)
    ensures Agree(mem', dirs, segments)
  {
    hide Flat, OwnPage, Covered;
  }
}
