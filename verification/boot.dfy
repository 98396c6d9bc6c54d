/**
  The kernel's address space as it is set up at boot satisfies the invariant that
  every later operation keeps.
 */
module Boot {
  import opened FrameStacks
  import opened PageTables
  import opened AddressSpaces
  import opened FlatMaps
  import opened Segments
  import opened SpaceSegments
  import opened SpaceRules
  import opened SpaceTables
  import opened MemoryMaps
  import opened Forks
  import L = SegmentLists
  import T = SegmentTables

  /** The static segments of the kernel, for an image at [begin, end) whose read-only part ends at readOnlyEnd. */
  function KernelList(begin: int, readOnlyEnd: int, end: int): seq<Segment> {
    [KERNEL_HEAD, Segment(0xC000_0000, PAGE, 3), Segment(begin, readOnlyEnd - begin, 5), Segment(readOnlyEnd, end - readOnlyEnd, 3),
     Segment(0xFF7F_F000, PAGE, 0), STACK_WINDOW, KERNEL_TAIL]
  }

  /** The image lies in whole pages between the video page and the temporary page. */
  predicate ImageOk(begin: int, readOnlyEnd: int, end: int) {
    && 0xC000_1000 <= begin < readOnlyEnd < end <= 0xFF7F_F000
    && WholePages(begin) && WholePages(readOnlyEnd) && WholePages(end)
  }

  lemma KernelListOk(begin: int, readOnlyEnd: int, end: int)
    requires ImageOk(begin, readOnlyEnd, end)
    ensures List(KernelList(begin, readOnlyEnd, end), 0) && Covered(KernelList(begin, readOnlyEnd, end), TEMPORARY * PAGE)
    ensures AllCovered(KernelList(begin, readOnlyEnd, end), STACK_WINDOW.address, STACK_WINDOW.size)
    ensures T.Space(KernelList(begin, readOnlyEnd, end))
  {
    var segs := KernelList(begin, readOnlyEnd, end);
    PagesAdd(readOnlyEnd, begin);
    PagesAdd(end, readOnlyEnd);
    Adjacent(segs);
    assert segs[4].address <= TEMPORARY * PAGE < segs[4].End();
    forall x | STACK_WINDOW.address <= x < STACK_WINDOW.End() ensures Covered(segs, x) {
      assert segs[5].address <= x < segs[5].End();
    }
  }

  /** The frames of a list, all different, none of them in use. */
  predicate Available(free: seq<int>, used: set<int>) {
    && (forall k :: 0 <= k < |free| ==> 0 < free[k] < FRAMES && free[k] !in used)
    && forall k, l :: 0 <= k < l < |free| ==> free[k] != free[l]
  }

  function Frames(free: seq<int>): set<int> { set f | f in free }

  /** A frame becomes free: nothing else changes but the window of the frame stack. */
  method GiveFrame(s: Spaces, frame: int)
    requires s.Valid() && 0 < frame < FRAMES && frame !in s.vm.owner && frame !in s.vm.frames.Held()
    modifies s.vm`mem, s.vm`owner, s.vm.frames
    ensures s.Valid() && s.vm.owner == old(s.vm.owner) && SamePages(old(s.vm.mem), s.vm.mem, s.vm.dirs, 0, 0, 0)
    ensures s.vm.frames.Held() == old(s.vm.frames.Held()) + {frame} && |s.vm.frames.Held()| == old(|s.vm.frames.Held()|) + 1
  {
    hide Get, Walk, Flat, OwnPage, FrameStack.Valid, FrameStack.Held, FrameStack.StoredIn, Core, Windows, FramesOk, DataOk,
      UserReady, Agree, SameAll, SamePages,
      Lists, KernelCovers, Spaces.Described, TablesStay;
    s.vm.PushPageFrame(frame);
    FrameGiven(old(s.vm.mem), s.vm.mem, s.vm.dirs, s.vm.owner, old(s.vm.frames.Held()), 0, 0);
    AgreeSame(old(s.vm.mem), s.vm.mem, s.vm.dirs, s.segments);
    assert s.Described() && s.vm.Listed();
  }

  /** The loop that fills the frame stack. */
  method GiveFrames(s: Spaces, free: seq<int>)
    requires s.Valid() && Available(free, s.vm.owner.Keys + s.vm.frames.Held())
    modifies s.vm`mem, s.vm`owner, s.vm.frames
    ensures s.Valid() && s.vm.owner == old(s.vm.owner) && SamePages(old(s.vm.mem), s.vm.mem, s.vm.dirs, 0, 0, 0)
    ensures s.vm.frames.Held() == old(s.vm.frames.Held()) + Frames(free) && |s.vm.frames.Held()| == old(|s.vm.frames.Held()|) + |free|
  {
    hide SamePages, SameAll, FrameStack.Held, Spaces.Valid, Frames;
    NoFrames(free);
    SameRefl(s.vm.mem, s.vm.dirs);
    SameAllPages(s.vm.mem, s.vm.mem, s.vm.dirs, 0, 0);
    for k := 0 to |free|
      invariant s.Valid() && s.vm.owner == old(s.vm.owner) && SamePages(old(s.vm.mem), s.vm.mem, s.vm.dirs, 0, 0, 0)
      invariant s.vm.frames.Held() == old(s.vm.frames.Held()) + Frames(free[..k]) && |s.vm.frames.Held()| == old(|s.vm.frames.Held()|) + k
    {
      ghost var mem := s.vm.mem;
      NextFree(free, k);
      GiveFrame(s, free[k]);
      SamePagesTrans(old(s.vm.mem), mem, s.vm.mem, s.vm.dirs, 0, 0, 0, 0);
    }
    assert free[..|free|] == free;
  }

  /**
    The kernel's address space from the boot directory, with one page of descriptors, and then the free frames, pushed one
    after the other on an empty stack.
   */
  method Initialize(boot: Memory, dir: int, low: int, high: int, stack: int, first: nat, last: nat,
                    begin: int, readOnlyEnd: int, end: int, free: seq<int>) returns (s: Spaces)
    requires Booted(boot, dir, low, high, stack) && first <= last && ImageOk(begin, readOnlyEnd, end)
    requires Available(free, {dir, low, high, stack})
    // the boot tables map nothing outside the kernel's segments
    requires forall v :: OwnPage(0, v) && Walk(boot, dir, Pd(v), Pt(v)) != NONE ==> Covered(KernelList(begin, readOnlyEnd, end), v * PAGE)
    ensures s.Valid() && s.vm.dirs == map[0 := dir] && s.vm.frames.Held() == Frames(free) && |s.vm.frames.Held()| == |free|
    ensures s.segments == map[0 := KernelList(begin, readOnlyEnd, end)] && s.Slots() == L.SLOTS - 2
    ensures fresh(s) && fresh(s.vm)
  {
    hide *;
    var segs := KernelList(begin, readOnlyEnd, end);
    s := KernelSpace(boot, dir, low, high, stack, first, last, begin, readOnlyEnd, end);
    StillAvailable(free, dir, low, high, stack);
    GiveFrames(s, free);
  }

  lemma StillAvailable(free: seq<int>, dir: int, low: int, high: int, stack: int)
    requires Available(free, {dir, low, high, stack})
    ensures Available(free, {dir, high, stack} + {}) && {} + Frames(free) == Frames(free)
  {
  }

  /** initialize() of the address spaces, before there is any free frame. */
  method KernelSpace(boot: Memory, dir: int, low: int, high: int, stack: int, first: nat, last: nat,
                     begin: int, readOnlyEnd: int, end: int) returns (s: Spaces)
    requires Booted(boot, dir, low, high, stack) && first <= last && ImageOk(begin, readOnlyEnd, end)
    requires forall v :: OwnPage(0, v) && Walk(boot, dir, Pd(v), Pt(v)) != NONE ==> Covered(KernelList(begin, readOnlyEnd, end), v * PAGE)
    ensures s.Valid() && s.vm.dirs == map[0 := dir] && s.vm.frames.Held() == {} && s.vm.owner.Keys == {dir, high, stack}
    ensures s.segments == map[0 := KernelList(begin, readOnlyEnd, end)] && s.Slots() == L.SLOTS - 2
    ensures fresh(s) && fresh(s.vm) && fresh(s.vm.frames)
  {
    hide Get, Walk, Flat, OwnPage, KernelList, Core, Windows, FramesOk, DataOk, UserReady, Agree, SameAll,
      FrameStack.Valid, FrameStack.Held, FrameStack.StoredIn, L.FreeSlots, L.Values, T.SegmentTable.Valid, Booted, T.Space, ImageOk;
    KernelListOk(begin, readOnlyEnd, end);
    var frames := new FrameStack();
    var vm := new Vm(frames, boot, dir, low, high, stack, first, last);
    var table := new T.SegmentTable(KernelList(begin, readOnlyEnd, end), 1);
    s := new Spaces(vm, table, map[0 := KernelList(begin, readOnlyEnd, end)]);
    BootAgrees(boot, vm.mem, vm.owner, dir, low, high, stack, KernelList(begin, readOnlyEnd, end));
  }

  lemma NoFrames(free: seq<int>)
    ensures Frames(free[..0]) == {}
  {
  }

  lemma NextFree(free: seq<int>, k: int)
    requires 0 <= k < |free| && forall i, l :: 0 <= i < l < |free| ==> free[i] != free[l]
    ensures free[k] !in Frames(free[..k]) && Frames(free[..k + 1]) == Frames(free[..k]) + {free[k]}
  {
    assert free[..k + 1] == free[..k] + [free[k]];
  }

  lemma BootAgrees(boot: Memory, mem: Memory, owner: map<int, Owner>, dir: int, low: int, high: int, stack: int, segs: seq<Segment>)
    requires Booted(boot, dir, low, high, stack) && forall g, i :: g !in {dir, low} ==> Get(mem, g, i) == Get(boot, g, i)
    requires forall v :: OwnPage(0, v) && Walk(boot, dir, Pd(v), Pt(v)) != NONE ==> Covered(segs, v * PAGE)
    requires forall pd :: 0 < pd < ENTRIES ==> Get(mem, dir, pd) == Get(boot, dir, pd)
    requires forall f :: f in owner ==> !owner[f].Data?
    ensures Agree(mem, map[0 := dir], map[0 := segs]) && DataOk(mem, map[0 := dir], owner) && UserReady(mem, map[0 := dir])
  {
    hide Get, Covered, Pd, Pt;
    forall v | OwnPage(0, v) && Walk(mem, dir, Pd(v), Pt(v)) != NONE ensures v >= 1 && Covered(segs, v * PAGE) {
      OwnIndex(0, v);
      assert Walk(boot, dir, Pd(v), Pt(v)) == Walk(mem, dir, Pd(v), Pt(v));
    }
  }
}
