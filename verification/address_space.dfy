/**
  All address spaces over one physical memory: directories and tables are read and
  written only through the pages at which the running space maps them.
 */
module AddressSpaces {
  import opened FrameStacks
  import opened PageTables

  /** The used frames grow by tables taken from the free ones, and by nothing else. */
  ghost predicate Grew(owner: map<int, Owner>, held: set<int>, owner': map<int, Owner>, held': set<int>) {
    && (forall f :: f in owner ==> f in owner' && owner'[f] == owner[f])
    && (forall f :: f in owner' && f !in owner ==> f in held && owner'[f].Table?)
    && held' == held - owner'.Keys
  }

  /** Words change only in frames that are tables or directories. */
  ghost predicate ContentsKept(mem: Memory, mem': Memory, owner': map<int, Owner>) {
    forall g, i :: Get(mem', g, i) == Get(mem, g, i) || (g in owner' && !owner'[g].Data?)
  }

  /** No frame is both free and used. */
  ghost predicate FramesOk(owner: map<int, Owner>, held: set<int>) {
    held !! owner.Keys && forall f :: f in owner ==> 0 < f < FRAMES
  }

  /** A table, once there, stays. */
  ghost predicate TablesStay(mem: Memory, mem': Memory, dirs: map<int, int>) {
    forall j, p :: j in dirs && Private(j, p) && Get(mem, dirs[j], p) != NONE ==> Get(mem', dirs[j], p) == Get(mem, dirs[j], p)
  }

  ghost predicate Effect(mem: Memory, owner: map<int, Owner>, held: set<int>,
                         mem': Memory, owner': map<int, Owner>, held': set<int>, dirs: map<int, int>) {
    Grew(owner, held, owner', held') && ContentsKept(mem, mem', owner') && TablesStay(mem, mem', dirs)
  }

  lemma EffectTrans(mem0: Memory, owner0: map<int, Owner>, held0: set<int>, mem1: Memory, owner1: map<int, Owner>, held1: set<int>,
                    mem2: Memory, owner2: map<int, Owner>, held2: set<int>, dirs: map<int, int>)
    requires Effect(mem0, owner0, held0, mem1, owner1, held1, dirs) && Effect(mem1, owner1, held1, mem2, owner2, held2, dirs)
    ensures Effect(mem0, owner0, held0, mem2, owner2, held2, dirs)
  {
    hide Get;
    assert held2 == held0 - owner2.Keys by {
      assert forall f :: f in owner1.Keys ==> f in owner2;
    }
    assert Grew(owner0, held0, owner2, held2);
    assert TablesStay(mem0, mem2, dirs);
    forall g, i ensures Get(mem2, g, i) == Get(mem0, g, i) || (g in owner2 && !owner2[g].Data?) {
      assert Get(mem1, g, i) == Get(mem0, g, i) || (g in owner1 && !owner1[g].Data?);
    }
  }

  /** The free frames left once every table of the kernel and, for the entries in `need`, of space id has been taken. */
  ghost function Spare(mem: Memory, dirs: map<int, int>, need: set<int>, held: set<int>, id: int): int {
    |held| - Missing(mem, dirs, need, 0) - (if id == 0 then 0 else Missing(mem, dirs, need, id))
  }

  /** The directory the boot code leaves: three kernel entries and the identity mapping of the boot code. */
  ghost predicate Booted(boot: Memory, dir: int, low: int, high: int, stack: int) {
    && dir != low && dir != high && dir != stack && high != stack && low != high && low != stack && 0 < dir < FRAMES && 0 < high < FRAMES && 0 < stack < FRAMES
    && (forall pd :: 0 < pd < ENTRIES && pd !in {KERNEL, STACK_PD, RECURSIVE} ==> Get(boot, dir, pd) == NONE)
    && Get(boot, dir, KERNEL) == Word(high, 3) && Get(boot, dir, STACK_PD) == Word(stack, 3) && Get(boot, dir, RECURSIVE) == Word(dir, 3)
    && Get(boot, dir, 0) == Word(low, 3)
  }

  lemma BootCore(boot: Memory, mem: Memory, dir: int, low: int, high: int, stack: int)
    requires Booted(boot, dir, low, high, stack)
    requires forall pd :: 0 <= pd < ENTRIES ==> Get(mem, dir, pd) == if pd == 0 then NONE else Get(boot, dir, pd)
    ensures var dirs, owner := map[0 := dir], map[dir := Directory(0), high := Table(0, KERNEL), stack := Table(0, STACK_PD)];
            Core(mem, dirs, owner, -1) && Windows(mem, dirs, map[]) && Walk(mem, dir, TEMP_PD, 0x3FF) == NONE
  {
    hide Get;
    assert TableEntry(Word(high, 3), 0) && TableEntry(Word(stack, 3), 0);
  }

  class Vm {
    var mem: Memory
    const frames: FrameStack
    /** The list of user address spaces, newest first. */
    var spaces: seq<int>
    var dirs: map<int, int>
    var mapped: map<int, (int, int)>
    var current: int
    ghost var owner: map<int, Owner>
    /** The entries of user directories for which tables may have to be added; whoever reserves frames for them chooses. */
    ghost var needed: set<int>

    /**
      The kernel space of initialize(): the boot directory loses the entry that maps the boot code, after
      the pages of that code have been unmapped.
     */
    constructor (frames: FrameStack, boot: Memory, dir: int, low: int, high: int, stack: int, first: nat, last: nat)
      requires frames.Valid() && frames.stackUsed == 0 && frames.pages == 0 && Booted(boot, dir, low, high, stack) && first <= last
      ensures Ok() && Listed() && dirs == map[0 := dir] && spaces == [] && TempFree()
      ensures this.frames == frames && owner.Keys == {dir, high, stack}
      ensures forall g, i :: g !in {dir, low} ==> Get(mem, g, i) == Get(boot, g, i)
      ensures forall pd :: 0 < pd < ENTRIES ==> Get(mem, dir, pd) == Get(boot, dir, pd)
      ensures Get(mem, dir, 0) == NONE && forall f :: f in owner ==> !owner[f].Data?
    {
      this.frames, mem, dirs, mapped, spaces, current := frames, boot, map[0 := dir], map[], [], 0;
      owner, needed := map[dir := Directory(0), high := Table(0, KERNEL), stack := Table(0, STACK_PD)], ALL;
      new;
      hide Get, Set, Core, Windows, Walk, FrameStack.Valid, FrameStack.Held;
      for p := first to last
        invariant OnlyFrame(boot, mem, low) && unchanged(frames)
        invariant this.frames == frames && dirs == map[0 := dir] && mapped == map[] && spaces == [] && current == 0
        invariant owner == map[dir := Directory(0), high := Table(0, KERNEL), stack := Table(0, STACK_PD)]
      {
        GetSet(mem, low, p, NONE);
        mem := Set(mem, low, p, NONE);
      }
      GetSet(mem, dir, 0, NONE);
      mem := Set(mem, dir, 0, NONE);
      BootCore(boot, mem, dir, low, high, stack);
      NothingStored(frames, mem, dir);
    }

    /** The temporary page is unmapped between operations. */
    ghost predicate TempFree()
      reads this
      requires 0 in dirs
    {
      Walk(mem, dirs[0], TEMP_PD, 0x3FF) == NONE
    }

    /** Tables, windows and the numbers of free frames are in order, whichever space the processor runs in. */
    ghost predicate Tabled()
      reads this, frames
    {
      && Core(mem, dirs, owner, -1) && Windows(mem, dirs, mapped) && 0 in dirs
      && frames.Valid() && FramesOk(owner, frames.Held())
    }

    /** And the words of the frame stack are those in its window, whose page table is always there. */
    ghost predicate InOrder()
      reads this, frames
    {
      Tabled() && frames.StoredIn(mem, dirs[0])
    }

    ghost predicate Ok()
      reads this, frames
    {
      InOrder() && current in dirs
    }

    /** Every user space is in the list, so that new kernel tables reach it. */
    ghost predicate Listed()
      reads this
    {
      && (forall id :: id in dirs && id != 0 ==> id in spaces)
      && (forall k :: 0 <= k < |spaces| ==> spaces[k] in dirs && spaces[k] != 0)
    }

    /** The processor's translation of a virtual page in the running space. */
    ghost function Resolve(pd: int, pt: int): Word
      reads this
      requires current in dirs
    {
      Walk(mem, dirs[current], pd, pt)
    }

    method Load(pd: int, pt: int, i: int) returns (w: Word)
      requires current in dirs && Present(Resolve(pd, pt))
      ensures w == Get(mem, Resolve(pd, pt).frame, i)
    {
      w := Get(mem, Walk(mem, dirs[current], pd, pt).frame, i);
    }

    /** The kernel runs with write protection on: it may store only through a page that both levels let it write. */
    method Store(pd: int, pt: int, i: int, w: Word)
      requires current in dirs && KernelWrites(mem, dirs[current], pd, pt)
      modifies `mem
      ensures mem == Set(old(mem), old(Resolve(pd, pt)).frame, i, w)
    {
      mem := Set(mem, Walk(mem, dirs[current], pd, pt).frame, i, w);
    }

    /** Clears a page whose own frame is not on the way to it. */
    method ClearPage(pd: int, pt: int)
      requires current in dirs && KernelWrites(mem, dirs[current], pd, pt)
      requires Resolve(pd, pt).frame != dirs[current] && Resolve(pd, pt).frame != Get(mem, dirs[current], pd).frame
      modifies `mem
      ensures Cleared(mem, old(Resolve(pd, pt)).frame) && OnlyFrame(old(mem), mem, old(Resolve(pd, pt)).frame)
    {
      ghost var f := Resolve(pd, pt).frame;
      for i := 0 to ENTRIES
        invariant Resolve(pd, pt) == old(Resolve(pd, pt)) && KernelWrites(mem, dirs[current], pd, pt) && OnlyFrame(old(mem), mem, f)
        invariant forall t :: 0 <= t < i ==> Get(mem, f, t) == NONE
      {
        ghost var was := mem;
        Store(pd, pt, i, NONE);
        GetSet(was, f, i, NONE);
        hide Get, Set;
        assert OnlyFrame(old(mem), mem, f);
      }
    }

    /** Copy kernel entry x to the directories of all listed spaces, through the pages at which they are mapped. */
    method Propagate(x: int, e: Word)
      requires Core(mem, dirs, owner, x) && Windows(mem, dirs, mapped) && current in dirs && Listed() && Private(0, x)
      requires Get(mem, dirs[0], x) == e != NONE && Cleared(mem, e.frame)
      modifies `mem
      ensures Core(mem, dirs, owner, -1) && Windows(mem, dirs, mapped) && SameAll(old(mem), mem, dirs)
      ensures Get(mem, dirs[0], x) == old(Get(mem, dirs[0], x))
      ensures forall g, i :: i != x || g !in owner || !owner[g].Directory? ==> Get(mem, g, i) == Get(old(mem), g, i)
    {
      hide Get, Set, Windows, Cleared, TablesOwned, Directories, SameAll;
      SameRefl(mem, dirs);
      for k := 0 to |spaces|
        invariant Core(mem, dirs, owner, x) && Windows(mem, dirs, mapped) && SameAll(old(mem), mem, dirs)
        invariant Get(mem, dirs[0], x) == e && Cleared(mem, e.frame)
        invariant forall j :: 0 <= j < k ==> Get(mem, dirs[spaces[j]], x) == e
        invariant forall g, i :: i != x || g !in owner || !owner[g].Directory? ==> Get(mem, g, i) == Get(old(mem), g, i)
      {
        var id := spaces[k];
        ghost var was := mem;
        DirReached(mem, dirs, owner, mapped, x, current, id);
        PdeCopied(mem, dirs, owner, mapped, x, id);
        TableFrame(mem, dirs, owner, x, 0, x);
        DirOwner(mem, dirs, owner, x, id);
        Store(mapped[id].0, mapped[id].1, x, e);
        SameTrans(old(mem), was, mem, dirs);
        ClearedKept(was, mem, e.frame);
      }
      CoreClosed(mem, dirs, owner, x, spaces);
    }

    /**
      popPageFrame: takes a frame, or 0 exactly when there is none.  The last page of an empty stack is unmapped from its
      window; its table is there, so no table is added and the call does not come back here.
     */
    method PopPageFrame() returns (frame: int)
      requires Ok()
      modifies `mem, `owner, frames
      ensures Ok() && owner == old(owner)
      ensures old(frames.Held()) == {} ==> frame == 0 && frames.Held() == {}
      ensures old(frames.Held()) != {} ==>
        && 0 < frame < FRAMES && frame in old(frames.Held()) && frames.Held() == old(frames.Held()) - {frame}
        && |frames.Held()| == old(|frames.Held()|) - 1
      ensures SameAll(old(mem), mem, dirs) && OnlyFrame(old(mem), mem, old(Get(mem, dirs[0], STACK_PD)).frame)
      ensures Effect(old(mem), owner, frames.Held(), mem, owner, frames.Held(), dirs)
      ensures forall j :: j in dirs ==> Spare(mem, dirs, needed, frames.Held(), j) == Spare(old(mem), dirs, needed, frames.Held(), j)
      decreases 1
    {
      hide Get, Set, Windows, TablesOwned, Directories, Shared, SameAll, Spare, Effect, FrameStack.Valid, FrameStack.Held,
        StackStored, PageOf, SlotOf, Walk;
      ghost var mem0, held0 := mem, frames.Held();
      StackEntry(frames, mem, dirs, owner);
      SameRefl(mem, dirs);
      if frames.stackUsed == 0 {
        if frames.stackLeft > 0 {
          LastPage(frames, mem, dirs[0]);
          var pt := ENTRIES - frames.stackLeft / PER_PAGE;
          frame := GetPhysicalAddress(0, STACK_PD, pt);
          StackNoWindow(mem, dirs, mapped);
          KernelMap(STACK_PD, pt, NONE);
          TableStored(mem0, dirs, owner, 0, STACK_PD, pt, NONE);
          PageDropped(frames, mem0, dirs[0]);
          frames.DropPage();
          StackWritten(mem0, mem, dirs, owner, frames.Held(), frames.Held());
        } else {
          EmptyStack(frames);
          EffectRefl(mem, owner, frames.Held(), dirs);
          frame := 0;
        }
      } else {
        LastEntry(frames, mem, dirs[0]);
        KernelReached(mem, dirs, owner, -1, current, STACK_PD, ENTRIES - PageOf(frames.stackUsed));
        var w := Load(STACK_PD, ENTRIES - PageOf(frames.stackUsed), SlotOf(frames.stackUsed));
        frame := w.frame;
        EntryDropped(frames, mem, dirs[0]);
        frames.DropEntry();
        EffectRefl(mem, owner, frames.Held(), dirs);
      }
    }

    /** pushPageFrame: the frame is an entry of the stack or, when there is no room for one, the stack's next page. */
    method PushPageFrame(frame: int)
      requires Ok() && 0 < frame < FRAMES && frame !in frames.Held()
      modifies `mem, `owner, frames
      ensures Core(mem, dirs, owner, -1) && Windows(mem, dirs, mapped) && frames.Valid() && frames.StoredIn(mem, dirs[0])
      ensures frame !in owner ==> Ok()
      ensures owner == old(owner) && frames.Held() == old(frames.Held()) + {frame} && |frames.Held()| == old(|frames.Held()|) + 1
      ensures SameAll(old(mem), mem, dirs) && TablesStay(old(mem), mem, dirs)
      ensures forall g, i :: Get(mem, g, i) == Get(old(mem), g, i) || g == old(Get(mem, dirs[0], STACK_PD)).frame || g in old(frames.Held())
      ensures forall j :: j in dirs ==> Spare(mem, dirs, needed, frames.Held(), j) == Spare(old(mem), dirs, needed, frames.Held(), j)
      decreases 1
    {
      hide Get, Set, Windows, TablesOwned, Directories, Shared, SameAll, Spare, Effect, FrameStack.Valid, FrameStack.Held,
        StackStored, PageOf, SlotOf, Walk,
        TablesStay;
      ghost var mem0, held0 := mem, frames.Held();
      StackEntry(frames, mem, dirs, owner);
      if frames.stackLeft == 0 {
        FullStack(frames, frame);
        StackNoWindow(mem, dirs, mapped);
        // the page below the last one of the stack
        var pt := ENTRIES - (frames.stackUsed / PER_PAGE + 1);
        KernelMap(STACK_PD, pt, Word(frame, 3));
        TableStored(mem0, dirs, owner, 0, STACK_PD, pt, Word(frame, 3));
        PageAdded(frames, mem0, dirs[0], frame);
        frames.AddPage(frame);
        StackWritten(mem0, mem, dirs, owner, held0, frames.Held());
      } else {
        NextEntry(frames, mem0, dirs[0], frame);
        KernelReached(mem, dirs, owner, -1, current, STACK_PD, ENTRIES - PageOf(frames.stackUsed + 1));
        ghost var g := frames.window[PageOf(frames.stackUsed + 1)];
        frames.AddEntry(frame);
        GetSet(mem, g, SlotOf(frames.stackUsed), Word(frame, 0));
        KernelWritable(mem, dirs, owner, -1, current, STACK_PD, ENTRIES - PageOf(frames.stackUsed));
        Store(STACK_PD, ENTRIES - PageOf(frames.stackUsed), SlotOf(frames.stackUsed), Word(frame, 0));
        FreeWritten(mem0, mem, dirs, owner, mapped, held0, g, frames.Held());
      }
    }

    /** A new table for kernel entry pd: taken, entered, cleared and entered in all spaces. */
    method AddKernelTable(pd: int)
      requires Ok() && Private(0, pd) && Get(mem, dirs[0], pd) == NONE && Listed() && frames.Held() != {}
      modifies `mem, `owner, frames
      ensures Ok() && Get(mem, dirs[0], pd) != NONE && SameAll(old(mem), mem, dirs)
      ensures Effect(old(mem), old(owner), old(frames.Held()), mem, owner, frames.Held(), dirs)
      ensures forall j :: j in dirs ==> Spare(mem, dirs, needed, frames.Held(), j) == old(Spare(mem, dirs, needed, frames.Held(), j))
      decreases 2
    {
      hide Get, Set, Windows, Cleared, TablesOwned, Directories, Shared, SameAll, SameButTable, Spare, Effect, FrameStack.Valid,
        FrameStack.Held, FrameStack.StoredIn;
      ghost var mem0, owner0, held0 := mem, owner, frames.Held();
      StackEntry(frames, mem, dirs, owner);
      var f := PopPageFrame();
      ghost var mem1, held1 := mem, frames.Held();
      var e := Word(f, 3);
      assert f !in owner && TableEntry(e, 0);
      TableStill(mem0, mem1, dirs, owner, 0, pd);
      TableReached(mem, dirs, owner, -1, current, pd);
      PdeStored(mem, dirs, owner, mapped, 0, pd, e);
      TableWritable(mem, dirs, owner, -1, current, pd);
      Store(RECURSIVE, RECURSIVE, pd, e);
      owner := owner[f := Table(0, pd)];
      ghost var mem2 := mem;
      TableReached(mem, dirs, owner, pd, current, pd);
      TableReached(mem, dirs, owner, pd, current, RECURSIVE);
      TableFrame(mem, dirs, owner, pd, 0, pd);
      DirOwner(mem, dirs, owner, pd, current);
      DirOwner(mem, dirs, owner, pd, 0);
      RecursiveEntry(mem, dirs, owner, pd, current);
      TableWritable(mem, dirs, owner, pd, current, pd);
      ClearPage(RECURSIVE, pd);
      TableCleared(mem2, mem, dirs, owner, mapped, pd, 0, pd);
      DirectoryKept(mem2, mem, dirs, owner, 0, pd);
      ghost var mem3 := mem;
      ButTableTrans(mem1, mem2, mem3, dirs, 0, pd);
      WindowsKeptTable(mem1, mem3, dirs, mapped, 0, pd);
      EmptyTable(mem1, mem3, dirs, 0, pd);
      Propagate(pd, e);
      SameTrans(mem1, mem3, mem, dirs);
      SameTrans(mem0, mem1, mem, dirs);
      TableEffect(mem0, owner0, held0, mem, owner, held1, dirs, f, 0, pd);
      KernelTableSpared(mem1, mem, dirs, owner0, held1, f, pd);
      StaysStored(frames, mem1, mem, dirs[0]);
    }

    /**
      The kernel's mapAtWithFlags: page (pd, pt) of the kernel becomes w, and nothing else changes in any space.  For a page
      of the frame stack's window the table is there already.
     */
    method KernelMap(pd: int, pt: int, w: Word)
      requires Tabled() && current in dirs && Private(0, pd) && 0 <= pt < ENTRIES && NoWindow(pd, pt)
      requires pd != STACK_PD ==> frames.StoredIn(mem, dirs[0])
      requires Get(mem, dirs[0], pd) != NONE || (pd != STACK_PD && Listed() && frames.Held() != {})
      modifies `mem, `owner, frames
      ensures Tabled() && (pd != STACK_PD ==> frames.StoredIn(mem, dirs[0]))
      ensures Walk(mem, dirs[0], pd, pt) == w && SameBut(old(mem), mem, dirs, 0, pd, pt)
      ensures Get(mem, dirs[0], pd) != NONE
      ensures Effect(old(mem), old(owner), old(frames.Held()), mem, owner, frames.Held(), dirs)
      ensures forall j :: j in dirs ==> Spare(mem, dirs, needed, frames.Held(), j) == old(Spare(mem, dirs, needed, frames.Held(), j))
      ensures old(Get(mem, dirs[0], pd)) != NONE ==>
        owner == old(owner) && unchanged(frames) && mem == Set(old(mem), old(Get(mem, dirs[0], pd)).frame, pt, w)
      decreases if pd == STACK_PD then 0 else 3
    {
      hide Get, Set, Windows, Directories, TablesOwned, Shared, SameAll, SameBut, Walk, Spare, Effect, FrameStack.Valid,
        FrameStack.Held, FrameStack.StoredIn;
      ghost var mem0, owner0, held0 := mem, owner, frames.Held();
      TableReached(mem, dirs, owner, -1, current, pd);
      EffectRefl(mem, owner, held0, dirs);
      SameRefl(mem, dirs);
      var e := Load(RECURSIVE, RECURSIVE, pd);
      if e == NONE { AddKernelTable(pd); }
      ghost var mem1 := mem;
      TableReached(mem, dirs, owner, -1, current, pd);
      TableFrame(mem, dirs, owner, -1, 0, pd);
      TableStored(mem, dirs, owner, 0, pd, pt, w);
      TableWritable(mem, dirs, owner, -1, current, pd);
      Store(RECURSIVE, pd, pt, w);
      WindowsKept(mem1, mem, dirs, mapped, 0, pd, pt);
      ButTrans(mem0, mem1, mem, dirs, 0, pd, pt);
      StoredEffect(mem1, mem, owner, frames.Held(), dirs, 0, pd);
      DirectoryKept(mem1, mem, dirs, owner, 0, pd);
      EffectTrans(mem0, owner0, held0, mem1, owner, frames.Held(), mem, owner, frames.Held(), dirs);
      if pd != STACK_PD {
        StackEntry(frames, mem1, dirs, owner);
        TableSpared(mem1, mem, dirs, owner, frames.Held(), 0, pd);
        StaysStored(frames, mem1, mem, dirs[0]);
      }
    }

    /** The page is none at which the directory of a space is mapped. */
    ghost predicate NoWindow(pd: int, pt: int)
      reads this
    {
      forall j :: j in dirs && j in mapped && j != 0 ==> mapped[j] != (pd, pt)
    }

    ghost predicate TempReady()
      reads this
      requires 0 in dirs
    {
      Get(mem, dirs[0], TEMP_PD) != NONE
    }

    /** A new table for entry pd of a user space, entered, mapped at the temporary page and cleared there. */
    method AddUserTable(id: int, pd: int)
      requires Ok() && id in dirs && id != 0 && Private(id, pd) && Get(mem, dirs[id], pd) == NONE && TempFree()
      requires Listed() && Spare(mem, dirs, needed, frames.Held(), id) >= 0 && pd in needed
      modifies `mem, `owner, frames
      ensures Ok() && Get(mem, dirs[id], pd) != NONE && TempReady()
      ensures Walk(mem, dirs[0], TEMP_PD, 0x3FF) == Word(Get(mem, dirs[id], pd).frame, 3)
      ensures SameBut(old(mem), mem, dirs, 0, TEMP_PD, 0x3FF)
      ensures Effect(old(mem), old(owner), old(frames.Held()), mem, owner, frames.Held(), dirs)
      ensures Spare(mem, dirs, needed, frames.Held(), id) == old(Spare(mem, dirs, needed, frames.Held(), id))
    {
      hide Get, Set, Windows, Directories, TablesOwned, Shared, SameAll, SameBut, SameButTable, Walk, Spare, Effect,
        FrameStack.Valid, FrameStack.Held, FrameStack.StoredIn;
      ghost var mem0, owner0, held0 := mem, owner, frames.Held();
      SpareMissing(mem, dirs, needed, held0, id, id, pd);
      StackEntry(frames, mem, dirs, owner);
      var f := PopPageFrame();
      ghost var mem1, held1 := mem, frames.Held();
      var e := Word(f, 7);
      assert f !in owner && TableEntry(e, id);
      TableStill(mem0, mem1, dirs, owner, id, pd);
      TempStill(mem0, mem1, dirs);
      DirReached(mem, dirs, owner, mapped, -1, current, id);
      DirOwner(mem, dirs, owner0, -1, id);
      PdeStored(mem, dirs, owner, mapped, id, pd, e);
      Store(mapped[id].0, mapped[id].1, pd, e);
      owner := owner[f := Table(id, pd)];
      ghost var mem2, owner2 := mem, owner;
      UserEntrySpared(mem1, mem2, dirs, owner0, held1, id, pd);
      StaysStored(frames, mem1, mem2, dirs[0]);
      TableEffect(mem0, owner0, held0, mem2, owner2, held1, dirs, f, id, pd);
      if Get(mem, dirs[0], TEMP_PD) == NONE { SpareMissing(mem, dirs, needed, held1, id, 0, TEMP_PD); }
      TempNoWindow(mem, dirs, mapped);
      KernelMap(TEMP_PD, 0x3FF, Word(f, 3));
      EffectTrans(mem0, owner0, held0, mem2, owner2, held1, mem, owner, frames.Held(), dirs);
      ghost var mem3 := mem;
      KernelReached(mem, dirs, owner, -1, current, TEMP_PD, 0x3FF);
      KernelWritable(mem, dirs, owner, -1, current, TEMP_PD, 0x3FF);
      EntryStays(mem2, owner2, held1, mem3, owner, frames.Held(), dirs, id, pd);
      TempTable(mem, dirs, owner, current, id, pd);
      ClearPage(TEMP_PD, 0x3FF);
      TableFrame(mem3, dirs, owner, -1, id, pd);
      TableCleared(mem3, mem, dirs, owner, mapped, -1, id, pd);
      DirectoryKept(mem3, mem, dirs, owner, id, pd);
      DirectoryKept(mem3, mem, dirs, owner, 0, TEMP_PD);
      WindowsKeptTable(mem3, mem, dirs, mapped, id, pd);
      StackEntry(frames, mem3, dirs, owner);
      TableSpared(mem3, mem, dirs, owner, frames.Held(), id, pd);
      StaysStored(frames, mem3, mem, dirs[0]);
      UserTableAdded(mem1, mem2, mem3, mem, dirs, id, pd);
      ButTrans(mem0, mem1, mem, dirs, 0, TEMP_PD, 0x3FF);
      StoredEffect(mem3, mem, owner, frames.Held(), dirs, id, pd);
      EffectTrans(mem0, owner0, held0, mem3, owner, frames.Held(), mem, owner, frames.Held(), dirs);
    }

    /** What a user space needs before a page of entry pd can be reached: its tables, or free frames for all that may be missing. */
    ghost predicate Reachable(id: int, pd: int)
      reads this, frames
      requires 0 in dirs && id in dirs
    {
      (Get(mem, dirs[id], pd) != NONE && TempReady()) || (Listed() && Spare(mem, dirs, needed, frames.Held(), id) >= 0 && pd in needed)
    }

    /** Map the table for entry pd of a user space at the temporary page, adding it when it is missing. */
    method ReachTable(id: int, pd: int)
      requires Ok() && id in dirs && id != 0 && Private(id, pd) && TempFree() && Reachable(id, pd)
      modifies `mem, `owner, frames
      ensures Ok() && Get(mem, dirs[id], pd) != NONE && TempReady()
      ensures Walk(mem, dirs[0], TEMP_PD, 0x3FF) == Word(Get(mem, dirs[id], pd).frame, 3)
      ensures SameBut(old(mem), mem, dirs, 0, TEMP_PD, 0x3FF)
      ensures Effect(old(mem), old(owner), old(frames.Held()), mem, owner, frames.Held(), dirs)
      ensures Spare(mem, dirs, needed, frames.Held(), id) == old(Spare(mem, dirs, needed, frames.Held(), id))
      ensures old(Get(mem, dirs[id], pd) != NONE && TempReady()) ==> owner == old(owner) && frames.Held() == old(frames.Held())
    {
      hide Get, Set, Windows, Directories, TablesOwned, Shared, SameAll, SameBut, SameButTable, Walk, Spare, Effect,
        FrameStack.Valid, FrameStack.Held, FrameStack.StoredIn;
      DirReached(mem, dirs, owner, mapped, -1, current, id);
      var e := Load(mapped[id].0, mapped[id].1, pd);
      if e == NONE {
        AddUserTable(id, pd);
      } else {
        ghost var mem0, owner0, held0 := mem, owner, frames.Held();
        if Get(mem, dirs[0], TEMP_PD) == NONE { SpareMissing(mem, dirs, needed, held0, id, 0, TEMP_PD); }
        TempNoWindow(mem, dirs, mapped);
        KernelMap(TEMP_PD, 0x3FF, Word(e.frame, 3));
        EntryStays(mem0, owner0, held0, mem, owner, frames.Held(), dirs, id, pd);
      }
    }

    /** mapAtWithFlags of a user space: its page (pd, pt) becomes w, and nothing else changes in any space. */
    method UserMap(id: int, pd: int, pt: int, w: Word)
      requires Ok() && id in dirs && id != 0 && Own(id, pd, pt) && TempFree() && Reachable(id, pd)
      modifies `mem, `owner, frames
      ensures Ok() && TempFree() && TempReady() && Get(mem, dirs[id], pd) != NONE
      ensures Walk(mem, dirs[id], pd, pt) == w && SameBut(old(mem), mem, dirs, id, pd, pt)
      ensures Effect(old(mem), old(owner), old(frames.Held()), mem, owner, frames.Held(), dirs)
      ensures Spare(mem, dirs, needed, frames.Held(), id) == old(Spare(mem, dirs, needed, frames.Held(), id))
      ensures old(Get(mem, dirs[id], pd) != NONE && TempReady()) ==> owner == old(owner) && frames.Held() == old(frames.Held())
    {
      hide Get, Set, Windows, Directories, TablesOwned, Shared, SameAll, SameBut, SameButTable, Walk, Spare, Effect,
        FrameStack.Valid, FrameStack.Held, FrameStack.StoredIn;
      ghost var mem0, owner0, held0 := mem, owner, frames.Held();
      ReachTable(id, pd);
      ghost var mem1, owner1, held1 := mem, owner, frames.Held();
      KernelReached(mem, dirs, owner, -1, current, TEMP_PD, 0x3FF);
      TableFrame(mem, dirs, owner, -1, id, pd);
      TableStored(mem, dirs, owner, id, pd, pt, w);
      KernelWritable(mem, dirs, owner, -1, current, TEMP_PD, 0x3FF);
      Store(TEMP_PD, 0x3FF, pt, w);
      ghost var mem2 := mem;
      WindowsKept(mem1, mem2, dirs, mapped, id, pd, pt);
      StackEntry(frames, mem1, dirs, owner);
      TableSpared(mem1, mem2, dirs, owner, held1, id, pd);
      StaysStored(frames, mem1, mem2, dirs[0]);
      StoredEffect(mem1, mem2, owner, held1, dirs, id, pd);
      DirectoryKept(mem1, mem2, dirs, owner, id, pd);
      DirectoryKept(mem1, mem2, dirs, owner, 0, TEMP_PD);
      EffectTrans(mem0, owner0, held0, mem1, owner1, held1, mem2, owner, held1, dirs);
      TempNoWindow(mem, dirs, mapped);
      KernelMap(TEMP_PD, 0x3FF, NONE);
      EntryStays(mem2, owner1, held1, mem, owner, frames.Held(), dirs, id, pd);
      EffectTrans(mem0, owner0, held0, mem2, owner1, held1, mem, owner, frames.Held(), dirs);
      TempRestored(mem0, mem1, mem2, mem, dirs, id, pd, pt);
    }

    /**
      getPhysicalAddress: the frame the directory of the space leads to for any page, 0 where nothing is mapped; no flat map
      changes.  Asked of a user space for the temporary page, which is unmapped otherwise, it finds what it has just mapped
      there: the kernel's table for that page.
     */
    method GetPhysicalAddress(id: int, pd: int, pt: int) returns (frame: int)
      requires Ok() && id in dirs && 0 <= pd < ENTRIES && 0 <= pt < ENTRIES && (id != 0 ==> TempFree())
      requires id != 0 && Get(mem, dirs[id], pd) != NONE ==> TempReady() || (Listed() && frames.Held() != {})
      modifies `mem, `owner, frames
      ensures Ok() && (old(TempFree()) ==> TempFree()) && (id == 0 ==> mem == old(mem) && unchanged(frames))
      ensures frame == if id != 0 && (pd, pt) == (TEMP_PD, 0x3FF) then Get(mem, dirs[0], TEMP_PD).frame else Walk(mem, dirs[id], pd, pt).frame
      ensures Private(id, pd) ==> frame == old(Walk(mem, dirs[id], pd, pt)).frame
      ensures SameAll(old(mem), mem, dirs)
      ensures id != 0 && Get(mem, dirs[id], pd) != NONE ==> TempReady()
      ensures Effect(old(mem), old(owner), old(frames.Held()), mem, owner, frames.Held(), dirs)
      ensures forall j :: j in dirs ==> Spare(mem, dirs, needed, frames.Held(), j) == old(Spare(mem, dirs, needed, frames.Held(), j))
      ensures old(id == 0 || Get(mem, dirs[id], pd) == NONE || TempReady()) ==> owner == old(owner) && frames.Held() == old(frames.Held())
      decreases if id == 0 then 0 else 4
    {
      hide Get, Set, Windows, Directories, TablesOwned, Shared, SameAll, SameBut, SameButTable, Walk, Spare, Effect,
        FrameStack.Valid, FrameStack.Held, FrameStack.StoredIn;
      ghost var mem0, owner0, held0 := mem, owner, frames.Held();
      EffectRefl(mem, owner, held0, dirs);
      SameRefl(mem, dirs);
      WalkEntry(mem, dirs, owner, id, pd, pt);
      SharedEntry(mem, dirs, owner, id, pd);
      if id == 0 {
        TableReached(mem, dirs, owner, -1, current, pd);
        var e := Load(RECURSIVE, RECURSIVE, pd);
        if e == NONE { return 0; }
        var w := Load(RECURSIVE, pd, pt);
        return w.frame;
      }
      DirReached(mem, dirs, owner, mapped, -1, current, id);
      var e := Load(mapped[id].0, mapped[id].1, pd);
      if e == NONE { return 0; }
      TempNoWindow(mem, dirs, mapped);
      KernelMap(TEMP_PD, 0x3FF, Word(e.frame, 1));
      ghost var mem1, owner1, held1 := mem, owner, frames.Held();
      EntryFixed(mem0, owner0, held0, mem1, owner1, held1, dirs, id, pd);
      WalkEntry(mem, dirs, owner, id, pd, pt);
      KernelReached(mem, dirs, owner, -1, current, TEMP_PD, 0x3FF);
      assert Present(Word(e.frame, 1));
      var w := Load(TEMP_PD, 0x3FF, pt);
      frame := w.frame;
      KernelMap(TEMP_PD, 0x3FF, NONE);
      TempRestoredAll(mem0, mem1, mem, dirs);
      EntryFixed(mem1, owner1, held1, mem, owner, frames.Held(), dirs, id, pd);
      EntryFixed(mem1, owner1, held1, mem, owner, frames.Held(), dirs, 0, TEMP_PD);
      WalkEntry(mem, dirs, owner, id, pd, pt);
      TempRead(mem1, mem, dirs, owner, id, pd, pt, e.frame);
      if Private(id, pd) { ButAt(mem0, mem1, dirs, id, pd, pt); }
      EffectTrans(mem0, owner0, held0, mem1, owner1, held1, mem, owner, frames.Held(), dirs);
    }
  }

  lemma WalkEntry(mem: Memory, dirs: map<int, int>, owner: map<int, Owner>, id: int, pd: int, pt: int)
    requires Core(mem, dirs, owner, -1) && id in dirs && 0 <= pd < ENTRIES
    ensures var e := Get(mem, dirs[id], pd); Walk(mem, dirs[id], pd, pt) == if e == NONE then NONE else Get(mem, e.frame, pt)
    ensures Get(mem, dirs[id], pd) != NONE ==> Present(Get(mem, dirs[id], pd))
  {
    hide Get;
    SharedEntry(mem, dirs, owner, id, pd);
  }

  /** An entry of a directory is private to its space, or it is that of the kernel's directory. */
  lemma SharedEntry(mem: Memory, dirs: map<int, int>, owner: map<int, Owner>, id: int, pd: int)
    requires Core(mem, dirs, owner, -1) && id in dirs && 0 <= pd < ENTRIES
    ensures KERNEL <= pd ==> Get(mem, dirs[id], pd) == Get(mem, dirs[0], pd)
    ensures pd == RECURSIVE ==> Get(mem, dirs[id], pd) == Word(dirs[0], 3) && Present(Get(mem, dirs[id], pd))
    ensures id == 0 && pd < KERNEL ==> Get(mem, dirs[id], pd) == NONE
  {
    hide Get, TablesOwned, Directories;
  }

  /** An entry of a directory stays, whether it is private to the space or shared. */
  lemma EntryFixed(mem: Memory, owner: map<int, Owner>, held: set<int>, mem': Memory, owner': map<int, Owner>, held': set<int>,
                   dirs: map<int, int>, id: int, pd: int)
    requires Effect(mem, owner, held, mem', owner', held', dirs) && Core(mem, dirs, owner, -1) && Core(mem', dirs, owner', -1)
    requires id in dirs && 0 in dirs && 0 <= pd < ENTRIES && Get(mem, dirs[id], pd) != NONE
    ensures Get(mem', dirs[id], pd) == Get(mem, dirs[id], pd)
  {
    hide Get, Effect, Core;
    SharedEntry(mem, dirs, owner, id, pd);
    SharedEntry(mem', dirs, owner', id, pd);
    var j := if pd < KERNEL then id else 0;
    if pd < RECURSIVE { EntryStays(mem, owner, held, mem', owner', held', dirs, j, pd); }
  }

  /** What is read through the temporary page is still there when that page is unmapped, unless it is that page's own entry. */
  lemma TempRead(mem: Memory, mem': Memory, dirs: map<int, int>, owner: map<int, Owner>, id: int, pd: int, pt: int, f: int)
    requires Core(mem, dirs, owner, -1) && id in dirs && id != 0 && 0 in dirs && 0 <= pd < ENTRIES && Get(mem, dirs[0], TEMP_PD) != NONE
    requires Get(mem, dirs[id], pd) != NONE && Get(mem, dirs[id], pd).frame == f && Walk(mem, dirs[0], TEMP_PD, 0x3FF) == Word(f, 1)
    requires mem' == Set(mem, Get(mem, dirs[0], TEMP_PD).frame, 0x3FF, NONE)
    ensures Get(mem, f, pt).frame == if (pd, pt) == (TEMP_PD, 0x3FF) then Get(mem, dirs[0], TEMP_PD).frame else Get(mem', f, pt).frame
  {
    var t := Get(mem, dirs[0], TEMP_PD).frame;
    GetSet(mem, t, 0x3FF, NONE);
    hide Get, Set;
    TableFrame(mem, dirs, owner, -1, 0, TEMP_PD);
    SharedEntry(mem, dirs, owner, id, pd);
    if pd < KERNEL {
      TableFrame(mem, dirs, owner, -1, id, pd);
    } else if pd < RECURSIVE {
      TableFrame(mem, dirs, owner, -1, 0, pd);
    } else {
      DirOwner(mem, dirs, owner, -1, 0);
    }
  }

  lemma ButAt(mem: Memory, mem': Memory, dirs: map<int, int>, id: int, pd: int, pt: int)
    requires SameBut(mem, mem', dirs, 0, TEMP_PD, 0x3FF) && id in dirs && id != 0 && Own(id, pd, pt)
    ensures Walk(mem', dirs[id], pd, pt) == Walk(mem, dirs[id], pd, pt)
  {
  }

  lemma TempRestored(mem0: Memory, mem1: Memory, mem2: Memory, mem3: Memory, dirs: map<int, int>, id: int, pd: int, pt: int)
    requires 0 in dirs && id in dirs && id != 0 && Own(id, pd, pt)
    requires SameBut(mem0, mem1, dirs, 0, TEMP_PD, 0x3FF) && SameBut(mem1, mem2, dirs, id, pd, pt)
    requires SameBut(mem2, mem3, dirs, 0, TEMP_PD, 0x3FF)
    requires Walk(mem0, dirs[0], TEMP_PD, 0x3FF) == Walk(mem3, dirs[0], TEMP_PD, 0x3FF)
    ensures SameBut(mem0, mem3, dirs, id, pd, pt) && Walk(mem3, dirs[id], pd, pt) == Walk(mem2, dirs[id], pd, pt)
  {
    hide Walk;
  }

  lemma TempRestoredAll(mem0: Memory, mem1: Memory, mem2: Memory, dirs: map<int, int>)
    requires 0 in dirs && SameBut(mem0, mem1, dirs, 0, TEMP_PD, 0x3FF) && SameBut(mem1, mem2, dirs, 0, TEMP_PD, 0x3FF)
    requires Walk(mem0, dirs[0], TEMP_PD, 0x3FF) == Walk(mem2, dirs[0], TEMP_PD, 0x3FF)
    ensures SameAll(mem0, mem2, dirs)
  {
    hide Walk;
  }

  lemma SpareMissing(mem: Memory, dirs: map<int, int>, need: set<int>, held: set<int>, id: int, j: int, pd: int)
    requires 0 in dirs && id in dirs && j in dirs && j in {0, id} && Private(j, pd) && Get(mem, dirs[j], pd) == NONE
    requires Spare(mem, dirs, need, held, id) >= 0 && (j != 0 ==> pd in need)
    ensures held != {}
  {
    hide Get, MissingIn;
    if j == 0 { SomeMissing(mem, dirs[0], ALL, KERNEL, RECURSIVE, pd); } else { SomeMissing(mem, dirs[j], need, 0, KERNEL, pd); }
  }

  lemma TempNoWindow(mem: Memory, dirs: map<int, int>, mapped: map<int, (int, int)>)
    requires Windows(mem, dirs, mapped)
    ensures forall j :: j in dirs && j in mapped && j != 0 ==> mapped[j] != (TEMP_PD, 0x3FF)
  {
    hide Walk;
    forall j | j in dirs && j in mapped && j != 0 ensures mapped[j] != (TEMP_PD, 0x3FF) {
      assert Window(mem, dirs, mapped, j);
    }
  }

  lemma EntryStays(mem: Memory, owner: map<int, Owner>, held: set<int>, mem': Memory, owner': map<int, Owner>, held': set<int>,
                   dirs: map<int, int>, id: int, pd: int)
    requires Effect(mem, owner, held, mem', owner', held', dirs)
    requires id in dirs && Private(id, pd) && Get(mem, dirs[id], pd) != NONE
    ensures Get(mem', dirs[id], pd) == Get(mem, dirs[id], pd)
  {
    hide Get;
  }

  /** A user table is neither the running directory nor the table of the temporary page. */
  lemma TempTable(mem: Memory, dirs: map<int, int>, owner: map<int, Owner>, c: int, id: int, pd: int)
    requires Core(mem, dirs, owner, -1) && c in dirs && id in dirs && id != 0 && Private(id, pd) && Get(mem, dirs[id], pd) != NONE
    requires Get(mem, dirs[0], TEMP_PD) != NONE
    ensures var f := Get(mem, dirs[id], pd).frame; f != dirs[c] && f != Get(mem, dirs[c], TEMP_PD).frame
  {
    hide Get;
    TableFrame(mem, dirs, owner, -1, 0, TEMP_PD);
  }

  lemma UserTableAdded(mem0: Memory, mem1: Memory, mem2: Memory, mem3: Memory, dirs: map<int, int>, id: int, pd: int)
    requires id in dirs && id != 0 && Get(mem0, dirs[id], pd) == NONE && Cleared(mem3, Get(mem3, dirs[id], pd).frame)
    requires 0 in dirs && SameButTable(mem0, mem1, dirs, id, pd) && SameBut(mem1, mem2, dirs, 0, TEMP_PD, 0x3FF) && SameButTable(mem2, mem3, dirs, id, pd)
    ensures SameBut(mem0, mem3, dirs, 0, TEMP_PD, 0x3FF) && Walk(mem3, dirs[0], TEMP_PD, 0x3FF) == Walk(mem2, dirs[0], TEMP_PD, 0x3FF)
  {
    hide Get;
    forall t | 0 <= t < ENTRIES ensures Walk(mem0, dirs[id], pd, t) == NONE == Walk(mem3, dirs[id], pd, t) {
    }
    hide Walk;
  }

  lemma EffectRefl(mem: Memory, owner: map<int, Owner>, held: set<int>, dirs: map<int, int>)
    requires held !! owner.Keys
    ensures Effect(mem, owner, held, mem, owner, held, dirs)
  {
  }

  lemma ButTrans(mem0: Memory, mem1: Memory, mem2: Memory, dirs: map<int, int>, id: int, pd: int, pt: int)
    requires SameAll(mem0, mem1, dirs) && SameBut(mem1, mem2, dirs, id, pd, pt)
    ensures SameBut(mem0, mem2, dirs, id, pd, pt)
  {
    hide Walk;
  }

  /** Writing a word of a table adds no table. */
  lemma StoredEffect(mem: Memory, mem': Memory, owner: map<int, Owner>, held: set<int>, dirs: map<int, int>, id: int, pd: int)
    requires Directories(dirs, owner) && DirectoriesSame(mem, mem', owner) && held !! owner.Keys
    requires id in dirs && OnlyFrame(mem, mem', Get(mem, dirs[id], pd).frame)
    requires var f := Get(mem, dirs[id], pd).frame; f in owner && owner[f].Table?
    ensures Effect(mem, owner, held, mem', owner, held, dirs)
    ensures forall j, need :: j in dirs ==> Spare(mem', dirs, need, held, j) == Spare(mem, dirs, need, held, j)
  {
    hide Get, Missing;
    assert forall j :: j in dirs ==> dirs[j] in owner && owner[dirs[j]] == Directory(j);
    forall j | j in dirs ensures forall need :: Missing(mem', dirs, need, j) == Missing(mem, dirs, need, j) {
      MissingSame(mem, mem', dirs, j);
    }
  }

  lemma SameRefl(mem: Memory, dirs: map<int, int>)
    ensures SameAll(mem, mem, dirs)
  {
  }

  lemma SameTrans(mem0: Memory, mem1: Memory, mem2: Memory, dirs: map<int, int>)
    requires SameAll(mem0, mem1, dirs) && SameAll(mem1, mem2, dirs)
    ensures SameAll(mem0, mem2, dirs)
  {
    hide Walk;
  }

  lemma ClearedKept(mem: Memory, mem': Memory, f: int)
    requires Cleared(mem, f) && forall i :: Get(mem', f, i) == Get(mem, f, i)
    ensures Cleared(mem', f)
  {
  }

  lemma DirOwner(mem: Memory, dirs: map<int, int>, owner: map<int, Owner>, x: int, id: int)
    requires Core(mem, dirs, owner, x) && id in dirs
    ensures dirs[id] in owner && owner[dirs[id]] == Directory(id)
  {
  }

  /** From every space the directory of space id is where the kernel mapped it, unless the table it lies in is being added. */
  lemma DirReached(mem: Memory, dirs: map<int, int>, owner: map<int, Owner>, mapped: map<int, (int, int)>, x: int, c: int, id: int)
    requires Core(mem, dirs, owner, x) && Windows(mem, dirs, mapped) && c in dirs && id in dirs && id != 0
    requires Private(0, x) ==> Cleared(mem, Get(mem, dirs[0], x).frame)
    ensures id in mapped && KernelWrites(mem, dirs[c], mapped[id].0, mapped[id].1)
    ensures Present(Walk(mem, dirs[c], mapped[id].0, mapped[id].1)) && Walk(mem, dirs[c], mapped[id].0, mapped[id].1).frame == dirs[id]
  {
    hide Get, TablesOwned, Directories;
    assert Window(mem, dirs, mapped, id);
    KernelReached(mem, dirs, owner, x, c, mapped[id].0, mapped[id].1);
    KernelWritable(mem, dirs, owner, x, c, mapped[id].0, mapped[id].1);
  }

  lemma CoreClosed(mem: Memory, dirs: map<int, int>, owner: map<int, Owner>, x: int, spaces: seq<int>)
    requires Core(mem, dirs, owner, x) && (forall id :: id in dirs && id != 0 ==> id in spaces)
    requires forall k :: 0 <= k < |spaces| && spaces[k] in dirs ==> Get(mem, dirs[spaces[k]], x) == Get(mem, dirs[0], x)
    ensures Core(mem, dirs, owner, -1)
  {
    hide Get, TablesOwned, Directories;
  }

  /** From every space the recursive page of the recursive entry is the kernel's directory. */
  lemma RecursiveEntry(mem: Memory, dirs: map<int, int>, owner: map<int, Owner>, x: int, c: int)
    requires Core(mem, dirs, owner, x) && x < RECURSIVE && c in dirs
    ensures Get(mem, dirs[c], RECURSIVE) == Word(dirs[0], 3)
  {
    hide Get;
  }

  lemma DirectoryKept(mem: Memory, mem': Memory, dirs: map<int, int>, owner: map<int, Owner>, id: int, pd: int)
    requires Directories(dirs, owner) && DirectoriesSame(mem, mem', owner) && id in dirs
    ensures Get(mem', dirs[id], pd) == Get(mem, dirs[id], pd)
  {
  }

  lemma ButTableTrans(mem0: Memory, mem1: Memory, mem2: Memory, dirs: map<int, int>, id: int, pd: int)
    requires SameButTable(mem0, mem1, dirs, id, pd) && SameButTable(mem1, mem2, dirs, id, pd)
    ensures SameButTable(mem0, mem2, dirs, id, pd)
  {
    hide Walk;
  }

  /** What adding one table for entry pd of space id amounts to. */
  lemma TableEffect(mem: Memory, owner: map<int, Owner>, held: set<int>, mem': Memory, owner': map<int, Owner>, held': set<int>,
                    dirs: map<int, int>, f: int, id: int, pd: int)
    requires Directories(dirs, owner) && id in dirs && Private(id, pd) && held !! owner.Keys
    requires f in held && f !in owner && owner' == owner[f := Table(id, pd)] && held' == held - {f} && |held'| == |held| - 1
    requires Get(mem, dirs[id], pd) == NONE != Get(mem', dirs[id], pd)
    requires forall g, i :: Get(mem', g, i) == Get(mem, g, i) || g == f || (g in owner && owner[g].Table?) || (i == pd && g in owner && owner[g].Directory?)
    requires id != 0 ==> forall g, i :: g in owner && owner[g].Directory? && (g, i) != (dirs[id], pd) ==> Get(mem', g, i) == Get(mem, g, i)
    ensures Effect(mem, owner, held, mem', owner', held', dirs)
    ensures forall need :: id == 0 || pd in need ==> Spare(mem', dirs, need, held', id) == Spare(mem, dirs, need, held, id)
    ensures id == 0 ==> forall j, need :: j in dirs ==> Spare(mem', dirs, need, held', j) == Spare(mem, dirs, need, held, j)
  {
    hide Get, Effect, MissingIn, Grew, ContentsKept, TablesStay;
    assert forall j :: j in dirs ==> dirs[j] in owner && owner[dirs[j]] == Directory(j);
    TableGrew(mem, owner, held, mem', owner', held', dirs, f, id, pd);
    forall j, need | j in dirs && (id == 0 || (j == id && pd in need))
      ensures Spare(mem', dirs, need, held', j) == Spare(mem, dirs, need, held, j)
    {
      if id == 0 {
        MissingOne(mem, mem', dirs[0], ALL, KERNEL, RECURSIVE, pd);
        if j != 0 { MissingSame(mem, mem', dirs, j); }
      } else {
        MissingSame(mem, mem', dirs, 0);
        MissingOne(mem, mem', dirs[j], need, 0, KERNEL, pd);
      }
    }
  }

  lemma TableGrew(mem: Memory, owner: map<int, Owner>, held: set<int>, mem': Memory, owner': map<int, Owner>, held': set<int>,
                  dirs: map<int, int>, f: int, id: int, pd: int)
    requires Directories(dirs, owner) && id in dirs && Private(id, pd) && held !! owner.Keys
    requires f in held && f !in owner && owner' == owner[f := Table(id, pd)] && held' == held - {f}
    requires Get(mem, dirs[id], pd) == NONE
    requires forall g, i :: Get(mem', g, i) == Get(mem, g, i) || g == f || (g in owner && owner[g].Table?) || (i == pd && g in owner && owner[g].Directory?)
    requires id != 0 ==> forall g, i :: g in owner && owner[g].Directory? && (g, i) != (dirs[id], pd) ==> Get(mem', g, i) == Get(mem, g, i)
    ensures Effect(mem, owner, held, mem', owner', held', dirs)
  {
    hide Get;
    assert forall j :: j in dirs ==> dirs[j] in owner && owner[dirs[j]] == Directory(j);
    assert held' == held - owner'.Keys;
  }

  // ---------- The frame stack in its window ----------

  lemma NothingStored(frames: FrameStack, mem: Memory, dir: int)
    requires frames.stackUsed == 0 && frames.pages == 0 && Present(Get(mem, dir, STACK_PD))
    ensures frames.StoredIn(mem, dir)
  {
  }

  /** The window's page table is there; neither it nor the kernel's directory is a free frame. */
  lemma StackEntry(frames: FrameStack, mem: Memory, dirs: map<int, int>, owner: map<int, Owner>)
    requires Core(mem, dirs, owner, -1) && 0 in dirs && FramesOk(owner, frames.Held()) && frames.StoredIn(mem, dirs[0])
    ensures var t := Get(mem, dirs[0], STACK_PD);
      && t != NONE && Present(t) && t.frame in owner && owner[t.frame] == Table(0, STACK_PD) && t.frame !in frames.Held() && t.frame != dirs[0]
    ensures dirs[0] in owner && owner[dirs[0]] == Directory(0) && dirs[0] !in frames.Held()
  {
    hide Get, FrameStack.Held;
    TableFrame(mem, dirs, owner, -1, 0, STACK_PD);
  }

  lemma StaysStored(frames: FrameStack, mem: Memory, mem': Memory, dir: int)
    requires frames.Valid() && frames.StoredIn(mem, dir) && StackWords(mem, mem', dir, frames.Held())
    ensures frames.StoredIn(mem', dir)
  {
    hide Get, HeldBy, Disjoint, StackStored, StackWords;
    StackKept(mem, mem', dir, frames.stack, frames.stackUsed, frames.window, frames.pages);
  }

  lemma StackNoWindow(mem: Memory, dirs: map<int, int>, mapped: map<int, (int, int)>)
    requires Windows(mem, dirs, mapped)
    ensures forall j, pt :: j in dirs && j in mapped && j != 0 ==> mapped[j] != (STACK_PD, pt)
  {
    hide Walk;
    forall j, pt | j in dirs && j in mapped && j != 0 ensures mapped[j] != (STACK_PD, pt) {
      assert Window(mem, dirs, mapped, j);
    }
  }

  lemma LastPage(frames: FrameStack, mem: Memory, dir: int)
    requires frames.Valid() && frames.StoredIn(mem, dir) && frames.stackUsed == 0 && frames.stackLeft > 0
    ensures frames.stackLeft / PER_PAGE == frames.pages && 1 <= frames.pages <= WINDOW && frames.pages in frames.window
    ensures Walk(mem, dir, STACK_PD, ENTRIES - frames.pages) == Word(frames.window[frames.pages], 3)
  {
    hide Get, HeldBy;
  }

  lemma PageDropped(frames: FrameStack, mem: Memory, dir: int)
    requires frames.StoredIn(mem, dir) && frames.stackUsed == 0 && dir != Get(mem, dir, STACK_PD).frame
    ensures StackStored(Set(mem, Get(mem, dir, STACK_PD).frame, ENTRIES - frames.pages, NONE), dir,
                        frames.stack, 0, frames.window - {frames.pages}, frames.pages - 1)
  {
    hide Get, Set, StackStored;
    PageUnmapped(mem, dir, frames.stack, frames.window, frames.pages);
  }

  lemma EmptyStack(frames: FrameStack)
    requires frames.Valid() && frames.stackUsed == 0 && frames.stackLeft <= 0
    ensures frames.Held() == {}
  {
    assert frames.pages == 0;
    NothingHeld(frames.stack, frames.window);
  }

  lemma LastEntry(frames: FrameStack, mem: Memory, dir: int)
    requires frames.Valid() && frames.StoredIn(mem, dir) && frames.stackUsed != 0
    ensures var e := frames.stackUsed;
      && e > 0 && e in frames.stack && PageOf(e) in frames.window && 1 <= PageOf(e) <= WINDOW
      && Walk(mem, dir, STACK_PD, ENTRIES - PageOf(e)) == Word(frames.window[PageOf(e)], 3)
      && Get(mem, frames.window[PageOf(e)], SlotOf(e)) == Word(frames.stack[e], 0)
  {
    PlaceOf(frames.stackUsed, frames.pages);
    WindowHeld(frames.stack, frames.stackUsed, frames.window, frames.pages);
    hide Get, HeldBy, PageOf, SlotOf, Disjoint;
  }

  lemma EntryDropped(frames: FrameStack, mem: Memory, dir: int)
    requires frames.StoredIn(mem, dir)
    ensures StackStored(mem, dir, frames.stack, frames.stackUsed - 1, frames.window, frames.pages)
  {
    hide Get, PageOf, SlotOf;
  }

  lemma FullStack(frames: FrameStack, frame: int)
    requires frames.Valid() && frames.stackLeft == 0 && 0 < frame < FRAMES && frame !in frames.Held()
    ensures frames.stackUsed == PER_PAGE * frames.pages && frames.stackUsed / PER_PAGE == frames.pages && 0 <= frames.pages < WINDOW
  {
    hide HeldBy, Disjoint;
    PushedPage(frames.stack, frames.stackUsed, frames.window, frames.pages, frame);
  }

  lemma PageAdded(frames: FrameStack, mem: Memory, dir: int, frame: int)
    requires frames.Valid() && frames.StoredIn(mem, dir) && frames.stackLeft == 0 && frames.pages >= 0
    requires dir !in frames.Held() && dir != Get(mem, dir, STACK_PD).frame && Get(mem, dir, STACK_PD).frame !in frames.Held()
    ensures StackStored(Set(mem, Get(mem, dir, STACK_PD).frame, ENTRIES - (frames.pages + 1), Word(frame, 3)), dir,
                        frames.stack, frames.stackUsed, frames.window[frames.pages + 1 := frame], frames.pages + 1)
  {
    hide Get, Set, StackStored, HeldBy, Disjoint;
    PageStored(mem, dir, frames.stack, frames.stackUsed, frames.window, frames.pages, frame);
  }

  lemma NextEntry(frames: FrameStack, mem: Memory, dir: int, frame: int)
    requires frames.Valid() && frames.StoredIn(mem, dir) && frames.stackLeft != 0
    requires dir !in frames.Held() && Get(mem, dir, STACK_PD).frame !in frames.Held()
    ensures var e := frames.stackUsed + 1;
      && frames.stackLeft > 0 && PageOf(e) in frames.window && 1 <= PageOf(e) <= WINDOW && frames.window[PageOf(e)] in frames.Held()
      && Walk(mem, dir, STACK_PD, ENTRIES - PageOf(e)) == Word(frames.window[PageOf(e)], 3)
      && StackStored(Set(mem, frames.window[PageOf(e)], SlotOf(e), Word(frame, 0)), dir, frames.stack[e := frame], e, frames.window, frames.pages)
  {
    WindowHeld(frames.stack, frames.stackUsed, frames.window, frames.pages);
    hide Get, Set, HeldBy, PageOf, SlotOf, Disjoint;
    EntryStored(mem, dir, frames.stack, frames.stackUsed, frames.window, frames.pages, frame);
  }

  /** A word of the window's page table was written. */
  lemma StackWritten(mem: Memory, mem': Memory, dirs: map<int, int>, owner: map<int, Owner>, held: set<int>, held': set<int>)
    requires Core(mem, dirs, owner, -1) && 0 in dirs && Get(mem, dirs[0], STACK_PD) != NONE && held !! owner.Keys
    requires OnlyFrame(mem, mem', Get(mem, dirs[0], STACK_PD).frame)
    requires exists pt :: SameBut(mem, mem', dirs, 0, STACK_PD, pt)
    ensures SameAll(mem, mem', dirs) && Effect(mem, owner, held, mem', owner, held, dirs) && TablesStay(mem, mem', dirs)
    ensures forall j, need :: j in dirs ==> Spare(mem', dirs, need, held', j) == Spare(mem, dirs, need, held', j)
  {
    hide Get, Walk, Missing, TablesOwned, Shared;
    TableFrame(mem, dirs, owner, -1, 0, STACK_PD);
    OnlyFrameDirectories(mem, mem', owner, Get(mem, dirs[0], STACK_PD).frame);
    StoredEffect(mem, mem', owner, held, dirs, 0, STACK_PD);
    forall j, need | j in dirs ensures Spare(mem', dirs, need, held', j) == Spare(mem, dirs, need, held', j) {
      assert Spare(mem', dirs, need, held, j) == Spare(mem, dirs, need, held, j);
    }
  }

  /** A word of a free frame was written. */
  lemma FreeWritten(mem: Memory, mem': Memory, dirs: map<int, int>, owner: map<int, Owner>, mapped: map<int, (int, int)>, held: set<int>, g: int,
                    held': set<int>)
    requires Core(mem, dirs, owner, -1) && Windows(mem, dirs, mapped) && FramesOk(owner, held) && g in held && OnlyFrame(mem, mem', g)
    ensures Core(mem', dirs, owner, -1) && Windows(mem', dirs, mapped) && SameAll(mem, mem', dirs) && TablesStay(mem, mem', dirs)
    ensures forall j, need :: j in dirs ==> Spare(mem', dirs, need, held', j) == Spare(mem, dirs, need, held', j)
  {
    hide Get, Walk, Windows, Shared, MissingIn;
    UnownedWritten(mem, mem', dirs, owner, g);
    WindowsAll(mem, mem', dirs, mapped);
    assert forall j :: j in dirs ==> dirs[j] in owner && owner[dirs[j]] == Directory(j);
    hide Core, TablesOwned, Directories, SameAll;
    hide Missing;
    forall j | j in dirs ensures forall need :: Missing(mem', dirs, need, j) == Missing(mem, dirs, need, j) {
      MissingSame(mem, mem', dirs, j);
    }
  }

  lemma UnownedWritten(mem: Memory, mem': Memory, dirs: map<int, int>, owner: map<int, Owner>, g: int)
    requires Core(mem, dirs, owner, -1) && OnlyFrame(mem, mem', g) && g !in owner
    ensures Core(mem', dirs, owner, -1) && SameAll(mem, mem', dirs) && DirectoriesSame(mem, mem', owner)
  {
    hide Get;
    OnlyFrameDirectories(mem, mem', owner, g);
    CoreKept(mem, mem', dirs, owner, -1);
    forall j, p, t | j in dirs && Own(j, p, t) ensures Walk(mem', dirs[j], p, t) == Walk(mem, dirs[j], p, t) {
      DirOwner(mem, dirs, owner, -1, j);
      if Get(mem, dirs[j], p) != NONE { TableFrame(mem, dirs, owner, -1, j, p); }
    }
  }

  lemma WindowsAll(mem: Memory, mem': Memory, dirs: map<int, int>, mapped: map<int, (int, int)>)
    requires Windows(mem, dirs, mapped) && SameAll(mem, mem', dirs)
    ensures Windows(mem', dirs, mapped)
  {
    hide Walk;
    forall j | j in dirs && j != 0 ensures Window(mem', dirs, mapped, j) {
      assert Window(mem, dirs, mapped, j);
    }
  }

  /** Taking a frame changes no directory. */
  lemma TableStill(mem: Memory, mem': Memory, dirs: map<int, int>, owner: map<int, Owner>, id: int, pd: int)
    requires Core(mem, dirs, owner, -1) && 0 in dirs && id in dirs && OnlyFrame(mem, mem', Get(mem, dirs[0], STACK_PD).frame)
    requires Get(mem, dirs[0], STACK_PD) != NONE
    ensures Get(mem', dirs[id], pd) == Get(mem, dirs[id], pd)
  {
    hide Get;
    TableFrame(mem, dirs, owner, -1, 0, STACK_PD);
    DirOwner(mem, dirs, owner, -1, id);
  }

  lemma TempStill(mem: Memory, mem': Memory, dirs: map<int, int>)
    requires SameAll(mem, mem', dirs) && 0 in dirs
    ensures Walk(mem', dirs[0], TEMP_PD, 0x3FF) == Walk(mem, dirs[0], TEMP_PD, 0x3FF)
  {
    hide Walk;
    assert Own(0, TEMP_PD, 0x3FF);
  }

  /** A table other than the window's was written. */
  lemma TableSpared(mem: Memory, mem': Memory, dirs: map<int, int>, owner: map<int, Owner>, held: set<int>, id: int, pd: int)
    requires Core(mem, dirs, owner, -1) && 0 in dirs && id in dirs && Private(id, pd) && Get(mem, dirs[id], pd) != NONE && FramesOk(owner, held)
    requires OnlyFrame(mem, mem', Get(mem, dirs[id], pd).frame) && (id, pd) != (0, STACK_PD)
    requires Get(mem, dirs[0], STACK_PD) != NONE
    ensures StackWords(mem, mem', dirs[0], held)
  {
    hide Get;
    TableFrame(mem, dirs, owner, -1, id, pd);
    TableFrame(mem, dirs, owner, -1, 0, STACK_PD);
    DirOwner(mem, dirs, owner, -1, 0);
  }

  lemma UserEntrySpared(mem: Memory, mem': Memory, dirs: map<int, int>, owner: map<int, Owner>, held: set<int>, id: int, pd: int)
    requires Core(mem, dirs, owner, -1) && 0 in dirs && id in dirs && id != 0 && FramesOk(owner, held) && Get(mem, dirs[0], STACK_PD) != NONE
    requires forall g, i :: (g, i) != (dirs[id], pd) ==> Get(mem', g, i) == Get(mem, g, i)
    ensures StackWords(mem, mem', dirs[0], held)
  {
    hide Get;
    TableFrame(mem, dirs, owner, -1, 0, STACK_PD);
    DirOwner(mem, dirs, owner, -1, 0);
    DirOwner(mem, dirs, owner, -1, id);
  }

  lemma KernelTableSpared(mem: Memory, mem': Memory, dirs: map<int, int>, owner: map<int, Owner>, held: set<int>, f: int, pd: int)
    requires Core(mem, dirs, owner, -1) && 0 in dirs && FramesOk(owner, held) && Get(mem, dirs[0], STACK_PD) != NONE
    requires f !in owner && f !in held && pd != STACK_PD
    requires forall g, i :: Get(mem', g, i) == Get(mem, g, i) || g == f || (i == pd && g in owner && owner[g].Directory?)
    ensures StackWords(mem, mem', dirs[0], held)
  {
    hide Get;
    TableFrame(mem, dirs, owner, -1, 0, STACK_PD);
    DirOwner(mem, dirs, owner, -1, 0);
  }
}
