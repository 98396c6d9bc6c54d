/**
  Two-level page tables in physical memory, as the processor walks them, and the
  invariant that ties the directories of all address spaces together.
 */
module PageTables {
  const KERNEL: int := 0x300        // directory entries from here on belong to the kernel
  const TEMP_PD: int := 0x3FD       // 0xFF7FF000, the temporary page, is (0x3FD, 0x3FF)
  const STACK_PD: int := 0x3FE      // the window of the frame stack
  const RECURSIVE: int := 0x3FF     // the kernel's directory, mapped as a page table
  const ENTRIES: int := 0x400

  /** A 32-bit word as its upper 20 and its lower 12 bits. */
  datatype Word = Word(frame: int, flags: int)
  const NONE: Word := Word(0, 0)

  predicate Present(w: Word) { w.flags % 2 == 1 }
  predicate Writable(w: Word) { w.flags / 2 % 2 == 1 }
  predicate ForUser(w: Word) { w.flags / 4 % 2 == 1 }

  /** The words of physical memory by frame and index; a word not listed is zero. */
  type Memory = map<(int, int), Word>

  function Get(mem: Memory, f: int, i: int): Word {
    if (f, i) in mem then mem[(f, i)] else NONE
  }

  function Set(mem: Memory, f: int, i: int, w: Word): Memory { mem[(f, i) := w] }

  lemma GetSet(mem: Memory, f: int, i: int, w: Word)
    ensures Get(Set(mem, f, i, w), f, i) == w
    ensures forall g, j :: (g, j) != (f, i) ==> Get(Set(mem, f, i, w), g, j) == Get(mem, g, j)
  {
  }

  /** The page table entry the processor finds for page (pd, pt) under a directory. */
  function Walk(mem: Memory, dir: int, pd: int, pt: int): Word {
    var e := Get(mem, dir, pd);
    if Present(e) then Get(mem, e.frame, pt) else NONE
  }

  /** What a frame is used for; a frame may be mapped elsewhere without being used for it. */
  datatype Owner = Directory(id: int) | Table(id: int, pd: int) | Data(id: int, page: int)

  /** The directory entries for which space id has tables of its own; space 0 is the kernel. */
  predicate Private(id: int, pd: int) {
    if id == 0 then KERNEL <= pd < RECURSIVE else 0 <= pd < KERNEL
  }

  /** The pages of a space, apart from the window in which the kernel keeps the frame stack. */
  predicate Own(id: int, pd: int, pt: int) {
    Private(id, pd) && 0 <= pt < ENTRIES && !(id == 0 && pd == STACK_PD)
  }

  /** Every directory is a frame of its own. */
  ghost predicate Directories(dirs: map<int, int>, owner: map<int, Owner>) {
    0 in dirs && forall id :: id in dirs ==> dirs[id] in owner && owner[dirs[id]] == Directory(id)
  }

  /** A directory entry for a table of a space: it leaves it to the table what may be written, and keeps user mode out of the kernel. */
  predicate TableEntry(e: Word, id: int) {
    Present(e) && Writable(e) && (ForUser(e) <==> id != 0)
  }

  /** A non-zero private entry points to a table that serves nothing else. */
  ghost predicate TablesOwned(mem: Memory, dirs: map<int, int>, owner: map<int, Owner>) {
    forall id, pd :: id in dirs && Private(id, pd) && Get(mem, dirs[id], pd) != NONE ==>
      var e := Get(mem, dirs[id], pd); TableEntry(e, id) && e.frame in owner && owner[e.frame] == Table(id, pd)
  }

  /** All spaces hold the kernel's entries from 0x300 up (but for entry x), the kernel holds none below. */
  ghost predicate Shared(mem: Memory, dirs: map<int, int>, x: int) {
    && 0 in dirs && Get(mem, dirs[0], RECURSIVE) == Word(dirs[0], 3)
    && (forall id, pd :: id in dirs && KERNEL <= pd <= RECURSIVE && pd != x ==> Get(mem, dirs[id], pd) == Get(mem, dirs[0], pd))
    && (forall pd :: 0 <= pd < KERNEL ==> Get(mem, dirs[0], pd) == NONE)
  }

  ghost predicate Core(mem: Memory, dirs: map<int, int>, owner: map<int, Owner>, x: int) {
    Directories(dirs, owner) && TablesOwned(mem, dirs, owner) && Shared(mem, dirs, x)
  }

  /** Each space's directory is mapped at a kernel page of its own, through which the kernel writes it. */
  ghost predicate Windows(mem: Memory, dirs: map<int, int>, mapped: map<int, (int, int)>) {
    0 in dirs && forall id :: id in dirs && id != 0 ==> Window(mem, dirs, mapped, id)
  }

  ghost predicate Window(mem: Memory, dirs: map<int, int>, mapped: map<int, (int, int)>, id: int)
    requires 0 in dirs && id in dirs
  {
    && id in mapped && Own(0, mapped[id].0, mapped[id].1) && mapped[id] != (TEMP_PD, 0x3FF)
    && var w := Walk(mem, dirs[0], mapped[id].0, mapped[id].1); Present(w) && Writable(w) && w.frame == dirs[id]
  }

  /** Only words of frames that are not directories changed. */
  ghost predicate DirectoriesSame(mem: Memory, mem': Memory, owner: map<int, Owner>) {
    forall g, i :: g in owner && owner[g].Directory? ==> Get(mem', g, i) == Get(mem, g, i)
  }

  /** No frame but f changed. */
  ghost predicate OnlyFrame(mem: Memory, mem': Memory, f: int) {
    forall g, i :: g != f ==> Get(mem', g, i) == Get(mem, g, i)
  }

  /** The flat maps of all spaces agree but for page (pd, pt) of space id. */
  ghost predicate SameBut(mem: Memory, mem': Memory, dirs: map<int, int>, id: int, pd: int, pt: int) {
    forall j, p, t :: j in dirs && Own(j, p, t) && (j, p, t) != (id, pd, pt) ==> Walk(mem', dirs[j], p, t) == Walk(mem, dirs[j], p, t)
  }

  lemma OnlyFrameDirectories(mem: Memory, mem': Memory, owner: map<int, Owner>, f: int)
    requires OnlyFrame(mem, mem', f) && (f in owner ==> !owner[f].Directory?)
    ensures DirectoriesSame(mem, mem', owner)
  {
  }

  /** The invariant looks at directories only. */
  lemma CoreKept(mem: Memory, mem': Memory, dirs: map<int, int>, owner: map<int, Owner>, x: int)
    requires Core(mem, dirs, owner, x) && DirectoriesSame(mem, mem', owner)
    ensures Core(mem', dirs, owner, x)
  {
    hide Get;
  }

  // ---------- How the kernel reaches tables through the running space ----------

  /** From every space the recursive page RECURSIVE, pd is the kernel's table for pd. */
  lemma TableReached(mem: Memory, dirs: map<int, int>, owner: map<int, Owner>, x: int, c: int, pd: int)
    requires Core(mem, dirs, owner, x) && x < RECURSIVE && c in dirs
    ensures Walk(mem, dirs[c], RECURSIVE, pd) == Get(mem, dirs[0], pd)
    ensures Walk(mem, dirs[c], RECURSIVE, RECURSIVE) == Word(dirs[0], 3)
  {
    hide Get, TablesOwned, Directories;
    assert Get(mem, dirs[c], RECURSIVE) == Word(dirs[0], 3);
  }

  /** From every space a kernel page is mapped as in the kernel's own tables. */
  lemma KernelReached(mem: Memory, dirs: map<int, int>, owner: map<int, Owner>, x: int, c: int, pd: int, pt: int)
    requires Core(mem, dirs, owner, x) && c in dirs && KERNEL <= pd <= RECURSIVE && pd != x
    ensures Walk(mem, dirs[c], pd, pt) == Walk(mem, dirs[0], pd, pt)
  {
    hide Get, TablesOwned, Directories;
  }

  /** The frame behind a private page's table is no directory and serves no other page range. */
  lemma TableFrame(mem: Memory, dirs: map<int, int>, owner: map<int, Owner>, x: int, id: int, pd: int)
    requires Core(mem, dirs, owner, x) && id in dirs && Private(id, pd) && Get(mem, dirs[id], pd) != NONE
    ensures var e := Get(mem, dirs[id], pd); Present(e) && TableEntry(e, id) && e.frame in owner && owner[e.frame] == Table(id, pd)
  {
    hide Get, Shared, Directories;
  }

  // ---------- What the processor allows ----------

  /** Code in user mode may read a page when both levels are present and open to it. */
  predicate UserReads(mem: Memory, dir: int, pd: int, pt: int) {
    var e := Get(mem, dir, pd);
    var w := Get(mem, e.frame, pt);
    Present(e) && Present(w) && ForUser(e) && ForUser(w)
  }

  /** With write protection on, code in either mode may write only where both levels allow it. */
  predicate KernelWrites(mem: Memory, dir: int, pd: int, pt: int) {
    var e := Get(mem, dir, pd);
    var w := Get(mem, e.frame, pt);
    Present(e) && Present(w) && Writable(e) && Writable(w)
  }

  predicate UserWrites(mem: Memory, dir: int, pd: int, pt: int) {
    UserReads(mem, dir, pd, pt) && KernelWrites(mem, dir, pd, pt)
  }

  /** No page from 3 GiB up is open to user mode in any space. */
  lemma KernelClosed(mem: Memory, dirs: map<int, int>, owner: map<int, Owner>, id: int, pd: int, pt: int)
    requires Core(mem, dirs, owner, -1) && id in dirs && KERNEL <= pd <= RECURSIVE
    ensures !UserReads(mem, dirs[id], pd, pt) && !UserWrites(mem, dirs[id], pd, pt)
  {
    hide Get, Directories;
    assert Get(mem, dirs[id], pd) == Get(mem, dirs[0], pd);
    if pd < RECURSIVE && Get(mem, dirs[0], pd) != NONE { TableFrame(mem, dirs, owner, -1, 0, pd); }
  }

  /** From every space the kernel may write each of its pages whose word allows it. */
  lemma KernelWritable(mem: Memory, dirs: map<int, int>, owner: map<int, Owner>, x: int, c: int, pd: int, pt: int)
    requires Core(mem, dirs, owner, x) && c in dirs && Private(0, pd) && pd != x
    requires Present(Walk(mem, dirs[0], pd, pt)) && Writable(Walk(mem, dirs[0], pd, pt))
    ensures KernelWrites(mem, dirs[c], pd, pt)
  {
    hide Get, Directories;
    assert Get(mem, dirs[c], pd) == Get(mem, dirs[0], pd);
    TableFrame(mem, dirs, owner, x, 0, pd);
  }

  /** And its tables, through the recursive entry. */
  lemma TableWritable(mem: Memory, dirs: map<int, int>, owner: map<int, Owner>, x: int, c: int, pd: int)
    requires Core(mem, dirs, owner, x) && x < RECURSIVE && c in dirs
    ensures KernelWrites(mem, dirs[c], RECURSIVE, RECURSIVE)
    ensures Private(0, pd) && Get(mem, dirs[0], pd) != NONE ==> KernelWrites(mem, dirs[c], RECURSIVE, pd)
  {
    hide Get, Directories;
    assert Get(mem, dirs[c], RECURSIVE) == Word(dirs[0], 3);
    if Private(0, pd) && Get(mem, dirs[0], pd) != NONE { TableFrame(mem, dirs, owner, x, 0, pd); }
  }

  // ---------- Writing an entry of a table ----------

  lemma TableStored(mem: Memory, dirs: map<int, int>, owner: map<int, Owner>, id: int, pd: int, pt: int, w: Word)
    requires Core(mem, dirs, owner, -1) && id in dirs && Private(id, pd) && Get(mem, dirs[id], pd) != NONE
    ensures var mem' := Set(mem, Get(mem, dirs[id], pd).frame, pt, w);
            && Core(mem', dirs, owner, -1) && Walk(mem', dirs[id], pd, pt) == w && SameBut(mem, mem', dirs, id, pd, pt)
            && OnlyFrame(mem, mem', Get(mem, dirs[id], pd).frame) && DirectoriesSame(mem, mem', owner)
  {
    TableFrame(mem, dirs, owner, -1, id, pd);
    var f := Get(mem, dirs[id], pd).frame;
    var mem' := Set(mem, f, pt, w);
    GetSet(mem, f, pt, w);
    hide Get, Set;
    assert OnlyFrame(mem, mem', f);
    OnlyFrameDirectories(mem, mem', owner, f);
    CoreKept(mem, mem', dirs, owner, -1);
    assert Directories(dirs, owner) && TablesOwned(mem, dirs, owner);
    hide Core, Shared;
    forall j, p, t | j in dirs && Own(j, p, t) && (j, p, t) != (id, pd, pt)
      ensures Walk(mem', dirs[j], p, t) == Walk(mem, dirs[j], p, t)
    {
      var e := Get(mem, dirs[j], p);
      if e != NONE && e.frame == f { assert owner[f] == Table(j, p); }
    }
  }

  lemma WindowsKept(mem: Memory, mem': Memory, dirs: map<int, int>, mapped: map<int, (int, int)>, id: int, pd: int, pt: int)
    requires Windows(mem, dirs, mapped) && SameBut(mem, mem', dirs, id, pd, pt)
    requires id == 0 ==> forall j :: j in dirs && j in mapped && j != 0 ==> mapped[j] != (pd, pt)
    ensures Windows(mem', dirs, mapped)
  {
    hide Walk, Present;
    forall j | j in dirs && j != 0 ensures Window(mem', dirs, mapped, j) {
      assert Window(mem, dirs, mapped, j);
    }
  }

  // ---------- Adding a table ----------

  /** The flat maps agree but for the pages of entry pd of space id. */
  ghost predicate SameButTable(mem: Memory, mem': Memory, dirs: map<int, int>, id: int, pd: int) {
    forall j, p, t :: j in dirs && Own(j, p, t) && (j, p) != (id, pd) ==> Walk(mem', dirs[j], p, t) == Walk(mem, dirs[j], p, t)
  }

  ghost predicate SameAll(mem: Memory, mem': Memory, dirs: map<int, int>) {
    forall j, p, t :: j in dirs && Own(j, p, t) ==> Walk(mem', dirs[j], p, t) == Walk(mem, dirs[j], p, t)
  }

  ghost predicate Cleared(mem: Memory, f: int) {
    forall t :: 0 <= t < ENTRIES ==> Get(mem, f, t) == NONE
  }

  lemma WindowsKeptTable(mem: Memory, mem': Memory, dirs: map<int, int>, mapped: map<int, (int, int)>, id: int, pd: int)
    requires Windows(mem, dirs, mapped) && SameButTable(mem, mem', dirs, id, pd)
    requires id == 0 ==> Get(mem, dirs[0], pd) == NONE
    ensures Windows(mem', dirs, mapped)
  {
    hide Get;
    forall j | j in dirs && j != 0 ensures Window(mem', dirs, mapped, j) {
      assert Window(mem, dirs, mapped, j);
    }
  }

  /** A directory entry is pointed to a new table: only the pages of that entry are affected. */
  lemma PdeStored(mem: Memory, dirs: map<int, int>, owner: map<int, Owner>, mapped: map<int, (int, int)>, id: int, pd: int, w: Word)
    requires Core(mem, dirs, owner, -1) && Windows(mem, dirs, mapped) && id in dirs && Private(id, pd)
    requires Get(mem, dirs[id], pd) == NONE && w.frame !in owner && TableEntry(w, id)
    ensures var mem', owner' := Set(mem, dirs[id], pd, w), owner[w.frame := Table(id, pd)];
            && Core(mem', dirs, owner', if id == 0 then pd else -1) && Windows(mem', dirs, mapped)
            && SameButTable(mem, mem', dirs, id, pd) && Get(mem', dirs[id], pd) == w
            && (forall g, i :: (g, i) != (dirs[id], pd) ==> Get(mem', g, i) == Get(mem, g, i))
  {
    var mem', owner' := Set(mem, dirs[id], pd, w), owner[w.frame := Table(id, pd)];
    GetSet(mem, dirs[id], pd, w);
    hide Get, Set, Windows;
    assert forall j :: j in dirs && j != id ==> dirs[j] != dirs[id] by {
      assert forall j :: j in dirs ==> owner[dirs[j]] == Directory(j);
    }
    assert SameButTable(mem, mem', dirs, id, pd) by {
      forall j, p, t | j in dirs && Own(j, p, t) && (j, p) != (id, pd)
        ensures Walk(mem', dirs[j], p, t) == Walk(mem, dirs[j], p, t)
      {
        var e := Get(mem, dirs[j], p);
        assert e != NONE ==> owner[e.frame] == Table(j, p);
      }
    }
    WindowsKeptTable(mem, mem', dirs, mapped, id, pd);
    assert Shared(mem', dirs, if id == 0 then pd else -1);
  }

  /** A kernel entry is copied to another space's directory: no flat map changes. */
  lemma PdeCopied(mem: Memory, dirs: map<int, int>, owner: map<int, Owner>, mapped: map<int, (int, int)>, x: int, id: int)
    requires Core(mem, dirs, owner, x) && Windows(mem, dirs, mapped) && id in dirs && id != 0 && Private(0, x)
    ensures var mem' := Set(mem, dirs[id], x, Get(mem, dirs[0], x));
            && Core(mem', dirs, owner, x) && Windows(mem', dirs, mapped) && SameAll(mem, mem', dirs)
            && Get(mem', dirs[id], x) == Get(mem', dirs[0], x) == Get(mem, dirs[0], x)
            && (forall g, i :: (g, i) != (dirs[id], x) ==> Get(mem', g, i) == Get(mem, g, i))
  {
    var mem' := Set(mem, dirs[id], x, Get(mem, dirs[0], x));
    GetSet(mem, dirs[id], x, Get(mem, dirs[0], x));
    hide Get, Set, Windows;
    assert forall j :: j in dirs && j != id ==> dirs[j] != dirs[id] by {
      assert forall j :: j in dirs ==> owner[dirs[j]] == Directory(j);
    }
    forall j, p, t | j in dirs && Own(j, p, t) ensures Walk(mem', dirs[j], p, t) == Walk(mem, dirs[j], p, t) {
      var e := Get(mem, dirs[j], p);
      assert e != NONE ==> owner[e.frame] == Table(j, p);
    }
    WindowsKeptTable(mem, mem', dirs, mapped, 1, -1);
  }

  /** Clearing the frame of a table affects the pages of its entry only. */
  lemma TableCleared(mem: Memory, mem': Memory, dirs: map<int, int>, owner: map<int, Owner>, mapped: map<int, (int, int)>, x: int, id: int, pd: int)
    requires Core(mem, dirs, owner, x) && id in dirs && Private(id, pd) && Get(mem, dirs[id], pd) != NONE
    requires OnlyFrame(mem, mem', Get(mem, dirs[id], pd).frame)
    ensures Core(mem', dirs, owner, x) && SameButTable(mem, mem', dirs, id, pd) && DirectoriesSame(mem, mem', owner)
  {
    TableFrame(mem, dirs, owner, x, id, pd);
    var f := Get(mem, dirs[id], pd).frame;
    hide Get;
    OnlyFrameDirectories(mem, mem', owner, f);
    CoreKept(mem, mem', dirs, owner, x);
    assert Directories(dirs, owner) && TablesOwned(mem, dirs, owner);
    hide Core, Shared;
    forall j, p, t | j in dirs && Own(j, p, t) && (j, p) != (id, pd)
      ensures Walk(mem', dirs[j], p, t) == Walk(mem, dirs[j], p, t)
    {
      var e := Get(mem, dirs[j], p);
      assert e != NONE ==> owner[e.frame] == Table(j, p);
    }
  }

  /** A table of zeros maps as little as no table. */
  lemma EmptyTable(mem: Memory, mem': Memory, dirs: map<int, int>, id: int, pd: int)
    requires id in dirs && Get(mem, dirs[id], pd) == NONE && Cleared(mem', Get(mem', dirs[id], pd).frame)
    requires SameButTable(mem, mem', dirs, id, pd)
    ensures SameAll(mem, mem', dirs)
  {
    hide Get;
  }

  // ---------- How many tables can still be needed ----------

  ghost const ALL: set<int> := set pd: int | 0 <= pd < ENTRIES

  ghost function MissingIn(mem: Memory, dir: int, need: set<int>, lo: int, hi: int): (n: int)
    ensures 0 <= n
    decreases hi - lo
  {
    if lo >= hi then 0 else (if lo in need && Get(mem, dir, lo) == NONE then 1 else 0) + MissingIn(mem, dir, need, lo + 1, hi)
  }

  /** The private directory entries of a space that have no table; of a user space only those in `need` count. */
  ghost function Missing(mem: Memory, dirs: map<int, int>, need: set<int>, id: int): int {
    if id !in dirs then 0 else if id == 0 then MissingIn(mem, dirs[0], ALL, KERNEL, RECURSIVE) else MissingIn(mem, dirs[id], need, 0, KERNEL)
  }

  /** No entry of the directory got or lost its table. */
  lemma MissingSame(mem: Memory, mem': Memory, dirs: map<int, int>, id: int)
    requires id in dirs && forall p :: Private(id, p) ==> (Get(mem', dirs[id], p) == NONE <==> Get(mem, dirs[id], p) == NONE)
    ensures forall need :: Missing(mem', dirs, need, id) == Missing(mem, dirs, need, id)
  {
    hide Get, MissingIn;
    forall need: set<int> ensures Missing(mem', dirs, need, id) == Missing(mem, dirs, need, id) {
      if id == 0 { MissingAlike(mem, mem', dirs[0], ALL, KERNEL, RECURSIVE); } else { MissingAlike(mem, mem', dirs[id], need, 0, KERNEL); }
    }
  }

  lemma {:induction false} MissingAlike(mem: Memory, mem': Memory, dir: int, need: set<int>, lo: int, hi: int)
    requires forall p :: lo <= p < hi ==> (Get(mem', dir, p) == NONE <==> Get(mem, dir, p) == NONE)
    ensures MissingIn(mem', dir, need, lo, hi) == MissingIn(mem, dir, need, lo, hi)
    decreases hi - lo
  {
    hide Get;
    if lo < hi { MissingAlike(mem, mem', dir, need, lo + 1, hi); }
  }

  lemma {:induction false} MissingOne(mem: Memory, mem': Memory, dir: int, need: set<int>, lo: int, hi: int, pd: int)
    requires lo <= pd < hi && pd in need && Get(mem, dir, pd) == NONE != Get(mem', dir, pd)
    requires forall p :: lo <= p < hi && p != pd ==> (Get(mem', dir, p) == NONE <==> Get(mem, dir, p) == NONE)
    ensures MissingIn(mem', dir, need, lo, hi) == MissingIn(mem, dir, need, lo, hi) - 1
    decreases hi - lo
  {
    hide Get;
    if lo == pd { MissingAlike(mem, mem', dir, need, lo + 1, hi); } else { MissingOne(mem, mem', dir, need, lo + 1, hi, pd); }
  }

  lemma {:induction false} SomeMissing(mem: Memory, dir: int, need: set<int>, lo: int, hi: int, pd: int)
    requires lo <= pd < hi && pd in need && Get(mem, dir, pd) == NONE
    ensures MissingIn(mem, dir, need, lo, hi) >= 1
    decreases hi - lo
  {
    hide Get;
    if lo < pd { SomeMissing(mem, dir, need, lo + 1, hi, pd); }
  }
}
