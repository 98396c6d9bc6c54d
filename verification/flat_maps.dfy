/**
  The flat page-to-frame maps behind the page tables, by page number, and which
  frames are used as memory of which page.
 */
module FlatMaps {
  import opened PageTables
  import opened AddressSpaces

  const TEMPORARY: int := 0xFF7FF         // page number of the temporary page

  function Pd(v: int): int { v / ENTRIES }
  function Pt(v: int): int { v % ENTRIES }
  function PageNo(pd: int, pt: int): int { pd * ENTRIES + pt }

  /** Page v may be used in the kernel, in user mode exactly if `user`, and may be written by either exactly if `write`. */
  ghost predicate Allows(mem: Memory, dir: int, v: int, user: bool, write: bool) {
    && Present(Get(mem, dir, Pd(v))) && Present(Walk(mem, dir, Pd(v), Pt(v)))
    && (UserReads(mem, dir, Pd(v), Pt(v)) <==> user) && (UserWrites(mem, dir, Pd(v), Pt(v)) <==> user && write)
    && (KernelWrites(mem, dir, Pd(v), Pt(v)) <==> write)
  }

  /** User mode may use exactly pages of user spaces, and PROT_WRITE is what lets anyone write. */
  ghost predicate Protected(mem: Memory, dirs: map<int, int>, id: int, v: int, protection: int) {
    id in dirs && Allows(mem, dirs[id], v, id != 0, protection / 2 % 2 == 1)
  }

  /** The tables that pages [v, v + n) of a user space need are among those reckoned with. */
  ghost predicate Foreseen(need: set<int>, id: int, v: int, n: int) {
    id != 0 ==> forall u :: v <= u < v + n ==> Pd(u) in need
  }

  lemma PageIndex(v: int)
    ensures PageNo(Pd(v), Pt(v)) == v && 0 <= Pt(v) < ENTRIES
  {
  }

  lemma IndexPage(pd: int, pt: int)
    requires 0 <= pt < ENTRIES
    ensures Pd(PageNo(pd, pt)) == pd && Pt(PageNo(pd, pt)) == pt
  {
  }

  /**
    Pages of space id: all below 3 GiB in a user space, those above in the kernel, but for the window of the frame stack and
    the recursive mapping.
   */
  predicate OwnPage(id: int, v: int) {
    if id == 0 then KERNEL * ENTRIES <= v < STACK_PD * ENTRIES else 0 <= v < KERNEL * ENTRIES
  }

  lemma OwnIndex(id: int, v: int)
    ensures OwnPage(id, v) <==> Own(id, Pd(v), Pt(v))
    ensures Pd(TEMPORARY) == TEMP_PD && Pt(TEMPORARY) == 0x3FF && OwnPage(0, TEMPORARY)
  {
  }

  /** The word that maps page v of space id. */
  function Flat(mem: Memory, dirs: map<int, int>, id: int, v: int): Word
    requires id in dirs
  {
    Walk(mem, dirs[id], Pd(v), Pt(v))
  }

  /** The flat maps of all spaces agree but for pages [lo, hi) of space id. */
  ghost predicate SamePages(mem: Memory, mem': Memory, dirs: map<int, int>, id: int, lo: int, hi: int) {
    forall j, v :: j in dirs && OwnPage(j, v) && !(j == id && lo <= v < hi) ==> Flat(mem', dirs, j, v) == Flat(mem, dirs, j, v)
  }

  lemma SameButPages(mem: Memory, mem': Memory, dirs: map<int, int>, id: int, v: int)
    requires SameBut(mem, mem', dirs, id, Pd(v), Pt(v))
    ensures SamePages(mem, mem', dirs, id, v, v + 1)
  {
    hide Walk, OwnPage, Own, Pd, Pt;
    forall j, u | j in dirs && OwnPage(j, u) && !(j == id && v <= u < v + 1)
      ensures Flat(mem', dirs, j, u) == Flat(mem, dirs, j, u)
    {
      OwnIndex(j, u);
      PageIndex(u);
      PageIndex(v);
    }
  }

  lemma SameAllPages(mem: Memory, mem': Memory, dirs: map<int, int>, id: int, v: int)
    requires SameAll(mem, mem', dirs)
    ensures SamePages(mem, mem', dirs, id, v, v)
  {
    hide Walk, OwnPage, Own, Pd, Pt;
    forall j, u | j in dirs && OwnPage(j, u) ensures Flat(mem', dirs, j, u) == Flat(mem, dirs, j, u) {
      OwnIndex(j, u);
    }
  }

  lemma SamePagesTrans(mem0: Memory, mem1: Memory, mem2: Memory, dirs: map<int, int>, id: int, lo: int, mid: int, hi: int)
    requires SamePages(mem0, mem1, dirs, id, lo, mid) && SamePages(mem1, mem2, dirs, id, mid, hi) && lo <= mid <= hi
    ensures SamePages(mem0, mem2, dirs, id, lo, hi)
  {
    hide Flat, OwnPage;
  }

  lemma SameWindows(mem: Memory, mem': Memory, dirs: map<int, int>, j: int, v: int, id: int, lo: int, hi: int)
    requires SamePages(mem, mem', dirs, id, lo, hi) && j in dirs && OwnPage(j, v) && !(j == id && lo <= v < hi)
    ensures Flat(mem', dirs, j, v) == Flat(mem, dirs, j, v)
  {
  }

  // ---------- Frames used as memory ----------

  /** Memory frames are mapped where they are used, and a user space maps nothing but its own memory. */
  ghost predicate DataOk(mem: Memory, dirs: map<int, int>, owner: map<int, Owner>) {
    && (forall f :: f in owner && owner[f].Data? ==> Placed(mem, dirs, owner[f].id, owner[f].page, f))
    && (forall id, v :: id in dirs && id != 0 && OwnPage(id, v) && Flat(mem, dirs, id, v) != NONE ==>
          var f := Flat(mem, dirs, id, v).frame; f in owner && owner[f] == Data(id, v))
  }

  ghost predicate Placed(mem: Memory, dirs: map<int, int>, id: int, v: int, f: int) {
    id in dirs && OwnPage(id, v) && Flat(mem, dirs, id, v) != NONE && Flat(mem, dirs, id, v).frame == f
  }

  /** No two pages are mapped to the same frame, if one of them is a user page and the other memory of any space. */
  lemma FramesApart(mem: Memory, dirs: map<int, int>, owner: map<int, Owner>, id: int, v: int, j: int, u: int)
    requires DataOk(mem, dirs, owner) && id in dirs && j in dirs && id != 0 && j != 0 && OwnPage(id, v) && OwnPage(j, u)
    requires Flat(mem, dirs, id, v) != NONE && Flat(mem, dirs, j, u) != NONE && (id, v) != (j, u)
    ensures Flat(mem, dirs, id, v).frame != Flat(mem, dirs, j, u).frame
  {
    hide Flat;
  }

  /** No frame is both free and mapped as memory, be it of a user space or of the kernel. */
  lemma MappedNotFree(mem: Memory, dirs: map<int, int>, owner: map<int, Owner>, held: set<int>)
    requires DataOk(mem, dirs, owner) && FramesOk(owner, held)
    ensures forall id, v :: id in dirs && id != 0 && OwnPage(id, v) && Flat(mem, dirs, id, v) != NONE ==> Flat(mem, dirs, id, v).frame !in held
    ensures forall f :: f in owner && owner[f].Data? ==> f !in held && Placed(mem, dirs, owner[f].id, owner[f].page, f)
  {
    hide Flat, OwnPage;
    forall id, v | id in dirs && id != 0 && OwnPage(id, v) && Flat(mem, dirs, id, v) != NONE ensures Flat(mem, dirs, id, v).frame !in held {
      assert owner[Flat(mem, dirs, id, v).frame] == Data(id, v);
    }
  }

  /** The tables of user pages can be reached through the temporary page. */
  ghost predicate UserReady(mem: Memory, dirs: map<int, int>) {
    0 in dirs && forall id, v :: id in dirs && id != 0 && OwnPage(id, v) && Flat(mem, dirs, id, v) != NONE ==> Get(mem, dirs[0], TEMP_PD) != NONE
  }

  /** Owners grow by tables only. */
  ghost predicate MoreTables(owner: map<int, Owner>, owner': map<int, Owner>) {
    && (forall f :: f in owner ==> f in owner' && owner'[f] == owner[f])
    && (forall f :: f in owner' && f !in owner ==> owner'[f].Table?)
  }

  /** No frame is used as memory of pages [lo, hi) of space id. */
  ghost predicate NoData(owner: map<int, Owner>, id: int, lo: int, hi: int) {
    forall f :: f in owner && owner[f].Data? && owner[f].id == id ==> !(lo <= owner[f].page < hi)
  }

  /** Tables were added, and kernel pages that are no memory changed. */
  lemma DataKept(mem: Memory, mem': Memory, dirs: map<int, int>, owner: map<int, Owner>, owner': map<int, Owner>, lo: int, hi: int)
    requires DataOk(mem, dirs, owner) && SamePages(mem, mem', dirs, 0, lo, hi) && MoreTables(owner, owner')
    requires NoData(owner, 0, lo, hi)
    ensures DataOk(mem', dirs, owner')
  {
    hide Flat, OwnPage;
    forall f | f in owner' && owner'[f].Data? ensures Placed(mem', dirs, owner'[f].id, owner'[f].page, f) {
      assert Placed(mem, dirs, owner[f].id, owner[f].page, f);
    }
  }

  /** Frame f becomes the memory of page v. */
  lemma DataMapped(mem: Memory, mem': Memory, dirs: map<int, int>, owner: map<int, Owner>, owner': map<int, Owner>,
                   id: int, v: int, f: int)
    requires DataOk(mem, dirs, owner) && SamePages(mem, mem', dirs, id, v, v + 1) && MoreTables(owner, owner')
    requires NoData(owner, id, v, v + 1) && f !in owner' && id in dirs && OwnPage(id, v)
    requires Flat(mem', dirs, id, v) != NONE && Flat(mem', dirs, id, v).frame == f
    ensures DataOk(mem', dirs, owner'[f := Data(id, v)])
  {
    hide Flat, OwnPage;
    var owner2 := owner'[f := Data(id, v)];
    forall g | g in owner2 && owner2[g].Data? ensures Placed(mem', dirs, owner2[g].id, owner2[g].page, g) {
      if g != f {
        assert Placed(mem, dirs, owner[g].id, owner[g].page, g);
      }
    }
  }

  /** Page v is unmapped and its frame is given back. */
  lemma DataUnmapped(mem: Memory, mem': Memory, dirs: map<int, int>, owner: map<int, Owner>, owner': map<int, Owner>, id: int, v: int, f: int)
    requires DataOk(mem, dirs, owner) && SamePages(mem, mem', dirs, id, v, v + 1) && f in owner && owner[f] == Data(id, v)
    requires Flat(mem', dirs, id, v) == NONE && id in dirs && OwnPage(id, v)
    requires owner'.Keys == owner.Keys - {f} && forall g :: g in owner' ==> owner'[g] == owner[g]
    ensures DataOk(mem', dirs, owner')
  {
    hide Flat, OwnPage;
    assert Placed(mem, dirs, id, v, f);
    forall g | g in owner' && owner'[g].Data? ensures Placed(mem', dirs, owner'[g].id, owner'[g].page, g) {
      assert g in owner && g != f && Placed(mem, dirs, owner[g].id, owner[g].page, g);
    }
    forall j, u | j in dirs && j != 0 && OwnPage(j, u) && Flat(mem', dirs, j, u) != NONE
      ensures var g := Flat(mem', dirs, j, u).frame; g in owner' && owner'[g] == Data(j, u)
    {
      assert (j, u) != (id, v);
      assert Flat(mem', dirs, j, u) == Flat(mem, dirs, j, u);
      assert owner[Flat(mem, dirs, j, u).frame] == Data(j, u);
    }
  }

  // ---------- Owners with further frames ----------

  /** The invariants of the tables do not care about frames that are used as memory. */
  lemma CoreMore(mem: Memory, dirs: map<int, int>, owner: map<int, Owner>, x: int, f: int, id: int, v: int)
    requires Core(mem, dirs, owner, x) && f !in owner
    ensures Core(mem, dirs, owner[f := Data(id, v)], x)
  {
    CoreLess(mem, dirs, owner, owner[f := Data(id, v)], x);
  }

  lemma CoreLess(mem: Memory, dirs: map<int, int>, owner: map<int, Owner>, owner': map<int, Owner>, x: int)
    requires Core(mem, dirs, owner, x)
    requires forall g :: g in owner && !owner[g].Data? ==> g in owner' && owner'[g] == owner[g]
    ensures Core(mem, dirs, owner', x)
  {
    hide Get;
    forall id | id in dirs ensures dirs[id] in owner' && owner'[dirs[id]] == Directory(id) {
      var g := dirs[id];
      assert g in owner && owner[g] == Directory(id);
      assert owner[g].Directory?;
      assert !owner[g].Data?;
      assert g in owner';
    }
    forall id, pd | id in dirs && Private(id, pd) && Get(mem, dirs[id], pd) != NONE
      ensures var e := Get(mem, dirs[id], pd); TableEntry(e, id) && e.frame in owner' && owner'[e.frame] == Table(id, pd)
    {
      assert owner[Get(mem, dirs[id], pd).frame] == Table(id, pd);
    }
  }
}
