/**
  What ties segment lists to flat maps: a user page is mapped exactly when a segment
  covers it, and every page the kernel relies on is covered in the kernel's list.
 */
module SpaceRules {
  import opened PageTables
  import opened AddressSpaces
  import opened FlatMaps
  import opened Segments
  import opened SpaceSegments

  const KERNEL_HEAD: Segment := Segment(0, 0xC000_0000, 0)
  const KERNEL_TAIL: Segment := Segment(0xFFC0_0000, 0x40_0000, 3)

  function FirstOf(id: int): Segment { if id == 0 then KERNEL_HEAD else USER_HEAD }
  function LastOf(id: int): Segment { if id == 0 then KERNEL_TAIL else USER_TAIL }

  ghost predicate List(segs: seq<Segment>, id: int) {
    ListOk(segs, FirstOf(id), LastOf(id), id != 0)
  }

  ghost predicate Lists(segments: map<int, seq<Segment>>, dirs: map<int, int>) {
    forall id :: id in dirs ==> id in segments && List(segments[id], id)
  }

  /** The window of the frame stack. */
  const STACK_WINDOW: Segment := Segment(0xFF80_0000, 0x40_0000, 3)

  function LimitOf(id: int): int { if id == 0 then STACK_WINDOW.address else USER_TAIL.address }

  /** Pages [v, v + n) as a range of bytes between the fixed ends of a space, in the kernel below the frame stack. */
  predicate Between(id: int, v: int, n: int) {
    n > 0 && FirstOf(id).End() <= v * PAGE && (v + n) * PAGE <= LimitOf(id)
  }

  /**
    Only covered pages are mapped; in user spaces all pages covered between the two reserved segments are.
   */
  ghost predicate Agree(mem: Memory, dirs: map<int, int>, segments: map<int, seq<Segment>>) {
    forall id, v :: id in dirs && OwnPage(id, v) && id in segments ==>
      && (Flat(mem, dirs, id, v) != NONE ==> v >= 1 && Covered(segments[id], v * PAGE))
      && (id != 0 && v >= 1 && Covered(segments[id], v * PAGE) ==> Flat(mem, dirs, id, v) != NONE)
  }

  /** The kernel's list covers the pages of its memory, of the directories, the temporary page and the frame stack. */
  ghost predicate KernelCovers(owner: map<int, Owner>, dirs: map<int, int>, mapped: map<int, (int, int)>, segs: seq<Segment>) {
    && (forall f :: f in owner && owner[f].Data? && owner[f].id == 0 ==> Covered(segs, owner[f].page * PAGE))
    && (forall id :: id in dirs && id != 0 && id in mapped ==> Covered(segs, PageNo(mapped[id].0, mapped[id].1) * PAGE))
    && Covered(segs, TEMPORARY * PAGE) && AllCovered(segs, STACK_WINDOW.address, STACK_WINDOW.size)
  }

  /** Page v may be mapped: it is none that the kernel reserves for itself. */
  ghost predicate FreePage(dirs: map<int, int>, mapped: map<int, (int, int)>, id: int, v: int) {
    OwnPage(id, v) && (id == 0 ==> v != TEMPORARY && forall j :: j in dirs && j in mapped && j != 0 ==> mapped[j] != (Pd(v), Pt(v)))
  }

  /** Page v is mapped to a frame used as its memory. */
  ghost predicate Backed(mem: Memory, dirs: map<int, int>, owner: map<int, Owner>, id: int, v: int)
    requires id in dirs
  {
    Flat(mem, dirs, id, v) != NONE && Flat(mem, dirs, id, v).frame in owner && owner[Flat(mem, dirs, id, v).frame] == Data(id, v)
  }

  lemma BetweenOwn(id: int, v: int, n: int, u: int)
    requires Between(id, v, n) && v <= u < v + n
    ensures OwnPage(id, u) && v * PAGE <= u * PAGE < (v + n) * PAGE && u >= 1
  {
  }

  /** A page of a vacant range is not covered. */
  lemma VacantPage(segs: seq<Segment>, v: int, n: int, u: int)
    requires Vacant(segs, v * PAGE, n * PAGE) && v <= u < v + n
    ensures !Covered(segs, u * PAGE)
  {
  }

  /** The pages of a vacant range can be mapped, and none of them is memory yet. */
  lemma VacantFree(mem: Memory, dirs: map<int, int>, owner: map<int, Owner>, mapped: map<int, (int, int)>,
                   segments: map<int, seq<Segment>>, id: int, v: int, n: int)
    requires DataOk(mem, dirs, owner) && Agree(mem, dirs, segments) && id in dirs && id in segments && 0 in segments
    requires KernelCovers(owner, dirs, mapped, segments[0]) && Between(id, v, n) && Vacant(segments[id], v * PAGE, n * PAGE)
    ensures (forall u :: v <= u < v + n ==> FreePage(dirs, mapped, id, u)) && NoData(owner, id, v, v + n)
  {
    hide Flat, OwnPage, Vacant, Covered, Between, Pd, Pt, PageNo;
    forall u | v <= u < v + n ensures FreePage(dirs, mapped, id, u) {
      BetweenOwn(id, v, n, u);
      VacantPage(segments[id], v, n, u);
      PageIndex(u);
    }
    forall f | f in owner && owner[f].Data? && owner[f].id == id ensures !(v <= owner[f].page < v + n) {
      var u := owner[f].page;
      assert Placed(mem, dirs, id, u, f);
      if v <= u < v + n { VacantPage(segments[id], v, n, u); }
    }
  }

  /** Nothing is mapped in a vacant range. */
  lemma VacantUnmapped(mem: Memory, dirs: map<int, int>, segments: map<int, seq<Segment>>, id: int, v: int, n: int)
    requires Agree(mem, dirs, segments) && id in dirs && id in segments && Between(id, v, n) && Vacant(segments[id], v * PAGE, n * PAGE)
    ensures forall u :: v <= u < v + n ==> OwnPage(id, u) && Flat(mem, dirs, id, u) == NONE
  {
    hide Flat, OwnPage, Vacant, Covered, Between;
    forall u | v <= u < v + n ensures OwnPage(id, u) && Flat(mem, dirs, id, u) == NONE {
      BetweenOwn(id, v, n, u);
      VacantPage(segments[id], v, n, u);
    }
  }

  /** Memory pages are none the kernel reserves for itself. */
  lemma BackedFree(mem: Memory, dirs: map<int, int>, owner: map<int, Owner>, mapped: map<int, (int, int)>, id: int, v: int)
    requires Core(mem, dirs, owner, -1) && Windows(mem, dirs, mapped) && id in dirs && OwnPage(id, v) && Backed(mem, dirs, owner, id, v)
    requires 0 in dirs && Walk(mem, dirs[0], TEMP_PD, 0x3FF) == NONE
    ensures FreePage(dirs, mapped, id, v)
  {
    hide Walk, OwnPage, Pd, Pt, TablesOwned, Shared;
    OwnIndex(0, TEMPORARY);
    forall j | id == 0 && j in dirs && j in mapped && j != 0 ensures mapped[j] != (Pd(v), Pt(v)) {
      assert Window(mem, dirs, mapped, j);
      DirOwner(mem, dirs, owner, -1, j);
    }
  }

  /** A covered page of a user space is backed. */
  lemma CoveredBacked(mem: Memory, dirs: map<int, int>, owner: map<int, Owner>, segments: map<int, seq<Segment>>, id: int, v: int)
    requires DataOk(mem, dirs, owner) && Agree(mem, dirs, segments) && id in dirs && id != 0 && id in segments
    requires OwnPage(id, v) && v >= 1 && Covered(segments[id], v * PAGE)
    ensures Backed(mem, dirs, owner, id, v)
  {
    hide Flat, OwnPage, Covered;
  }

  // ---------- Agreement after mapping and unmapping ----------

  lemma AgreeMapped(mem: Memory, mem': Memory, dirs: map<int, int>, segments: map<int, seq<Segment>>, id: int, v: int, n: int, flags: int)
    requires Agree(mem, dirs, segments) && SamePages(mem, mem', dirs, id, v, v + n) && id in dirs && id in segments && |segments[id]| > 0
    requires Between(id, v, n) && forall u :: v <= u < v + n ==> Flat(mem', dirs, id, u) != NONE
    ensures Agree(mem', dirs, segments[id := Added(segments[id], Segment(v * PAGE, n * PAGE, flags))])
  {
    hide Flat, OwnPage, Covered, Added, Between;
    var s := Segment(v * PAGE, n * PAGE, flags);
    forall j, u | j in dirs && OwnPage(j, u) && j in segments
      ensures Flat(mem', dirs, j, u) != NONE ==> u >= 1 && Covered(segments[id := Added(segments[id], s)][j], u * PAGE)
      ensures j != 0 && u >= 1 && Covered(segments[id := Added(segments[id], s)][j], u * PAGE) ==> Flat(mem', dirs, j, u) != NONE
    {
      AddCovers(segments[id], s, u * PAGE);
      if v <= u < v + n { BetweenOwn(id, v, n, u); }
    }
  }

  lemma AgreeUnmapped(mem: Memory, mem': Memory, dirs: map<int, int>, segments: map<int, seq<Segment>>, id: int, v: int, n: int, segs: seq<Segment>)
    requires Agree(mem, dirs, segments) && SamePages(mem, mem', dirs, id, v, v + n) && id in dirs && id in segments
    requires Exact(segments[id], segs, v * PAGE, n * PAGE) && forall u :: v <= u < v + n ==> Flat(mem', dirs, id, u) == NONE
    ensures Agree(mem', dirs, segments[id := segs])
  {
    hide Flat, OwnPage, Covered;
  }

  lemma CoversMore(owner: map<int, Owner>, owner': map<int, Owner>, dirs: map<int, int>, mapped: map<int, (int, int)>,
                   segs: seq<Segment>, v: int, n: int, flags: int)
    requires KernelCovers(owner, dirs, mapped, segs) && |segs| > 0
    requires forall f :: f in owner' && owner'[f].Data? && owner'[f].id == 0 ==> (f in owner && owner[f] == owner'[f]) || v <= owner'[f].page < v + n
    ensures KernelCovers(owner', dirs, mapped, Added(segs, Segment(v * PAGE, n * PAGE, flags)))
  {
    hide Covered, Added;
    var s := Segment(v * PAGE, n * PAGE, flags);
    forall x ensures Covered(Added(segs, s), x) <==> Covered(segs, x) || v * PAGE <= x < v * PAGE + n * PAGE {
      AddCovers(segs, s, x);
    }
  }

  lemma CoversLess(owner: map<int, Owner>, owner': map<int, Owner>, dirs: map<int, int>, mapped: map<int, (int, int)>,
                   segs: seq<Segment>, segs': seq<Segment>, v: int, n: int)
    requires KernelCovers(owner, dirs, mapped, segs) && Exact(segs, segs', v * PAGE, n * PAGE) && n > 0
    requires forall f :: f in owner' && owner'[f].Data? && owner'[f].id == 0 ==> f in owner && owner[f] == owner'[f] && !(v <= owner'[f].page < v + n)
    requires forall u :: v <= u < v + n ==> FreePage(dirs, mapped, 0, u)
    requires forall j :: j in dirs && j != 0 && j in mapped ==> 0 <= mapped[j].1 < ENTRIES
    ensures KernelCovers(owner', dirs, mapped, segs')
  {
    hide Covered, Pd, Pt, PageNo, OwnPage;
    forall j | j in dirs && j != 0 && j in mapped ensures Covered(segs', PageNo(mapped[j].0, mapped[j].1) * PAGE) {
      var u := PageNo(mapped[j].0, mapped[j].1);
      IndexPage(mapped[j].0, mapped[j].1);
      assert v <= u < v + n ==> FreePage(dirs, mapped, 0, u);
    }
    assert v <= TEMPORARY < v + n ==> FreePage(dirs, mapped, 0, TEMPORARY);
    BelowStack(dirs, mapped, v + n - 1);
  }

  lemma BelowStack(dirs: map<int, int>, mapped: map<int, (int, int)>, v: int)
    requires FreePage(dirs, mapped, 0, v)
    ensures (v + 1) * PAGE <= STACK_WINDOW.address
  {
  }
}
