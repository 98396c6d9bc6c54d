/**
  The segment lists of all address spaces and the pool their descriptors come
  from.  Adding a segment may make the pool map itself one more page, which is in
  turn described by a segment of kernel space.
 */
module SegmentTables {
  import opened Segments
  import opened SegmentLists

  const PAGESIZE: int := 0x1000
  const READ_WRITE: int := 3
  const SEG_NOUNMAP: int := 0x1_0000

  ghost predicate Listed(lists: Lists, r: Ref) {
    exists h :: h in lists && r in lists[h]
  }

  ghost predicate Apart(a: seq<Ref>, b: seq<Ref>) {
    forall r :: r in a ==> r !in b
  }

  /** A whole address space: reserved segments at both ends. */
  ghost predicate Space(segs: seq<Segment>) {
    Sorted(segs) && |segs| > 1 && segs[0].address == 0 && segs[|segs| - 1].End() == TOP
  }

  ghost predicate ListOk(node: Nodes, refs: seq<Ref>, head: Ref) {
    ListRep(node, refs) && refs[0] == head && Space(Values(node, refs))
  }

  ghost predicate ListsOk(node: Nodes, lists: Lists) {
    && (forall h :: h in lists ==> ListOk(node, lists[h], h))
    && (forall g, h :: g in lists && h in lists && g != h ==> Apart(lists[g], lists[h]))
  }

  /** A slot is in use exactly when some list holds it, and then looks used to either scan of the pool. */
  ghost predicate SlotOk(node: Nodes, lists: Lists, n: nat) {
    && Slot(n) in node && (Listed(lists, Slot(n)) <==> !Zeroed(node[Slot(n)]))
    && (Listed(lists, Slot(n)) ==> node[Slot(n)].address != 0 && node[Slot(n)].size != 0)
  }

  ghost predicate PoolOk(node: Nodes, pages: nat, lists: Lists) {
    && pages > 0
    && (forall n: nat :: n < SLOTS * pages ==> SlotOk(node, lists, n))
    && (forall n: nat :: Listed(lists, Slot(n)) ==> n < SLOTS * pages)
  }

  // ---------- Changing one list ----------

  /** List `head` becomes refs' with nodes node'; descriptors outside it and `s` stay. */
  ghost predicate OnlyList(node: Nodes, node': Nodes, lists: Lists, head: Ref, s: Ref) {
    forall r :: r in node && r != s && (head in lists ==> r !in lists[head]) ==> r in node' && node'[r] == node[r]
  }

  lemma ListsUpdate(node: Nodes, node': Nodes, lists: Lists, head: Ref, refs': seq<Ref>, s: Ref)
    requires ListsOk(node, lists) && head in lists && OnlyList(node, node', lists, head, s)
    requires ListOk(node', refs', head) && !Listed(lists, s)
    requires forall r :: r in refs' ==> r == s || r in lists[head]
    ensures ListsOk(node', lists[head := refs'])
  {
    forall h | h in lists && h != head ensures ListOk(node', lists[h], h) {
      assert Apart(lists[h], lists[head]);
      ListFrame(node, node', lists[h]);
    }
    forall g, h | g in lists && h in lists && g != h ensures Apart(lists[head := refs'][g], lists[head := refs'][h]) {
      assert Apart(lists[g], lists[h]) && Apart(lists[h], lists[g]);
    }
  }

  lemma ListedInsert(lists: Lists, head: Ref, k: int, s: Ref, r: Ref)
    requires head in lists && 0 <= k <= |lists[head]|
    ensures Listed(lists[head := InsertAt(lists[head], k, s)], r) <==> r == s || Listed(lists, r)
  {
    var refs' := InsertAt(lists[head], k, s);
    var lists' := lists[head := refs'];
    InsertAtFacts(lists[head], k, s);
    hide InsertAt;
    if r == s { assert r in lists'[head]; }
    if Listed(lists, r) {
      var h :| h in lists && r in lists[h];
      assert r in lists'[h];
    }
  }

  lemma ListedDrop(lists: Lists, head: Ref, k: int, r: Ref)
    requires head in lists && Distinct(lists[head]) && 0 <= k < |lists[head]|
    requires forall h :: h in lists && h != head ==> Apart(lists[h], lists[head])
    ensures Listed(lists[head := DropRef(lists[head], k)], r) <==> r != lists[head][k] && Listed(lists, r)
  {
    var refs' := DropRef(lists[head], k);
    var lists' := lists[head := refs'];
    DropRefFacts(lists[head], k);
    hide DropRef;
    if r != lists[head][k] && Listed(lists, r) {
      var h :| h in lists && r in lists[h];
      assert r in lists'[h];
    }
    if Listed(lists', r) {
      var h :| h in lists' && r in lists'[h];
      assert r in lists[h];
      if h != head { assert Apart(lists[h], lists[head]); }
    }
  }

  // ---------- What each operation makes of the segments ----------

  /** Kernel space after the pool has mapped itself a page at the lowest gap. */
  ghost function WithPoolPage(segs: seq<Segment>): seq<Segment>
    requires |segs| > 0 && HasGap(segs, PAGESIZE)
  {
    Added(segs, Segment(segs[GapIndex(segs, PAGESIZE)].End(), PAGESIZE, READ_WRITE))
  }

  class SegmentTable {
    var node: Nodes
    var pages: nat
    const kernelFirst: Ref
    ghost var lists: Lists

    /** Lists and pool fit together, whatever the number of free slots. */
    ghost predicate Linked()
      reads this
    {
      kernelFirst in lists && ListsOk(node, lists) && PoolOk(node, pages, lists)
    }

    /** Between operations there are always two free slots: one to use, one for the page that then gets mapped. */
    ghost predicate Valid()
      reads this
    {
      Linked() && FreeSlots(node, SLOTS * pages) >= 2
    }

    ghost function Segs(head: Ref): seq<Segment>
      reads this
      requires head in lists
    {
      Values(node, lists[head])
    }

    /** Kernel space as it is set up at boot, with its empty pages of slots: the kernel has one. */
    constructor (segs: seq<Segment>, bootPages: nat)
      requires Space(segs) && bootPages > 0
      ensures Valid() && lists.Keys == {kernelFirst} && Segs(kernelFirst) == segs
      ensures pages == bootPages && FreeSlots(node, SLOTS * pages) == SLOTS * pages
    {
      kernelFirst, node, pages, lists := Own(0), BootNodes(segs, bootPages), bootPages, map[Own(0) := BootRefs(segs)];
      hide *;
      new;
      BootValid(this, segs, bootPages);
    }

    /** The segments of a new address space: the first page and everything from 3 GiB up are reserved. */
    method NewSpace(first: Ref)
      requires Valid() && first.Own? && first !in node && !Listed(lists, first)
      requires FreeSlots(node, SLOTS * pages) == 2 ==> HasGap(Segs(kernelFirst), PAGESIZE)
      modifies this
      ensures Valid() && lists.Keys == old(lists).Keys + {first}
      ensures Segs(first) == [Segment(0, PAGESIZE, SEG_NOUNMAP), Segment(0xC000_0000, TOP - 0xC000_0000, SEG_NOUNMAP)]
      ensures forall h :: h in old(lists) && h != kernelFirst ==> Values(node, lists[h]) == old(Values(node, lists[h]))
      ensures old(FreeSlots(node, SLOTS * pages)) != 2 ==> Segs(kernelFirst) == old(Segs(kernelFirst))
      ensures old(FreeSlots(node, SLOTS * pages)) == 2 ==> Segs(kernelFirst) == WithPoolPage(old(Segs(kernelFirst)))
      ensures old(FreeSlots(node, SLOTS * pages)) == 2 ==> pages == old(pages) + 1 && FreeSlots(node, SLOTS * pages) == SLOTS
      ensures old(FreeSlots(node, SLOTS * pages)) != 2 ==>
        pages == old(pages) && FreeSlots(node, SLOTS * pages) == old(FreeSlots(node, SLOTS * pages)) - 1
    {
      hide ListsOk, PoolOk, FreeSlots, Values, Added, Listed, Sorted;
      ghost var node0 := node;
      node := node[first := Node(0, PAGESIZE, SEG_NOUNMAP, Null, Null)];
      OwnAdded(node0, node, pages, lists, first);
      ghost var node1 := node;
      var s := AllocateSegment(0xC000_0000, TOP - 0xC000_0000, SEG_NOUNMAP, lists);
      // addSegment on the one-element list: the walk stops at once, and both assertions hold
      assert node[first].next == Null && node[first].address + node[first].size <= node[s].address;
      node := node[s := node[s].(prev := first, next := Null)];
      node := node[first := node[first].(next := s)];
      SpaceAdded(node0, node1, node, pages, lists, first, s);
      lists := lists[first := [first, s]];
      VerifySegmentList();
    }

    /** allocateSegment: the first free slot; the scan never falls off the last page. */
    method AllocateSegment(address: int, size: int, flags: int, ghost lists: Lists) returns (s: Ref)
      requires PoolOk(node, pages, lists) && FreeSlots(node, SLOTS * pages) > 0
      modifies this`node
      ensures s.Slot? && s.n < SLOTS * pages && s in old(node) && Zeroed(old(node)[s]) && !Listed(lists, s)
      ensures node == old(node)[s := old(node)[s].(address := address, size := size, flags := flags)]
    {
      FreeSlotExists(node, SLOTS * pages);
      var n := 0;
      assert SlotOk(node, lists, n);
      while node[Slot(n)].address != 0 && node[Slot(n)].size != 0
        invariant 0 <= n < SLOTS * pages && SlotOk(node, lists, n)
        invariant exists k :: n <= k < SLOTS * pages && Slot(k) in node && Zeroed(node[Slot(k)])
        decreases SLOTS * pages - n
      {
        n := n + 1;
        if n % SLOTS == 0 {
          assert n < SLOTS * pages;  // *nextPage != nullptr
        }
        assert SlotOk(node, lists, n);
      }
      s := Slot(n);
      node := node[s := node[s].(address := address, size := size, flags := flags)];
    }

    method FindFreeSegment(head: Ref, size: int) returns (address: int)
      requires Linked() && head in lists && size > 0 && HasGap(Segs(head), size)
      ensures address == Segs(head)[GapIndex(Segs(head), size)].End()
    {
      hide ListsOk, PoolOk, ListRep, Sorted, Values;
      ghost var refs, segs, i := lists[head], Segs(head), 0;
      ListOf(node, lists, head);
      var current := head;
      ReadHere(node, refs, 0);
      while node[node[current].next].address - (node[current].address + node[current].size) < size
        invariant 0 <= i < |refs| - 1 && current == refs[i] && i <= GapIndex(segs, size)
        invariant Here(node, refs, i)
        decreases |refs| - i
      {
        current := node[current].next;
        i := i + 1;
        ReadHere(node, refs, i);
      }
      assert Gap(segs, i) >= size;
      return node[current].address + node[current].size;
    }

    /** addSegment of a descriptor: walk to its place, check both neighbours, link it in. */
    method InsertSegment(head: Ref, s: Ref)
      requires ListsOk(node, lists) && head in lists && s != Null && s in node && !Listed(lists, s)
      requires Fresh(Segs(head), Value(node[s]))
      modifies this`node, this`lists
      ensures InsertedInto(old(node), node, old(lists), lists, head, s)
    {
      hide ListsOk, ListRep, Sorted, Values, Space, Vacant, Inserted, Listed, InsertAt;
      ghost var node0, refs, segs := node, lists[head], Segs(head);
      ghost var added := Value(node[s]);
      ListOf(node, lists, head);
      var endAddress := node[s].address + node[s].size;
      var current := head;
      ghost var k := 1;
      ReadHere(node, refs, 0);
      while node[current].next != Null && node[node[current].next].address < endAddress
        invariant 1 <= k <= InsertIndex(segs, added.End()) && current == refs[k - 1]
        invariant Here(node, refs, k - 1) && unchanged(this)
        decreases |refs| - k
      {
        current := node[current].next;
        k := k + 1;
        ReadHere(node, refs, k - 1);
      }
      assert k == InsertIndex(segs, added.End());
      FreshFits(segs, added);
      assert node[current].address + node[current].size <= node[s].address;
      assert node[current].next == Null || node[node[current].next].address >= endAddress;
      LinkIn(node, lists, head, k, s);

      node := node[s := node[s].(prev := current, next := node[current].next)];
      node := node[current := node[current].(next := s)];
      if node[s].next != Null {
        node := node[node[s].next := node[node[s].next].(prev := s)];
      }
      lists := lists[head := InsertAt(refs, k, s)];
    }

    /** Take a slot and add it: what addSegment and findAndAddNewSegment do before the pool is checked. */
    method AddNew(head: Ref, address: int, size: int, protection: int)
      requires Linked() && FreeSlots(node, SLOTS * pages) > 0 && head in lists
      requires Fresh(Segs(head), Segment(address, size, protection))
      modifies this`node, this`lists
      ensures Linked() && FreeSlots(node, SLOTS * pages) == old(FreeSlots(node, SLOTS * pages)) - 1 && node.Keys == old(node).Keys
      ensures AddedTo(old(node), node, old(lists), lists, head, Segment(address, size, protection))
    {
      hide ListsOk, PoolOk, Sorted, Values, Listed, InsertedInto, FreeSlots, AddedTo;
      ghost var node0, lists0 := node, lists;
      ListOf(node, lists, head);
      FreshNonzero(Segs(head), Segment(address, size, protection));
      var s := AllocateSegment(address, size, protection, lists);
      ghost var node1 := node;
      FillFrame(node0, node1, lists, s);
      InsertSegment(head, s);
      PoolFilled(node0, node, pages, lists0, lists, head, s, node1);
      FillThenInsert(node0, node1, node, lists0, lists, head, s, Segment(address, size, protection));
    }

    /** verifySegmentList: count the free slots and, at one, use it for one more page of slots. */
    method VerifySegmentList()
      requires Linked() && FreeSlots(node, SLOTS * pages) >= 1
      requires FreeSlots(node, SLOTS * pages) == 1 ==> HasGap(Segs(kernelFirst), PAGESIZE)
      modifies this
      ensures Valid()
      ensures old(FreeSlots(node, SLOTS * pages)) != 1 ==> node == old(node) && pages == old(pages) && lists == old(lists)
      ensures old(FreeSlots(node, SLOTS * pages)) == 1 ==>
                (var segs := old(Segs(kernelFirst));
                 var page := Segment(segs[GapIndex(segs, PAGESIZE)].End(), PAGESIZE, READ_WRITE);
                 AddedTo(old(node), node, old(lists), lists, kernelFirst, page) && pages == old(pages) + 1
                 && FreeSlots(node, SLOTS * pages) == SLOTS)
    {
      hide ListsOk, Sorted, Values, InsertedInto, AddedTo;
      var freeSegmentSpaceFound := 0;
      var freeSegment := Null;
      var n := 0;
      while true
        invariant 0 <= n < SLOTS * pages && unchanged(this)
        invariant freeSegmentSpaceFound == FreeSlots(node, n)
        invariant freeSegmentSpaceFound > 0 ==> freeSegment.Slot? && freeSegment.n < n && freeSegment in node && Zeroed(node[freeSegment])
        decreases SLOTS * pages - n
      {
        assert SlotOk(node, lists, n);
        if node[Slot(n)].address == 0 && node[Slot(n)].size == 0 {
          freeSegment := Slot(n);
          freeSegmentSpaceFound := freeSegmentSpaceFound + 1;
        }
        n := n + 1;
        if n % SLOTS == 0 && n == SLOTS * pages {
          break;  // the last page names no next one
        }
      }
      if freeSegmentSpaceFound == 1 {
        ListOf(node, lists, kernelFirst);
        GapFresh(Segs(kernelFirst), PAGESIZE, READ_WRITE);
        var address := FindFreeSegment(kernelFirst, PAGESIZE);
        ghost var node0, lists0 := node, lists;
        MapPage(freeSegment);
        ghost var node1 := node;
        AddPage(freeSegment, address);
        AddedToFrame(node0, node1, node, lists0, lists, kernelFirst, Segment(address, PAGESIZE, READ_WRITE));
      }
    }

    /** The page just mapped behind the last one: all its slots are zeroed. */
    method MapPage(ghost free: Ref)
      requires Linked() && FreeSlots(node, SLOTS * pages) == 1
      requires free.Slot? && free.n < SLOTS * pages && free in node && Zeroed(node[free])
      modifies this`node, this`pages
      ensures Linked() && pages == old(pages) + 1 && FreeSlots(node, SLOTS * pages) == 1 + SLOTS
      ensures free in node && node[free] == old(node)[free]
      ensures forall h :: h in lists ==> Values(node, lists[h]) == Values(old(node), lists[h])
    {
      hide ListsOk, PoolOk, FreeSlots, Values;
      ghost var node0 := node;
      node := node + map n: nat | SLOTS * pages <= n < SLOTS * (pages + 1) :: Slot(n) := ZERO;
      PageMapped(node0, node, pages, lists);
      pages := pages + 1;
    }

    /** The last free slot of the old pages describes the new one. */
    method AddPage(freeSegment: Ref, address: int)
      requires Linked() && FreeSlots(node, SLOTS * pages) > 0
      requires freeSegment.Slot? && freeSegment.n < SLOTS * pages && freeSegment in node && Zeroed(node[freeSegment])
      requires Fresh(Segs(kernelFirst), Segment(address, PAGESIZE, READ_WRITE))
      modifies this`node, this`lists
      ensures Linked() && FreeSlots(node, SLOTS * pages) == old(FreeSlots(node, SLOTS * pages)) - 1
      ensures AddedTo(old(node), node, old(lists), lists, kernelFirst, Segment(address, PAGESIZE, READ_WRITE))
    {
      hide ListsOk, PoolOk, Sorted, Values, Listed, InsertedInto, FreeSlots, AddedTo;
      ghost var node0, lists0 := node, lists;
      ListOf(node, lists, kernelFirst);
      UnlistedZero(node, pages, lists, freeSegment.n);
      node := node[freeSegment := node[freeSegment].(address := address, size := PAGESIZE, flags := READ_WRITE)];
      ghost var node1 := node;
      FillFrame(node0, node1, lists, freeSegment);
      FreshNonzero(Segs(kernelFirst), Segment(address, PAGESIZE, READ_WRITE));
      InsertSegment(kernelFirst, freeSegment);
      PoolFilled(node0, node, pages, lists0, lists, kernelFirst, freeSegment, node1);
      FillThenInsert(node0, node1, node, lists0, lists, kernelFirst, freeSegment, Segment(address, PAGESIZE, READ_WRITE));
    }

    /** addSegment. */
    method AddSegment(head: Ref, address: int, size: int, protection: int)
      requires Valid() && head in lists && Fresh(Segs(head), Segment(address, size, protection))
      requires PoolCanGrow(node, lists, pages, kernelFirst, head, Segment(address, size, protection))
      modifies this
      ensures Valid()
      ensures AfterAdd(old(node), node, old(lists), lists, old(pages), kernelFirst, head, Segment(address, size, protection))
      ensures old(FreeSlots(node, SLOTS * pages)) == 2 ==> pages == old(pages) + 1 && FreeSlots(node, SLOTS * pages) == SLOTS
      ensures old(FreeSlots(node, SLOTS * pages)) != 2 ==>
        pages == old(pages) && node.Keys == old(node).Keys && FreeSlots(node, SLOTS * pages) == old(FreeSlots(node, SLOTS * pages)) - 1
    {
      hide ListsOk, PoolOk, Sorted, Values, Space, FreeSlots, Fresh, AddedTo, AfterAdd;
      ghost var node0, lists0, segment := node, lists, Segment(address, size, protection);
      KernelAfter(node, lists, kernelFirst, head, segment);
      AddNew(head, address, size, protection);
      ghost var node1, lists1 := node, lists;
      AddedKernel(node0, node1, lists0, lists1, kernelFirst, head, segment);
      VerifySegmentList();
      AddThenVerify(node0, node1, node, lists0, lists1, lists, old(pages), kernelFirst, head, segment);
    }

    /** findAndAddNewSegment: the same at the lowest gap that fits. */
    method FindAndAddNewSegment(head: Ref, size: int, protection: int) returns (address: int)
      requires Valid() && head in lists && size > 0 && HasGap(Segs(head), size)
      requires PoolCanGrow(node, lists, pages, kernelFirst, head, Segment(Segs(head)[GapIndex(Segs(head), size)].End(), size, protection))
      modifies this
      ensures Valid()
      ensures address == old(Segs(head)[GapIndex(Segs(head), size)].End())
      ensures AfterAdd(old(node), node, old(lists), lists, old(pages), kernelFirst, head, Segment(address, size, protection))
      ensures old(FreeSlots(node, SLOTS * pages)) == 2 ==> pages == old(pages) + 1 && FreeSlots(node, SLOTS * pages) == SLOTS
      ensures old(FreeSlots(node, SLOTS * pages)) != 2 ==>
        pages == old(pages) && node.Keys == old(node).Keys && FreeSlots(node, SLOTS * pages) == old(FreeSlots(node, SLOTS * pages)) - 1
    {
      hide ListsOk, PoolOk, Sorted, Values, FreeSlots, Fresh, AddedTo, AfterAdd, HasGap, GapIndex, Proper, ListRep;
      ListOf(node, lists, head);
      GapFresh(Segs(head), size, protection);
      address := FindFreeSegment(head, size);
      ghost var node0, lists0, segment := node, lists, Segment(address, size, protection);
      KernelAfter(node, lists, kernelFirst, head, segment);
      AddNew(head, address, size, protection);
      ghost var node1, lists1 := node, lists;
      AddedKernel(node0, node1, lists0, lists1, kernelFirst, head, segment);
      VerifySegmentList();
      AddThenVerify(node0, node1, node, lists0, lists1, lists, old(pages), kernelFirst, head, segment);
    }

    /** The branch that removes the current segment whole, and deallocates its descriptor. */
    method RemoveWhole(current: Ref, address: int, size: int, ghost head: Ref, ghost refs: seq<Ref>, ghost i: int, ghost node0: Nodes)
      returns (next: Ref, left: int)
      requires Cursor(node0, node, pages, lists, head, refs, i, address, size) && current == refs[i]
      requires BranchOf(Values(node, refs)[i], address, size) == Whole
      modifies this`node
      ensures var segs := Values(old(node), refs); var c := segs[i];
              (left == Deduct(size - c.size, Wrap(segs[i + 1].address - c.End()))
               && Values(node, DropRef(refs, i)) == Drop(segs, i) && next == refs[i + 1]
               && Kept(node0, node, pages, lists, head, DropRef(refs, i)))
    {
      hide ListRep, PoolOk, Kept, Values, Unlinked, DropRef, Drop, Suffix;
      ghost var node1 := node;
      CursorReads(node0, node, pages, lists, head, refs, i, address, size);
      next := node[current].next;
      left := Deduct(size - node[current].size, Wrap(node[next].address - (node[current].address + node[current].size)));
      if next != Null {
        node := node[next := node[next].(prev := node[current].prev)];
      }
      if node[current].prev != Null {
        node := node[node[current].prev := node[node[current].prev].(next := next)];
      }
      node := node[current := ZERO];
      WholeRemoved(node0, node1, node, pages, lists, head, refs, i);
    }

    /** The branches that shorten the current segment, at its front or at its tail. */
    method Trim(current: Ref, address: int, size: int, ghost head: Ref, ghost refs: seq<Ref>, ghost i: int, ghost node0: Nodes)
      returns (address': int, left: int)
      requires Cursor(node0, node, pages, lists, head, refs, i, address, size) && current == refs[i]
      requires BranchOf(Values(node, refs)[i], address, size) in {Front, Tail}
      modifies this`node
      ensures var segs := Values(old(node), refs); var c, diff := segs[i], segs[i].End() - address;
              var front := BranchOf(c, address, size) == Front;
              var c' := if front then Segment(c.address + size, c.size - size, c.flags) else c.(size := Wrap(c.size - diff));
              (Values(node, refs) == segs[i := c'] && Kept(node0, node, pages, lists, head, refs)
               && (front ==> left == 0)
               && (!front ==> address' == c.End() && left == Deduct(size - diff, Wrap(segs[i + 1].address - c'.End()))))
    {
      hide ListRep, PoolOk, Kept, Values;
      ghost var node1 := node;
      CursorReads(node0, node, pages, lists, head, refs, i, address, size);
      TrimSizes(Values(node, refs), i, address, size);
      if node[current].address == address {
        node := node[current := node[current].(address := node[current].address + size, size := node[current].size - size)];
        address', left := address, 0;
      } else {
        var diff := node[current].address + node[current].size - address;
        node := node[current := node[current].(size := Wrap(node[current].size - diff))];
        left := size - diff;
        address' := address + diff;
      }
      Revalued(node0, node1, node, pages, lists, head, refs, i);
      KeptHere(node0, node, pages, lists, head, refs, i);
      left := Deduct(left, Wrap(node[node[current].next].address - (node[current].address + node[current].size)));
    }

    /** The branch that splits the current segment: the new descriptor is linked in on one side only. */
    method Split(current: Ref, address: int, size: int, ghost head: Ref, ghost refs: seq<Ref>, ghost i: int, ghost node0: Nodes)
      returns (left: int, ghost refs': seq<Ref>)
      requires Cursor(node0, node, pages, lists, head, refs, i, address, size) && current == refs[i]
      requires FreeSlots(node0, SLOTS * pages) > 0
      requires BranchOf(Values(node, refs)[i], address, size) == Inner
      modifies this`node
      ensures var segs := Values(old(node), refs); var c := segs[i]; var first := Wrap(address - c.address);
              Values(node, refs') == segs[..i] + [c.(size := first), Segment(address + size, Wrap(c.size - first - size), c.flags)] + segs[i + 1..]
      ensures left == 0 && !ListRep(node, refs')
    {
      hide ListRep, PoolOk, Values, Suffix;
      ghost var node1 := node;
      CursorReads(node0, node, pages, lists, head, refs, i, address, size);
      var firstSize := Wrap(address - node[current].address);
      var secondSize := Wrap(node[current].size - firstSize - size);
      var s := AllocateSegment(address + size, secondSize, node[current].flags, lists[head := refs]);
      NotListed(lists[head := refs], head, s);
      node := node[s := node[s].(prev := current)];
      node := node[s := node[s].(next := node[current].next)];
      node := node[current := node[current].(next := s)];
      node := node[current := node[current].(size := firstSize)];
      refs' := InsertAt(refs, i + 1, s);
      SplitValues(node1, node, refs, i, s, Segment(address + size, secondSize, node1[current].flags), firstSize);
      SplitFree(Values(node1, refs), i, address, size);
      left := Deduct(size, Wrap(node[node[current].next].address - (node[current].address + node[current].size)));
    }

    /** removeSegment's walk to the first segment that ends beyond the address. */
    method FindStart(head: Ref, address: int, ghost size: int) returns (current: Ref, ghost i: int)
      requires ListsOk(node, lists) && head in lists && Removable(Segs(head), address, size)
      ensures i == StartIndex(Segs(head), address) && current == lists[head][i]
    {
      hide ListsOk, ListRep, Sorted, Values;
      ghost var refs := lists[head];
      ListOf(node, lists, head);
      ReadHere(node, refs, 0);
      RemovableEnd(Segs(head), address, size);
      current, i := head, 0;
      while node[current].address + node[current].size <= address
        invariant 0 <= i <= StartIndex(Segs(head), address) && i < |refs| && current == refs[i] && Here(node, refs, i)
        decreases |refs| - i
      {
        current := node[current].next;
        i := i + 1;
        ReadHere(node, refs, i);
      }
    }

    /**
      removeSegment's loop, for every range between the first and the last segment: the values end up as
      Segments.Removed says, and the links are right again unless a segment was split.
     */
    method RemoveRange(head: Ref, start: int, length: int) returns (ghost refs': seq<Ref>)
      requires Linked() && FreeSlots(node, SLOTS * pages) > 0 && head in lists && Removable(Segs(head), start, length)
      modifies this`node
      ensures Values(node, refs') == Removed(old(Segs(head)), start, length)
      ensures ListRep(node, refs') <==> !Splits(old(Segs(head)), start, length)
      ensures !Splits(old(Segs(head)), start, length) ==> Kept(old(node), node, pages, lists, head, refs')
      ensures forall k :: IsSegment(old(Segs(head)), k, start, length) ==> Without(lists[head], refs', k)
    {
      hide ListsOk, PoolOk, ListRep, Sorted, Values, FreeSlots, RemoveFrom, SplitsFrom, Suffix, Removable, Kept;
      ghost var node0, segs := node, Segs(head);
      refs' := lists[head];
      var address, size := start, length;
      StartLoop(node, pages, lists, head, start, length);
      var currentSegment, i := FindStart(head, start, length);
      RemovedIs(segs, i, start, length);
      ghost var refs, first := refs', i;
      StartsAt(segs, start, length);
      while size != 0
        invariant 0 <= i
        invariant IsSegment(segs, first, start, length) ==>
          if size != 0 then i == first && address == start && size == length && refs' == refs && Values(node, refs') == segs else Without(refs, refs', first)
        invariant size != 0 ==> Cursor(node0, node, pages, lists, head, refs', i, address, size) && i < |refs'| && currentSegment == refs'[i]
        invariant size != 0 ==> RemoveFrom(Values(node, refs'), i, address, size) == Removed(segs, start, length)
        invariant size != 0 ==> (SplitsFrom(Values(node, refs'), i, address, size) <==> Splits(segs, start, length))
        invariant size == 0 ==> Values(node, refs') == Removed(segs, start, length)
        invariant size == 0 ==> (ListRep(node, refs') <==> !Splits(segs, start, length))
        invariant size == 0 && !Splits(segs, start, length) ==> Kept(node0, node, pages, lists, head, refs')
        decreases if size == 0 then 0 else |refs'| - i
      {
        CursorReads(node0, node, pages, lists, head, refs', i, address, size);
        ghost var values := Values(node, refs');
        LoopStep(values, i, address, size);
        if node[currentSegment].address == address && node[currentSegment].size <= size {
          var end := node[currentSegment].address + node[currentSegment].size;
          currentSegment, size := RemoveWhole(currentSegment, address, size, head, refs', i, node0);
          address := end;
          DropRefFacts(refs', i);
          refs' := DropRef(refs', i);
          KeptList(node0, node, pages, lists, head, refs');
          RemoveNothing(Values(node, refs'), i, address, 0);
        } else if node[currentSegment].address == address || node[currentSegment].address + node[currentSegment].size < address + size {
          address, size := Trim(currentSegment, address, size, head, refs', i, node0);
          KeptHere(node0, node, pages, lists, head, refs', i);
          currentSegment := node[currentSegment].next;
          i := i + 1;
          KeptList(node0, node, pages, lists, head, refs');
          RemoveNothing(Values(node, refs'), i, address, 0);
        } else {
          size, refs' := Split(currentSegment, address, size, head, refs', i, node0);
        }
      }
    }

    /** removeSegment of a range that starts at a segment and has no gap before another segment of it. */
    method RemoveSegment(head: Ref, address: int, size: int)
      requires Valid() && head in lists && Removable(Segs(head), address, size) && Clean(Segs(head), address, size)
      modifies this
      ensures Valid() && head in lists && Segs(head) == Removed(old(Segs(head)), address, size)
      ensures Exact(old(Segs(head)), Segs(head), address, size)
      ensures lists.Keys == old(lists).Keys && pages == old(pages)
      ensures FreeSlots(node, SLOTS * pages) >= old(FreeSlots(node, SLOTS * pages))
      ensures forall h :: h in old(lists) && h != head ==> lists[h] == old(lists[h]) && Values(node, lists[h]) == old(Values(node, lists[h]))
      ensures forall k :: IsSegment(old(Segs(head)), k, address, size) ==> Without(old(lists[head]), lists[head], k)
    {
      hide ListsOk, PoolOk, Values, Removable, FreeSlots, Kept, Exact, ListRep, RemoveFrom, SplitsFrom, CleanAt, Sorted;
      ghost var node0, lists0 := node, lists;
      ListOf(node, lists, head);
      RemovedSpace(Segs(head), address, size);
      var refs' := RemoveRange(head, address, size);
      KeptLists(node0, node, pages, lists, head, refs');
      lists := lists[head := refs'];
      VerifySegmentList();
    }
  }

  // ---------- Removal on the lists ----------

  /** What the loop of removeSegment keeps of the lists and the pool while list `head` shrinks to `refs`. */
  ghost predicate Kept(node0: Nodes, node: Nodes, pages: nat, lists: Lists, head: Ref, refs: seq<Ref>) {
    && head in lists && ListRep(node, refs) && refs[0] == head
    && PoolOk(node, pages, lists[head := refs])
    && FreeSlots(node, SLOTS * pages) >= FreeSlots(node0, SLOTS * pages)
    && (forall r :: r in refs ==> r in lists[head])
    && (forall h :: h in lists && h != head ==> SameNodes(node0, node, lists[h]) && Apart(lists[h], lists[head]))
  }

  /** A loop state with bytes left to remove. */
  ghost predicate Cursor(node0: Nodes, node: Nodes, pages: nat, lists: Lists, head: Ref, refs: seq<Ref>, i: int, address: int, size: int) {
    Kept(node0, node, pages, lists, head, refs) && Suffix(Values(node, refs), i, address, size)
  }

  /** From segment i on the list is in order, and the rest of the range ends below the last segment. */
  ghost predicate Suffix(segs: seq<Segment>, i: int, address: int, size: int) {
    && 0 < i < |segs| - 1 && 0 < segs[i].address && 0 < size && 0 < address < segs[i].End() && address + size <= segs[|segs| - 1].address
    && (forall k :: i <= k < |segs| ==> Proper(segs[k]))
    && (forall k :: i <= k < |segs| - 1 ==> segs[k].End() <= segs[k + 1].address)
  }

  lemma CursorReads(node0: Nodes, node: Nodes, pages: nat, lists: Lists, head: Ref, refs: seq<Ref>, i: int, address: int, size: int)
    requires Cursor(node0, node, pages, lists, head, refs, i, address, size)
    ensures 0 < i < |refs| - 1 && Here(node, refs, i) && ListRep(node, refs) && Distinct(refs)
  {
    ReadHere(node, refs, i);
  }

  lemma WholeRemoved(node0: Nodes, node: Nodes, node': Nodes, pages: nat, lists: Lists, head: Ref, refs: seq<Ref>, i: int)
    requires Kept(node0, node, pages, lists, head, refs) && 0 < i < |refs| - 1
    requires Here(node, refs, i)
    requires refs[i - 1] in node && refs[i + 1] in node && node' == Bypassed(node, refs, i)
    ensures Kept(node0, node', pages, lists, head, DropRef(refs, i))
    ensures Values(node', DropRef(refs, i)) == Drop(Values(node, refs), i)
  {
    assert Distinct(refs);
    BypassedFacts(node, refs, i);
    UnlinkRep(node, node', refs, i);
    DropRefFacts(refs, i);
    hide DropRef, Bypassed, ListRep, PoolOk, Values;
    var lists1 := lists[head := refs];
    forall h | h in lists1 && h != head ensures Apart(lists1[h], lists1[head]) {
      assert Apart(lists[h], lists[head]);
    }
    forall r ensures Listed(lists[head := DropRef(refs, i)], r) <==> r != refs[i] && Listed(lists1, r) {
      ListedDrop(lists1, head, i, r);
      assert lists1[head := DropRef(refs, i)] == lists[head := DropRef(refs, i)];
    }
    PoolFreed(node, node', pages, lists1, lists[head := DropRef(refs, i)], refs[i]);
    BypassedOthers(node0, node, node', lists, head, refs, i);
  }

  lemma TrimSizes(segs: seq<Segment>, i: int, address: int, size: int)
    requires Suffix(segs, i, address, size) && BranchOf(segs[i], address, size) in {Front, Tail}
    ensures Proper(segs[i]) && segs[i].address > 0 && segs[i].End() <= segs[i + 1].address
    ensures segs[i].address == address <==> BranchOf(segs[i], address, size) == Front
    ensures segs[i].address == address ==> segs[i].size > size && size > 0
    ensures segs[i].address != address ==> Wrap(segs[i].size - (segs[i].End() - address)) != 0
  {
    assert Proper(segs[i]);
    assert segs[i].size - (segs[i].End() - address) == address - segs[i].address;
    assert -TOP < address - segs[i].address < TOP;
  }

  lemma Revalued(node0: Nodes, node: Nodes, node': Nodes, pages: nat, lists: Lists, head: Ref, refs: seq<Ref>, i: int)
    requires Kept(node0, node, pages, lists, head, refs) && 0 <= i < |refs| && refs[i] in node && refs[i] in node'
    requires var n, n' := node[refs[i]], node'[refs[i]];
             node' == node[refs[i] := n.(address := n'.address, size := n'.size)] && n'.address != 0 && n'.size != 0
    requires node[refs[i]].size != 0
    ensures Kept(node0, node', pages, lists, head, refs)
    ensures Values(node', refs) == Values(node, refs)[i := Value(node'[refs[i]])]
  {
    var c := refs[i];
    ListRevalue(node, refs, i, node'[c].address, node'[c].size);
    hide ListRep, Values;
    var lists1 := lists[head := refs];
    assert Listed(lists1, c) by { assert c in lists1[head]; }
    forall n: nat | n < SLOTS * pages ensures SlotOk(node', lists1, n) {
      assert SlotOk(node, lists1, n);
    }
    FreeSlotsFrame(node, node', SLOTS * pages);
    RevaluedOthers(node0, node, node', lists, head, refs, c);
  }

  lemma RevaluedOthers(node0: Nodes, node: Nodes, node': Nodes, lists: Lists, head: Ref, refs: seq<Ref>, c: Ref)
    requires head in lists && c in refs && (forall r :: r in refs ==> r in lists[head])
    requires forall h :: h in lists && h != head ==> SameNodes(node0, node, lists[h]) && Apart(lists[h], lists[head])
    requires forall r :: r in node && r != c ==> r in node' && node'[r] == node[r]
    ensures forall h :: h in lists && h != head ==> SameNodes(node0, node', lists[h])
  {
  }

  lemma KeptHere(node0: Nodes, node: Nodes, pages: nat, lists: Lists, head: Ref, refs: seq<Ref>, i: int)
    requires Kept(node0, node, pages, lists, head, refs) && 0 <= i < |refs|
    ensures Here(node, refs, i)
  {
    ReadHere(node, refs, i);
  }

  lemma StartLoop(node: Nodes, pages: nat, lists: Lists, head: Ref, address: int, size: int)
    requires ListsOk(node, lists) && PoolOk(node, pages, lists) && head in lists && Removable(Values(node, lists[head]), address, size)
    ensures var refs := lists[head]; var segs := Values(node, refs); |segs| > 0 && segs[|segs| - 1].End() > address
    ensures var refs := lists[head]; var segs := Values(node, refs); var i := StartIndex(segs, address);
            refs[0] == head && Here(node, refs, 0) && Cursor(node, node, pages, lists, head, refs, i, address, size) && ListRep(node, refs)
  {
    var refs := lists[head];
    var segs := Values(node, refs);
    ListOf(node, lists, head);
    ReadHere(node, refs, 0);
    StartRemoving(segs, address, size);
    assert lists[head := refs] == lists;
    assert StartIndex(segs, address) > 0;
    assert Proper(segs[0]);
    assert segs[0].End() <= segs[StartIndex(segs, address)].address;
  }

  lemma RemovableEnd(segs: seq<Segment>, address: int, size: int)
    requires Removable(segs, address, size)
    ensures |segs| > 0 && segs[|segs| - 1].End() > address
  {
    assert Proper(segs[|segs| - 1]);
  }

  lemma StartsAt(segs: seq<Segment>, address: int, size: int)
    requires Removable(segs, address, size)
    ensures forall k :: IsSegment(segs, k, address, size) ==> k == StartIndex(segs, address)
  {
    forall k | IsSegment(segs, k, address, size) ensures k == StartIndex(segs, address) {
      var i := StartIndex(segs, address);
      assert Proper(segs[i]) && Proper(segs[k]);
    }
  }

  lemma RemovedIs(segs: seq<Segment>, i: int, address: int, size: int)
    requires Removable(segs, address, size) && i == StartIndex(segs, address)
    ensures Removed(segs, address, size) == RemoveFrom(segs, i, address, size)
    ensures Splits(segs, address, size) == SplitsFrom(segs, i, address, size) && size > 0
  {
  }

  lemma KeptList(node0: Nodes, node: Nodes, pages: nat, lists: Lists, head: Ref, refs: seq<Ref>)
    requires Kept(node0, node, pages, lists, head, refs)
    ensures ListRep(node, refs)
  {
  }

  /** One iteration of the loop on the values, branch by branch. */
  lemma LoopStep(segs: seq<Segment>, i: int, address: int, size: int)
    requires Suffix(segs, i, address, size)
    ensures var c, next := segs[i], segs[i + 1];
            match BranchOf(c, address, size)
            case Whole => (var left := Deduct(size - c.size, Wrap(next.address - c.End()));
                           && RemoveFrom(segs, i, address, size) == RemoveFrom(Drop(segs, i), i, c.End(), left)
                           && SplitsFrom(segs, i, address, size) == SplitsFrom(Drop(segs, i), i, c.End(), left)
                           && left >= 0 && (left > 0 ==> Suffix(Drop(segs, i), i, c.End(), left)))
            case Front => (&& RemoveFrom(segs, i, address, size) == segs[i := Segment(c.address + size, c.size - size, c.flags)]
                           && !SplitsFrom(segs, i, address, size))
            case Tail => (var diff := c.End() - address;
                          var c' := c.(size := Wrap(c.size - diff));
                          var left := Deduct(size - diff, Wrap(next.address - c'.End()));
                          && RemoveFrom(segs, i, address, size) == RemoveFrom(segs[i := c'], i + 1, c.End(), left)
                          && SplitsFrom(segs, i, address, size) == SplitsFrom(segs[i := c'], i + 1, c.End(), left)
                          && left >= 0 && (left > 0 ==> Suffix(segs[i := c'], i + 1, c.End(), left)))
            case Inner => (var first := Wrap(address - c.address);
                           && RemoveFrom(segs, i, address, size) ==
                              segs[..i] + [c.(size := first), Segment(address + size, Wrap(c.size - first - size), c.flags)] + segs[i + 1..]
                           && SplitsFrom(segs, i, address, size))
  {
    hide Suffix, RemoveFrom, SplitsFrom, Wrap, Drop, Deduct;
    SuffixBounds(segs, i, address, size);
    match BranchOf(segs[i], address, size)
    case Whole =>
      RemoveStepWhole(segs, i, address, size);
      SuffixWhole(segs, i, address, size);
    case Front => RemoveStepLast(segs, i, address, size);
    case Tail =>
      RemoveStepTail(segs, i, address, size);
      SuffixTail(segs, i, address, size);
    case Inner => RemoveStepLast(segs, i, address, size);
  }

  lemma SuffixBounds(segs: seq<Segment>, i: int, address: int, size: int)
    requires Suffix(segs, i, address, size)
    ensures 0 < i < |segs| - 1 && 0 < size
  {
  }

  lemma SuffixWhole(segs: seq<Segment>, i: int, address: int, size: int)
    requires Suffix(segs, i, address, size) && BranchOf(segs[i], address, size) == Whole
    ensures var c := segs[i]; var left := Deduct(size - c.size, Wrap(segs[i + 1].address - c.End()));
            left >= 0 && (left > 0 ==> Suffix(Drop(segs, i), i, c.End(), left))
  {
    DropAt(segs, i);
    hide Drop;
    var c, next := segs[i], segs[i + 1];
    assert Proper(c) && Proper(next) && c.End() <= next.address;
    assert Drop(segs, i)[|segs| - 2] == segs[|segs| - 1];
  }

  lemma SuffixTail(segs: seq<Segment>, i: int, address: int, size: int)
    requires Suffix(segs, i, address, size) && BranchOf(segs[i], address, size) == Tail
    ensures var c := segs[i]; var diff := c.End() - address; var c' := c.(size := Wrap(c.size - diff));
            var left := Deduct(size - diff, Wrap(segs[i + 1].address - c'.End()));
            left >= 0 && (left > 0 ==> Suffix(segs[i := c'], i + 1, c.End(), left))
  {
    var c, next := segs[i], segs[i + 1];
    assert Proper(c) && Proper(next) && c.End() <= next.address;
    var diff := c.End() - address;
    assert c.size - diff == address - c.address && -TOP < address - c.address < TOP;
    var c' := c.(size := Wrap(c.size - diff));
    assert Wrap(next.address - c'.End()) == next.address - address;
    assert forall k :: i + 1 <= k < |segs| ==> segs[i := c'][k] == segs[k];
  }

  lemma {:induction false} LastStays(segs: seq<Segment>, i: int, address: int, size: int)
    requires 0 <= i < |segs| - 1 && 0 <= size
    ensures var done := RemoveFrom(segs, i, address, size); done != [] && done[|done| - 1] == segs[|segs| - 1]
    decreases |segs| - i, 0
  {
    hide Wrap, RemoveFrom, SplitsFrom, Drop;
    if size > 0 {
      var c, next := segs[i], segs[i + 1];
      match BranchOf(c, address, size)
      case Whole =>
        DropAt(segs, i);
        RemoveStepWhole(segs, i, address, size);
        LastOf(Drop(segs, i), i, c.End(), Deduct(size - c.size, Wrap(next.address - c.End())));
      case Tail =>
        var c' := c.(size := Wrap(c.size - (c.End() - address)));
        RemoveStepTail(segs, i, address, size);
        LastOf(segs[i := c'], i + 1, c.End(), Deduct(size - (c.End() - address), Wrap(next.address - c'.End())));
      case _ =>
        RemoveStepLast(segs, i, address, size);
    } else {
      RemoveNothing(segs, i, address, 0);
    }
  }

  lemma {:induction false} LastOf(segs: seq<Segment>, i: int, address: int, size: int)
    requires 0 <= i < |segs| && 0 <= size
    ensures var done := RemoveFrom(segs, i, address, size); done != [] && done[|done| - 1] == segs[|segs| - 1]
    decreases |segs| - i, 1
  {
    if i < |segs| - 1 { LastStays(segs, i, address, size); }
  }

  lemma RemovedSpace(segs: seq<Segment>, address: int, size: int)
    requires Space(segs) && Removable(segs, address, size) && Clean(segs, address, size)
    ensures Space(Removed(segs, address, size)) && Exact(segs, Removed(segs, address, size), address, size)
    ensures !Splits(segs, address, size)
  {
    var i := StartIndex(segs, address);
    StartRemoving(segs, address, size);
    RemoveFromStart(segs, address, size);
    PrefixStays(segs, i, address, size, 0);
    LastStays(segs, i, address, size);
  }

  lemma KeptLists(node0: Nodes, node: Nodes, pages: nat, lists: Lists, head: Ref, refs: seq<Ref>)
    requires ListsOk(node0, lists) && Kept(node0, node, pages, lists, head, refs) && Space(Values(node, refs))
    ensures ListsOk(node, lists[head := refs]) && PoolOk(node, pages, lists[head := refs])
    ensures FreeSlots(node, SLOTS * pages) >= FreeSlots(node0, SLOTS * pages)
    ensures forall h :: h in lists && h != head ==> Values(node, lists[h]) == Values(node0, lists[h])
  {
    forall h | h in lists && h != head ensures ListOk(node, lists[h], h) && Values(node, lists[h]) == Values(node0, lists[h]) {
      assert ListOk(node0, lists[h], h);
      ListFrame(node0, node, lists[h]);
    }
    forall g, h | g in lists && h in lists && g != h ensures Apart(lists[head := refs][g], lists[head := refs][h]) {
      assert Apart(lists[g], lists[h]) && Apart(lists[h], lists[g]);
    }
  }

  lemma SplitValues(node: Nodes, node': Nodes, refs: seq<Ref>, i: int, s: Ref, added: Segment, first: int)
    requires ListRep(node, refs) && 0 <= i < |refs| - 1 && refs[i] in node && refs[i] in node' && s in node' && s !in refs && s != Null
    requires forall r :: r in node && r != s && r != refs[i] ==> r in node' && node'[r] == node[r]
    requires Value(node'[s]) == added && Value(node'[refs[i]]) == Value(node[refs[i]]).(size := first)
    ensures var segs := Values(node, refs);
            Values(node', InsertAt(refs, i + 1, s)) == segs[..i] + [segs[i].(size := first), added] + segs[i + 1..]
    ensures !ListRep(node', InsertAt(refs, i + 1, s))
  {
    var refs', segs := InsertAt(refs, i + 1, s), Values(node, refs);
    var out := segs[..i] + [segs[i].(size := first), added] + segs[i + 1..];
    InsertAtFacts(refs, i + 1, s);
    assert forall k :: i + 1 < k <= |segs| ==> out[k] == segs[k - 1];
    hide InsertAt;
    assert Distinct(refs);
    forall k | 0 <= k < |refs'| ensures Values(node', refs')[k] == out[k] {
      if k <= i {
        assert LinkedAt(node, refs, k);
      } else if k > i + 1 {
        assert LinkedAt(node, refs, k - 1);
      }
    }
    assert LinkedAt(node, refs, i + 1) && refs'[i + 2] == refs[i + 1];
    assert !LinkedAt(node', refs', i + 2);
  }

  /** After a split nothing is left to remove. */
  lemma SplitFree(segs: seq<Segment>, i: int, address: int, size: int)
    requires Suffix(segs, i, address, size)
    ensures var c := segs[i]; Deduct(size, Wrap(address + size - (c.address + Wrap(address - c.address)))) == 0
  {
    var c := segs[i];
    assert Proper(c) && Proper(segs[|segs| - 1]);
    assert -TOP < address - c.address < TOP && 0 < size < TOP;
  }

  /** The stores that unlink and clear descriptor i. */
  function Bypassed(node: Nodes, refs: seq<Ref>, i: int): Nodes
    requires 0 < i < |refs| - 1 && refs[i - 1] in node && refs[i + 1] in node
  {
    var node1 := node[refs[i + 1] := node[refs[i + 1]].(prev := refs[i - 1])];
    node1[refs[i - 1] := node1[refs[i - 1]].(next := refs[i + 1])][refs[i] := ZERO]
  }

  lemma BypassedFacts(node: Nodes, refs: seq<Ref>, i: int)
    requires ListRep(node, refs) && 0 < i < |refs| - 1 && refs[i - 1] in node && refs[i + 1] in node
    ensures var node' := Bypassed(node, refs, i);
            && Unlinked(node, node', refs, i) && node'.Keys == node.Keys + {refs[i]} && node'[refs[i]] == ZERO
            && refs[i] in node
            && (forall r :: r in node && r != refs[i] ==> Value(node'[r]) == Value(node[r]))
            && (forall r :: r in node && r !in refs ==> node'[r] == node[r])
  {
    assert LinkedAt(node, refs, i) && LinkedAt(node, refs, i - 1) && LinkedAt(node, refs, i + 1);
  }

  lemma BypassedOthers(node0: Nodes, node: Nodes, node': Nodes, lists: Lists, head: Ref, refs: seq<Ref>, i: int)
    requires head in lists && (forall r :: r in refs ==> r in lists[head])
    requires forall h :: h in lists && h != head ==> SameNodes(node0, node, lists[h]) && Apart(lists[h], lists[head])
    requires forall r :: r in node && r !in refs ==> r in node' && node'[r] == node[r]
    ensures forall h :: h in lists && h != head ==> SameNodes(node0, node', lists[h])
  {
  }

  /** One slot less is listed, and it looks free. */
  lemma PoolFreed(node: Nodes, node': Nodes, pages: nat, lists: Lists, lists': Lists, c: Ref)
    requires PoolOk(node, pages, lists) && c in node && c in node' && Zeroed(node'[c])
    requires forall r :: r in node ==> r in node' && (r != c ==> Value(node'[r]) == Value(node[r]))
    requires forall r :: Listed(lists', r) <==> r != c && Listed(lists, r)
    ensures PoolOk(node', pages, lists') && FreeSlots(node', SLOTS * pages) >= FreeSlots(node, SLOTS * pages)
  {
    forall n: nat | n < SLOTS * pages ensures SlotOk(node', lists', n) && Slot(n) in node {
      assert SlotOk(node, lists, n);
    }
    hide PoolOk, Listed;
    if c.Slot? && c.n < SLOTS * pages {
      FreeSlotsChange(node, node', SLOTS * pages, c.n);
    } else {
      FreeSlotsFrame(node, node', SLOTS * pages);
    }
  }

  /** A segment that may be added: non-empty, vacant, and between the reserved first and last segments. */
  ghost predicate Fresh(segs: seq<Segment>, s: Segment) {
    && |segs| > 1 && s.size > 0 && segs[0].End() <= s.address && s.End() <= segs[|segs| - 1].address
    && Vacant(segs, s.address, s.size)
  }

  /** The whole effect of linking s into list `head`: that list grows as specified, every other keeps its segments. */
  ghost predicate InsertedInto(node: Nodes, node': Nodes, lists: Lists, lists': Lists, head: Ref, s: Ref) {
    && s in node && head in lists && head in lists' && lists[head] != []
    && ListsOk(node', lists') && lists'.Keys == lists.Keys
    && Values(node', lists'[head]) == Added(Values(node, lists[head]), Value(node[s]))
    && (forall h :: h in lists && h != head ==> lists'[h] == lists[h] && Values(node', lists'[h]) == Values(node, lists[h]))
    && (forall r :: Listed(lists', r) <==> r == s || Listed(lists, r))
    && node'.Keys == node.Keys && (forall r :: r in node ==> Value(node'[r]) == Value(node[r]))
  }

  /** List `head` grows by `s` in its place, every other list keeps its segments. */
  ghost predicate AddedTo(node: Nodes, node': Nodes, lists: Lists, lists': Lists, head: Ref, s: Segment) {
    && head in lists && lists[head] != [] && lists'.Keys == lists.Keys
    && Values(node', lists'[head]) == Added(Values(node, lists[head]), s)
    && (forall h :: h in lists && h != head ==> lists'[h] == lists[h] && Values(node', lists'[h]) == Values(node, lists[h]))
  }

  /** Kernel space as the pool check will see it after `s` went into list `head`. */
  ghost function KernelThen(node: Nodes, lists: Lists, kernelFirst: Ref, head: Ref, s: Segment): seq<Segment>
    requires kernelFirst in lists && head in lists && lists[head] != []
  {
    if head == kernelFirst then Added(Values(node, lists[head]), s) else Values(node, lists[kernelFirst])
  }

  /** When only two slots are free, kernel space must have room for another page of them. */
  ghost predicate PoolCanGrow(node: Nodes, lists: Lists, pages: nat, kernelFirst: Ref, head: Ref, s: Segment) {
    && kernelFirst in lists && head in lists && lists[head] != []
    && (FreeSlots(node, SLOTS * pages) == 2 ==> HasGap(KernelThen(node, lists, kernelFirst, head, s), PAGESIZE))
  }

  /**
    What an add does to the segments of every space: list `head` gets the new one and, when the pool was
    down to two free slots, kernel space also gets the pool's new page.
   */
  ghost predicate AfterAdd(node: Nodes, node': Nodes, lists: Lists, lists': Lists, pages: nat, kernelFirst: Ref, head: Ref, s: Segment) {
    && head in lists && kernelFirst in lists && lists[head] != [] && lists[kernelFirst] != [] && lists'.Keys == lists.Keys
    && var grows := FreeSlots(node, SLOTS * pages) == 2; var kernel := KernelThen(node, lists, kernelFirst, head, s);
    && (grows ==> kernel != [] && HasGap(kernel, PAGESIZE))
    && Values(node', lists'[kernelFirst]) == (if grows then WithPoolPage(kernel) else kernel)
    && (head != kernelFirst ==> Values(node', lists'[head]) == Added(Values(node, lists[head]), s))
    && (forall h :: h in lists && h != head && h != kernelFirst ==> lists'[h] == lists[h] && Values(node', lists'[h]) == Values(node, lists[h]))
  }

  function BootNode(segs: seq<Segment>, i: nat): Node
    requires i < |segs|
  {
    Node(segs[i].address, segs[i].size, segs[i].flags, if i == 0 then Null else Own(i - 1), if i + 1 < |segs| then Own(i + 1) else Null)
  }

  function BootNodes(segs: seq<Segment>, pages: nat): (node: Nodes)
    ensures forall i: nat :: i < |segs| ==> Own(i) in node && node[Own(i)] == BootNode(segs, i)
    ensures forall n: nat :: n < SLOTS * pages ==> Slot(n) in node && node[Slot(n)] == ZERO
  {
    (map i: nat | 0 <= i < |segs| :: Own(i) := BootNode(segs, i)) + map n: nat | 0 <= n < SLOTS * pages :: Slot(n) := ZERO
  }

  function BootRefs(segs: seq<Segment>): (refs: seq<Ref>)
    ensures |refs| == |segs| && forall i :: 0 <= i < |refs| ==> refs[i] == Own(i)
  {
    seq(|segs|, i requires 0 <= i < |segs| => Own(i))
  }

  lemma BootOk(segs: seq<Segment>, pages: nat)
    requires Space(segs) && pages > 0
    ensures var node, lists := BootNodes(segs, pages), map[Own(0) := BootRefs(segs)];
            && ListsOk(node, lists) && PoolOk(node, pages, lists) && Values(node, lists[Own(0)]) == segs
            && FreeSlots(node, SLOTS * pages) == SLOTS * pages
  {
    hide BootNodes, BootRefs, BootNode, Space, ListRep, Values;
    var node, refs := BootNodes(segs, pages), BootRefs(segs);
    BootList(segs, node, refs);
    BootPool(node, map[Own(0) := refs], pages);
  }

  lemma BootValid(t: SegmentTable, segs: seq<Segment>, pages: nat)
    requires Space(segs) && pages > 0
    requires t.kernelFirst == Own(0) && t.pages == pages && t.node == BootNodes(segs, pages) && t.lists == map[Own(0) := BootRefs(segs)]
    ensures t.Valid() && t.lists.Keys == {t.kernelFirst} && t.Segs(t.kernelFirst) == segs
    ensures FreeSlots(t.node, SLOTS * t.pages) == SLOTS * t.pages
  {
    hide BootNodes, BootRefs, BootNode, Space, ListRep, Values, ListsOk, PoolOk, FreeSlots;
    BootOk(segs, pages);
  }

  lemma BootPool(node: Nodes, lists: Lists, pages: nat)
    requires pages > 0 && forall n: nat :: n < SLOTS * pages ==> Slot(n) in node && node[Slot(n)] == ZERO
    requires forall r :: Listed(lists, r) ==> r.Own?
    ensures PoolOk(node, pages, lists) && FreeSlots(node, SLOTS * pages) == SLOTS * pages
  {
    forall n: nat | n < SLOTS * pages ensures SlotOk(node, lists, n) {
    }
    FreeSlotsGrow(node, 0, SLOTS * pages);
  }

  lemma BootList(segs: seq<Segment>, node: Nodes, refs: seq<Ref>)
    requires Space(segs) && |refs| == |segs| && forall i :: 0 <= i < |refs| ==> refs[i] == Own(i)
    requires forall i :: 0 <= i < |segs| ==> Own(i) in node && node[Own(i)] == BootNode(segs, i)
    ensures ListOk(node, refs, Own(0)) && Values(node, refs) == segs
  {
    hide Sorted, LinkedAt, Values;
    forall i | 0 <= i < |refs| ensures LinkedAt(node, refs, i) && Values(node, refs)[i] == segs[i] {
      BootLinked(segs, node, refs, i);
    }
    assert Values(node, refs) == segs;
  }

  lemma BootLinked(segs: seq<Segment>, node: Nodes, refs: seq<Ref>, i: nat)
    requires i < |refs| == |segs| && forall i :: 0 <= i < |refs| ==> refs[i] == Own(i)
    requires Own(i) in node && node[Own(i)] == BootNode(segs, i)
    ensures LinkedAt(node, refs, i) && Values(node, refs)[i] == segs[i]
  {
  }

  /** A descriptor outside the pool that is on no list yet. */
  lemma OwnAdded(node: Nodes, node': Nodes, pages: nat, lists: Lists, first: Ref)
    requires ListsOk(node, lists) && PoolOk(node, pages, lists) && first.Own? && first !in node && !Listed(lists, first)
    requires first in node' && node' == node[first := node'[first]]
    ensures ListsOk(node', lists) && PoolOk(node', pages, lists) && first !in lists
    ensures forall h :: h in lists ==> Values(node', lists[h]) == Values(node, lists[h])
    ensures FreeSlots(node', SLOTS * pages) == FreeSlots(node, SLOTS * pages)
  {
    FillFrame(node, node', lists, first);
    forall h | h in lists ensures h in node && h != first {
      assert ListOk(node, lists[h], h) && LinkedAt(node, lists[h], 0);
    }
    hide ListsOk, Values;
    forall n: nat | n < SLOTS * pages ensures SlotOk(node', lists, n) {
      assert SlotOk(node, lists, n);
    }
    FreeSlotsFrame(node, node', SLOTS * pages);
  }

  lemma SpaceAdded(node0: Nodes, node1: Nodes, node: Nodes, pages: nat, lists: Lists, first: Ref, s: Ref)
    requires ListsOk(node1, lists) && PoolOk(node1, pages, lists) && first.Own? && !Listed(lists, first) && first !in lists
    requires s.Slot? && s.n < SLOTS * pages && s in node1 && Zeroed(node1[s]) && !Listed(lists, s)
    requires forall h :: h in lists ==> Values(node1, lists[h]) == Values(node0, lists[h])
    requires first in node && s in node && (forall r :: r in node1 && r != first && r != s ==> r in node && node[r] == node1[r])
    requires node[first] == Node(0, PAGESIZE, SEG_NOUNMAP, Null, s)
    requires node[s] == Node(0xC000_0000, TOP - 0xC000_0000, SEG_NOUNMAP, first, Null)
    ensures ListsOk(node, lists[first := [first, s]]) && PoolOk(node, pages, lists[first := [first, s]])
    ensures FreeSlots(node, SLOTS * pages) == FreeSlots(node1, SLOTS * pages) - 1
    ensures Values(node, [first, s]) == [Segment(0, PAGESIZE, SEG_NOUNMAP), Segment(0xC000_0000, TOP - 0xC000_0000, SEG_NOUNMAP)]
    ensures forall h :: h in lists ==> Values(node, lists[h]) == Values(node0, lists[h])
  {
    hide PoolOk, FreeSlots, ListRep, Values, Listed, Sorted;
    var refs := [first, s];
    var lists' := lists[first := refs];
    forall h | h in lists ensures SameNodes(node1, node, lists[h]) && Apart(lists[h], refs) && Apart(refs, lists[h]) {
      NotListed(lists, h, first);
      NotListed(lists, h, s);
    }
    AllFrames(node1, node, lists);
    TwoList(node, first, s);
    assert ListsOk(node, lists');
    forall r ensures Listed(lists', r) <==> r == first || r == s || Listed(lists, r) {
      ListedNew(lists, first, s, r);
    }
    SpacePool(node1, node, pages, lists, lists', first, s);
  }

  lemma TwoList(node: Nodes, first: Ref, s: Ref)
    requires first != s && first != Null && s != Null && first in node && s in node
    requires node[first] == Node(0, PAGESIZE, SEG_NOUNMAP, Null, s)
    requires node[s] == Node(0xC000_0000, TOP - 0xC000_0000, SEG_NOUNMAP, first, Null)
    ensures ListOk(node, [first, s], first)
    ensures Values(node, [first, s]) == [Segment(0, PAGESIZE, SEG_NOUNMAP), Segment(0xC000_0000, TOP - 0xC000_0000, SEG_NOUNMAP)]
  {
    assert LinkedAt(node, [first, s], 0) && LinkedAt(node, [first, s], 1);
  }

  lemma ListedNew(lists: Lists, first: Ref, s: Ref, r: Ref)
    requires first !in lists
    ensures Listed(lists[first := [first, s]], r) <==> r == first || r == s || Listed(lists, r)
  {
    var lists' := lists[first := [first, s]];
    assert first in lists'[first] && s in lists'[first];
    if Listed(lists, r) {
      var h :| h in lists && r in lists[h];
      assert r in lists'[h];
    }
  }

  lemma SpacePool(node: Nodes, node': Nodes, pages: nat, lists: Lists, lists': Lists, first: Ref, s: Ref)
    requires PoolOk(node, pages, lists) && first.Own? && s.Slot? && s.n < SLOTS * pages && s in node && Zeroed(node[s])
    requires s in node' && node'[s].address != 0 && node'[s].size != 0
    requires forall r :: r in node && r != first && r != s ==> r in node' && node'[r] == node[r]
    requires forall r :: Listed(lists', r) <==> r == first || r == s || Listed(lists, r)
    ensures PoolOk(node', pages, lists') && FreeSlots(node', SLOTS * pages) == FreeSlots(node, SLOTS * pages) - 1
  {
    forall n: nat | n < SLOTS * pages ensures SlotOk(node', lists', n) {
      assert SlotOk(node, lists, n);
    }
    forall l: int | 0 <= l < SLOTS * pages && l != s.n
      ensures Slot(l) in node && Zeroed(node[Slot(l)]) <==> Slot(l) in node' && Zeroed(node'[Slot(l)])
    {
      assert SlotOk(node, lists, l);
    }
    FreeSlotsChange(node, node', SLOTS * pages, s.n);
  }

  lemma FreshNonzero(segs: seq<Segment>, s: Segment)
    requires Space(segs) && Fresh(segs, s)
    ensures s.address > 0 && s.size > 0
  {
    assert Proper(segs[0]);
  }

  lemma GapFresh(segs: seq<Segment>, size: int, flags: int)
    requires Space(segs) && size > 0 && HasGap(segs, size)
    ensures Fresh(segs, Segment(segs[GapIndex(segs, size)].End(), size, flags))
  {
    LowestGap(segs, size, 0);
    var g := GapIndex(segs, size);
    assert g > 0 ==> segs[0].End() <= segs[g].address;
    assert Proper(segs[g]);
  }

  /** A zeroed slot may be rewritten: it is on no list. */
  lemma FillFrame(node: Nodes, node': Nodes, lists: Lists, s: Ref)
    requires ListsOk(node, lists) && !Listed(lists, s)
    requires forall r :: r in node && r != s ==> r in node' && node'[r] == node[r]
    ensures ListsOk(node', lists) && forall h :: h in lists ==> Values(node', lists[h]) == Values(node, lists[h])
  {
    forall h | h in lists ensures ListOk(node', lists[h], h) && Values(node', lists[h]) == Values(node, lists[h]) {
      assert ListOk(node, lists[h], h);
      NotListed(lists, h, s);
      ListFrame(node, node', lists[h]);
    }
  }

  lemma UnlistedZero(node: Nodes, pages: nat, lists: Lists, n: nat)
    requires PoolOk(node, pages, lists) && n < SLOTS * pages && Slot(n) in node && Zeroed(node[Slot(n)])
    ensures !Listed(lists, Slot(n))
  {
    assert SlotOk(node, lists, n);
  }

  /** One more slot is listed and no longer looks free. */
  lemma PoolFilled(node: Nodes, node': Nodes, pages: nat, lists: Lists, lists': Lists, head: Ref, s: Ref, node1: Nodes)
    requires PoolOk(node, pages, lists) && s.Slot? && s.n < SLOTS * pages && s in node && Zeroed(node[s]) && !Listed(lists, s)
    requires s in node1 && node1 == node[s := node1[s]] && node1[s].address != 0 && node1[s].size != 0
    requires InsertedInto(node1, node', lists, lists', head, s)
    ensures PoolOk(node', pages, lists') && FreeSlots(node', SLOTS * pages) == FreeSlots(node, SLOTS * pages) - 1
    ensures ListsOk(node', lists') && lists'.Keys == lists.Keys
  {
    forall n: nat | n < SLOTS * pages ensures SlotOk(node', lists', n) {
      assert SlotOk(node, lists, n);
      assert Value(node'[Slot(n)]) == Value(node1[Slot(n)]);
    }
    assert Value(node'[s]) == Value(node1[s]);
    forall l: int | 0 <= l < SLOTS * pages && l != s.n
      ensures Slot(l) in node && Zeroed(node[Slot(l)]) <==> Slot(l) in node' && Zeroed(node'[Slot(l)])
    {
      assert SlotOk(node, lists, l);
      assert Value(node'[Slot(l)]) == Value(node1[Slot(l)]);
    }
    FreeSlotsChange(node, node', SLOTS * pages, s.n);
  }

  lemma AddedToFrame(node: Nodes, node1: Nodes, node': Nodes, lists: Lists, lists': Lists, head: Ref, s: Segment)
    requires AddedTo(node1, node', lists, lists', head, s)
    requires forall h :: h in lists ==> Values(node1, lists[h]) == Values(node, lists[h])
    ensures AddedTo(node, node', lists, lists', head, s)
  {
  }

  lemma KernelAfter(node: Nodes, lists: Lists, kernelFirst: Ref, head: Ref, s: Segment)
    requires ListsOk(node, lists) && head in lists && kernelFirst in lists
    ensures lists[head] != [] && lists[kernelFirst] != [] && KernelThen(node, lists, kernelFirst, head, s) != []
  {
    ListOf(node, lists, head);
    ListOf(node, lists, kernelFirst);
  }

  lemma AddedKernel(node: Nodes, node': Nodes, lists: Lists, lists': Lists, kernelFirst: Ref, head: Ref, s: Segment)
    requires AddedTo(node, node', lists, lists', head, s) && kernelFirst in lists
    ensures kernelFirst in lists' && Values(node', lists'[kernelFirst]) == KernelThen(node, lists, kernelFirst, head, s)
  {
  }

  lemma AddThenVerify(node: Nodes, node1: Nodes, node': Nodes, lists: Lists, lists1: Lists, lists': Lists, pages: nat,
                      kernelFirst: Ref, head: Ref, s: Segment)
    requires AddedTo(node, node1, lists, lists1, head, s) && kernelFirst in lists && lists[kernelFirst] != []
    requires PoolCanGrow(node, lists, pages, kernelFirst, head, s) && KernelThen(node, lists, kernelFirst, head, s) != []
    requires FreeSlots(node1, SLOTS * pages) == FreeSlots(node, SLOTS * pages) - 1
    requires FreeSlots(node1, SLOTS * pages) != 1 ==> node' == node1 && lists' == lists1
    requires FreeSlots(node1, SLOTS * pages) == 1 ==>
               (var segs := Values(node1, lists1[kernelFirst]);
                HasGap(segs, PAGESIZE)
                && AddedTo(node1, node', lists1, lists', kernelFirst,
                           Segment(segs[GapIndex(segs, PAGESIZE)].End(), PAGESIZE, READ_WRITE)))
    ensures AfterAdd(node, node', lists, lists', pages, kernelFirst, head, s)
  {
    hide FreeSlots, Values, Added;
    AddedKernel(node, node1, lists, lists1, kernelFirst, head, s);
  }

  lemma FillThenInsert(node: Nodes, node1: Nodes, node': Nodes, lists: Lists, lists': Lists, head: Ref, s: Ref, seg: Segment)
    requires InsertedInto(node1, node', lists, lists', head, s) && Value(node1[s]) == seg
    requires forall h :: h in lists ==> Values(node1, lists[h]) == Values(node, lists[h])
    ensures AddedTo(node, node', lists, lists', head, seg) && node'.Keys == node1.Keys
  {
  }

  lemma PageMapped(node: Nodes, node': Nodes, pages: nat, lists: Lists)
    requires ListsOk(node, lists) && PoolOk(node, pages, lists)
    requires node' == node + map n: nat | SLOTS * pages <= n < SLOTS * (pages + 1) :: Slot(n) := ZERO
    ensures ListsOk(node', lists) && PoolOk(node', pages + 1, lists)
    ensures FreeSlots(node', SLOTS * (pages + 1)) == FreeSlots(node, SLOTS * pages) + SLOTS
    ensures forall h :: h in lists ==> Values(node', lists[h]) == Values(node, lists[h])
    ensures forall n: nat :: n < SLOTS * pages && Slot(n) in node ==> Slot(n) in node' && node'[Slot(n)] == node[Slot(n)]
  {
    forall h | h in lists ensures SameNodes(node, node', lists[h]) {
      forall r | r in lists[h] && r in node ensures r in node' && node'[r] == node[r] {
        assert Listed(lists, r);
      }
    }
    AllFrames(node, node', lists);
    hide ListsOk, Values, Listed;
    forall n: nat | n < SLOTS * (pages + 1) ensures SlotOk(node', lists, n) {
      if n < SLOTS * pages { assert SlotOk(node, lists, n); }
    }
    PageCounts(node, node', pages);
  }

  lemma AllFrames(node: Nodes, node': Nodes, lists: Lists)
    requires ListsOk(node, lists) && forall h :: h in lists ==> SameNodes(node, node', lists[h])
    ensures ListsOk(node', lists) && forall h :: h in lists ==> Values(node', lists[h]) == Values(node, lists[h])
  {
    forall h | h in lists ensures ListOk(node', lists[h], h) && Values(node', lists[h]) == Values(node, lists[h]) {
      assert ListOk(node, lists[h], h);
      ListFrame(node, node', lists[h]);
    }
  }

  lemma PageCounts(node: Nodes, node': Nodes, pages: nat)
    requires node' == node + map n: nat | SLOTS * pages <= n < SLOTS * (pages + 1) :: Slot(n) := ZERO
    ensures FreeSlots(node', SLOTS * (pages + 1)) == FreeSlots(node, SLOTS * pages) + SLOTS
  {
    FreeSlotsFrame(node, node', SLOTS * pages);
    FreeSlotsGrow(node', SLOTS * pages, SLOTS);
  }

  lemma FreshFits(segs: seq<Segment>, s: Segment)
    requires Space(segs) && Fresh(segs, s)
    ensures var k := InsertIndex(segs, s.End());
            k < |segs| && segs[k - 1].End() <= s.address && s.End() <= segs[k].address
  {
    assert Proper(segs[0]);
    AddAsserts(segs, s);
  }

  lemma AddedSpace(segs: seq<Segment>, s: Segment)
    requires Space(segs) && Fresh(segs, s)
    ensures Space(Added(segs, s)) && Added(segs, s) == InsertAt(segs, InsertIndex(segs, s.End()), s)
  {
    assert Proper(segs[0]) && Proper(segs[|segs| - 1]);
    AddSorted(segs, s);
    FreshFits(segs, s);
  }

  /** The three stores of addSegment, with everything they do. */
  lemma LinkIn(node: Nodes, lists: Lists, head: Ref, k: int, s: Ref)
    requires ListsOk(node, lists) && head in lists && s != Null && s in node && !Listed(lists, s)
    requires Fresh(Values(node, lists[head]), Value(node[s])) && k == InsertIndex(Values(node, lists[head]), Value(node[s]).End())
    requires 1 <= k < |lists[head]| && lists[head][k - 1] in node && lists[head][k] in node
    ensures var refs := lists[head];
            var node1 := node[s := node[s].(prev := refs[k - 1], next := refs[k])];
            s != refs[k - 1] && s != refs[k] && refs[k] != refs[k - 1] && refs[k] != Null
            && InsertedInto(node, node1[refs[k - 1] := node1[refs[k - 1]].(next := s)][refs[k] := node1[refs[k]].(prev := s)],
                            lists, lists[head := InsertAt(refs, k, s)], head, s)
  {
    hide InsertAt, Inserted, Space, Fresh, ListsOk, ListRep, Listed, Values, Added;
    var refs := lists[head];
    var node1 := node[s := node[s].(prev := refs[k - 1], next := refs[k])];
    var node' := node1[refs[k - 1] := node1[refs[k - 1]].(next := s)][refs[k] := node1[refs[k]].(prev := s)];
    var refs' := InsertAt(refs, k, s);
    ListOf(node, lists, head);
    NotListed(lists, head, s);
    LinkInCells(node, node', refs, k, s);
    InsertRep(node, node', refs, k, s);
    AddedSpace(Values(node, refs), Value(node[s]));
    InsertAtFacts(refs, k, s);
    assert ListOk(node', refs', head);
    assert OnlyList(node, node', lists, head, s);
    ListsUpdate(node, node', lists, head, refs', s);
    LinkInOthers(node, node', lists, head, k, s);
  }

  lemma LinkInCells(node: Nodes, node': Nodes, refs: seq<Ref>, k: int, s: Ref)
    requires ListRep(node, refs) && 1 <= k < |refs| && s in node && s !in refs && refs[k - 1] in node && refs[k] in node
    requires var node1 := node[s := node[s].(prev := refs[k - 1], next := refs[k])];
             node' == node1[refs[k - 1] := node1[refs[k - 1]].(next := s)][refs[k] := node1[refs[k]].(prev := s)]
    ensures Inserted(node, node', refs, k, s) && node'.Keys == node.Keys
    ensures refs[k] != refs[k - 1] && refs[k] != Null && s != refs[k - 1] && s != refs[k]
    ensures forall r :: r in node ==> Value(node'[r]) == Value(node[r]) && (r != s && r !in refs ==> node'[r] == node[r])
  {
    assert LinkedAt(node, refs, k);
  }

  lemma LinkInOthers(node: Nodes, node': Nodes, lists: Lists, head: Ref, k: int, s: Ref)
    requires ListsOk(node, lists) && head in lists && !Listed(lists, s) && 0 <= k <= |lists[head]|
    requires OnlyList(node, node', lists, head, s)
    ensures forall h :: h in lists && h != head ==> Values(node', lists[h]) == Values(node, lists[h])
    ensures forall r :: Listed(lists[head := InsertAt(lists[head], k, s)], r) <==> r == s || Listed(lists, r)
  {
    forall h | h in lists && h != head ensures Values(node', lists[h]) == Values(node, lists[h]) {
      assert Apart(lists[h], lists[head]) && ListOk(node, lists[h], h);
      NotListed(lists, h, s);
      ListFrame(node, node', lists[h]);
    }
    forall r ensures Listed(lists[head := InsertAt(lists[head], k, s)], r) <==> r == s || Listed(lists, r) {
      ListedInsert(lists, head, k, s, r);
    }
  }

  lemma NotListed(lists: Lists, head: Ref, s: Ref)
    requires head in lists && !Listed(lists, s)
    ensures s !in lists[head]
  {
  }

  lemma ListOf(node: Nodes, lists: Lists, head: Ref)
    requires ListsOk(node, lists) && head in lists
    ensures var refs := lists[head]; ListRep(node, refs) && |refs| > 1 && refs[0] == head && Space(Values(node, refs))
  {
    assert ListOk(node, lists[head], head);
  }

  /** What the node at position i and the one after it say. */
  ghost predicate Here(node: Nodes, refs: seq<Ref>, i: int) {
    && 0 <= i < |refs| && refs[i] != Null && refs[i] in node
    && node[refs[i]].prev == PrevRef(refs, i) && node[refs[i]].next == NextRef(refs, i)
    && Value(node[refs[i]]) == Values(node, refs)[i]
    && (i + 1 < |refs| ==> refs[i + 1] != Null && refs[i + 1] in node && Value(node[refs[i + 1]]) == Values(node, refs)[i + 1])
    && (i > 0 ==> refs[i - 1] != Null && refs[i - 1] in node)
  }

  lemma ReadHere(node: Nodes, refs: seq<Ref>, i: int)
    requires ListRep(node, refs) && 0 <= i < |refs|
    ensures Here(node, refs, i)
  {
    assert LinkedAt(node, refs, i);
    if i + 1 < |refs| { assert LinkedAt(node, refs, i + 1); }
    if i > 0 { assert LinkedAt(node, refs, i - 1); }
  }
}
