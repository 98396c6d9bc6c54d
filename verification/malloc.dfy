/**
  malloc, free and realloc over memory.  Each method changes words in the order
  the C function does, and is proved to make the matching step on the block view.
 */
module MallocHeap {
  import opened HeapBlocks
  import opened HeapMemory

  class Allocator {
    var mem: Memory
    const firstBigBlock: int
    ghost var heap: Heap

    /** Memory holds exactly the regions of `heap`. */
    ghost predicate Linked()
      reads this
    {
      Shaped(heap.regions) && heap.regions[0].base == firstBigBlock && Rep(mem, heap.regions)
    }

    ghost predicate Valid()
      reads this
    {
      Linked() && Sound(heap)
    }

    /** The two static headers of emptyBigBlock at address `place`. */
    constructor (place: int)
      requires place > 0 && WordAligned(place) && place + 2 * HEADER <= TOP
      ensures Valid() && heap == Initial(place)
    {
      firstBigBlock := place;
      mem := map[place := MAGIC_BIG_MCB, place + SIZE := 2 * HEADER, place + PREV := 0, place + NEXT := 0,
             place + HEADER := MAGIC_END_MCB, place + HEADER + SIZE := 0, place + HEADER + PREV := 0,
             place + HEADER + NEXT := 0];
      heap := Initial(place);
      new;
      assert Extents(heap.regions[1..]) == [];
      WordsOfStatic(place);
    }

    /** The four stores that fill in a Mem_Ctrl_Blk. */
    method WriteHeader(a: int, magic: int, size: int, prev: int, next: int)
      requires HeaderMapped(mem, a)
      modifies this`mem
      ensures HeaderAt(mem, a, magic, size, prev, next) && SameOutside(old(mem), mem, a, a + HEADER)
    {
      mem := mem[a := magic];
      mem := mem[a + SIZE := size];
      mem := mem[a + PREV := prev];
      mem := mem[a + NEXT := next];
    }

    /** __splitBlock: cut `size` bytes off the front of a block of `total` bytes. */
    method SplitBlock(block: int, size: int, ghost magic: int, ghost total: int, ghost prev: int)
      requires 0 < size && HEADER + size < total
      requires HeaderAt(mem, block, magic, total, prev, block + HEADER + total)
      requires HeaderMapped(mem, block + HEADER + size) && HeaderMapped(mem, block + HEADER + total)
      modifies this`mem
      ensures SplitEffect(old(mem), mem, block, magic, size, total, prev)
    {
      var newBlock := block + HEADER + size;
      WriteHeader(newBlock, MAGIC_FREE_MCB, mem[block + SIZE] - HEADER - size, block, mem[block + NEXT]);
      mem := mem[block + SIZE := size];
      mem := mem[mem[block + NEXT] + PREV := newBlock];
      mem := mem[block + NEXT := newBlock];
    }

    /** mapMemory: the words of `total` bytes at `place` appear, with contents the caller must not rely on. */
    method MapMemory(place: int, ghost size: int, total: int, fill: int -> int)
      requires Whole(size) && PageAligned(place) && total == MappingSize(size)
      modifies this`mem
      ensures Mapped(mem, place, place + total)
      ensures HeaderMapped(mem, place) && HeaderMapped(mem, place + HEADER) && HeaderMapped(mem, place + total - HEADER)
      ensures forall a :: a in old(mem) ==> a in mem && (!(place <= a < place + total) ==> mem[a] == old(mem)[a])
    {
      var words := NewWords(place, total, fill);
      mem := mem + words;
      hide NewWords;
      FreshMapped(mem, place, size);
    }

    /** __allocateBigBlock: map a region at `place`, whose words hold whatever `fill` says, and link it in. */
    method AllocateBigBlock(lastBigBlock: int, size: int, place: int, fill: int -> int) returns (bigBlock: int)
      requires Whole(size) && PageAligned(place)
      requires HeaderMapped(mem, lastBigBlock)
      requires lastBigBlock + HEADER <= place || place + MappingSize(size) <= lastBigBlock
      modifies this`mem
      ensures bigBlock == place
      ensures RegionRep(mem, FreshRegion(place, size), lastBigBlock, 0)
      ensures lastBigBlock + NEXT in mem && mem[lastBigBlock + NEXT] == place
      ensures forall a :: a in old(mem) && a != lastBigBlock + NEXT && !(place <= a < place + MappingSize(size)) ==>
                a in mem && mem[a] == old(mem)[a]
    {
      var total := MappingSize(size);
      MapMemory(place, size, total, fill);
      hide MappingSize, Whole, PageAligned;
      var block := place + HEADER;
      var endBlock := place + total - HEADER;
      WriteHeader(place, MAGIC_BIG_MCB, total, lastBigBlock, 0);
      mem := mem[lastBigBlock + NEXT := place];
      WriteHeader(block, MAGIC_FREE_MCB, total - 3 * HEADER, 0, endBlock);
      WriteHeader(endBlock, MAGIC_END_MCB, 0, block, 0);
      FreshRep(mem, place, size, lastBigBlock);
      return place;
    }

    /** __unifyBlocks: merge a block with the one after it. */
    method UnifyBlocks(first: int, second: int, ghost magic: int, ghost n: int, ghost prev: int, ghost magic': int, ghost n': int)
      returns (block: int)
      requires 0 < n && 0 < n' && second == first + HEADER + n
      requires HeaderAt(mem, first, magic, n, prev, second)
      requires HeaderAt(mem, second, magic', n', first, second + HEADER + n')
      requires HeaderMapped(mem, second + HEADER + n')
      modifies this`mem
      ensures block == first && UnifyEffect(old(mem), mem, first, magic, n, prev, n')
    {
      mem := mem[first + NEXT := mem[second + NEXT]];
      mem := mem[first + SIZE := mem[first + SIZE] + HEADER + mem[second + SIZE]];
      mem := mem[mem[second + NEXT] + PREV := first];
      return first;
    }

    /** Hand out block (i, j): split it when more than a header is left over, then mark it used. */
    method Take(block: int, size: int, ghost i: int, ghost j: int)
      requires Linked() && Whole(size) && 0 <= i < |heap.regions| && 0 <= j < |heap.regions[i].blocks|
      requires Fits(heap.regions[i].blocks[j], size) && block == HeaderAddr(heap.regions[i], j)
      modifies this
      ensures Linked()
      ensures heap == old(heap).(regions := WithBlocks(old(heap.regions), i, Carve(old(heap.regions)[i].blocks, j, size)))
      ensures PayloadsKept(old(mem), mem, old(heap.regions), -1, -1)
    {
      ghost var m, rs := mem, heap.regions;
      TakeReadable(m, rs, i, j, size);
      if mem[block + SIZE] > HEADER + size {
        SplitBlock(block, size, MAGIC_FREE_MCB, rs[i].blocks[j].size, PrevAddr(rs[i], j));
      }
      ghost var m1 := mem;
      TakeStep(m, m1, rs, i, j, size);
      mem := mem[block := MAGIC_USED_MCB];
      heap := heap.(regions := WithBlocks(rs, i, Carve(rs[i].blocks, j, size)));
    }

    /** The call of __allocateBigBlock in malloc, with what it does to the whole heap. */
    method Grow(lastBigBlock: int, size: int, place: int, fill: int -> int) returns (bigBlock: int)
      requires Linked() && Whole(size) && Placeable(heap.regions, place, MappingSize(size))
      requires FirstRegion(heap.regions, size) == |heap.regions|
      requires lastBigBlock == heap.regions[|heap.regions| - 1].base
      modifies this
      ensures heap == Grown(old(heap), place, size) && bigBlock == place
      ensures Searching(mem, heap.regions, |old(heap.regions)|, 0, size, bigBlock, bigBlock + HEADER)
      ensures PayloadsKept(old(mem), mem, old(heap.regions), -1, -1)
    {
      hide Rep, Shaped, PayloadsKept, Placeable, Searching, FirstRegion, Aligned, PageAligned, RegionRep, MappingSize;
      ghost var m, h := mem, heap;
      GrowReadable(m, h.regions, place, size);
      bigBlock := AllocateBigBlock(lastBigBlock, size, place, fill);
      GrownSearch(m, mem, h, size, place);
      heap := Grown(h, place, size);
    }

    /** malloc's loop: walk the chain to the first block that fits, mapping one more region at its end if none does. */
    method Search(size: int, place: int, fill: int -> int)
      returns (block: int, ghost i: int, ghost j: int, ghost grown: bool)
      requires Linked() && Whole(size)
      requires FirstRegion(heap.regions, size) == |heap.regions| ==> Placeable(heap.regions, place, MappingSize(size))
      modifies this
      ensures 0 <= i < |heap.regions| && 0 <= j < |heap.regions[i].blocks| && Fits(heap.regions[i].blocks[j], size)
      ensures heap == if grown then Grown(old(heap), place, size) else old(heap)
      ensures grown ==> i == |old(heap.regions)| && FirstRegion(old(heap.regions), size) == i
      ensures Searching(mem, heap.regions, i, j, size, heap.regions[i].base, block)
      ensures PayloadsKept(old(mem), mem, old(heap.regions), -1, -1)
    {
      hide Rep, Shaped, Placeable, MappingSize, FirstRegion, Span, Aligned, FreshRegion, Searching, PayloadsKept;
      ghost var m0, h0 := mem, heap;
      i, j, grown := 0, 0, false;
      StartSearch(mem, heap.regions, size);
      var currentBigBlock := firstBigBlock;
      var currentBlock := currentBigBlock + HEADER;
      while true
        invariant 0 <= i < |heap.regions| && 0 <= j <= |heap.regions[i].blocks|
        invariant Searching(mem, heap.regions, i, j, size, currentBigBlock, currentBlock)
        invariant heap == if grown then Grown(h0, place, size) else h0
        invariant grown ==> i == |h0.regions| && FirstRegion(h0.regions, size) == i
        invariant h0.regions != [] && h0.regions[0].base == firstBigBlock
        invariant if grown then PayloadsKept(m0, mem, h0.regions, -1, -1) else mem == m0
        decreases !grown, |heap.regions| - i, |heap.regions[i].blocks| - j
      {
        ReadSearch(mem, heap.regions, i, j, size, currentBigBlock, currentBlock);
        if mem[currentBlock] == MAGIC_FREE_MCB {
          if mem[currentBlock + SIZE] >= size {
            KeptAll(mem, heap.regions);
            return currentBlock, i, j, grown;
          } else {
            NextInRegion(mem, heap.regions, i, j, size, currentBigBlock, currentBlock);
            currentBlock := mem[currentBlock + NEXT];
            j := j + 1;
          }
        } else if mem[currentBlock] == MAGIC_USED_MCB {
          NextInRegion(mem, heap.regions, i, j, size, currentBigBlock, currentBlock);
          currentBlock := mem[currentBlock + NEXT];
          j := j + 1;
        } else {
          assert mem[currentBlock] == MAGIC_END_MCB;
          NextRegion(mem, heap.regions, i, j, size, currentBigBlock, currentBlock);
          if mem[currentBigBlock + NEXT] != 0 {
            currentBigBlock := mem[currentBigBlock + NEXT];
            currentBlock := currentBigBlock + HEADER;
            i, j := i + 1, 0;
          } else {
            GrownFits(h0, place, size);
            currentBigBlock := Grow(currentBigBlock, size, place, fill);
            currentBlock := currentBigBlock + HEADER;
            i, j, grown := |h0.regions|, 0, true;
          }
        }
      }
    }

    method Malloc(request: int, place: int, fill: int -> int) returns (addr: int)
      requires Valid() && Legal(heap, Op.Malloc(request, place))
      modifies this
      ensures Valid() && heap == Step(old(heap), Op.Malloc(request, place))
      ensures addr == MallocAddr(old(heap), PayloadSize(request), place)
      ensures PayloadsKept(old(mem), mem, old(heap.regions), -1, -1)
    {
      ghost var m0, h0 := mem, heap;
      MallocSound(heap, request, place);
      var size := PayloadSize(request);
      var block, i, j, grown := Search(size, place, fill);
      ghost var m1, h1 := mem, heap;
      Found(h0, h1, m1, i, j, request, place, grown, h1.regions[i].base, block);
      ReadSearch(m1, h1.regions, i, j, size, h1.regions[i].base, block);
      hide Sound, Rep, Shaped, PayloadsKept, Placeable, MallocStep, MallocAddr, Searching, Carve, FirstRegion, Whole;
      Take(block, size, i, j);
      KeptTwice(m0, m1, mem, h0.regions, h1.regions);
      return block + HEADER;
    }

    /** `mem[block] := MAGIC_FREE_MCB`, with what it does to the whole heap. */
    method MarkFree(block: int, ghost i: int, ghost j: int)
      requires Linked() && 0 <= i < |heap.regions| && 0 <= j < |heap.regions[i].blocks|
      requires block == HeaderAddr(heap.regions[i], j)
      modifies this
      ensures Linked() && SameOutside(old(mem), mem, block, block + SIZE)
      ensures heap == old(heap).(regions := WithBlocks(old(heap.regions), i, Remark(old(heap.regions)[i].blocks, j, false)))
      ensures HeaderAddr(heap.regions[i], j) == block
    {
      hide Rep, Shaped, Remark, Span;
      MarkStep(mem, heap.regions, i, j, false);
      mem := mem[block := MAGIC_FREE_MCB];
      heap := heap.(regions := WithBlocks(heap.regions, i, Remark(heap.regions[i].blocks, j, false)));
    }

    /** A call of __unifyBlocks on blocks j and j+1, with what it does to the whole heap. */
    method UnifyAt(first: int, second: int, ghost i: int, ghost j: int) returns (block: int)
      requires Linked() && 0 <= i < |heap.regions| && 0 <= j < |heap.regions[i].blocks| - 1
      requires first == HeaderAddr(heap.regions[i], j) && second == HeaderAddr(heap.regions[i], j + 1)
      modifies this
      ensures Linked() && block == first
      ensures heap == old(heap).(regions := WithBlocks(old(heap.regions), i, Unify(old(heap.regions)[i].blocks, j)))
      ensures UnifiedAddrs(old(heap.regions)[i], heap.regions[i], j) && HeaderAddr(heap.regions[i], j) == first
      ensures SameOutside(old(mem), mem, first, HeaderAddr(old(heap.regions)[i], j + 2) + HEADER)
    {
      hide Rep, Shaped, Unify, Span, SameOutside, UnifyEffect;
      ghost var m, rs := mem, heap.regions;
      UnifyReads(m, rs, i, j);
      ghost var b, c := rs[i].blocks[j], rs[i].blocks[j + 1];
      block := UnifyBlocks(first, second, Magic(b.used), b.size, PrevAddr(rs[i], j), Magic(c.used), c.size);
      UnifyStep(m, mem, rs, i, j);
      heap := heap.(regions := WithBlocks(rs, i, Unify(rs[i].blocks, j)));
    }

    /** The first half of free: mark block (i, j) free and merge it with free neighbours. */
    method Coalesce(freed: int, ghost i: int, ghost j: int) returns (block: int, ghost k: int)
      requires Linked() && 0 <= i < |heap.regions| && 0 <= j < |heap.regions[i].blocks|
      requires freed == HeaderAddr(heap.regions[i], j)
      modifies this
      ensures Linked()
      ensures heap == old(heap).(regions := WithBlocks(old(heap.regions), i, Release(old(heap.regions)[i].blocks, j)))
      ensures 0 <= k < |heap.regions[i].blocks| && !heap.regions[i].blocks[k].used && block == HeaderAddr(heap.regions[i], k)
      ensures PayloadsKept(old(mem), mem, old(heap.regions), i, j)
    {
      hide Rep, Shaped, PayloadsKept, Span, SameOutside, Remark, Unify, UnifiedAddrs, WithBlocks;
      ghost var m0, rs := mem, heap.regions;
      ghost var blocks := rs[i].blocks;
      block, k := freed, j;
      RemarkAt(rs, i, j);
      MarkFree(block, i, j);
      ghost var m1, rs1 := mem, heap.regions;
      ReadNeighbours(mem, rs1, i, j);
      ghost var left := mem[block + PREV] != 0 && mem[mem[block + PREV]] == MAGIC_FREE_MCB;
      if mem[block + PREV] != 0 && mem[mem[block + PREV]] == MAGIC_FREE_MCB {
        UnifyFacts(rs1, i, j - 1);
        block := UnifyAt(mem[block + PREV], block, i, j - 1);
        k := j - 1;
      }
      ghost var m2, rs2 := mem, heap.regions;
      ReadNeighbours(mem, rs2, i, k);
      ghost var right := mem[mem[block + NEXT]] == MAGIC_FREE_MCB;
      if mem[mem[block + NEXT]] == MAGIC_FREE_MCB {
        UnifyFacts(rs2, i, k);
        block := UnifyAt(block, mem[block + NEXT], i, k);
      }
      Overwritten(rs, i, rs1[i].blocks, rs2[i].blocks, heap.regions[i].blocks);
      CoalesceKept(m0, m1, m2, mem, rs, i, j, rs1[i], rs2[i], left, right);
    }

    /** The second half of free: unlink a wholly free region and give its pages back. */
    method ReleaseRegion(bigBlock: int, ghost i: int)
      requires Linked() && 0 < i < |heap.regions| && bigBlock == heap.regions[i].base
      modifies this
      ensures Linked()
      ensures var r := old(heap.regions)[i];
              heap == Heap(old(heap.regions)[..i] + old(heap.regions)[i + 1..], old(heap.mapped),
                           old(heap.unmapped) + multiset{(r.base, RegionSize(r))})
      ensures Unlinked(old(mem), mem, old(heap.regions), i)
    {
      hide Rep, Shaped, RegionSize;
      ghost var m, rs := mem, heap.regions;
      UnlinkReads(m, rs, i);
      if mem[bigBlock + PREV] != 0 {
        mem := mem[mem[bigBlock + PREV] + NEXT := mem[bigBlock + NEXT]];
      }
      if mem[bigBlock + NEXT] != 0 {
        mem := mem[mem[bigBlock + NEXT] + PREV := mem[bigBlock + PREV]];
      }
      ghost var m1 := mem;
      var length := mem[bigBlock + SIZE];
      mem := map a | a in mem && !(bigBlock <= a < bigBlock + length) :: mem[a];
      UnlinkRep(m, mem, rs, i);
      heap := Heap(rs[..i] + rs[i + 1..], heap.mapped, heap.unmapped + multiset{(bigBlock, length)});
    }

    /** free of the payload of block (i, j). */
    method FreeBlock(addr: int, ghost i: int, ghost j: int)
      requires Linked() && IsPayload(heap.regions, addr, i, j)
      modifies this
      ensures Linked() && heap == FreeStep(old(heap), i, j)
      ensures PayloadsKept(old(mem), mem, old(heap.regions), i, j)
    {
      hide Rep, Shaped, PayloadsKept, Release, SameOutside, FreeStep, Unlinked;
      ghost var m, h := mem, heap;
      ShapedAt(h.regions, i);
      ReleaseKeeps(h.regions[i].blocks, j);
      FreeStepIs(h, i, j);
      var block, k := Coalesce(addr - HEADER, i, j);
      ghost var m1, rs1 := mem, heap.regions;
      ReadNeighbours(m1, rs1, i, k);
      if mem[block + PREV] == 0 && mem[mem[block + NEXT]] == MAGIC_END_MCB {
        ReadCursor(m1, rs1, i, 0);
        ReleaseRegion(block - HEADER, i);
        ReleasedKept(m, m1, mem, h.regions, i, j);
      }
    }

    method Free(addr: int)
      requires Valid() && Legal(heap, Op.Free(addr))
      modifies this
      ensures Valid() && heap == Step(old(heap), Op.Free(addr))
      ensures addr == 0 ==> mem == old(mem)
      ensures forall i, j :: addr != 0 && IsPayload(old(heap.regions), addr, i, j) ==>
                PayloadsKept(old(mem), mem, old(heap.regions), i, j)
    {
      if addr == 0 {
        return;
      }
      ghost var i, j :| IsPayload(heap.regions, addr, i, j);
      FreeSound(heap, addr, i, j);
      OnlyPayload(heap, addr, i, j);
      hide *;
      FreeBlock(addr, i, j);
    }
  }

  // ---------- What a whole call changes ----------

  /** A change confined to the headers j..k and the blocks between them, none of which is in use, keeps every live payload. */
  lemma KeptOutside(m: Memory, m': Memory, rs: seq<Region>, i: int, j: int, k: int, spare: int)
    requires Shaped(rs) && 0 <= i < |rs| && 0 <= j <= k <= |rs[i].blocks|
    requires SameOutside(m, m', HeaderAddr(rs[i], j), HeaderAddr(rs[i], k) + HEADER)
    requires forall l :: j <= l < k && l != spare ==> !rs[i].blocks[l].used
    ensures PayloadsKept(m, m', rs, if spare < 0 then -1 else i, spare)
  {
    forall i', j', x | InPayload(rs, i', j', x) && (i', j') != (i, spare) && x in m ensures x in m' && m'[x] == m[x] {
      PayloadOutside(rs, i, j, k, i', j', x);
    }
  }

  lemma KeptByAppend(m: Memory, m': Memory, rs: seq<Region>, place: int, total: int)
    requires Shaped(rs) && Placeable(rs, place, total)
    requires forall a :: a in m && a != rs[|rs| - 1].base + NEXT && !(place <= a < place + total) ==> a in m' && m'[a] == m[a]
    ensures PayloadsKept(m, m', rs, -1, -1)
  {
    forall i, j, x | InPayload(rs, i, j, x) && x in m ensures x in m' && m'[x] == m[x] {
      PayloadInRegion(rs[i], j);
      var l := |rs| - 1;
      SpanBounds(rs[l].blocks);
      if i != l { assert Apart(rs[i], rs[l]); }
    }
  }

  lemma KeptAll(m: Memory, rs: seq<Region>)
    ensures PayloadsKept(m, m, rs, -1, -1)
  {
  }

  lemma KeptTwice(m: Memory, m1: Memory, m2: Memory, rs: seq<Region>, rs1: seq<Region>)
    requires PayloadsKept(m, m1, rs, -1, -1) && PayloadsKept(m1, m2, rs1, -1, -1) && rs <= rs1
    ensures PayloadsKept(m, m2, rs, -1, -1)
  {
    forall i, j, x | InPayload(rs, i, j, x) && x in m ensures x in m2 && m2[x] == m[x] {
      assert InPayload(rs1, i, j, x);
    }
  }

  // ---------- One change of memory, one change of the block view ----------

  lemma ReplaceAddrs(r: Region, j: int, k: int, mid: seq<Block>, l: int)
    requires 0 <= j <= k <= |r.blocks| && Span(mid) == Span(r.blocks[j..k])
    requires 0 <= l <= |Replace(r.blocks, j, k, mid)|
    ensures var r' := Region(r.base, Replace(r.blocks, j, k, mid));
            && (l <= j ==> HeaderAddr(r', l) == HeaderAddr(r, l))
            && (l >= j + |mid| ==> HeaderAddr(r', l) == HeaderAddr(r, l - |mid| + k - j))
  {
    if l <= j {
      assert Replace(r.blocks, j, k, mid)[..l] == r.blocks[..l];
    }
    if l >= j + |mid| {
      ReplaceTake(r.blocks, j, k, mid, l - |mid| + k - j);
    }
  }

  lemma TakeCut(s: seq<Block>, j: int, k: int, mid: seq<Block>, n: int)
    requires 0 <= j <= k <= n <= |s|
    ensures Replace(s, j, k, mid)[..n + |mid| - (k - j)] == s[..j] + mid + s[k..n]
    ensures s[..n] == s[..j] + s[j..k] + s[k..n]
  {
  }

  lemma ReplaceTake(blocks: seq<Block>, j: int, k: int, mid: seq<Block>, n: int)
    requires 0 <= j <= k <= n <= |blocks| && Span(mid) == Span(blocks[j..k])
    ensures Span(Replace(blocks, j, k, mid)[..n + |mid| - (k - j)]) == Span(blocks[..n])
  {
    var a, b, c := blocks[..j], blocks[j..k], blocks[k..n];
    TakeCut(blocks, j, k, mid, n);
    hide Span;
    SpanThree(a, mid, c);
    SpanThree(a, b, c);
  }

  lemma HalfMapped(m: Memory, rs: seq<Region>, i: int, j: int, size: int)
    requires Rep(m, rs) && Shaped(rs) && 0 <= i < |rs| && 0 <= j < |rs[i].blocks|
    requires Whole(size) && rs[i].blocks[j].size > HEADER + size
    ensures HeaderMapped(m, HeaderAddr(rs[i], j) + HEADER + size)
  {
    SplitReadable(m, rs[i], j, size, PrevBase(rs, i), NextBase(rs, i));
  }

  lemma SplitStep(m: Memory, m': Memory, rs: seq<Region>, i: int, j: int, size: int)
    requires Rep(m, rs) && Shaped(rs) && 0 <= i < |rs| && 0 <= j < |rs[i].blocks|
    requires Whole(size) && !rs[i].blocks[j].used && rs[i].blocks[j].size > HEADER + size
    requires SplitEffect(m, m', HeaderAddr(rs[i], j), MAGIC_FREE_MCB, size, rs[i].blocks[j].size, PrevAddr(rs[i], j))
    ensures var rs' := WithBlocks(rs, i, Replace(rs[i].blocks, j, j + 1, Halves(rs[i].blocks[j], size)));
            && Rep(m', rs') && Shaped(rs') && Extents(rs'[1..]) == Extents(rs[1..])
            && HeaderAddr(rs'[i], j) == HeaderAddr(rs[i], j)
    ensures SameOutside(m, m', HeaderAddr(rs[i], j), HeaderAddr(rs[i], j + 1) + HEADER)
  {
    var r := rs[i];
    HeaderStep(r, j);
    SplitRegion(m, m', r, j, size, PrevBase(rs, i), NextBase(rs, i));
    Commit(m, m', rs, i, Replace(r.blocks, j, j + 1, Halves(r.blocks[j], size)), j, j + 1);
    assert Replace(r.blocks, j, j + 1, Halves(r.blocks[j], size))[..j] == r.blocks[..j];
  }

  lemma MarkStep(m: Memory, rs: seq<Region>, i: int, j: int, used: bool)
    requires Rep(m, rs) && Shaped(rs) && 0 <= i < |rs| && 0 <= j < |rs[i].blocks|
    ensures var rs' := WithBlocks(rs, i, Remark(rs[i].blocks, j, used)); var m' := m[HeaderAddr(rs[i], j) := Magic(used)];
            && Rep(m', rs') && Shaped(rs') && Extents(rs'[1..]) == Extents(rs[1..])
            && m'.Keys == m.Keys && HeaderAddr(rs'[i], j) == HeaderAddr(rs[i], j)
  {
    hide Rep, Extents, HeaderAddr, Replace;
    var r := rs[i];
    ReadCursor(m, rs, i, j);
    ReadCursor(m, rs, i, j + 1);
    HeaderStep(r, j);
    SizedAt(r.blocks, j);
    hide Shaped;
    MarkCells(m, HeaderAddr(r, j), Magic(r.blocks[j].used), r.blocks[j].size, PrevAddr(r, j), Magic(used));
    MarkedStep(m, m[HeaderAddr(r, j) := Magic(used)], rs, i, j, used);
  }

  lemma MarkedStep(m: Memory, m': Memory, rs: seq<Region>, i: int, j: int, used: bool)
    requires Rep(m, rs) && Shaped(rs) && 0 <= i < |rs| && 0 <= j < |rs[i].blocks|
    requires HeaderAt(m', HeaderAddr(rs[i], j), Magic(used), rs[i].blocks[j].size, PrevAddr(rs[i], j), HeaderAddr(rs[i], j + 1))
    requires Relinked(m, m', HeaderAddr(rs[i], j), HeaderAddr(rs[i], j + 1), HeaderAddr(rs[i], j))
    ensures var rs' := WithBlocks(rs, i, Remark(rs[i].blocks, j, used));
            && Rep(m', rs') && Shaped(rs') && Extents(rs'[1..]) == Extents(rs[1..])
            && HeaderAddr(rs'[i], j) == HeaderAddr(rs[i], j)
  {
    var r := rs[i];
    MarkRegion(m, m', r, j, used, PrevBase(rs, i), NextBase(rs, i));
    Commit(m, m', rs, i, Remark(r.blocks, j, used), j, j + 1);
    assert Remark(r.blocks, j, used)[..j] == r.blocks[..j];
  }

  lemma UnifyReads(m: Memory, rs: seq<Region>, i: int, j: int)
    requires Rep(m, rs) && Shaped(rs) && 0 <= i < |rs| && 0 <= j < |rs[i].blocks| - 1
    ensures var r, b, c := rs[i], rs[i].blocks[j], rs[i].blocks[j + 1]; var first, second := HeaderAddr(r, j), HeaderAddr(r, j + 1);
            && Whole(b.size) && Whole(c.size) && second == first + HEADER + b.size
            && HeaderAt(m, first, Magic(b.used), b.size, PrevAddr(r, j), second)
            && HeaderAt(m, second, Magic(c.used), c.size, first, second + HEADER + c.size)
            && HeaderMapped(m, second + HEADER + c.size)
  {
    UnifyReadable(m, rs[i], j, PrevBase(rs, i), NextBase(rs, i));
  }

  /** Header addresses of r, before, and r', after blocks j and j+1 were merged. */
  ghost predicate UnifiedAddrs(r: Region, r': Region, j: int) {
    && 0 <= j < |r'.blocks| == |r.blocks| - 1
    && HeaderAddr(r', j) == HeaderAddr(r, j)
    && HeaderAddr(r', j + 1) == HeaderAddr(r, j + 2)
    && (j + 2 < |r.blocks| ==> HeaderAddr(r', j + 2) == HeaderAddr(r, j + 3))
  }

  lemma UnifyStep(m: Memory, m': Memory, rs: seq<Region>, i: int, j: int)
    requires Rep(m, rs) && Shaped(rs) && 0 <= i < |rs| && 0 <= j < |rs[i].blocks| - 1
    requires UnifyEffect(m, m', HeaderAddr(rs[i], j), Magic(rs[i].blocks[j].used), rs[i].blocks[j].size, PrevAddr(rs[i], j),
                         rs[i].blocks[j + 1].size)
    ensures var rs' := WithBlocks(rs, i, Unify(rs[i].blocks, j));
            && Rep(m', rs') && Shaped(rs') && Extents(rs'[1..]) == Extents(rs[1..])
            && UnifiedAddrs(rs[i], rs'[i], j)
    ensures SameOutside(m, m', HeaderAddr(rs[i], j), HeaderAddr(rs[i], j + 2) + HEADER)
  {
    var r, b, c := rs[i], rs[i].blocks[j], rs[i].blocks[j + 1];
    HeaderStep(r, j);
    HeaderStep(r, j + 1);
    SizedAt(r.blocks, j);
    SizedAt(r.blocks, j + 1);
    UnifyRegion(m, m', r, j, PrevBase(rs, i), NextBase(rs, i));
    Commit(m, m', rs, i, Unify(r.blocks, j), j, j + 2);
    UnifiedKeeps(b, c);
    assert r.blocks[j..j + 2] == [b, c];
    ReplaceAddrs(r, j, j + 2, [Unified(b, c)], j);
    ReplaceAddrs(r, j, j + 2, [Unified(b, c)], j + 1);
    if j + 2 < |r.blocks| { ReplaceAddrs(r, j, j + 2, [Unified(b, c)], j + 2); }
  }

  /** What free learns from the links of block j: whether the blocks around it are free. */
  lemma ReadNeighbours(m: Memory, rs: seq<Region>, i: int, j: int)
    requires Rep(m, rs) && Shaped(rs) && 0 <= i < |rs| && 0 <= j < |rs[i].blocks|
    ensures var block := HeaderAddr(rs[i], j);
            && HeaderMapped(m, block)
            && m[block + PREV] == PrevAddr(rs[i], j) && (j == 0 <==> m[block + PREV] == 0)
            && (j > 0 ==> HeaderMapped(m, m[block + PREV]) && m[m[block + PREV]] == Magic(rs[i].blocks[j - 1].used))
            && m[block + NEXT] == HeaderAddr(rs[i], j + 1) && HeaderMapped(m, m[block + NEXT])
            && m[m[block + NEXT]] == (if j + 1 == |rs[i].blocks| then MAGIC_END_MCB else Magic(rs[i].blocks[j + 1].used))
  {
    ReadCursor(m, rs, i, j);
    ReadCursor(m, rs, i, j + 1);
    if j > 0 {
      ReadCursor(m, rs, i, j - 1);
      HeadersInside(rs[i], j - 1, j);
    }
  }

  lemma RemarkAt(rs: seq<Region>, i: int, j: int)
    requires 0 <= i < |rs| && 0 <= j < |rs[i].blocks|
    ensures var blocks := Remark(rs[i].blocks, j, false);
            && WithBlocks(rs, i, blocks)[i] == Region(rs[i].base, blocks) && |WithBlocks(rs, i, blocks)| == |rs|
            && |blocks| == |rs[i].blocks| && !blocks[j].used
            && forall l :: 0 <= l < |blocks| && l != j ==> blocks[l] == rs[i].blocks[l]
  {
  }

  lemma UnifyFacts(rs: seq<Region>, i: int, j: int)
    requires 0 <= i < |rs| && 0 <= j < |rs[i].blocks| - 1
    ensures var blocks := Unify(rs[i].blocks, j);
            && WithBlocks(rs, i, blocks)[i] == Region(rs[i].base, blocks) && |WithBlocks(rs, i, blocks)| == |rs|
            && |blocks| == |rs[i].blocks| - 1 && blocks[j].used == rs[i].blocks[j].used
            && forall l :: j < l < |blocks| ==> blocks[l] == rs[i].blocks[l + 1]
  {
  }

  /** Rewriting the same region again and again leaves only the last version. */
  lemma Overwritten(rs: seq<Region>, i: int, a: seq<Block>, b: seq<Block>, c: seq<Block>)
    requires 0 <= i < |rs|
    ensures WithBlocks(WithBlocks(rs, i, a), i, b) == WithBlocks(rs, i, b)
    ensures WithBlocks(WithBlocks(rs, i, a), i, c) == WithBlocks(rs, i, c)
    ensures WithBlocks(WithBlocks(rs, i, b), i, c) == WithBlocks(rs, i, c)
  {
  }

  /** All that coalescing writes lies between headers that bound the freed block and its free neighbours. */
  lemma CoalesceKept(m0: Memory, m1: Memory, m2: Memory, m3: Memory, rs: seq<Region>, i: int, j: int,
                     r1: Region, r2: Region, left: bool, right: bool)
    requires Shaped(rs) && 0 <= i < |rs| && 0 <= j < |rs[i].blocks|
    requires r1 == Region(rs[i].base, Remark(rs[i].blocks, j, false)) && |r1.blocks| == |rs[i].blocks|
    requires SameOutside(m0, m1, HeaderAddr(rs[i], j), HeaderAddr(rs[i], j) + SIZE)
    requires if left then j > 0 && !r1.blocks[j - 1].used && r2 == Region(r1.base, Unify(r1.blocks, j - 1)) && UnifiedAddrs(r1, r2, j - 1)
                          && SameOutside(m1, m2, HeaderAddr(r1, j - 1), HeaderAddr(r1, j + 1) + HEADER)
             else r2 == r1 && m2 == m1
    requires var k := if left then j - 1 else j;
             if right then k + 1 < |r2.blocks| && !r2.blocks[k + 1].used
                           && SameOutside(m2, m3, HeaderAddr(r2, k), HeaderAddr(r2, k + 2) + HEADER)
             else m3 == m2
    ensures PayloadsKept(m0, m3, rs, i, j)
  {
    var r := rs[i];
    var k, hi := if left then j - 1 else j, if right then j + 2 else j + 1;
    RemarkAddrs(rs, i, j);
    HeadersInside(r, k, j);
    HeadersInside(r, j, j + 1);
    HeadersInside(r, j + 1, hi);
    assert SameOutside(m0, m3, HeaderAddr(r, k), HeaderAddr(r, hi) + HEADER);
    assert left ==> !r.blocks[j - 1].used by { RemarkAt(rs, i, j); }
    assert right ==> j + 1 < |r.blocks| && !r.blocks[j + 1].used by { RemarkAt(rs, i, j); }
    hide *;
    KeptOutside(m0, m3, rs, i, k, hi, j);
  }

  lemma RemarkAddrs(rs: seq<Region>, i: int, j: int)
    requires Shaped(rs) && 0 <= i < |rs| && 0 <= j < |rs[i].blocks|
    ensures var blocks := Remark(rs[i].blocks, j, false);
            |blocks| == |rs[i].blocks| && Sized(rs[i].blocks) &&
            forall l :: 0 <= l <= |blocks| ==> HeaderAddr(Region(rs[i].base, blocks), l) == HeaderAddr(rs[i], l)
  {
    var r := rs[i];
    var b := r.blocks[j].(used := false);
    SpanOne(r.blocks[j]);
    SpanOne(b);
    assert r.blocks[j..j + 1] == [r.blocks[j]];
    forall l | 0 <= l <= |r.blocks|
      ensures HeaderAddr(Region(r.base, Remark(r.blocks, j, false)), l) == HeaderAddr(r, l)
    {
      ReplaceAddrs(r, j, j + 1, [b], l);
    }
  }

  /** The words Take reads and writes. */
  lemma TakeReadable(m: Memory, rs: seq<Region>, i: int, j: int, size: int)
    requires Rep(m, rs) && Shaped(rs) && 0 <= i < |rs| && 0 <= j < |rs[i].blocks| && Whole(size)
    ensures var r, b, block := rs[i], rs[i].blocks[j], HeaderAddr(rs[i], j);
            && HeaderAt(m, block, Magic(b.used), b.size, PrevAddr(r, j), block + HEADER + b.size)
            && HeaderMapped(m, block + HEADER + b.size)
            && (b.size > HEADER + size ==> HeaderMapped(m, block + HEADER + size))
            && Whole(b.size)
  {
    ReadCursor(m, rs, i, j);
    ReadCursor(m, rs, i, j + 1);
    HeaderStep(rs[i], j);
    SizedAt(rs[i].blocks, j);
    if rs[i].blocks[j].size > HEADER + size { HalfMapped(m, rs, i, j, size); }
  }

  lemma ShapedAt(rs: seq<Region>, i: int)
    requires Shaped(rs) && 0 <= i < |rs|
    ensures Sized(rs[i].blocks) && (rs[i].blocks != [] ==> i > 0 && Mapping(rs[i]))
  {
  }

  lemma TakeStep(m: Memory, m1: Memory, rs: seq<Region>, i: int, j: int, size: int)
    requires Rep(m, rs) && Shaped(rs) && 0 <= i < |rs| && 0 <= j < |rs[i].blocks|
    requires Whole(size) && Fits(rs[i].blocks[j], size)
    requires var b := rs[i].blocks[j];
             if b.size > HEADER + size then
               SplitEffect(m, m1, HeaderAddr(rs[i], j), MAGIC_FREE_MCB, size, b.size, PrevAddr(rs[i], j))
             else m1 == m
    ensures var rs' := WithBlocks(rs, i, Carve(rs[i].blocks, j, size)); var m2 := m1[HeaderAddr(rs[i], j) := MAGIC_USED_MCB];
            && Rep(m2, rs') && Shaped(rs') && Extents(rs'[1..]) == Extents(rs[1..])
            && PayloadsKept(m, m2, rs, -1, -1)
  {
    hide Rep, Shaped, PayloadsKept, SameOutside, SplitEffect;
    var b, block := rs[i].blocks[j], HeaderAddr(rs[i], j);
    MarkedHalves(rs[i].blocks, j, size);
    HeaderStep(rs[i], j);
    ShapedAt(rs, i);
    SizedAt(rs[i].blocks, j);
    if b.size > HEADER + size {
      var rs1 := WithBlocks(rs, i, Replace(rs[i].blocks, j, j + 1, Halves(b, size)));
      SplitStep(m, m1, rs, i, j, size);
      MarkStep(m1, rs1, i, j, true);
      assert WithBlocks(rs1, i, Carve(rs[i].blocks, j, size)) == WithBlocks(rs, i, Carve(rs[i].blocks, j, size));
    } else {
      MarkStep(m1, rs, i, j, true);
    }
    KeptOutside(m, m1[block := MAGIC_USED_MCB], rs, i, j, j + 1, -1);
  }

  /** Splitting and then marking the first half is what Carve says. */
  lemma MarkedHalves(blocks: seq<Block>, j: int, size: int)
    requires 0 <= j < |blocks| && Fits(blocks[j], size)
    ensures blocks[j].size > HEADER + size ==>
              Remark(Replace(blocks, j, j + 1, Halves(blocks[j], size)), j, true) == Carve(blocks, j, size)
    ensures blocks[j].size <= HEADER + size ==> Remark(blocks, j, true) == Carve(blocks, j, size)
  {
  }

  // ---------- Unlinking a region ----------

  /** The neighbours of region i are linked past it; otherwise only its own words may have changed or gone. */
  ghost predicate Unlinked(m: Memory, m': Memory, rs: seq<Region>, i: int) {
    && 0 < i < |rs|
    && rs[i - 1].base + NEXT in m' && m'[rs[i - 1].base + NEXT] == NextBase(rs, i)
    && (i + 1 < |rs| ==> rs[i + 1].base + PREV in m' && m'[rs[i + 1].base + PREV] == rs[i - 1].base)
    && (forall x :: x in m && !(rs[i].base <= x < rs[i].base + RegionSize(rs[i]))
          && x != rs[i - 1].base + NEXT && !(i + 1 < |rs| && x == rs[i + 1].base + PREV)
          ==> x in m' && m'[x] == m[x])
  }

  lemma UnlinkReads(m: Memory, rs: seq<Region>, i: int)
    requires Rep(m, rs) && Shaped(rs) && 0 < i < |rs|
    ensures HeaderAt(m, rs[i].base, MAGIC_BIG_MCB, RegionSize(rs[i]), rs[i - 1].base, NextBase(rs, i))
    ensures HeaderMapped(m, rs[i - 1].base) && rs[i - 1].base != 0 && rs[i].base + 2 * HEADER <= rs[i].base + RegionSize(rs[i])
    ensures NextBase(rs, i) != 0 <==> i + 1 < |rs|
    ensures i + 1 < |rs| ==> HeaderMapped(m, rs[i + 1].base)
    ensures OutsideOf(rs, i, i - 1)
    ensures i + 1 < |rs| ==> OutsideOf(rs, i, i + 1) && rs[i - 1].base + NEXT != rs[i + 1].base + PREV
  {
    ReadCursor(m, rs, i, 0);
    ReadCursor(m, rs, i - 1, 0);
    NextBaseNull(rs, i);
    OutsideOther(rs, i, i - 1);
    SpanBounds(rs[i].blocks);
    if i + 1 < |rs| {
      ReadCursor(m, rs, i + 1, 0);
      OutsideOther(rs, i, i + 1);
      OutsideOther(rs, i - 1, i + 1);
      SpanBounds(rs[i - 1].blocks);
    }
  }

  /** Region k's BIG header does not touch region i. */
  ghost predicate OutsideOf(rs: seq<Region>, i: int, k: int)
    requires 0 <= i < |rs| && 0 <= k < |rs|
  {
    rs[k].base + HEADER <= rs[i].base || rs[i].base + RegionSize(rs[i]) <= rs[k].base
  }

  lemma OutsideOther(rs: seq<Region>, i: int, k: int)
    requires Shaped(rs) && 0 <= i < |rs| && 0 <= k < |rs| && i != k
    ensures OutsideOf(rs, i, k)
  {
    SpanBounds(rs[k].blocks);
    assert Apart(rs[if i < k then i else k], rs[if i < k then k else i]);
  }

  lemma UnlinkRep(m: Memory, m': Memory, rs: seq<Region>, i: int)
    requires Rep(m, rs) && Shaped(rs) && 0 < i < |rs|
    requires Unlinked(m, m', rs, i)
    ensures Rep(m', rs[..i] + rs[i + 1..]) && Shaped(rs[..i] + rs[i + 1..])
  {
    hide Shaped, RegionRep, Unlinked;
    var rs' := rs[..i] + rs[i + 1..];
    forall k | 0 <= k < |rs'| ensures RegionRep(m', rs'[k], PrevBase(rs', k), NextBase(rs', k)) {
      UnlinkRegion(m, m', rs, i, if k < i then k else k + 1);
    }
    UnlinkShaped(rs, i);
  }

  lemma UnlinkShaped(rs: seq<Region>, i: int)
    requires Shaped(rs) && 0 < i < |rs|
    ensures Shaped(rs[..i] + rs[i + 1..])
  {
    var rs' := rs[..i] + rs[i + 1..];
    forall k, l | 0 <= k < l < |rs'| ensures Apart(rs'[k], rs'[l]) {
      assert Apart(rs[if k < i then k else k + 1], rs[if l < i then l else l + 1]);
    }
  }

  /** One region k that stays: its words are the same but for the link that skipped region i. */
  lemma UnlinkRegion(m: Memory, m': Memory, rs: seq<Region>, i: int, k: int)
    requires Rep(m, rs) && Shaped(rs) && 0 < i < |rs| && 0 <= k < |rs| && k != i
    requires Unlinked(m, m', rs, i)
    ensures RegionRep(m', rs[k], if k == i + 1 then rs[i - 1].base else PrevBase(rs, k),
                      if k == i - 1 then NextBase(rs, i) else NextBase(rs, k))
  {
    hide Rep, Shaped, RegionRep;
    UnlinkApart(rs, i, k);
    KeptLinks(m, rs, k);
    RegionRelink(m, m', rs[k], PrevBase(rs, k), NextBase(rs, k),
                 if k == i + 1 then rs[i - 1].base else PrevBase(rs, k), if k == i - 1 then NextBase(rs, i) else NextBase(rs, k));
  }

  /** Region k's words are none of region i's, nor among the links rewritten in other regions. */
  lemma UnlinkApart(rs: seq<Region>, i: int, k: int)
    requires Shaped(rs) && 0 < i < |rs| && 0 <= k < |rs| && k != i
    ensures Sized(rs[k].blocks) && RegionSize(rs[k]) >= 2 * HEADER && Apart(rs[i], rs[k])
    ensures k != i - 1 ==> OutsideOf(rs, k, i - 1)
    ensures i + 1 < |rs| && k != i + 1 ==> OutsideOf(rs, k, i + 1)
  {
    ShapedAt(rs, k);
    SpanBounds(rs[k].blocks);
    if k != i - 1 { OutsideOther(rs, k, i - 1); }
    if i + 1 < |rs| && k != i + 1 { OutsideOther(rs, k, i + 1); }
    assert Apart(rs[if i < k then i else k], rs[if i < k then k else i]);
  }

  lemma KeptLinks(m: Memory, rs: seq<Region>, k: int)
    requires Rep(m, rs) && 0 <= k < |rs|
    ensures RegionRep(m, rs[k], PrevBase(rs, k), NextBase(rs, k)) && HeaderMapped(m, rs[k].base)
    ensures HeaderAt(m, rs[k].base, MAGIC_BIG_MCB, RegionSize(rs[k]), PrevBase(rs, k), NextBase(rs, k))
    ensures Mapped(m, rs[k].base, rs[k].base + RegionSize(rs[k]))
  {
  }

  /** Steps name the freed block by its address, which determines it. */
  lemma OnlyPayload(h: Heap, addr: int, i: int, j: int)
    requires Shaped(h.regions) && addr != 0 && IsPayload(h.regions, addr, i, j)
    ensures Step(h, Op.Free(addr)) == FreeStep(h, i, j)
    ensures forall i', j' :: IsPayload(h.regions, addr, i', j') ==> i' == i && j' == j
  {
    forall i', j' | IsPayload(h.regions, addr, i', j') ensures i' == i && j' == j {
      PayloadUnique(h.regions, addr, i, j, i', j');
    }
  }

  /** Both outcomes of a free, in terms of the chain after coalescing. */
  lemma FreeStepIs(h: Heap, i: int, j: int)
    requires 0 <= i < |h.regions| && 0 <= j < |h.regions[i].blocks|
    ensures var blocks := Release(h.regions[i].blocks, j); var rs := WithBlocks(h.regions, i, blocks);
            && (|blocks| != 1 ==> FreeStep(h, i, j) == h.(regions := rs))
            && (|blocks| == 1 && RegionSize(rs[i]) == RegionSize(h.regions[i])
                ==> FreeStep(h, i, j) == Heap(rs[..i] + rs[i + 1..], h.mapped, h.unmapped + multiset{(rs[i].base, RegionSize(rs[i]))}))
  {
    var rs := WithBlocks(h.regions, i, Release(h.regions[i].blocks, j));
    assert rs[..i] == h.regions[..i] && rs[i + 1..] == h.regions[i + 1..];
  }

  lemma ReleaseOne(blocks: seq<Block>, j: int)
    requires 0 <= j < |blocks| && |Release(blocks, j)| == 1
    ensures forall l :: 0 <= l < |blocks| && l != j ==> !blocks[l].used
  {
    var freed := Remark(blocks, j, false);
    assert |freed| == |blocks| && forall l :: 0 <= l < |blocks| && l != j ==> freed[l] == blocks[l];
    var left, k := MergedLeft(freed, j), MergePoint(freed, j);
    assert j > 0 ==> !freed[j - 1].used;
    assert |left| <= 2;
  }

  lemma ReleasedKept(m: Memory, m1: Memory, m2: Memory, rs: seq<Region>, i: int, j: int)
    requires Shaped(rs) && 0 < i < |rs| && 0 <= j < |rs[i].blocks| && PayloadsKept(m, m1, rs, i, j)
    requires var blocks := Release(rs[i].blocks, j);
             && |blocks| == 1 && RegionSize(Region(rs[i].base, blocks)) == RegionSize(rs[i])
             && Unlinked(m1, m2, WithBlocks(rs, i, blocks), i)
    ensures PayloadsKept(m, m2, rs, i, j)
  {
    ReleaseOne(rs[i].blocks, j);
    forall i', j', x | InPayload(rs, i', j', x) && (i', j') != (i, j) && x in m ensures x in m2 && m2[x] == m[x] {
      PayloadAway(rs, i', j', x, i);
      PayloadAway(rs, i', j', x, i - 1);
      if i + 1 < |rs| { PayloadAway(rs, i', j', x, i + 1); }
    }
  }

  /** A payload word lies in no other region and in no BIG header. */
  lemma PayloadAway(rs: seq<Region>, i: int, j: int, x: int, k: int)
    requires Shaped(rs) && InPayload(rs, i, j, x) && 0 <= k < |rs|
    ensures i != k ==> !(rs[k].base <= x < rs[k].base + RegionSize(rs[k]))
    ensures !(rs[k].base <= x < rs[k].base + HEADER)
  {
    ShapedAt(rs, i);
    ShapedAt(rs, k);
    PayloadInRegion(rs[i], j);
    SpanBounds(rs[k].blocks);
    if i != k { assert Apart(rs[if i < k then i else k], rs[if i < k then k else i]); }
  }

  // ---------- Walking the chain ----------

  lemma ReadCursor(m: Memory, rs: seq<Region>, i: int, j: int)
    requires Rep(m, rs) && 0 <= i < |rs| && 0 <= j <= |rs[i].blocks|
    ensures BlockHeaderAt(m, rs[i], j)
    ensures HeaderAt(m, rs[i].base, MAGIC_BIG_MCB, RegionSize(rs[i]), PrevBase(rs, i), NextBase(rs, i))
    ensures HeaderAddr(rs[i], 0) == rs[i].base + HEADER
  {
    ReadHeader(m, rs[i], j, PrevBase(rs, i), NextBase(rs, i));
    HeaderEnds(rs[i]);
  }

  /** The end of the chain is recognised by a null link. */
  lemma NextBaseNull(rs: seq<Region>, i: int)
    requires Shaped(rs) && 0 <= i < |rs|
    ensures NextBase(rs, i) == 0 <==> i + 1 == |rs|
  {
  }

  /** The search stands at block j of region i (or at its END header), and nothing before it fits. */
  ghost predicate Searching(m: Memory, rs: seq<Region>, i: int, j: int, size: int, bigBlock: int, block: int) {
    && Rep(m, rs) && Shaped(rs) && 0 <= i < |rs| && 0 <= j <= |rs[i].blocks|
    && bigBlock == rs[i].base && block == HeaderAddr(rs[i], j)
    && (forall k :: 0 <= k < i ==> !HasFit(rs[k], size))
    && (forall k :: 0 <= k < j ==> !Fits(rs[i].blocks[k], size))
  }

  lemma StartSearch(m: Memory, rs: seq<Region>, size: int)
    requires Rep(m, rs) && Shaped(rs)
    ensures |rs| > 0 && Searching(m, rs, 0, 0, size, rs[0].base, rs[0].base + HEADER)
  {
    HeaderEnds(rs[0]);
  }

  /** What the words under the cursor say. */
  lemma ReadSearch(m: Memory, rs: seq<Region>, i: int, j: int, size: int, bigBlock: int, block: int)
    requires Searching(m, rs, i, j, size, bigBlock, block)
    ensures 0 <= i < |rs| && 0 <= j <= |rs[i].blocks| && block == HeaderAddr(rs[i], j) && bigBlock == rs[i].base
    ensures HeaderMapped(m, block) && HeaderMapped(m, bigBlock) && BlockHeaderAt(m, rs[i], j) && Rep(m, rs) && Shaped(rs)
    ensures m[bigBlock + NEXT] == NextBase(rs, i) && (NextBase(rs, i) == 0 <==> i + 1 == |rs|)
  {
    ReadCursor(m, rs, i, j);
    NextBaseNull(rs, i);
  }

  lemma NextInRegion(m: Memory, rs: seq<Region>, i: int, j: int, size: int, bigBlock: int, block: int)
    requires Searching(m, rs, i, j, size, bigBlock, block) && 0 <= i < |rs|
    requires j < |rs[i].blocks| && !Fits(rs[i].blocks[j], size)
    ensures j + 1 <= |rs[i].blocks| && Searching(m, rs, i, j + 1, size, bigBlock, HeaderAddr(rs[i], j + 1))
  {
  }

  lemma NextRegion(m: Memory, rs: seq<Region>, i: int, j: int, size: int, bigBlock: int, block: int)
    requires Searching(m, rs, i, j, size, bigBlock, block) && 0 <= i < |rs| && j == |rs[i].blocks|
    ensures i + 1 < |rs| ==> Searching(m, rs, i + 1, 0, size, rs[i + 1].base, rs[i + 1].base + HEADER)
    ensures i + 1 == |rs| ==> FirstRegion(rs, size) == |rs| && Rep(m, rs) && Shaped(rs)
  {
    assert !HasFit(rs[i], size);
    if i + 1 < |rs| { HeaderEnds(rs[i + 1]); }
  }

  /** The heap after mapping a region for `size`, before anything is taken from it. */
  ghost function Grown(h: Heap, place: int, size: int): Heap
    requires size > 0
  {
    Heap(h.regions + [FreshRegion(place, size)], h.mapped + multiset{(place, MappingSize(size))}, h.unmapped)
  }

  /** Where the search stops is the block the specification names. */
  lemma Found(h0: Heap, h: Heap, m: Memory, i: int, j: int, request: int, place: int, grown: bool, bigBlock: int, block: int)
    requires request >= 0
    requires var size := PayloadSize(request);
             && Searching(m, h.regions, i, j, size, bigBlock, block)
             && h == (if grown then Grown(h0, place, size) else h0)
             && (grown ==> i == |h0.regions| && FirstRegion(h0.regions, size) == i)
             && j < |h.regions[i].blocks| && Fits(h.regions[i].blocks[j], size)
    ensures var size := PayloadSize(request);
            && MallocAddr(h0, size, place) == block + HEADER
            && MallocStep(h0, size, place) == h.(regions := WithBlocks(h.regions, i, Carve(h.regions[i].blocks, j, size)))
  {
    var size := PayloadSize(request);
    assert FirstFit(h.regions[i].blocks, size) == j;
    assert HasFit(h.regions[i], size);
    assert FirstRegion(h.regions, size) == i;
    assert h.regions == Searched(h0.regions, size, place);
  }

  /** A region just mapped always fits, so no second one is ever mapped. */
  lemma GrownFits(h: Heap, place: int, size: int)
    requires size > 0
    ensures FirstRegion(Grown(h, place, size).regions, size) < |h.regions| + 1
  {
    var r := FreshRegion(place, size);
    assert Fits(r.blocks[0], size);
    assert HasFit(r, size);
    assert Grown(h, place, size).regions[|h.regions|] == r;
  }

  lemma Unplaced(rs: seq<Region>, place: int, size: int)
    requires Shaped(rs) && size > 0 && Placeable(rs, place, MappingSize(size))
    ensures var last := rs[|rs| - 1].base; last + HEADER <= place || place + MappingSize(size) <= last
    ensures PageAligned(place)
  {
    SpanBounds(rs[|rs| - 1].blocks);
  }

  lemma GrowReadable(m: Memory, rs: seq<Region>, place: int, size: int)
    requires Rep(m, rs) && Shaped(rs) && size > 0 && Placeable(rs, place, MappingSize(size))
    ensures |rs| > 0 && HeaderMapped(m, rs[|rs| - 1].base) && PageAligned(place)
    ensures var last := rs[|rs| - 1].base; last + HEADER <= place || place + MappingSize(size) <= last
  {
    Unplaced(rs, place, size);
    ReadCursor(m, rs, |rs| - 1, 0);
  }

  lemma NoneFits(h: Heap, place: int, size: int)
    requires size > 0 && FirstRegion(h.regions, size) == |h.regions|
    ensures forall k :: 0 <= k < |h.regions| ==> !HasFit(Grown(h, place, size).regions[k], size)
    ensures Grown(h, place, size).regions[|h.regions|] == FreshRegion(place, size)
  {
  }

  lemma GrownSearch(m: Memory, m': Memory, h0: Heap, size: int, place: int)
    requires Rep(m, h0.regions) && Shaped(h0.regions) && Whole(size) && Placeable(h0.regions, place, MappingSize(size))
    requires FirstRegion(h0.regions, size) == |h0.regions|
    requires RegionRep(m', FreshRegion(place, size), h0.regions[|h0.regions| - 1].base, 0)
    requires var link := h0.regions[|h0.regions| - 1].base + NEXT; link in m' && m'[link] == place
    requires forall a :: a in m && a != h0.regions[|h0.regions| - 1].base + NEXT && !(place <= a < place + MappingSize(size))
               ==> a in m' && m'[a] == m[a]
    ensures Searching(m', Grown(h0, place, size).regions, |h0.regions|, 0, size, place, place + HEADER)
    ensures PayloadsKept(m, m', h0.regions, -1, -1)
  {
    hide Rep, RegionRep, Placeable, PayloadsKept, FirstRegion, Shaped, MappingSize;
    FreshRegionFits(h0.regions, place, size);
    NoneFits(h0, place, size);
    AppendRep(m, m', h0.regions, FreshRegion(place, size));
    KeptByAppend(m, m', h0.regions, place, MappingSize(size));
    HeaderEnds(FreshRegion(place, size));
  }

  /** The chain after a new region has been linked behind the last one. */
  lemma AppendRep(m: Memory, m': Memory, rs: seq<Region>, r: Region)
    requires Rep(m, rs) && Shaped(rs) && Shaped(rs + [r])
    requires RegionRep(m', r, rs[|rs| - 1].base, 0)
    requires var link := rs[|rs| - 1].base + NEXT; link in m' && m'[link] == r.base
    requires forall a :: a in m && a != rs[|rs| - 1].base + NEXT && !(r.base <= a < r.base + RegionSize(r)) ==> a in m' && m'[a] == m[a]
    ensures Rep(m', rs + [r])
  {
    assert |rs| > 0;
    hide Shaped, RegionRep;
    var rs' := rs + [r];
    forall k | 0 <= k < |rs'| ensures RegionRep(m', rs'[k], PrevBase(rs', k), NextBase(rs', k)) {
      if k < |rs| {
        AppendRegion(m, m', rs, r, k);
        assert PrevBase(rs', k) == PrevBase(rs, k) && NextBase(rs', k) == if k + 1 < |rs| then NextBase(rs, k) else r.base;
      } else {
        assert rs'[k] == r && PrevBase(rs', k) == rs[|rs| - 1].base && NextBase(rs', k) == 0;
      }
    }
  }

  lemma AppendRegion(m: Memory, m': Memory, rs: seq<Region>, r: Region, k: int)
    requires Rep(m, rs) && Shaped(rs) && Shaped(rs + [r]) && 0 <= k < |rs|
    requires var link := rs[|rs| - 1].base + NEXT; link in m' && m'[link] == r.base
    requires forall a :: a in m && a != rs[|rs| - 1].base + NEXT && !(r.base <= a < r.base + RegionSize(r)) ==> a in m' && m'[a] == m[a]
    ensures RegionRep(m', rs[k], PrevBase(rs, k), if k + 1 < |rs| then NextBase(rs, k) else r.base)
  {
    hide Rep, Shaped, RegionRep;
    AppendApart(rs, r, k);
    KeptLinks(m, rs, k);
    RegionRelink(m, m', rs[k], PrevBase(rs, k), NextBase(rs, k), PrevBase(rs, k), if k + 1 < |rs| then NextBase(rs, k) else r.base);
  }

  /** Region k is apart from the one appended and from the BIG header of the last. */
  lemma AppendApart(rs: seq<Region>, r: Region, k: int)
    requires Shaped(rs) && Shaped(rs + [r]) && 0 <= k < |rs|
    ensures Sized(rs[k].blocks) && RegionSize(rs[k]) >= 2 * HEADER && Apart(rs[k], r)
    ensures k < |rs| - 1 ==> OutsideOf(rs, k, |rs| - 1)
  {
    ShapedAt(rs, k);
    SpanBounds(rs[k].blocks);
    if k < |rs| - 1 { OutsideOther(rs, k, |rs| - 1); }
    assert (rs + [r])[k] == rs[k] && Apart((rs + [r])[k], (rs + [r])[|rs|]);
  }

  lemma FreshMapped(m: Memory, place: int, size: int)
    requires Whole(size) && PageAligned(place)
    requires forall k :: 0 <= k < MappingSize(size) / 4 ==> place + Words(k) in m
    ensures Mapped(m, place, place + MappingSize(size))
    ensures HeaderMapped(m, place) && HeaderMapped(m, place + HEADER) && HeaderMapped(m, place + MappingSize(size) - HEADER)
  {
    WordsMapped(m, place, MappingSize(size));
    PageIsAligned(place);
    PageIsAligned(MappingSize(size));
    AlignedSum(place, MappingSize(size));
    assert HEADER == Units(1);
    AlignedSum(place, HEADER);
    AlignedSum(place + MappingSize(size), HEADER);
    hide Aligned, PageAligned, WordAligned, MappingSize;
    AlignedWords(place);
    AlignedWords(place + HEADER);
    AlignedWords(place + MappingSize(size) - HEADER);
  }

  function NewWords(place: int, total: int, fill: int -> int): (words: Memory)
    ensures forall k :: 0 <= k < total / 4 ==> place + Words(k) in words
    ensures forall a :: a in words ==> place <= a < place + total
  {
    map k: int | 0 <= k < total / 4 :: place + Words(k) := fill(place + Words(k))
  }

  lemma WordsMapped(m: Memory, place: int, total: int)
    requires PageAligned(place) && PageAligned(total)
    requires forall k :: 0 <= k < total / 4 ==> place + Words(k) in m
    ensures Mapped(m, place, place + total)
  {
    var p, t :| place == Pages(p) && total == Pages(t);
    forall a {:trigger WordAligned(a)} | place <= a < place + total && WordAligned(a) ensures a in m {
      var l :| a == Words(l);
      assert a == place + Words(l - 0x400 * p);
    }
  }

  lemma FreshRep(m: Memory, place: int, size: int, last: int)
    requires Whole(size)
    requires var total := MappingSize(size); var block, end := place + HEADER, place + total - HEADER;
             && HeaderAt(m, place, MAGIC_BIG_MCB, total, last, 0)
             && HeaderAt(m, block, MAGIC_FREE_MCB, total - 3 * HEADER, 0, end)
             && HeaderAt(m, end, MAGIC_END_MCB, 0, block, 0)
             && Mapped(m, place, place + total)
    ensures RegionRep(m, FreshRegion(place, size), last, 0)
  {
    var b := FreshRegion(place, size).blocks[0];
    assert [b][1..] == [];
    SpanOne(b);
  }

  /** A change of blocks j..k of one region, committed to the whole chain. */
  lemma Commit(m: Memory, m': Memory, rs: seq<Region>, i: int, blocks: seq<Block>, j: int, k: int)
    requires Rep(m, rs) && Shaped(rs) && 0 <= i < |rs| && 0 <= j < k <= |rs[i].blocks|
    requires RegionRep(m', Region(rs[i].base, blocks), PrevBase(rs, i), NextBase(rs, i))
    requires Sized(blocks) && Span(blocks) == Span(rs[i].blocks)
    requires SameOutside(m, m', HeaderAddr(rs[i], j), HeaderAddr(rs[i], k) + HEADER)
    ensures var rs' := WithBlocks(rs, i, blocks);
            Rep(m', rs') && Shaped(rs') && Extents(rs'[1..]) == Extents(rs[1..])
  {
    HeadersInside(rs[i], j, k);
    SpanBounds(rs[i].blocks);
    Lift(m, m', rs, i, blocks, HeaderAddr(rs[i], j), HeaderAddr(rs[i], k) + HEADER);
  }

  lemma WordsOfStatic(place: int)
    requires WordAligned(place)
    ensures forall a {:trigger WordAligned(a)} :: place <= a < place + 2 * HEADER && WordAligned(a) ==>
              a == place || a == place + 4 || a == place + 8 || a == place + 12
              || a == place + 16 || a == place + 20 || a == place + 24 || a == place + 28
  {
    var k :| place == Words(k);
    forall a | place <= a < place + 2 * HEADER && WordAligned(a)
      ensures a == place || a == place + 4 || a == place + 8 || a == place + 12
              || a == place + 16 || a == place + 20 || a == place + 24 || a == place + 28
    {
      var l :| a == Words(l);
    }
  }
}
