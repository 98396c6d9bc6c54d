/**
  realloc: early return, resize in place, or move.  Resizing in place moves the
  header of the free block after the chunk but leaves the link back to it, in
  the header after that, pointing at the old place.
 */
module ReallocHeap {
  import opened HeapBlocks
  import opened HeapMemory
  import opened MallocHeap

  // ---------- Resizing on the block view ----------

  /** When realloc resizes block j without moving it: the next block is free and, when growing, larger by a header. */
  predicate InPlace(blocks: seq<Block>, j: int, size: int)
    requires 0 <= j < |blocks|
  {
    var diff := size - blocks[j].size;
    && j + 1 < |blocks| && !blocks[j + 1].used
    && ((diff > 0 && blocks[j + 1].size > diff + HEADER) || diff < 0)
  }

  function ResizedPair(b: Block, c: Block, size: int): seq<Block> {
    [Block(true, size), Block(false, c.size - (size - b.size))]
  }

  function Resized(blocks: seq<Block>, j: int, size: int): seq<Block>
    requires 0 <= j < |blocks| - 1
  {
    Replace(blocks, j, j + 2, ResizedPair(blocks[j], blocks[j + 1], size))
  }

  lemma ResizedKeeps(b: Block, c: Block, size: int)
    requires Whole(b.size) && Whole(c.size) && Whole(size) && c.size > size - b.size
    ensures Sized(ResizedPair(b, c, size)) && Span(ResizedPair(b, c, size)) == Span([b, c])
  {
    var p := ResizedPair(b, c, size);
    AlignedSum(b.size, size);
    AlignedSum(c.size, size - b.size) by { AlignedSum(size, b.size); }
    SpanTwo(b, c);
    SpanTwo(p[0], p[1]);
    SizedTwo(p[0], p[1]);
  }

  // ---------- changeChunkSize on memory ----------

  /** Both headers are right again, the words of the shorter payload and of the old header are untouched, and nothing else changed. */
  ghost predicate ResizeEffect(m: Memory, m': Memory, chunk: int, n: int, n': int, diff: int, prev: int) {
    var end := chunk + 2 * HEADER + n + n';
    && HeaderAt(m', chunk, MAGIC_USED_MCB, n + diff, prev, chunk + HEADER + n + diff)
    && HeaderAt(m', chunk + HEADER + n + diff, MAGIC_FREE_MCB, n' - diff, chunk, end)
    && SameOutside(m, m', chunk, end)
    && SameIn(m, m', chunk + HEADER, chunk + HEADER + (if diff < 0 then n + diff else n))
    && HeaderAt(m', chunk + HEADER + n, MAGIC_FREE_MCB, n', chunk, end)
  }

  lemma ResizeReads(m: Memory, rs: seq<Region>, i: int, j: int, size: int)
    requires Rep(m, rs) && Shaped(rs) && 0 <= i < |rs| && 0 <= j < |rs[i].blocks| && Whole(size)
    requires InPlace(rs[i].blocks, j, size) && rs[i].blocks[j].used
    ensures var r, b, c, chunk := rs[i], rs[i].blocks[j], rs[i].blocks[j + 1], HeaderAddr(rs[i], j);
            && Whole(b.size) && Whole(c.size) && c.size > size - b.size && size - b.size != 0
            && HeaderAt(m, chunk, MAGIC_USED_MCB, b.size, PrevAddr(r, j), chunk + HEADER + b.size)
            && HeaderAt(m, chunk + HEADER + b.size, MAGIC_FREE_MCB, c.size, chunk, chunk + 2 * HEADER + b.size + c.size)
            && HeaderMapped(m, chunk + HEADER + size)
            && size - b.size <= c.size - HEADER && HEADER <= (if size < b.size then b.size - size else size - b.size)
  {
    var r, b, c := rs[i], rs[i].blocks[j], rs[i].blocks[j + 1];
    UnifyReads(m, rs, i, j);
    ShapedAt(rs, i);
    ReadCursor(m, rs, i, j);
    HeaderAligned(r, j);
    HeadersInside(r, j, j + 2);
    HeaderStep(r, j);
    HeaderStep(r, j + 1);
    AlignedSum(HeaderAddr(r, j), size);
    AlignedWords(HeaderAddr(r, j) + HEADER + size);
    AlignedSum(size, b.size);
    WholeApart(size, b.size);
    HeadersInside(r, j + 1, j + 2);
    RegionWords(m, rs, i);
  }

  lemma RegionWords(m: Memory, rs: seq<Region>, i: int)
    requires Rep(m, rs) && 0 <= i < |rs|
    ensures Mapped(m, rs[i].base, rs[i].base + RegionSize(rs[i]))
  {
  }

  lemma WholeApart(a: int, b: int)
    requires Whole(a) && Whole(b) && a != b
    ensures a - b >= HEADER || b - a >= HEADER
  {
    var k, l :| a == Units(k) && b == Units(l);
  }

  /** The chain with the one stale link repaired represents the resized blocks. */
  lemma ResizeStep(m: Memory, m': Memory, m'': Memory, rs: seq<Region>, i: int, j: int, size: int)
    requires Rep(m, rs) && Shaped(rs) && 0 <= i < |rs| && 0 <= j < |rs[i].blocks| && Whole(size)
    requires InPlace(rs[i].blocks, j, size) && rs[i].blocks[j].used
    requires var b, c := rs[i].blocks[j], rs[i].blocks[j + 1];
             && ResizeEffect(m, m', HeaderAddr(rs[i], j), b.size, c.size, size - b.size, PrevAddr(rs[i], j))
             && m'' == m'[HeaderAddr(rs[i], j + 2) + PREV := HeaderAddr(rs[i], j) + HEADER + size]
    ensures var rs' := WithBlocks(rs, i, Resized(rs[i].blocks, j, size));
            && Rep(m'', rs') && Shaped(rs') && Extents(rs'[1..]) == Extents(rs[1..])
            && HeaderAddr(rs'[i], j) == HeaderAddr(rs[i], j) && HeaderAddr(rs'[i], j + 1) == HeaderAddr(rs[i], j) + HEADER + size
            && HeaderAddr(rs'[i], j + 2) == HeaderAddr(rs[i], j + 2)
    ensures HeaderMapped(m, HeaderAddr(rs[i], j + 2))
  {
    hide Rep, Shaped, RegionRep, Span, Sized, Aligned, ResizeEffect, HeaderAddr;
    var r, b, c := rs[i], rs[i].blocks[j], rs[i].blocks[j + 1];
    var pair := ResizedPair(b, c, size);
    ResizeReads(m, rs, i, j, size);
    ReadCursor(m, rs, i, j + 2);
    HeaderStep(r, j);
    HeaderStep(r, j + 1);
    ShapedAt(rs, i);
    ResizedKeeps(b, c, size);
    assert r.blocks[j..j + 2] == [b, c];
    ResizeRespliced(m, m', m'', r, j, size);
    KeptLinks(m, rs, i);
    Splice(m, m'', r, j, j + 2, pair, PrevBase(rs, i), NextBase(rs, i));
    Commit(m, m'', rs, i, Resized(r.blocks, j, size), j, j + 2);
    ResizeAddrs(r, j, size);
  }

  lemma ResizeAddrs(r: Region, j: int, size: int)
    requires 0 <= j < |r.blocks| - 1
    ensures var r' := Region(r.base, Resized(r.blocks, j, size));
            && HeaderAddr(r', j) == HeaderAddr(r, j) && HeaderAddr(r', j + 1) == HeaderAddr(r, j) + HEADER + size
            && HeaderAddr(r', j + 2) == HeaderAddr(r, j + 2)
  {
    var b, c := r.blocks[j], r.blocks[j + 1];
    var pair := ResizedPair(b, c, size);
    SpanTwo(b, c);
    SpanTwo(pair[0], pair[1]);
    assert r.blocks[j..j + 2] == [b, c];
    ReplaceAddrs(r, j, j + 2, pair, j);
    ReplaceAddrs(r, j, j + 2, pair, j + 2);
    HeaderStep(Region(r.base, Resized(r.blocks, j, size)), j);
  }

  lemma ResizeRespliced(m: Memory, m': Memory, m'': Memory, r: Region, j: int, size: int)
    requires 0 <= j < |r.blocks| - 1
    requires var b, c, chunk := r.blocks[j], r.blocks[j + 1], HeaderAddr(r, j);
             && b.size > 0 && c.size > 0
             && HeaderAddr(r, j + 2) == chunk + 2 * HEADER + b.size + c.size
             && ResizeEffect(m, m', chunk, b.size, c.size, size - b.size, PrevAddr(r, j))
             && HeaderMapped(m, HeaderAddr(r, j + 2))
             && m'' == m'[HeaderAddr(r, j + 2) + PREV := chunk + HEADER + size]
    requires 0 < size < r.blocks[j].size + r.blocks[j + 1].size
    ensures Respliced(m, m'', r, j, j + 2, ResizedPair(r.blocks[j], r.blocks[j + 1], size))
  {
    var b, c, chunk := r.blocks[j], r.blocks[j + 1], HeaderAddr(r, j);
    var pair := ResizedPair(b, c, size);
    hide HeaderAddr;
    RelinkedOne(m, m', m'', chunk, chunk + 2 * HEADER + b.size + c.size, chunk + HEADER + size);
    SegmentTwo(m'', chunk, PrevAddr(r, j), pair[0], pair[1]);
  }

  lemma RelinkedOne(m: Memory, m': Memory, m'': Memory, from: int, next: int, last: int)
    requires from <= next && SameOutside(m, m', from, next) && HeaderMapped(m, next) && m'' == m'[next + PREV := last]
    ensures Relinked(m, m'', from, next, last)
  {
    assert m''.Keys == m'.Keys;
  }

  method ChangeChunkSize(alloc: Allocator, chunk: int, sizeDiff: int, ghost n: int, ghost n': int, ghost prev: int)
    requires HeaderAt(alloc.mem, chunk, MAGIC_USED_MCB, n, prev, chunk + HEADER + n)
    requires HeaderAt(alloc.mem, chunk + HEADER + n, MAGIC_FREE_MCB, n', chunk, chunk + 2 * HEADER + n + n')
    requires 0 < n && 0 < n' && sizeDiff != 0 && 0 < n + sizeDiff && sizeDiff <= n' - HEADER
    requires HEADER <= (if sizeDiff < 0 then -sizeDiff else sizeDiff)
    requires HeaderMapped(alloc.mem, chunk + HEADER + n + sizeDiff)
    modifies alloc`mem
    ensures ResizeEffect(old(alloc.mem), alloc.mem, chunk, n, n', sizeDiff, prev)
  {
    var next := alloc.mem[chunk + NEXT];
    var newNextChunk := next + sizeDiff;
    alloc.WriteHeader(newNextChunk, alloc.mem[next], alloc.mem[next + SIZE], alloc.mem[next + PREV], alloc.mem[next + NEXT]);
    alloc.mem := alloc.mem[chunk + NEXT := newNextChunk];
    alloc.mem := alloc.mem[chunk + SIZE := alloc.mem[chunk + SIZE] + sizeDiff];
    alloc.mem := alloc.mem[newNextChunk + SIZE := alloc.mem[newNextChunk + SIZE] - sizeDiff];
  }

  // ---------- Moving ----------

  /** What malloc leaves of a live block: its address, its size, and its not being the new one. */
  lemma MallocKeepsLive(h: Heap, request: int, place: int, i: int, j: int) returns (j': int)
    requires Sound(h) && Legal(h, Op.Malloc(request, place))
    requires 0 <= i < |h.regions| && 0 <= j < |h.regions[i].blocks| && h.regions[i].blocks[j].used
    ensures var rs' := MallocStep(h, PayloadSize(request), place).regions; var p := PayloadAddr(h.regions[i], j);
            && IsPayload(rs', p, i, j') && rs'[i].blocks[j'] == h.regions[i].blocks[j]
            && p != MallocAddr(h, PayloadSize(request), place)
  {
    var size := PayloadSize(request);
    var rs, i1, j1 := TakenFits(h, request, place);
    j' := j;
    assert rs[i] == h.regions[i];
    if i == i1 { j' := CarvedAround(rs, i, j1, size, j); }
    MallocResult(h, request, place);
    hide Sound, Legal, Span, Carve, Carved, Shaped;
    assert IsPayload(h.regions, PayloadAddr(h.regions[i], j), i, j);
  }

  /** Carving block j1 leaves every other block as it is, where it is. */
  lemma CarvedAround(rs: seq<Region>, i: int, j1: int, size: int, j: int) returns (j': int)
    requires Shaped(rs) && 0 <= i < |rs| && 0 <= j1 < |rs[i].blocks| && Fits(rs[i].blocks[j1], size) && Whole(size)
    requires 0 <= j < |rs[i].blocks| && j != j1
    ensures var r' := rs[i].(blocks := Carve(rs[i].blocks, j1, size));
      0 <= j' < |r'.blocks| && r'.blocks[j'] == rs[i].blocks[j] && PayloadAddr(r', j') == PayloadAddr(rs[i], j)
  {
    var mid := Carved(rs[i].blocks[j1], size);
    CarvedKeeps(rs[i].blocks[j1], size) by { ShapedAt(rs, i); SizedAt(rs[i].blocks, j1); }
    assert rs[i].blocks[j1..j1 + 1] == [rs[i].blocks[j1]];
    hide Shaped, Span;
    j' := if j > j1 then j - 1 + |mid| else j;
    ReplaceAddrs(rs[i], j1, j1 + 1, mid, j');
    if j < j1 { BeforeReplaced(rs[i].blocks, j1, mid, j); }
  }

  lemma BeforeReplaced(blocks: seq<Block>, j: int, mid: seq<Block>, l: int)
    requires 0 <= l < j < |blocks|
    ensures Replace(blocks, j, j + 1, mid)[..l] == blocks[..l] && Replace(blocks, j, j + 1, mid)[l] == blocks[l]
  {
  }

  /** Rewriting payload words leaves the chain as it is. */
  lemma PayloadWritten(m: Memory, m': Memory, rs: seq<Region>, i: int, j: int)
    requires Rep(m, rs) && Shaped(rs) && 0 <= i < |rs| && 0 <= j < |rs[i].blocks|
    requires SameOutside(m, m', PayloadAddr(rs[i], j), PayloadAddr(rs[i], j) + rs[i].blocks[j].size)
    ensures Rep(m', rs)
  {
    hide Rep, Shaped, RegionRep, Span, Sized;
    var r, b := rs[i], rs[i].blocks[j];
    ShapedAt(rs, i);
    SizedAt(r.blocks, j);
    HeaderStep(r, j);
    ReadCursor(m, rs, i, j);
    ReadCursor(m, rs, i, j + 1);
    assert r.blocks[j..j + 1] == [b];
    SegmentOne(m', HeaderAddr(r, j), PrevAddr(r, j), b);
    KeptLinks(m, rs, i);
    SizedOne(b);
    Splice(m, m', r, j, j + 1, [b], PrevBase(rs, i), NextBase(rs, i));
    assert Replace(r.blocks, j, j + 1, [b]) == r.blocks;
    Commit(m, m', rs, i, r.blocks, j, j + 1);
    assert WithBlocks(rs, i, r.blocks) == rs;
  }

  /** memcpy of whole words between two payloads. */
  method MemCpy(alloc: Allocator, dest: int, src: int, size: int)
    requires Aligned(dest) && Aligned(src) && Whole(size) && Disjoint(dest, size, src, size)
    requires Mapped(alloc.mem, dest, dest + size) && Mapped(alloc.mem, src, src + size)
    modifies alloc`mem
    ensures SameOutside(old(alloc.mem), alloc.mem, dest, dest + size)
    ensures forall k :: 0 <= Words(k) < size ==>
              (src + Words(k) in old(alloc.mem) && dest + Words(k) in alloc.mem
               && alloc.mem[dest + Words(k)] == old(alloc.mem)[src + Words(k)])
  {
    ghost var m := alloc.mem;
    var k := 0;
    while 4 * k < size
      invariant 0 <= k
      invariant SameOutside(m, alloc.mem, dest, dest + size)
      invariant forall l :: 0 <= l < k && Words(l) < size ==>
                  (src + Words(l) in m && dest + Words(l) in alloc.mem && alloc.mem[dest + Words(l)] == m[src + Words(l)])
    {
      WordOf(dest, k);
      WordOf(src, k);
      alloc.mem := alloc.mem[dest + 4 * k := alloc.mem[src + 4 * k]];
      k := k + 1;
    }
  }

  lemma WordOf(a: int, k: int)
    requires Aligned(a)
    ensures WordAligned(a + 4 * k) && a + 4 * k == a + Words(k)
  {
    var u :| a == Units(u);
    assert a + 4 * k == Words(4 * u + k);
  }

  // ---------- realloc ----------

  /** The words of a payload at `from`, as they were in m, now lie at `to`. */
  ghost predicate Carried(m: Memory, m': Memory, from: int, to: int, size: int) {
    forall k :: 0 <= Words(k) < size ==> from + Words(k) in m && to + Words(k) in m' && m'[to + Words(k)] == m[from + Words(k)]
  }

  /** The one link an in-place resize leaves wrong, and what it should be. */
  function StaleLink(r: Region, j: int): int
    requires 0 <= j <= |r.blocks| - 2
  {
    HeaderAddr(r, j + 2) + PREV
  }

  /**
    Everything is as `rs` says, except that the header after the resized pair still names the old place of
    the free block as its prev.
   */
  ghost predicate LinkedButOne(m: Memory, rs: seq<Region>, i: int, j: int, oldPlace: int)
    requires 0 <= i < |rs| && 0 <= j <= |rs[i].blocks| - 2
  {
    var link := StaleLink(rs[i], j);
    && link in m && m[link] == oldPlace && oldPlace != HeaderAddr(rs[i], j + 1)
    && Rep(m[link := HeaderAddr(rs[i], j + 1)], rs)
  }

  /** The header the free block had before the resize still reads as it did. */
  ghost predicate OldHeader(m: Memory, rs: seq<Region>, i: int, j: int)
    requires 0 <= i < |rs| && 0 <= j <= |rs[i].blocks| - 2
  {
    HeaderAt(m, HeaderAddr(rs[i], j + 1), MAGIC_FREE_MCB, rs[i].blocks[j + 1].size, HeaderAddr(rs[i], j), HeaderAddr(rs[i], j + 2))
  }

  /** The stale link is a real defect: memory does not represent the resized chain. */
  lemma StaleIsWrong(m: Memory, rs: seq<Region>, i: int, j: int, oldPlace: int)
    requires Shaped(rs) && 0 <= i < |rs| && 0 <= j <= |rs[i].blocks| - 2 && LinkedButOne(m, rs, i, j, oldPlace)
    ensures !Rep(m, rs)
  {
    if Rep(m, rs) {
      ReadCursor(m, rs, i, j + 2);
    }
  }

  lemma PayloadSizeWhole(size: int)
    requires Whole(size)
    ensures PayloadSize(size) == size
  {
    var k :| size == Units(k);
  }

  method ResizeInPlace(alloc: Allocator, chunk: int, size: int, ghost i: int, ghost j: int)
    requires alloc.Linked() && Whole(size) && 0 <= i < |alloc.heap.regions| && 0 <= j < |alloc.heap.regions[i].blocks|
    requires chunk == HeaderAddr(alloc.heap.regions[i], j) && alloc.heap.regions[i].blocks[j].used
    requires InPlace(alloc.heap.regions[i].blocks, j, size)
    modifies alloc
    ensures alloc.heap == old(alloc.heap).(regions := WithBlocks(old(alloc.heap.regions), i,
                                                                 Resized(old(alloc.heap.regions)[i].blocks, j, size)))
    ensures LinkedButOne(alloc.mem, alloc.heap.regions, i, j, HeaderAddr(old(alloc.heap.regions)[i], j + 1))
    ensures OldHeader(alloc.mem, old(alloc.heap.regions), i, j)
    ensures Shaped(alloc.heap.regions)
    ensures PayloadsKept(old(alloc.mem), alloc.mem, old(alloc.heap.regions), i, j)
    ensures var n := old(alloc.heap.regions)[i].blocks[j].size;
            Carried(old(alloc.mem), alloc.mem, chunk + HEADER, chunk + HEADER, if size < n then size else n)
  {
    hide Rep, Shaped, PayloadsKept, ResizeEffect, Aligned, Span, Carried;
    ghost var m, rs := alloc.mem, alloc.heap.regions;
    ResizeReads(m, rs, i, j, size);
    ghost var b, c := rs[i].blocks[j], rs[i].blocks[j + 1];
    ChangeChunkSize(alloc, chunk, size - alloc.mem[chunk + SIZE], b.size, c.size, PrevAddr(rs[i], j));
    ghost var m' := alloc.mem;
    ghost var m'' := m'[HeaderAddr(rs[i], j + 2) + PREV := chunk + HEADER + size];
    ResizeStep(m, m', m'', rs, i, j, size);
    alloc.heap := alloc.heap.(regions := WithBlocks(rs, i, Resized(rs[i].blocks, j, size)));
    ResizeLeaves(m, m', rs, i, j, size);
  }

  lemma ResizeLeaves(m: Memory, m': Memory, rs: seq<Region>, i: int, j: int, size: int)
    requires Rep(m, rs) && Shaped(rs) && 0 <= i < |rs| && 0 <= j < |rs[i].blocks| && Whole(size)
    requires InPlace(rs[i].blocks, j, size) && rs[i].blocks[j].used
    requires ResizeEffect(m, m', HeaderAddr(rs[i], j), rs[i].blocks[j].size, rs[i].blocks[j + 1].size, size - rs[i].blocks[j].size,
                          PrevAddr(rs[i], j))
    ensures PayloadsKept(m, m', rs, i, j)
    ensures var n, p := rs[i].blocks[j].size, PayloadAddr(rs[i], j); Carried(m, m', p, p, if size < n then size else n)
    ensures StaleLink(rs[i], j) in m' && m'[StaleLink(rs[i], j)] == HeaderAddr(rs[i], j + 1) && OldHeader(m', rs, i, j)
    ensures HeaderAddr(rs[i], j + 1) != HeaderAddr(rs[i], j) + HEADER + size
  {
    hide Rep, Shaped, PayloadsKept, Carried, Span, Aligned;
    HeaderStep(rs[i], j);
    HeaderStep(rs[i], j + 1);
    ReadCursor(m, rs, i, j + 2);
    ResizeReads(m, rs, i, j, size);
    ResizeCarried(m, m', rs, i, j, size);
    KeptOutside(m, m', rs, i, j, j + 2, j);
  }

  lemma ResizeCarried(m: Memory, m': Memory, rs: seq<Region>, i: int, j: int, size: int)
    requires Rep(m, rs) && Shaped(rs) && 0 <= i < |rs| && 0 <= j < |rs[i].blocks|
    requires var n, p := rs[i].blocks[j].size, PayloadAddr(rs[i], j); SameIn(m, m', p, p + if size < n then size else n)
    ensures var n, p := rs[i].blocks[j].size, PayloadAddr(rs[i], j); Carried(m, m', p, p, if size < n then size else n)
  {
    PayloadMapped(m, rs, i, j);
    ShapedAt(rs, i);
    HeaderAligned(rs[i], j);
    hide Rep, Shaped;
    var n, p := rs[i].blocks[j].size, PayloadAddr(rs[i], j);
    forall k | 0 <= Words(k) < (if size < n then size else n) ensures p + Words(k) in m && p + Words(k) in m' && m'[p + Words(k)] == m[p + Words(k)] {
      WordOf(p, k);
    }
  }

  lemma PayloadMapped(m: Memory, rs: seq<Region>, i: int, j: int)
    requires Rep(m, rs) && Shaped(rs) && 0 <= i < |rs| && 0 <= j < |rs[i].blocks|
    ensures Mapped(m, PayloadAddr(rs[i], j), PayloadAddr(rs[i], j) + rs[i].blocks[j].size)
  {
    ShapedAt(rs, i);
    RegionWords(m, rs, i);
    PayloadInRegion(rs[i], j);
  }

  /** After the malloc of a move: both blocks, their words, and that they are apart. */
  lemma MoveReads(m1: Memory, h: Heap, h1: Heap, size: int, place: int, addr: int, copySize: int, i: int, j: int)
    returns (i1: int, j1: int, j2: int)
    requires Sound(h) && Legal(h, Op.Malloc(size, place)) && h1 == Step(h, Op.Malloc(size, place))
    requires Whole(size) && IsPayload(h.regions, addr, i, j) && Shaped(h1.regions) && Rep(m1, h1.regions)
    requires Whole(copySize) && copySize <= size && copySize <= h.regions[i].blocks[j].size
    ensures Moved(h, h1, addr, MallocAddr(h, PayloadSize(size), place), copySize, i, j, i1, j1, j2)
    ensures var p := MallocAddr(h, PayloadSize(size), place);
            && Aligned(p) && Aligned(addr) && Disjoint(p, copySize, addr, copySize) && p != addr
            && Mapped(m1, p, p + copySize) && Mapped(m1, addr, addr + copySize)
            && Legal(h1, Op.Free(addr))
  {
    PayloadSizeWhole(size);
    var p := MallocAddr(h, PayloadSize(size), place);
    MallocResult(h, size, place);
    i1, j1 :| IsPayload(h1.regions, p, i1, j1) && h1.regions[i1].blocks[j1].size >= size;
    j2 := MallocKeepsLive(h, size, place, i, j);
    hide Rep, Shaped, Sound, MallocStep, MallocAddr, Step;
    PayloadsApart(h1.regions, i1, j1, i, j2);
    PayloadsApart(h1.regions, i, j2, i1, j1);
    PayloadMapped(m1, h1.regions, i1, j1);
    PayloadMapped(m1, h1.regions, i, j2);
    assert IsLive(h1.regions, addr);
  }

  /** The old block is now (i, j2) and the new one (i1, j1). */
  ghost predicate Moved(h: Heap, h1: Heap, addr: int, p: int, copySize: int, i: int, j: int, i1: int, j1: int, j2: int) {
    && IsPayload(h.regions, addr, i, j) && IsPayload(h1.regions, p, i1, j1) && IsPayload(h1.regions, addr, i, j2)
    && h1.regions[i].blocks[j2] == h.regions[i].blocks[j]
    && h1.regions[i1].blocks[j1].size >= copySize && h.regions[i].blocks[j].size >= copySize && p != addr
  }

  lemma MoveCopied(m1: Memory, m2: Memory, rs: seq<Region>, i: int, j: int, p: int, n: int)
    requires Rep(m1, rs) && Shaped(rs) && IsPayload(rs, p, i, j) && n <= rs[i].blocks[j].size
    requires SameOutside(m1, m2, p, p + n)
    ensures Rep(m2, rs)
  {
    hide Rep, Shaped;
    PayloadWritten(m1, m2, rs, i, j);
  }

  /** A payload live before the move, other than the moved one, is untouched throughout. */
  lemma MoveKept(m: Memory, m1: Memory, m2: Memory, m3: Memory, h: Heap, h1: Heap, size: int, place: int,
                 addr: int, p: int, n: int, i: int, j: int, i1: int, j1: int, j2: int)
    requires Sound(h) && Legal(h, Op.Malloc(size, place)) && h1 == Step(h, Op.Malloc(size, place)) && Shaped(h1.regions)
    requires p == MallocAddr(h, PayloadSize(size), place) && Moved(h, h1, addr, p, n, i, j, i1, j1, j2)
    requires PayloadsKept(m, m1, h.regions, -1, -1) && SameOutside(m1, m2, p, p + n) && PayloadsKept(m2, m3, h1.regions, i, j2)
    ensures PayloadsKept(m, m3, h.regions, i, j)
  {
    forall a, b, x | InPayload(h.regions, a, b, x) && (a, b) != (i, j) && x in m ensures x in m3 && m3[x] == m[x] {
      var b' := MallocKeepsLive(h, size, place, a, b);
      hide Sound, Shaped, MallocStep, MallocAddr, Step, Legal;
      PayloadsApart(h1.regions, i1, j1, a, b');
      assert InPayload(h1.regions, a, b', x);
      if (a, b') == (i, j2) { SoundShaped(h); PayloadUnique(h.regions, addr, i, j, a, b); }
    }
  }

  lemma SoundShaped(h: Heap)
    requires Sound(h)
    ensures Shaped(h.regions)
  {
  }

  lemma MoveCarried(m: Memory, m1: Memory, m2: Memory, m3: Memory, h: Heap, h1: Heap,
                    addr: int, p: int, n: int, i: int, j: int, i1: int, j1: int, j2: int)
    requires Rep(m, h.regions) && Shaped(h.regions) && Shaped(h1.regions) && Moved(h, h1, addr, p, n, i, j, i1, j1, j2)
    requires PayloadsKept(m, m1, h.regions, -1, -1) && PayloadsKept(m2, m3, h1.regions, i, j2)
    requires forall k :: 0 <= Words(k) < n ==> (addr + Words(k) in m1 && p + Words(k) in m2 && m2[p + Words(k)] == m1[addr + Words(k)])
    ensures Carried(m, m3, addr, p, n)
  {
    hide Rep, Shaped, PayloadsKept, Mapped;
    PayloadMapped(m, h.regions, i, j);
    ShapedAt(h.regions, i);
    HeaderAligned(h.regions[i], j);
    assert (i1, j1) != (i, j2);
    forall k | 0 <= Words(k) < n ensures addr + Words(k) in m && p + Words(k) in m3 && m3[p + Words(k)] == m[addr + Words(k)] {
      WordOf(addr, k);
      MappedWord(m, addr, h.regions[i].blocks[j].size, addr + Words(k));
      KeptWord(m, m1, h.regions, -1, -1, i, j, addr + Words(k));
      KeptWord(m2, m3, h1.regions, i, j2, i1, j1, p + Words(k));
    }
  }

  lemma MappedWord(m: Memory, a: int, n: int, x: int)
    requires Mapped(m, a, a + n) && WordAligned(x) && a <= x < a + n
    ensures x in m
  {
  }

  lemma KeptWord(m: Memory, m': Memory, rs: seq<Region>, i: int, j: int, i': int, j': int, x: int)
    requires PayloadsKept(m, m', rs, i, j) && InPayload(rs, i', j', x) && (i', j') != (i, j) && x in m
    ensures x in m' && m'[x] == m[x]
  {
  }

  /** realloc's last resort: a new block, the bytes copied over, the old block freed. */
  method Move(alloc: Allocator, addr: int, size: int, copySize: int, place: int, fill: int -> int, ghost i: int, ghost j: int)
    returns (newAddr: int)
    requires alloc.Valid() && IsPayload(alloc.heap.regions, addr, i, j) && addr != 0
    requires Whole(size) && Legal(alloc.heap, Op.Malloc(size, place))
    requires Whole(copySize) && copySize <= size && copySize <= alloc.heap.regions[i].blocks[j].size
    modifies alloc
    ensures var h1 := Step(old(alloc.heap), Op.Malloc(size, place));
            alloc.Valid() && Legal(h1, Op.Free(addr)) && alloc.heap == Step(h1, Op.Free(addr))
    ensures newAddr == MallocAddr(old(alloc.heap), PayloadSize(size), place) && newAddr != addr
    ensures PayloadsKept(old(alloc.mem), alloc.mem, old(alloc.heap.regions), i, j)
    ensures Carried(old(alloc.mem), alloc.mem, addr, newAddr, copySize)
  {
    hide Rep, Shaped, Sound, PayloadsKept, SameOutside, Step, MallocAddr, Legal, Moved, Carried, PayloadSize, IsPayload, Mapped;
    ghost var m, h := alloc.mem, alloc.heap;
    newAddr := alloc.Malloc(size, place, fill);
    ghost var m1, h1 := alloc.mem, alloc.heap;
    ghost var i1, j1, j2 := MoveReads(m1, h, h1, size, place, addr, copySize, i, j);
    MemCpy(alloc, newAddr, addr, copySize);
    ghost var m2 := alloc.mem;
    MovedIs(h, h1, addr, newAddr, copySize, i, j, i1, j1, j2);
    MoveCopied(m1, m2, h1.regions, i1, j1, newAddr, copySize);
    alloc.Free(addr);
    MoveKept(m, m1, m2, alloc.mem, h, h1, size, place, addr, newAddr, copySize, i, j, i1, j1, j2);
    MoveCarried(m, m1, m2, alloc.mem, h, h1, addr, newAddr, copySize, i, j, i1, j1, j2);
  }

  lemma MovedIs(h: Heap, h1: Heap, addr: int, p: int, n: int, i: int, j: int, i1: int, j1: int, j2: int)
    requires Moved(h, h1, addr, p, n, i, j, i1, j1, j2)
    ensures IsPayload(h1.regions, p, i1, j1) && 0 <= i1 < |h1.regions| && 0 <= j1 < |h1.regions[i1].blocks|
    ensures n <= h1.regions[i1].blocks[j1].size
    ensures IsPayload(h1.regions, addr, i, j2)
  {
  }

  /**
    realloc.  An early return and a move leave a fully linked heap; a resize in place, and only that, leaves
    the one stale link.  In every case the words common to the old and the new payload are carried along and
    every other live payload keeps its words.
   */
  method Realloc(alloc: Allocator, addr: int, request: int, place: int, fill: int -> int, ghost i: int, ghost j: int)
    returns (newAddr: int)
    requires alloc.Valid() && request >= 0
    requires addr != 0 ==> IsPayload(alloc.heap.regions, addr, i, j)
    requires addr != 0 ==> -0x8000_0000 <= PayloadSize(request) - alloc.heap.regions[i].blocks[j].size < 0x8000_0000
    requires Legal(alloc.heap, Op.Malloc(if addr == 0 then request else PayloadSize(request), place))
    modifies alloc
    ensures addr == 0 ==> alloc.Valid() && alloc.heap == Step(old(alloc.heap), Op.Malloc(request, place))
                          && newAddr == MallocAddr(old(alloc.heap), PayloadSize(request), place)
    ensures addr != 0 ==>
              (var b, size := old(alloc.heap.regions)[i].blocks[j], PayloadSize(request);
               && Carried(old(alloc.mem), alloc.mem, addr, newAddr, if size < b.size then size else b.size)
               && PayloadsKept(old(alloc.mem), alloc.mem, old(alloc.heap.regions), i, j)
               && (alloc.Valid() <==> b.size == size || !InPlace(old(alloc.heap.regions)[i].blocks, j, size)))
    // the block stays where it is exactly with its size, or next to a free block when it shrinks or that block has more to spare
    ensures addr != 0 ==>
              (var blocks, size := old(alloc.heap.regions)[i].blocks, PayloadSize(request);
               newAddr == addr <==> size == blocks[j].size || (j + 1 < |blocks| && !blocks[j + 1].used
                                    && (size < blocks[j].size || blocks[j + 1].size > size - blocks[j].size + HEADER)))
    ensures addr != 0 && old(alloc.heap.regions)[i].blocks[j].size == PayloadSize(request) ==>
              newAddr == addr && alloc.mem == old(alloc.mem) && alloc.heap == old(alloc.heap)
    ensures addr != 0 && InPlace(old(alloc.heap.regions)[i].blocks, j, PayloadSize(request)) ==>
              newAddr == addr && alloc.heap == old(alloc.heap).(regions := WithBlocks(old(alloc.heap.regions), i,
                                    Resized(old(alloc.heap.regions)[i].blocks, j, PayloadSize(request))))
              && LinkedButOne(alloc.mem, alloc.heap.regions, i, j, HeaderAddr(old(alloc.heap.regions)[i], j + 1))
              && OldHeader(alloc.mem, old(alloc.heap.regions), i, j)
    ensures addr != 0 && old(alloc.heap.regions)[i].blocks[j].size != PayloadSize(request)
            && !InPlace(old(alloc.heap.regions)[i].blocks, j, PayloadSize(request)) ==>
              (var h1 := Step(old(alloc.heap), Op.Malloc(PayloadSize(request), place));
               && newAddr == MallocAddr(old(alloc.heap), PayloadSize(PayloadSize(request)), place) && newAddr != addr
               && Legal(h1, Op.Free(addr)) && alloc.heap == Step(h1, Op.Free(addr)))
  {
    hide Rep, Shaped, Sound, PayloadsKept, Step, MallocAddr, MallocStep, Legal, Carried, PayloadSize, Span, Aligned, LinkedButOne, OldHeader,
      Placeable;
    if addr == 0 {
      newAddr := alloc.Malloc(request, place, fill);
      return;
    }
    ghost var m, rs := alloc.mem, alloc.heap.regions;
    ghost var b := rs[i].blocks[j];
    var chunk := addr - HEADER;
    ChunkReads(m, rs, addr, i, j);
    assert alloc.mem[chunk] == MAGIC_USED_MCB;
    var size := PayloadSize(request);
    var sizeDiff := size - alloc.mem[chunk + SIZE];
    if sizeDiff == 0 {
      CarriedStays(m, rs, addr, i, j);
      return addr;
    }
    var next := alloc.mem[chunk + NEXT];
    if alloc.mem[next] == MAGIC_FREE_MCB {
      if (sizeDiff > 0 && alloc.mem[next + SIZE] > sizeDiff + HEADER) || sizeDiff < 0 {
        ResizeInPlace(alloc, chunk, size, i, j);
        NotLinked(alloc.mem, alloc.heap.regions, i, j, HeaderAddr(rs[i], j + 1), rs, size);
        return addr;
      }
    }
    var copySize := if sizeDiff < 0 then size else alloc.mem[chunk + SIZE];
    newAddr := Move(alloc, addr, size, copySize, place, fill, i, j);
  }

  /** What realloc reads of the chunk and of the block after it. */
  lemma ChunkReads(m: Memory, rs: seq<Region>, addr: int, i: int, j: int)
    requires Rep(m, rs) && Shaped(rs) && IsPayload(rs, addr, i, j)
    ensures var b, chunk := rs[i].blocks[j], addr - HEADER; var next := HeaderAddr(rs[i], j + 1);
            && chunk == HeaderAddr(rs[i], j) && Whole(b.size)
            && HeaderMapped(m, chunk) && m[chunk] == MAGIC_USED_MCB && m[chunk + SIZE] == b.size && m[chunk + NEXT] == next
            && HeaderMapped(m, next)
            && m[next] == (if j + 1 == |rs[i].blocks| then MAGIC_END_MCB else Magic(rs[i].blocks[j + 1].used))
            && (j + 1 < |rs[i].blocks| ==> m[next + SIZE] == rs[i].blocks[j + 1].size)
  {
    ReadCursor(m, rs, i, j);
    ReadCursor(m, rs, i, j + 1);
    ShapedAt(rs, i);
    SizedAt(rs[i].blocks, j);
  }

  lemma CarriedStays(m: Memory, rs: seq<Region>, addr: int, i: int, j: int)
    requires Rep(m, rs) && Shaped(rs) && IsPayload(rs, addr, i, j)
    ensures Carried(m, m, addr, addr, rs[i].blocks[j].size) && PayloadsKept(m, m, rs, i, j)
  {
    ResizeCarried(m, m, rs, i, j, rs[i].blocks[j].size);
  }

  lemma NotLinked(m: Memory, rs': seq<Region>, i: int, j: int, oldPlace: int, rs: seq<Region>, size: int)
    requires 0 <= i < |rs| && 0 <= j < |rs[i].blocks| - 1 && rs' == WithBlocks(rs, i, Resized(rs[i].blocks, j, size))
    requires Shaped(rs') && LinkedButOne(m, rs', i, j, oldPlace)
    ensures !Rep(m, rs')
  {
    StaleIsWrong(m, rs', i, j, oldPlace);
  }

  // ---------- What the stale link does to the next free ----------

  /** The words of a header that lies at `place`, in the payload of block (i, j). */
  ghost predicate HeaderInPayload(rs: seq<Region>, i: int, j: int, place: int)
    requires 0 <= i < |rs| && 0 <= j < |rs[i].blocks|
  {
    rs[i].blocks[j].used && PayloadAddr(rs[i], j) <= place && place + HEADER <= PayloadAddr(rs[i], j) + rs[i].blocks[j].size
  }

  /** When the block has grown, the old place of the header behind it lies in its payload. */
  lemma OldPlaceLive(rs: seq<Region>, i: int, j: int, size: int)
    requires Shaped(rs) && 0 <= i < |rs| && 0 <= j < |rs[i].blocks| && Whole(size) && InPlace(rs[i].blocks, j, size)
    ensures HeaderInPayload(WithBlocks(rs, i, Resized(rs[i].blocks, j, size)), i, j, HeaderAddr(rs[i], j + 1)) <==> size > rs[i].blocks[j].size
  {
    var b, c := rs[i].blocks[j], rs[i].blocks[j + 1];
    ShapedAt(rs, i);
    SizedAt(rs[i].blocks, j);
    WholeApart(size, b.size);
    HeaderStep(rs[i], j);
    hide Shaped, Span, Sized, HeaderAddr;
    ResizeAddrs(rs[i], j, size);
    ReplacedAt(rs[i].blocks, j, ResizedPair(b, c, size));
  }

  lemma ReplacedAt(blocks: seq<Block>, j: int, pair: seq<Block>)
    requires 0 <= j < |blocks| - 1 && |pair| == 2
    ensures |Replace(blocks, j, j + 2, pair)| == |blocks| && Replace(blocks, j, j + 2, pair)[j] == pair[0]
    ensures Replace(blocks, j, j + 2, pair)[j + 1] == pair[1]
    ensures forall k :: j + 2 <= k < |blocks| ==> Replace(blocks, j, j + 2, pair)[k] == blocks[k]
  {
  }

  /**
    free of the block behind a resized pair, up to the merge with the block before it: it takes the old place of the free
    block for that one, and merges there exactly when the word at the old place still is the magic number of a free block.
   */
  method FreeBehind(alloc: Allocator, addr: int, ghost i: int, ghost j: int, ghost oldPlace: int, ghost n: int) returns (block: int)
    requires Shaped(alloc.heap.regions) && 0 <= i < |alloc.heap.regions| && 0 <= j < |alloc.heap.regions[i].blocks| - 2
    requires LinkedButOne(alloc.mem, alloc.heap.regions, i, j, oldPlace) && addr == PayloadAddr(alloc.heap.regions[i], j + 2)
    requires oldPlace in alloc.mem && oldPlace != 0 && n > 0 && oldPlace + HEADER + n == addr - HEADER
    requires HeaderAt(alloc.mem, oldPlace, alloc.mem[oldPlace], n, HeaderAddr(alloc.heap.regions[i], j), addr - HEADER)
    modifies alloc`mem
    ensures block == oldPlace <==> old(alloc.mem)[oldPlace] == MAGIC_FREE_MCB
    ensures var m, size := old(alloc.mem), alloc.heap.regions[i].blocks[j + 2].size;
      if m[oldPlace] == MAGIC_FREE_MCB
      then HeaderAt(alloc.mem, oldPlace, MAGIC_FREE_MCB, n + HEADER + size, HeaderAddr(alloc.heap.regions[i], j), addr + size)
      else block == addr - HEADER && alloc.mem == m[addr - HEADER := MAGIC_FREE_MCB]
  {
    hide Rep, Shaped;
    ghost var m, rs := alloc.mem, alloc.heap.regions;
    BehindReads(m, rs, i, j, oldPlace);
    ghost var size := rs[i].blocks[j + 2].size;
    block := addr - HEADER;
    alloc.mem := alloc.mem[block := MAGIC_FREE_MCB];
    if alloc.mem[block + PREV] != 0 && alloc.mem[alloc.mem[block + PREV]] == MAGIC_FREE_MCB {
      block := alloc.UnifyBlocks(alloc.mem[block + PREV], block, MAGIC_FREE_MCB, n, HeaderAddr(rs[i], j), MAGIC_FREE_MCB, size);
    }
  }

  /** The header behind a resized pair: all but its prev is right. */
  lemma BehindReads(m: Memory, rs: seq<Region>, i: int, j: int, oldPlace: int)
    requires Shaped(rs) && 0 <= i < |rs| && 0 <= j < |rs[i].blocks| - 2 && LinkedButOne(m, rs, i, j, oldPlace)
    ensures var header, size := HeaderAddr(rs[i], j + 2), rs[i].blocks[j + 2].size;
      && size > 0 && PayloadAddr(rs[i], j + 2) == header + HEADER
      && HeaderAt(m, header, Magic(rs[i].blocks[j + 2].used), size, oldPlace, header + HEADER + size)
      && HeaderMapped(m, header + HEADER + size)
  {
    hide Rep, Shaped;
    var fixed := m[StaleLink(rs[i], j) := HeaderAddr(rs[i], j + 1)];
    ReadCursor(fixed, rs, i, j + 2);
    ReadCursor(fixed, rs, i, j + 3);
    HeaderStep(rs[i], j + 2);
    ShapedAt(rs, i);
    SizedAt(rs[i].blocks, j + 2);
  }

  // ---------- A run in which it does harm ----------

  const STATIC: int := 0x10_0000     // where the static region lies in this example
  const PLACE: int := 0x20_0000      // and where the system maps the first page

  /** The static region and one page of blocks behind it. */
  function Laid(blocks: seq<Block>): seq<Region> {
    [Region(STATIC, []), Region(PLACE, blocks)]
  }

  /** The static heap after a malloc of 16 bytes: the rest of the page is one free block. */
  lemma FirstMalloc()
    ensures Legal(Initial(STATIC), Op.Malloc(16, PLACE)) && PayloadSize(16) == 16
    ensures Step(Initial(STATIC), Op.Malloc(16, PLACE)).regions == Laid([Block(true, 16), Block(false, 4016)])
    ensures MallocAddr(Initial(STATIC), 16, PLACE) == PLACE + 2 * HEADER
  {
    assert PLACE == Pages(0x200);
    assert MappingSize(16) == 0x1000;
    var rs := Initial(STATIC).regions;
    assert FirstFit([], 16) == 0;
    assert FirstRegion(rs, 16) == 1 by { assert rs[1..] == []; }
    assert Placeable(rs, PLACE, 0x1000);
    assert Searched(rs, 16, PLACE) == rs + [FreshRegion(PLACE, 16)];
    assert Carve([Block(false, 4048)], 0, 16) == [Block(true, 16), Block(false, 4016)];
  }

  lemma {:induction false} LastFits(used: seq<Block>, free: int, size: int)
    requires (forall k :: 0 <= k < |used| ==> used[k].used) && free >= size
    ensures FirstFit(used + [Block(false, free)], size) == |used|
  {
    if used != [] {
      LastFits(used[1..], free, size);
      assert (used + [Block(false, free)])[1..] == used[1..] + [Block(false, free)];
    }
  }

  /** Every further malloc takes the front of the free block at the end. */
  lemma NextMalloc(h: Heap, used: seq<Block>, free: int, size: int)
    requires h.regions == Laid(used + [Block(false, free)]) && forall k :: 0 <= k < |used| ==> used[k].used
    requires size > 0 && PayloadSize(size) == size && free > size + HEADER
    ensures Legal(h, Op.Malloc(size, PLACE))
    ensures Step(h, Op.Malloc(size, PLACE)).regions == Laid(used + [Block(true, size), Block(false, free - HEADER - size)])
    ensures MallocAddr(h, size, PLACE) == PLACE + 2 * HEADER + Span(used)
  {
    hide Span, Placeable, FirstFit, PayloadSize, HasFit, MappingSize, FreshRegion, Carve, FirstRegion;
    NextPlace(h.regions, used, free, size);
    CarvedLast(used, free, size);
    RegionChanged(h.regions, used + [Block(true, size), Block(false, free - HEADER - size)]);
  }

  lemma NextPlace(rs: seq<Region>, used: seq<Block>, free: int, size: int)
    requires rs == Laid(used + [Block(false, free)]) && (forall k :: 0 <= k < |used| ==> used[k].used) && free >= size
    ensures FirstRegion(rs, size) == 1 && rs[1].blocks == used + [Block(false, free)]
    ensures FirstFit(rs[1].blocks, size) == |used| && rs[1].blocks[..|used|] == used && rs[1].base == PLACE
  {
    hide FirstFit, FirstRegion;
    LastFits(used, free, size);
    SecondRegion(rs, size);
  }

  lemma RegionChanged(rs: seq<Region>, blocks: seq<Block>)
    requires |rs| == 2 && rs[0] == Region(STATIC, []) && rs[1].base == PLACE
    ensures rs[1 := rs[1].(blocks := blocks)] == Laid(blocks)
  {
  }

  lemma SecondRegion(rs: seq<Region>, size: int)
    requires |rs| == 2 && rs[0].blocks == [] && FirstFit(rs[1].blocks, size) < |rs[1].blocks|
    ensures FirstRegion(rs, size) == 1
  {
    hide FirstFit;
    assert rs[1..] == [rs[1]];
    assert !HasFit(rs[0], size);
  }

  lemma CarvedLast(used: seq<Block>, free: int, size: int)
    requires size > 0 && free > size + HEADER
    ensures Carve(used + [Block(false, free)], |used|, size) == used + [Block(true, size), Block(false, free - HEADER - size)]
  {
    var blocks := used + [Block(false, free)];
    assert blocks[..|used|] == used && blocks[|used| + 1..] == [];
  }

  const FIRST: seq<Block> := [Block(true, 16)]
  const BOTH: seq<Block> := [Block(true, 16), Block(true, 64)]
  const THREE: seq<Block> := [Block(true, 16), Block(true, 64), Block(true, 16), Block(false, 3904)]
  const FREED: seq<Block> := [Block(true, 16), Block(false, 64), Block(true, 16), Block(false, 3904)]
  const RESIZED: seq<Block> := [Block(true, 32), Block(false, 48), Block(true, 16), Block(false, 3904)]

  lemma Spans()
    ensures Span(FIRST) == 32 && Span(BOTH) == 112
    ensures PayloadSize(64) == 64 && PayloadSize(16) == 16 && PayloadSize(32) == 32
    ensures Release(THREE, 1) == FREED && InPlace(FREED, 0, 32) && Resized(FREED, 0, 32) == RESIZED
  {
    SpanTwo(BOTH[0], BOTH[1]);
    assert FIRST[1..] == [];
  }

  /** Where the blocks of the page lie, whatever became of the first two. */
  lemma Places(blocks: seq<Block>)
    requires blocks in {THREE, FREED, RESIZED}
    ensures var r := Region(PLACE, blocks);
      && PayloadAddr(r, 0) == PLACE + 2 * HEADER && PayloadAddr(r, 2) == PLACE + 2 * HEADER + 112
      && HeaderAddr(r, 1) == PLACE + HEADER + HEADER + blocks[0].size && HeaderAddr(r, 2) == PLACE + HEADER + 112
      && PayloadAddr(r, 1) == HeaderAddr(r, 1) + HEADER && HeaderAddr(r, 0) == PLACE + HEADER
  {
    assert blocks[..0] == [] && blocks[..1] == [blocks[0]] && blocks[..2] == [blocks[0], blocks[1]];
    SpanTwo(blocks[0], blocks[1]);
    assert [blocks[0]][1..] == [];
  }

  /** The static heap, three mallocs, and free of the second result. */
  method FreeMiddle(fill: int -> int) returns (alloc: Allocator, p: int, third: int)
    ensures alloc.Valid() && fresh(alloc) && alloc.heap.regions == Laid(FREED)
    ensures p == PLACE + 2 * HEADER && third == p + 112
  {
    hide Rep, Sound, Shaped, PayloadsKept, MappingSize, Searched, Carve, MallocStep, MallocAddr, FirstRegion, FirstFit, Legal, Step, Span,
      Release, FreeStep, PayloadSize, Initial, InPlace, Resized, PayloadAddr, HeaderAddr;
    StaticAligned();
    Spans();
    FirstMalloc();
    alloc := new Allocator(STATIC);
    p := alloc.Malloc(16, PLACE, fill);
    assert FIRST + [Block(false, 4016)] == [Block(true, 16), Block(false, 4016)];
    NextMalloc(alloc.heap, FIRST, 4016, 64);
    var second := alloc.Malloc(64, PLACE, fill);
    assert BOTH + [Block(false, 3936)] == FIRST + [Block(true, 64), Block(false, 3936)];
    NextMalloc(alloc.heap, BOTH, 3936, 16);
    third := alloc.Malloc(16, PLACE, fill);
    assert THREE == BOTH + [Block(true, 16), Block(false, 3904)];
    Places(THREE);
    FreedSecond(alloc.heap, second);
    alloc.Free(second);
  }

  lemma StaticAligned()
    ensures WordAligned(STATIC)
  {
    assert STATIC == Words(0x4_0000);
  }

  lemma FreedSecond(h: Heap, addr: int)
    requires Sound(h) && h.regions == Laid(THREE) && addr == PayloadAddr(h.regions[1], 1)
    ensures Legal(h, Op.Free(addr)) && Step(h, Op.Free(addr)).regions == Laid(FREED)
  {
    assert IsPayload(h.regions, addr, 1, 1);
    assert addr != 0 by { Places(THREE); }
    FreeSound(h, addr, 1, 1);
    OnlyPayload(h, addr, 1, 1);
    Spans();
    hide Sound, Release, Span;
    assert FreeStep(h, 1, 1).regions == h.regions[1 := Region(PLACE, FREED)] == Laid(FREED);
  }

  /**
    Three mallocs from the static heap, free of the second result, realloc of the first from 16 to 32 bytes, which stays in
    place, and free of the third: words in the live payload of the first block change although nobody wrote there.
   */
  method HarmReached(fill: int -> int) returns (alloc: Allocator, p: int, ghost before: Memory)
    ensures alloc.heap.regions == Laid(RESIZED) && !Rep(before, alloc.heap.regions)
    ensures p == PayloadAddr(alloc.heap.regions[1], 0) && HeaderInPayload(alloc.heap.regions, 1, 0, p + 16)
    ensures p + 16 + SIZE in before && p + 16 + SIZE in alloc.mem && before[p + 16 + SIZE] == 64 && alloc.mem[p + 16 + SIZE] == 96
  {
    hide Rep, Sound, Shaped, PayloadsKept, Carried, Legal, Step, PayloadSize, MallocAddr, PayloadAddr, HeaderAddr, Span,
      InPlace, Resized, LinkedButOne, Release;
    var third;
    alloc, p, third := FreeMiddle(fill);
    Spans();
    Places(FREED);
    Places(RESIZED);
    ghost var rs := alloc.heap.regions;
    assert IsPayload(rs, p, 1, 0);
    ReallocLegal(alloc.heap);
    var q := Realloc(alloc, p, 32, PLACE, fill, 1, 0);
    assert alloc.heap.regions == WithBlocks(rs, 1, RESIZED) == Laid(RESIZED);
    before := alloc.mem;
    ResizedShaped();
    StaleIsWrong(before, alloc.heap.regions, 1, 0, p + 16);
    var _ := FreeBehind(alloc, third, 1, 0, p + 16, 64);
  }

  /** A malloc of 32 bytes would be legal too: the free block is large enough. */
  lemma ReallocLegal(h: Heap)
    requires h.regions == Laid(FREED)
    ensures Legal(h, Op.Malloc(32, PLACE)) && PayloadSize(32) == 32
  {
    assert FREED[1..] == [Block(false, 64), Block(true, 16), Block(false, 3904)];
    assert FirstFit(FREED[1..], 32) == 0 && FirstFit(FREED, 32) == 1;
    assert HasFit(h.regions[1], 32);
    assert FirstRegion(h.regions, 32) < 2;
  }

  lemma ResizedShaped()
    ensures Shaped(Laid(RESIZED))
  {
    var r := Laid(RESIZED)[1];
    var left, right := [RESIZED[0], RESIZED[1]], [RESIZED[2], RESIZED[3]];
    assert RESIZED == left + right;
    SpanTwo(RESIZED[0], RESIZED[1]);
    SpanTwo(RESIZED[2], RESIZED[3]);
    SpanAppend(left, right);
    SizedTwo(RESIZED[0], RESIZED[1]);
    SizedTwo(RESIZED[2], RESIZED[3]);
    SizedAppend(left, right);
    assert 32 == Units(2) && 48 == Units(3) && 16 == Units(1) && 3904 == Units(244) && PLACE == Pages(0x200) && 0x1000 == Pages(1) && STATIC == Words(0x4_0000);
  }
}
