/**
  The allocator's heap seen without its memory: a chain of regions ("big
  blocks"), each a sequence of blocks.  Malloc and Free are given as steps on
  this view, and what the library promises about whole runs is proved here.
  The class in malloc.dfy shows that the pointer code performs these steps.
 */
module HeapBlocks {
  const HEADER: int := 16      // sizeof(Mem_Ctrl_Blk) on i686: four 32-bit words
  const PAGESIZE: int := 0x1000
  const TOP: int := 0x1_0000_0000

  datatype Block = Block(used: bool, size: int)
  datatype Region = Region(base: int, blocks: seq<Block>)

  /** The regions in chain order, and every mapping asked of and given back to the system so far. */
  datatype Heap = Heap(regions: seq<Region>, mapped: multiset<(int, int)>, unmapped: multiset<(int, int)>)

  datatype Op = Malloc(request: int, place: int) | Free(addr: int)

  // ---------- Sizes and addresses ----------

  function Words(k: int): int { 4 * k }

  function Units(k: int): int { 16 * k }

  function Pages(k: int): int { 0x1000 * k }

  ghost predicate WordAligned(a: int) { exists k :: a == Words(k) }

  /** Aligned for any type: alignof(max_align_t) is 16. */
  ghost predicate Aligned(a: int) { exists k :: a == Units(k) }

  ghost predicate PageAligned(a: int) { exists k :: a == Pages(k) }

  /** A positive multiple of 16, as every block size is. */
  ghost predicate Whole(n: int) { n > 0 && Aligned(n) }

  /** The payload size malloc and realloc use for a request: ALIGN_UP to 16 bytes. */
  function PayloadSize(request: int): (r: int)
    requires request >= 0
    ensures Whole(r) && request <= r <= request + 16 && (request > 0 ==> r < request + 16)
  {
    assert ((if request == 0 then 1 else request) - 1) / 16 * 16 + 16 ==
           Units(((if request == 0 then 1 else request) - 1) / 16 + 1);
    ((if request == 0 then 1 else request) - 1) / 16 * 16 + 16
  }

  /** The size of the region mapped when no block fits: ALIGN_UP to whole pages. */
  function MappingSize(size: int): (r: int)
    requires size > 0
    ensures PageAligned(r) && size + 3 * HEADER <= r < size + 3 * HEADER + PAGESIZE
  {
    assert (size + 3 * HEADER - 1) / PAGESIZE * PAGESIZE + PAGESIZE == Pages((size + 3 * HEADER - 1) / PAGESIZE + 1);
    (size + 3 * HEADER - 1) / PAGESIZE * PAGESIZE + PAGESIZE
  }

  lemma AlignedSum(a: int, b: int)
    requires Aligned(a) && Aligned(b)
    ensures Aligned(a + b) && Aligned(a - b) && Aligned(a + HEADER) && Aligned(a + b + HEADER) && Aligned(a - b - HEADER)
  {
    var k, l :| a == Units(k) && b == Units(l);
    assert a + b == Units(k + l) && a - b == Units(k - l);
    assert a + HEADER == Units(k + 1) && a + b + HEADER == Units(k + l + 1) && a - b - HEADER == Units(k - l - 1);
  }

  lemma AlignedWords(a: int)
    requires Aligned(a)
    ensures a % 16 == 0
    ensures WordAligned(a) && WordAligned(a + 4) && WordAligned(a + 8) && WordAligned(a + 12)
  {
    var k :| a == Units(k);
    assert a == Words(4 * k) && a + 4 == Words(4 * k + 1) && a + 8 == Words(4 * k + 2) && a + 12 == Words(4 * k + 3);
  }

  lemma PageIsAligned(a: int)
    requires PageAligned(a)
    ensures Aligned(a)
  {
    var k :| a == Pages(k);
    assert a == Units(256 * k);
  }

  function Span(blocks: seq<Block>): int {
    if blocks == [] then 0 else HEADER + blocks[0].size + Span(blocks[1..])
  }

  function RegionSize(r: Region): int {
    2 * HEADER + Span(r.blocks)
  }

  /** Where block j's header lies; for j == |blocks| the END header. */
  function HeaderAddr(r: Region, j: int): int
    requires 0 <= j <= |r.blocks|
  {
    r.base + HEADER + Span(r.blocks[..j])
  }

  function PayloadAddr(r: Region, j: int): int
    requires 0 <= j < |r.blocks|
  {
    HeaderAddr(r, j) + HEADER
  }

  // ---------- Shape ----------

  /** Every block size is a positive multiple of 16. */
  ghost predicate Sized(blocks: seq<Block>) {
    blocks == [] || (Whole(blocks[0].size) && Sized(blocks[1..]))
  }

  ghost predicate NoFreePair(blocks: seq<Block>) {
    forall k :: 0 <= k < |blocks| - 1 ==> blocks[k].used || blocks[k + 1].used
  }

  /** Free neighbours have been merged, and a region wholly free has been given back. */
  ghost predicate Tidy(blocks: seq<Block>) {
    && NoFreePair(blocks)
    && (|blocks| == 1 ==> blocks[0].used)
  }

  ghost predicate Apart(r: Region, s: Region) {
    r.base + RegionSize(r) <= s.base || s.base + RegionSize(s) <= r.base
  }

  ghost predicate Mapping(r: Region) {
    && r.blocks != [] && Sized(r.blocks)
    && r.base > 0 && PageAligned(r.base)
    && PageAligned(RegionSize(r)) && r.base + RegionSize(r) <= TOP
  }

  /** The static empty region comes first; all others are page mappings, pairwise apart. */
  ghost predicate Shaped(rs: seq<Region>) {
    && |rs| > 0 && rs[0].blocks == [] && rs[0].base > 0 && WordAligned(rs[0].base) && rs[0].base + 2 * HEADER <= TOP
    && (forall i :: 1 <= i < |rs| ==> Mapping(rs[i]))
    && (forall i, k :: 0 <= i < k < |rs| ==> Apart(rs[i], rs[k]))
  }

  ghost predicate AllTidy(rs: seq<Region>) {
    forall i :: 0 <= i < |rs| ==> Tidy(rs[i].blocks)
  }

  function Extents(rs: seq<Region>): seq<(int, int)> {
    seq(|rs|, i requires 0 <= i < |rs| => (rs[i].base, RegionSize(rs[i])))
  }

  /** What has been mapped and not unmapped is exactly the regions after the static one. */
  ghost predicate Ledger(h: Heap)
    requires |h.regions| > 0
  {
    h.mapped == h.unmapped + multiset(Extents(h.regions[1..]))
  }

  ghost predicate Sound(h: Heap) {
    Shaped(h.regions) && AllTidy(h.regions) && Ledger(h)
  }

  function Initial(base: int): Heap {
    Heap([Region(base, [])], multiset{}, multiset{})
  }

  // ---------- Editing a sequence of blocks ----------

  /** Blocks j..k give way to `mid`. */
  function Replace(blocks: seq<Block>, j: int, k: int, mid: seq<Block>): seq<Block>
    requires 0 <= j <= k <= |blocks|
  {
    blocks[..j] + mid + blocks[k..]
  }

  function Remark(blocks: seq<Block>, j: int, used: bool): seq<Block>
    requires 0 <= j < |blocks|
  {
    Replace(blocks, j, j + 1, [blocks[j].(used := used)])
  }

  // ---------- Searching ----------

  predicate Fits(b: Block, size: int) {
    !b.used && b.size >= size
  }

  function FirstFit(blocks: seq<Block>, size: int): (j: int)
    ensures 0 <= j <= |blocks|
    ensures forall k :: 0 <= k < j ==> !Fits(blocks[k], size)
    ensures j < |blocks| ==> Fits(blocks[j], size)
  {
    if blocks == [] || Fits(blocks[0], size) then 0 else 1 + FirstFit(blocks[1..], size)
  }

  ghost predicate HasFit(r: Region, size: int) {
    FirstFit(r.blocks, size) < |r.blocks|
  }

  ghost function FirstRegion(rs: seq<Region>, size: int): (i: int)
    ensures 0 <= i <= |rs|
    ensures forall k :: 0 <= k < i ==> !HasFit(rs[k], size)
    ensures i < |rs| ==> HasFit(rs[i], size)
  {
    if rs == [] || HasFit(rs[0], size) then 0 else 1 + FirstRegion(rs[1..], size)
  }

  ghost predicate IsPayload(rs: seq<Region>, addr: int, i: int, j: int) {
    0 <= i < |rs| && 0 <= j < |rs[i].blocks| && rs[i].blocks[j].used && addr == PayloadAddr(rs[i], j)
  }

  ghost predicate IsLive(rs: seq<Region>, addr: int) {
    exists i, j :: IsPayload(rs, addr, i, j)
  }

  // ---------- Malloc ----------

  /** What block b becomes when handed out for size bytes. */
  function Carved(b: Block, size: int): seq<Block> {
    if b.size > HEADER + size then [Block(true, size), Block(false, b.size - HEADER - size)] else [Block(true, b.size)]
  }

  /** Block j is handed out, split when more than a bare header would be left over. */
  function Carve(blocks: seq<Block>, j: int, size: int): seq<Block>
    requires 0 <= j < |blocks|
  {
    Replace(blocks, j, j + 1, Carved(blocks[j], size))
  }

  function FreshRegion(place: int, size: int): Region
    requires size > 0
  {
    Region(place, [Block(false, MappingSize(size) - 3 * HEADER)])
  }

  /** What the system promises of the address at which it maps a new region. */
  ghost predicate Placeable(rs: seq<Region>, place: int, length: int) {
    && place > 0 && PageAligned(place) && place + length <= TOP
    && forall i :: 0 <= i < |rs| ==> rs[i].base + RegionSize(rs[i]) <= place || place + length <= rs[i].base
  }

  ghost function Searched(rs: seq<Region>, size: int, place: int): (rs': seq<Region>)
    requires size > 0
    ensures |rs'| >= |rs| && rs' != []
  {
    if FirstRegion(rs, size) < |rs| then rs else rs + [FreshRegion(place, size)]
  }

  ghost function MallocStep(h: Heap, size: int, place: int): Heap
    requires size > 0
  {
    var rs := Searched(h.regions, size, place);
    var i := FirstRegion(h.regions, size);
    var r := rs[i];
    var j := if i < |h.regions| then FirstFit(r.blocks, size) else 0;
    Heap(rs[i := r.(blocks := Carve(r.blocks, j, size))],
         if i < |h.regions| then h.mapped else h.mapped + multiset{(place, MappingSize(size))},
         h.unmapped)
  }

  ghost function MallocAddr(h: Heap, size: int, place: int): int
    requires size > 0
  {
    var rs := Searched(h.regions, size, place);
    var i := FirstRegion(h.regions, size);
    PayloadAddr(rs[i], if i < |h.regions| then FirstFit(rs[i].blocks, size) else 0)
  }

  // ---------- Free ----------

  /** Two neighbours as one block; the second header becomes payload. */
  function Unified(b: Block, c: Block): Block {
    Block(b.used, b.size + HEADER + c.size)
  }

  function Unify(blocks: seq<Block>, j: int): seq<Block>
    requires 0 <= j < |blocks| - 1
  {
    Replace(blocks, j, j + 2, [Unified(blocks[j], blocks[j + 1])])
  }

  predicate MergesLeft(blocks: seq<Block>, j: int)
    requires 0 <= j < |blocks|
  {
    j > 0 && !blocks[j - 1].used
  }

  function MergedLeft(blocks: seq<Block>, j: int): seq<Block>
    requires 0 <= j < |blocks|
  {
    if MergesLeft(blocks, j) then Unify(blocks, j - 1) else blocks
  }

  function MergedRight(blocks: seq<Block>, j: int): seq<Block>
    requires 0 <= j < |blocks|
  {
    if j + 1 < |blocks| && !blocks[j + 1].used then Unify(blocks, j) else blocks
  }

  function MergePoint(blocks: seq<Block>, j: int): int
    requires 0 <= j < |blocks|
  {
    if MergesLeft(blocks, j) then j - 1 else j
  }

  function Release(blocks: seq<Block>, j: int): seq<Block>
    requires 0 <= j < |blocks|
  {
    var freed := Remark(blocks, j, false);
    MergedRight(MergedLeft(freed, j), MergePoint(freed, j))
  }

  ghost function FreeStep(h: Heap, i: int, j: int): Heap
    requires 0 <= i < |h.regions| && 0 <= j < |h.regions[i].blocks|
  {
    var r := h.regions[i];
    var blocks := Release(r.blocks, j);
    if |blocks| == 1 then
      Heap(h.regions[..i] + h.regions[i + 1..], h.mapped, h.unmapped + multiset{(r.base, RegionSize(r))})
    else
      h.(regions := h.regions[i := r.(blocks := blocks)])
  }

  // ---------- Runs ----------

  ghost predicate Legal(h: Heap, op: Op) {
    match op
    case Malloc(request, place) =>
      && request >= 0
      && (FirstRegion(h.regions, PayloadSize(request)) == |h.regions| ==>
            Placeable(h.regions, place, MappingSize(PayloadSize(request))))
    case Free(addr) => addr == 0 || IsLive(h.regions, addr)
  }

  ghost function Step(h: Heap, op: Op): Heap
    requires Legal(h, op)
  {
    match op
    case Malloc(request, place) => MallocStep(h, PayloadSize(request), place)
    case Free(addr) =>
      if addr == 0 then h else
      var i, j :| IsPayload(h.regions, addr, i, j);
      FreeStep(h, i, j)
  }

  ghost predicate IsRun(states: seq<Heap>, ops: seq<Op>) {
    && |states| == |ops| + 1
    && forall k :: 0 <= k < |ops| ==> Legal(states[k], ops[k]) && states[k + 1] == Step(states[k], ops[k])
  }

  // ---------- Arithmetic of spans ----------

  lemma {:induction false} SpanAppend(a: seq<Block>, b: seq<Block>)
    ensures Span(a + b) == Span(a) + Span(b)
  {
    if a == [] {
      assert a + b == b;
    } else {
      assert (a + b)[1..] == a[1..] + b;
      SpanAppend(a[1..], b);
    }
  }

  lemma {:induction false} SpanBounds(blocks: seq<Block>)
    requires Sized(blocks)
    ensures Span(blocks) >= 0 && Aligned(Span(blocks))
    ensures blocks != [] ==> Span(blocks) >= HEADER + blocks[0].size
  {
    if blocks == [] {
      assert 0 == Units(0);
    } else {
      SpanBounds(blocks[1..]);
      AlignedSum(blocks[0].size, Span(blocks[1..]));
    }
  }

  lemma {:induction false} SizedAppend(a: seq<Block>, b: seq<Block>)
    ensures Sized(a + b) <==> Sized(a) && Sized(b)
  {
    if a == [] {
      assert a + b == b;
    } else {
      assert (a + b)[1..] == a[1..] + b;
      SizedAppend(a[1..], b);
    }
  }

  lemma SizedThree(a: seq<Block>, b: seq<Block>, c: seq<Block>)
    ensures Sized(a + b + c) <==> Sized(a) && Sized(b) && Sized(c)
  {
    SizedAppend(a + b, c);
    SizedAppend(a, b);
  }

  lemma SizedAt(blocks: seq<Block>, j: int)
    requires Sized(blocks) && 0 <= j < |blocks|
    ensures Whole(blocks[j].size) && Sized(blocks[..j]) && Sized(blocks[j..])
  {
    SizedAppend(blocks[..j], blocks[j..]);
    assert blocks == blocks[..j] + blocks[j..];
  }

  /** Span cut in three, the form every update of a region's middle needs. */
  lemma SpanThree(a: seq<Block>, b: seq<Block>, c: seq<Block>)
    ensures Span(a + b + c) == Span(a) + Span(b) + Span(c)
  {
    SpanAppend(a + b, c);
    SpanAppend(a, b);
  }

  lemma SpanOne(b: Block)
    ensures Span([b]) == HEADER + b.size
  {
    assert [b][1..] == [];
  }

  lemma SizedOne(b: Block)
    ensures Sized([b]) <==> Whole(b.size)
  {
    assert [b][1..] == [];
  }

  lemma SizedTwo(b: Block, c: Block)
    ensures Sized([b, c]) <==> Whole(b.size) && Whole(c.size)
  {
    assert [b, c][1..] == [c];
    SizedOne(c);
  }

  lemma SpanTwo(b: Block, c: Block)
    ensures Span([b, c]) == 2 * HEADER + b.size + c.size
  {
    assert [b, c][1..] == [c];
    SpanOne(c);
  }

  /** Header addresses grow by exactly header plus size. */
  lemma HeaderStep(r: Region, j: int)
    requires 0 <= j < |r.blocks|
    ensures HeaderAddr(r, j + 1) == HeaderAddr(r, j) + HEADER + r.blocks[j].size
  {
    assert r.blocks[..j + 1] == r.blocks[..j] + [r.blocks[j]];
    SpanAppend(r.blocks[..j], [r.blocks[j]]);
    SpanOne(r.blocks[j]);
  }

  lemma {:induction false} HeaderMonotone(r: Region, j: int, k: int)
    requires Sized(r.blocks) && 0 <= j <= k <= |r.blocks|
    ensures HeaderAddr(r, j) + HEADER * (k - j) <= HeaderAddr(r, k)
    ensures j < k ==> PayloadAddr(r, j) + r.blocks[j].size <= HeaderAddr(r, k)
    decreases k - j
  {
    if j < k {
      SizedAt(r.blocks, j);
      HeaderStep(r, j);
      HeaderMonotone(r, j + 1, k);
    }
  }

  lemma HeaderEnds(r: Region)
    ensures HeaderAddr(r, 0) == r.base + HEADER
    ensures HeaderAddr(r, |r.blocks|) == r.base + RegionSize(r) - HEADER
  {
    assert r.blocks[..|r.blocks|] == r.blocks;
  }

  // ---------- The tiling theorem ----------

  ghost predicate Disjoint(a: int, n: int, b: int, m: int) {
    a + n <= b || b + m <= a
  }

  /** A payload lies inside its region's tiles and overlaps no header of that region. */
  lemma PayloadInRegion(r: Region, j: int)
    requires Sized(r.blocks) && 0 <= j < |r.blocks|
    ensures r.base + 2 * HEADER <= PayloadAddr(r, j)
    ensures PayloadAddr(r, j) + r.blocks[j].size + HEADER <= r.base + RegionSize(r)
    ensures forall k :: 0 <= k <= |r.blocks| ==>
              Disjoint(PayloadAddr(r, j), r.blocks[j].size, HeaderAddr(r, k), HEADER)
  {
    HeaderEnds(r);
    HeaderMonotone(r, 0, j);
    HeaderMonotone(r, j, |r.blocks|);
    forall k | 0 <= k <= |r.blocks|
      ensures Disjoint(PayloadAddr(r, j), r.blocks[j].size, HeaderAddr(r, k), HEADER)
    {
      if k <= j { HeaderMonotone(r, k, j); } else { HeaderMonotone(r, j, k); }
    }
  }

  lemma HeaderAligned(r: Region, j: int)
    requires Mapping(r) && 0 <= j <= |r.blocks|
    ensures Aligned(HeaderAddr(r, j)) && Aligned(HeaderAddr(r, j) + HEADER)
  {
    if j < |r.blocks| { SizedAt(r.blocks, j); } else { assert r.blocks[..j] == r.blocks; }
    SpanBounds(r.blocks[..j]);
    PageIsAligned(r.base);
    AlignedSum(r.base, Span(r.blocks[..j]));
    AlignedSum(HeaderAddr(r, j), r.base);
  }

  /** Every live payload is 16-byte aligned and apart from every other payload and every header. */
  lemma PayloadsApart(rs: seq<Region>, i: int, j: int, i': int, j': int)
    requires Shaped(rs)
    requires 0 <= i < |rs| && 0 <= j < |rs[i].blocks|
    requires 0 <= i' < |rs| && 0 <= j' <= |rs[i'].blocks|
    ensures Aligned(PayloadAddr(rs[i], j))
    ensures Disjoint(PayloadAddr(rs[i], j), rs[i].blocks[j].size, HeaderAddr(rs[i'], j'), HEADER)
    ensures Disjoint(PayloadAddr(rs[i], j), rs[i].blocks[j].size, rs[i'].base, HEADER)
    ensures j' < |rs[i'].blocks| && (i, j) != (i', j') ==>
              Disjoint(PayloadAddr(rs[i], j), rs[i].blocks[j].size, PayloadAddr(rs[i'], j'), rs[i'].blocks[j'].size)
  {
    HeaderAligned(rs[i], j);
    PayloadInRegion(rs[i], j);
    HeaderEnds(rs[i']);
    if i' != 0 {
      HeaderMonotone(rs[i'], 0, j');
      HeaderMonotone(rs[i'], j', |rs[i'].blocks|);
      if j' < |rs[i'].blocks| {
        PayloadInRegion(rs[i'], j');
        if i == i' && j < j' { HeaderMonotone(rs[i], j, j'); }
        if i == i' && j' < j { HeaderMonotone(rs[i], j', j); }
      }
    }
    if i < i' { assert Apart(rs[i], rs[i']); }
    if i' < i { assert Apart(rs[i'], rs[i]); }
  }

  lemma PayloadUnique(rs: seq<Region>, addr: int, i: int, j: int, i': int, j': int)
    requires Shaped(rs) && IsPayload(rs, addr, i, j) && IsPayload(rs, addr, i', j')
    ensures i == i' && j == j'
  {
    SizedAt(rs[i].blocks, j);
    SizedAt(rs[i'].blocks, j');
    PayloadsApart(rs, i, j, i', j');
  }

  // ---------- Malloc keeps the heap sound ----------

  /** Replacing a stretch of blocks by one of the same span keeps sizes and span. */
  lemma ReplaceKeeps(blocks: seq<Block>, j: int, k: int, mid: seq<Block>)
    requires 0 <= j <= k <= |blocks|
    requires Sized(blocks) && Sized(mid) && Span(mid) == Span(blocks[j..k])
    ensures Sized(Replace(blocks, j, k, mid)) && Span(Replace(blocks, j, k, mid)) == Span(blocks)
  {
    var a, b, c := blocks[..j], blocks[j..k], blocks[k..];
    assert blocks == a + b + c;
    SizedThree(a, b, c);
    SizedThree(a, mid, c);
    SpanThree(a, b, c);
    SpanThree(a, mid, c);
  }

  lemma CarvedKeeps(b: Block, size: int)
    requires Fits(b, size) && Whole(b.size) && Whole(size)
    ensures Sized(Carved(b, size)) && Span(Carved(b, size)) == Span([b])
    ensures Carved(b, size)[0].used && size <= Carved(b, size)[0].size <= size + HEADER
  {
    AlignedSum(b.size, size);
    SpanOne(b);
    if b.size <= HEADER + size {
      SizedOne(Block(true, b.size));
    } else {
      SizedTwo(Block(true, size), Block(false, b.size - HEADER - size));
    }
    if b.size > HEADER + size {
      SpanTwo(Block(true, size), Block(false, b.size - HEADER - size));
    } else {
      SpanOne(Block(true, b.size));
    }
  }

  lemma CarveKeeps(blocks: seq<Block>, j: int, size: int)
    requires Sized(blocks) && 0 <= j < |blocks| && Fits(blocks[j], size) && Whole(size)
    ensures Sized(Carve(blocks, j, size)) && Span(Carve(blocks, j, size)) == Span(blocks)
  {
    SizedAt(blocks, j);
    CarvedKeeps(blocks[j], size);
    assert blocks[j..j + 1] == [blocks[j]];
    ReplaceKeeps(blocks, j, j + 1, Carved(blocks[j], size));
  }

  lemma CarveTidy(blocks: seq<Block>, j: int, size: int)
    requires 0 <= j < |blocks| && Fits(blocks[j], size) && NoFreePair(blocks)
    ensures Tidy(Carve(blocks, j, size))
  {
  }

  lemma FreshRegionFits(rs: seq<Region>, place: int, size: int)
    requires Shaped(rs) && Whole(size) && Placeable(rs, place, MappingSize(size))
    ensures var r := FreshRegion(place, size); Mapping(r) && RegionSize(r) == MappingSize(size)
    ensures var r := FreshRegion(place, size); FirstFit(r.blocks, size) == 0 && HasFit(r, size)
    ensures Shaped(rs + [FreshRegion(place, size)])
  {
    SpanOne(FreshRegion(place, size).blocks[0]);
    SizedOne(FreshRegion(place, size).blocks[0]);
    PageIsAligned(MappingSize(size));
    assert Aligned(2 * HEADER) by { assert 2 * HEADER == Units(2); }
    AlignedSum(MappingSize(size), 2 * HEADER);
  }

  lemma ReplaceShaped(rs: seq<Region>, i: int, blocks: seq<Block>)
    requires Shaped(rs) && 1 <= i < |rs| && blocks != [] && Sized(blocks) && Span(blocks) == Span(rs[i].blocks)
    ensures Shaped(rs[i := rs[i].(blocks := blocks)])
    ensures Extents(rs[i := rs[i].(blocks := blocks)][1..]) == Extents(rs[1..])
  {
    var rs' := rs[i := rs[i].(blocks := blocks)];
    forall k, l | 0 <= k < l < |rs'| ensures Apart(rs'[k], rs'[l]) {
      assert Apart(rs[k], rs[l]);
    }
  }

  /** Which block malloc takes: the first fitting one in chain order, if need be in a region mapped for it. */
  ghost predicate Taken(h: Heap, rs: seq<Region>, i: int, j: int, size: int, place: int)
    requires size > 0
  {
    && rs == Searched(h.regions, size, place)
    && i == FirstRegion(h.regions, size) && 0 < i < |rs|
    && j == (if i < |h.regions| then FirstFit(rs[i].blocks, size) else 0) && 0 <= j < |rs[i].blocks|
    && Fits(rs[i].blocks[j], size)
    && Shaped(rs) && NoFreePair(rs[i].blocks)
  }

  lemma TakenFits(h: Heap, request: int, place: int) returns (rs: seq<Region>, i: int, j: int)
    requires Shaped(h.regions) && AllTidy(h.regions) && Legal(h, Malloc(request, place))
    ensures Taken(h, rs, i, j, PayloadSize(request), place)
    ensures i == |h.regions| ==> Extents(rs[1..]) == Extents(h.regions[1..]) + [(place, MappingSize(PayloadSize(request)))]
  {
    var size := PayloadSize(request);
    rs, i := Searched(h.regions, size, place), FirstRegion(h.regions, size);
    j := if i < |h.regions| then FirstFit(rs[i].blocks, size) else 0;
    if i == |h.regions| {
      FreshRegionFits(h.regions, place, size);
    }
  }

  lemma MallocShaped(h: Heap, request: int, place: int)
    requires Shaped(h.regions) && AllTidy(h.regions) && Legal(h, Malloc(request, place))
    ensures var h' := MallocStep(h, PayloadSize(request), place); var rs := Searched(h.regions, PayloadSize(request), place);
            Shaped(h'.regions) && AllTidy(h'.regions) && Extents(h'.regions[1..]) == Extents(rs[1..])
  {
    var size := PayloadSize(request);
    var rs, i, j := TakenFits(h, request, place);
    CarveKeeps(rs[i].blocks, j, size);
    CarveTidy(rs[i].blocks, j, size);
    ReplaceShaped(rs, i, Carve(rs[i].blocks, j, size));
  }

  /** malloc keeps the tiling, merges nothing apart, and maps at most one region. */
  lemma MallocSound(h: Heap, request: int, place: int)
    requires Sound(h) && Legal(h, Malloc(request, place))
    ensures Sound(MallocStep(h, PayloadSize(request), place))
    ensures |h.regions| <= |MallocStep(h, PayloadSize(request), place).regions| <= |h.regions| + 1
  {
    var rs, i, j := TakenFits(h, request, place);
    MallocShaped(h, request, place);
  }

  /** What malloc returns: 16-byte aligned, live now but not before, and at least as large as requested. */
  lemma MallocResult(h: Heap, request: int, place: int)
    requires Sound(h) && Legal(h, Malloc(request, place))
    ensures var p := MallocAddr(h, PayloadSize(request), place); var rs' := MallocStep(h, PayloadSize(request), place).regions;
            && Aligned(p) && !IsLive(h.regions, p)
            && exists i, j :: IsPayload(rs', p, i, j) && rs'[i].blocks[j].size >= request
  {
    var size := PayloadSize(request);
    var rs, i, j := TakenFits(h, request, place);
    var p := PayloadAddr(rs[i], j);
    HeaderAligned(rs[i], j);
    forall i', j' | IsPayload(h.regions, p, i', j') ensures false {
      assert rs[i'] == h.regions[i'];
      PayloadsApart(rs, i, j, i', j');
      SizedAt(rs[i].blocks, j);
      SizedAt(rs[i'].blocks, j');
    }
    var blocks := Carve(rs[i].blocks, j, size);
    assert blocks[..j] == rs[i].blocks[..j];
    assert IsPayload(MallocStep(h, size, place).regions, p, i, j);
  }

  // ---------- Free keeps the heap sound ----------

  lemma UnifiedKeeps(b: Block, c: Block)
    requires Whole(b.size) && Whole(c.size)
    ensures Sized([Unified(b, c)]) && Span([Unified(b, c)]) == Span([b, c])
  {
    SpanTwo(b, c);
    SpanOne(Unified(b, c));
    SizedOne(Unified(b, c));
    AlignedSum(b.size, c.size);
  }

  lemma UnifyKeeps(blocks: seq<Block>, j: int)
    requires Sized(blocks) && 0 <= j < |blocks| - 1
    ensures Sized(Unify(blocks, j)) && Span(Unify(blocks, j)) == Span(blocks)
  {
    SizedAt(blocks, j);
    SizedAt(blocks, j + 1);
    UnifiedKeeps(blocks[j], blocks[j + 1]);
    assert blocks[j..j + 2] == [blocks[j], blocks[j + 1]];
    ReplaceKeeps(blocks, j, j + 2, [Unified(blocks[j], blocks[j + 1])]);
  }

  lemma RemarkKeeps(blocks: seq<Block>, j: int, used: bool)
    requires Sized(blocks) && 0 <= j < |blocks|
    ensures Sized(Remark(blocks, j, used)) && Span(Remark(blocks, j, used)) == Span(blocks)
  {
    var b, b' := blocks[j], blocks[j].(used := used);
    SizedAt(blocks, j);
    SizedOne(b');
    SpanOne(b);
    SpanOne(b');
    assert blocks[j..j + 1] == [b];
    ReplaceKeeps(blocks, j, j + 1, [b']);
  }

  lemma ReleaseKeeps(blocks: seq<Block>, j: int)
    requires Sized(blocks) && 0 <= j < |blocks|
    ensures Sized(Release(blocks, j)) && Span(Release(blocks, j)) == Span(blocks)
  {
    RemarkKeeps(blocks, j, false);
    var freed := Remark(blocks, j, false);
    if MergesLeft(freed, j) { UnifyKeeps(freed, j - 1); }
    var left := MergedLeft(freed, j);
    var k := MergePoint(freed, j);
    if k + 1 < |left| && !left[k + 1].used { UnifyKeeps(left, k); }
  }

  /** Around the freed block every neighbour is now in use, so the region is tidy unless wholly free. */
  lemma ReleaseTidy(blocks: seq<Block>, j: int)
    requires NoFreePair(blocks) && 0 <= j < |blocks| && blocks[j].used
    ensures |Release(blocks, j)| != 1 ==> Tidy(Release(blocks, j))
  {
    var freed := Remark(blocks, j, false);
    var left := MergedLeft(freed, j);
    var k := MergePoint(freed, j);
    assert forall l :: 0 <= l < |left| - 1 && l != k ==> left[l].used || left[l + 1].used;
    assert k > 0 ==> left[k - 1].used;
  }

  lemma RemoveExtent(rs: seq<Region>, i: int)
    requires 1 <= i < |rs|
    ensures multiset(Extents(rs[1..])) ==
            multiset(Extents((rs[..i] + rs[i + 1..])[1..])) + multiset{(rs[i].base, RegionSize(rs[i]))}
  {
    var a, c := Extents(rs[1..i]), Extents(rs[i + 1..]);
    assert Extents(rs[1..]) == a + [(rs[i].base, RegionSize(rs[i]))] + c;
    assert Extents((rs[..i] + rs[i + 1..])[1..]) == a + c;
  }

  lemma FreeSound(h: Heap, addr: int, i: int, j: int)
    requires Sound(h) && IsPayload(h.regions, addr, i, j)
    ensures Sound(FreeStep(h, i, j))
  {
    var r := h.regions[i];
    ReleaseKeeps(r.blocks, j);
    ReleaseTidy(r.blocks, j);
    var blocks := Release(r.blocks, j);
    if |blocks| == 1 {
      RemoveExtent(h.regions, i);
      var rs' := h.regions[..i] + h.regions[i + 1..];
      forall k, l | 0 <= k < l < |rs'| ensures Apart(rs'[k], rs'[l]) {
        assert Apart(h.regions[if k < i then k else k + 1], h.regions[if l < i then l else l + 1]);
      }
    } else {
      ReplaceShaped(h.regions, i, blocks);
    }
  }

  lemma StepSound(h: Heap, op: Op)
    requires Sound(h) && Legal(h, op)
    ensures Sound(Step(h, op))
  {
    match op
    case Malloc(request, place) => MallocSound(h, request, place);
    case Free(addr) =>
      if addr != 0 {
        forall i, j | IsPayload(h.regions, addr, i, j) ensures Sound(FreeStep(h, i, j)) {
          FreeSound(h, addr, i, j);
        }
      }
  }

  /**
    Over every run of malloc and free from the static empty heap, every state is sound:
    regions exactly tiled, no two free neighbours, no region wholly free, and the mappings
    outstanding are exactly the regions, each with the size it was mapped with.
   */
  lemma {:induction false} RunsSound(base: int, states: seq<Heap>, ops: seq<Op>, k: int)
    requires base > 0 && WordAligned(base) && base + 2 * HEADER <= TOP
    requires IsRun(states, ops) && states[0] == Initial(base) && 0 <= k < |states|
    ensures Sound(states[k])
  {
    if k > 0 {
      RunsSound(base, states, ops, k - 1);
      StepSound(states[k - 1], ops[k - 1]);
    } else {
      assert Extents(Initial(base).regions[1..]) == [];
    }
  }

  /** In a sound heap only the static region can be without a live payload. */
  lemma RegionHasLive(h: Heap, i: int)
    requires Sound(h) && 1 <= i < |h.regions|
    ensures exists j, addr :: IsPayload(h.regions, addr, i, j)
  {
    var blocks := h.regions[i].blocks;
    var j := if blocks[0].used then 0 else 1;
    assert IsPayload(h.regions, PayloadAddr(h.regions[i], j), i, j);
  }

  /**
    When, after any run, no allocation is live, the chain is back to the static region alone and
    every mapping has been unmapped exactly as often as it was mapped, with its own size.
   */
  lemma NothingLiveNothingMapped(base: int, states: seq<Heap>, ops: seq<Op>, k: int)
    requires base > 0 && WordAligned(base) && base + 2 * HEADER <= TOP
    requires IsRun(states, ops) && states[0] == Initial(base) && 0 <= k < |states|
    requires forall addr :: !IsLive(states[k].regions, addr)
    ensures |states[k].regions| == 1 && states[k].mapped == states[k].unmapped
  {
    RunsSound(base, states, ops, k);
    var h := states[k];
    if |h.regions| > 1 {
      RegionHasLive(h, 1);
      var j, addr :| IsPayload(h.regions, addr, 1, j);
      assert IsLive(h.regions, addr);
    }
    assert Extents(h.regions[1..]) == [];
  }
}
