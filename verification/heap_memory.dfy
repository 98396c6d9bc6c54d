/**
  How the chain of regions is laid out in memory: every header is four words at
  its own address, and the links are plain addresses.  The lemmas say what a
  local change of the words means for the whole chain.
 */
module HeapMemory {
  import opened HeapBlocks

  /** Mapped memory by the byte address of each 32-bit word; an absent address is not mapped. */
  type Memory = map<int, int>

  const MAGIC_BIG_MCB: int := 0xC001C0DE
  const MAGIC_FREE_MCB: int := 0xBEEFBEEF
  const MAGIC_USED_MCB: int := 0xDEADBEEF
  const MAGIC_END_MCB: int := 0xDEADDEAD

  // Byte offsets of the fields of Mem_Ctrl_Blk.
  const SIZE: int := 4
  const PREV: int := 8
  const NEXT: int := 12

  function Magic(used: bool): int {
    if used then MAGIC_USED_MCB else MAGIC_FREE_MCB
  }

  ghost predicate HeaderAt(m: Memory, a: int, magic: int, size: int, prev: int, next: int) {
    && a in m && a + SIZE in m && a + PREV in m && a + NEXT in m
    && m[a] == magic && m[a + SIZE] == size && m[a + PREV] == prev && m[a + NEXT] == next
  }

  /** Blocks laid out from address a, each linked to its two neighbours; prev is the block before a. */
  ghost predicate Segment(m: Memory, a: int, prev: int, blocks: seq<Block>)
    decreases |blocks|
  {
    blocks == [] ||
    (var next := a + HEADER + blocks[0].size;
     && HeaderAt(m, a, Magic(blocks[0].used), blocks[0].size, prev, next)
     && Segment(m, next, a, blocks[1..]))
  }

  /** A segment closed by the END header. */
  ghost predicate Chain(m: Memory, a: int, prev: int, blocks: seq<Block>)
    decreases |blocks|
  {
    if blocks == [] then HeaderAt(m, a, MAGIC_END_MCB, 0, prev, 0)
    else
      var next := a + HEADER + blocks[0].size;
      && HeaderAt(m, a, Magic(blocks[0].used), blocks[0].size, prev, next)
      && Chain(m, next, a, blocks[1..])
  }

  /** The header address a block after this segment has as its prev. */
  function LastAddr(a: int, prev: int, blocks: seq<Block>): int
    decreases |blocks|
  {
    if blocks == [] then prev else LastAddr(a + HEADER + blocks[0].size, a, blocks[1..])
  }

  ghost predicate Mapped(m: Memory, lo: int, hi: int) {
    forall a {:trigger WordAligned(a)} :: lo <= a < hi && WordAligned(a) ==> a in m
  }

  ghost predicate RegionRep(m: Memory, r: Region, prev: int, next: int) {
    && HeaderAt(m, r.base, MAGIC_BIG_MCB, RegionSize(r), prev, next)
    && Chain(m, r.base + HEADER, 0, r.blocks)
    && Mapped(m, r.base, r.base + RegionSize(r))
  }

  function PrevBase(rs: seq<Region>, i: int): int
    requires 0 <= i < |rs|
  {
    if i == 0 then 0 else rs[i - 1].base
  }

  function NextBase(rs: seq<Region>, i: int): int
    requires 0 <= i < |rs|
  {
    if i + 1 < |rs| then rs[i + 1].base else 0
  }

  ghost predicate Rep(m: Memory, rs: seq<Region>) {
    forall i :: 0 <= i < |rs| ==> RegionRep(m, rs[i], PrevBase(rs, i), NextBase(rs, i))
  }

  // ---------- Frames ----------

  ghost predicate SameIn(m: Memory, m': Memory, lo: int, hi: int) {
    forall a :: lo <= a < hi && a in m ==> a in m' && m'[a] == m[a]
  }

  /** Nothing outside [lo, hi) has changed, and no word was mapped or unmapped. */
  ghost predicate SameOutside(m: Memory, m': Memory, lo: int, hi: int) {
    m'.Keys == m.Keys && forall a :: a in m && !(lo <= a < hi) ==> m'[a] == m[a]
  }

  lemma {:induction false} SegmentFrame(m: Memory, m': Memory, a: int, prev: int, blocks: seq<Block>)
    requires Sized(blocks) && SameIn(m, m', a, a + Span(blocks)) && Segment(m, a, prev, blocks)
    ensures Segment(m', a, prev, blocks)
    decreases |blocks|
  {
    if blocks != [] {
      SpanBounds(blocks[1..]);
      SegmentFrame(m, m', a + HEADER + blocks[0].size, a, blocks[1..]);
    }
  }

  lemma {:induction false} ChainFrame(m: Memory, m': Memory, a: int, prev: int, blocks: seq<Block>)
    requires Sized(blocks) && SameIn(m, m', a, a + Span(blocks) + HEADER) && Chain(m, a, prev, blocks)
    ensures Chain(m', a, prev, blocks)
    decreases |blocks|
  {
    if blocks != [] {
      SpanBounds(blocks[1..]);
      ChainFrame(m, m', a + HEADER + blocks[0].size, a, blocks[1..]);
    }
  }

  /** Only the first header's prev differs. */
  lemma ChainRelink(m: Memory, m': Memory, a: int, prev: int, prev': int, blocks: seq<Block>)
    requires Sized(blocks) && Chain(m, a, prev, blocks)
    requires SameIn(m, m', a, a + PREV) && SameIn(m, m', a + PREV + 1, a + Span(blocks) + HEADER)
    requires a + PREV in m' && m'[a + PREV] == prev'
    ensures Chain(m', a, prev', blocks)
  {
    SpanBounds(blocks);
    if blocks != [] {
      ChainFrame(m, m', a + HEADER + blocks[0].size, a, blocks[1..]);
    }
  }

  lemma {:induction false} ChainSplit(m: Memory, a: int, prev: int, xs: seq<Block>, ys: seq<Block>)
    ensures Chain(m, a, prev, xs + ys) <==>
            Segment(m, a, prev, xs) && Chain(m, a + Span(xs), LastAddr(a, prev, xs), ys)
    decreases |xs|
  {
    if xs == [] {
      assert xs + ys == ys;
    } else {
      assert (xs + ys)[1..] == xs[1..] + ys;
      ChainSplit(m, a + HEADER + xs[0].size, a, xs[1..], ys);
    }
  }

  lemma {:induction false} LastAddrOf(a: int, prev: int, blocks: seq<Block>, b: Block)
    ensures LastAddr(a, prev, blocks + [b]) == a + Span(blocks)
    decreases |blocks|
  {
    if blocks == [] {
      assert blocks + [b] == [b];
    } else {
      assert (blocks + [b])[1..] == blocks[1..] + [b];
      LastAddrOf(a + HEADER + blocks[0].size, a, blocks[1..], b);
    }
  }

  // ---------- Reading a header ----------

  /** The header address before block j, or 0. */
  function PrevAddr(r: Region, j: int): int
    requires 0 <= j <= |r.blocks|
  {
    if j == 0 then 0 else HeaderAddr(r, j - 1)
  }

  lemma PrevAddrIsLast(r: Region, j: int)
    requires 0 <= j <= |r.blocks|
    ensures LastAddr(r.base + HEADER, 0, r.blocks[..j]) == PrevAddr(r, j)
  {
    if j > 0 {
      assert r.blocks[..j] == r.blocks[..j - 1] + [r.blocks[j - 1]];
      LastAddrOf(r.base + HEADER, 0, r.blocks[..j - 1], r.blocks[j - 1]);
    }
  }

  /** Cutting a region at block j. */
  lemma CutAt(m: Memory, r: Region, j: int)
    requires 0 <= j <= |r.blocks|
    ensures Chain(m, r.base + HEADER, 0, r.blocks) <==>
            Segment(m, r.base + HEADER, 0, r.blocks[..j]) && Chain(m, HeaderAddr(r, j), PrevAddr(r, j), r.blocks[j..])
  {
    assert r.blocks == r.blocks[..j] + r.blocks[j..];
    ChainSplit(m, r.base + HEADER, 0, r.blocks[..j], r.blocks[j..]);
    PrevAddrIsLast(r, j);
  }

  ghost predicate BlockHeaderAt(m: Memory, r: Region, j: int)
    requires 0 <= j <= |r.blocks|
  {
    if j == |r.blocks| then HeaderAt(m, HeaderAddr(r, j), MAGIC_END_MCB, 0, PrevAddr(r, j), 0)
    else HeaderAt(m, HeaderAddr(r, j), Magic(r.blocks[j].used), r.blocks[j].size, PrevAddr(r, j), HeaderAddr(r, j + 1))
  }

  /** Where each header is and what it says: next is the following tile, prev its inverse. */
  lemma ReadHeader(m: Memory, r: Region, j: int, prev: int, next: int)
    requires RegionRep(m, r, prev, next) && 0 <= j <= |r.blocks|
    ensures BlockHeaderAt(m, r, j)
  {
    CutAt(m, r, j);
    if j < |r.blocks| { HeaderStep(r, j); }
  }

  // ---------- Changing a region ----------

  /** A chain whose middle, of unchanged span, has been rewritten. */
  lemma ChainSplice(m: Memory, m': Memory, a: int, pre: seq<Block>, mid: seq<Block>, post: seq<Block>, c: int, prev: int)
    requires Sized(pre) && Sized(post) && Span(mid) >= 0
    requires Segment(m, a, 0, pre) && Chain(m, c, prev, post)
    requires c == a + Span(pre) + Span(mid)
    requires SameOutside(m, m', a + Span(pre), c + HEADER)
    requires Segment(m', a + Span(pre), LastAddr(a, 0, pre), mid)
    requires SameIn(m, m', c, c + PREV) && SameIn(m, m', c + PREV + 1, c + HEADER)
    requires c + PREV in m' && m'[c + PREV] == LastAddr(a + Span(pre), LastAddr(a, 0, pre), mid)
    ensures Chain(m', a, 0, pre + mid + post)
  {
    SegmentFrame(m, m', a, 0, pre);
    ChainRelink(m, m', c, prev, m'[c + PREV], post);
    ChainSplit(m', a + Span(pre), LastAddr(a, 0, pre), mid, post);
    ChainSplit(m', a, 0, pre, mid + post);
    assert pre + mid + post == pre + (mid + post);
  }

  ghost predicate HeaderMapped(m: Memory, a: int) {
    a in m && a + SIZE in m && a + PREV in m && a + NEXT in m
  }

  /** Between `from` and the header at `next` anything may change, but of that header only prev, to `last`. */
  ghost predicate Relinked(m: Memory, m': Memory, from: int, next: int, last: int) {
    && SameOutside(m, m', from, next + HEADER)
    && SameIn(m, m', next, next + PREV) && SameIn(m, m', next + PREV + 1, next + HEADER)
    && next + PREV in m' && m'[next + PREV] == last
  }

  /** Blocks j..k of m, of the span of `mid`, are laid out as `mid` in m', and the next header links back to it. */
  ghost predicate Respliced(m: Memory, m': Memory, r: Region, j: int, k: int, mid: seq<Block>)
    requires 0 <= j < k <= |r.blocks|
  {
    && Segment(m', HeaderAddr(r, j), PrevAddr(r, j), mid)
    && Relinked(m, m', HeaderAddr(r, j), HeaderAddr(r, k), LastAddr(HeaderAddr(r, j), PrevAddr(r, j), mid))
  }

  lemma SpliceSpans(r: Region, j: int, k: int, mid: seq<Block>)
    requires Sized(r.blocks) && 0 <= j < k <= |r.blocks| && Sized(mid) && Span(mid) == Span(r.blocks[j..k])
    ensures Sized(r.blocks[..j]) && Sized(r.blocks[k..]) && Span(mid) >= 0
    ensures HeaderAddr(r, k) == HeaderAddr(r, j) + Span(mid)
    ensures r.base + HEADER <= HeaderAddr(r, j)
  {
    var pre, out, post := r.blocks[..j], r.blocks[j..k], r.blocks[k..];
    assert r.blocks == pre + out + post;
    assert r.blocks[..k] == pre + out;
    SpanAppend(pre, out);
    SizedThree(pre, out, post);
    SpanBounds(mid);
    SpanBounds(pre);
  }

  lemma SpliceChain(m: Memory, m': Memory, r: Region, j: int, k: int, mid: seq<Block>)
    requires Chain(m, r.base + HEADER, 0, r.blocks) && Sized(r.blocks) && 0 <= j < k <= |r.blocks|
    requires Sized(mid) && mid != [] && Span(mid) == Span(r.blocks[j..k])
    requires Respliced(m, m', r, j, k, mid)
    ensures Chain(m', r.base + HEADER, 0, Replace(r.blocks, j, k, mid))
  {
    var pre, post := r.blocks[..j], r.blocks[k..];
    SpliceSpans(r, j, k, mid);
    CutAt(m, r, j);
    CutAt(m, r, k);
    PrevAddrIsLast(r, j);
    ChainSplice(m, m', r.base + HEADER, pre, mid, post, HeaderAddr(r, k), PrevAddr(r, k));
  }

  /**
    The words of blocks j..k are rewritten to represent others of the same span, and the header after
    them gets the new last block as its prev.
   */
  lemma Splice(m: Memory, m': Memory, r: Region, j: int, k: int, mid: seq<Block>, prev: int, next: int)
    requires RegionRep(m, r, prev, next) && Sized(r.blocks) && 0 <= j < k <= |r.blocks|
    requires Sized(mid) && mid != [] && Span(mid) == Span(r.blocks[j..k])
    requires Respliced(m, m', r, j, k, mid)
    ensures var blocks := Replace(r.blocks, j, k, mid);
            Sized(blocks) && Span(blocks) == Span(r.blocks) && RegionRep(m', Region(r.base, blocks), prev, next)
  {
    SpliceSpans(r, j, k, mid);
    SpliceChain(m, m', r, j, k, mid);
    ReplaceKeeps(r.blocks, j, k, mid);
  }

  /** Only the two links of the BIG header differ. */
  lemma RegionRelink(m: Memory, m': Memory, r: Region, prev: int, next: int, prev': int, next': int)
    requires RegionRep(m, r, prev, next) && Sized(r.blocks)
    requires SameIn(m, m', r.base, r.base + PREV) && SameIn(m, m', r.base + HEADER, r.base + RegionSize(r))
    requires r.base + PREV in m' && m'[r.base + PREV] == prev'
    requires r.base + NEXT in m' && m'[r.base + NEXT] == next'
    requires Mapped(m', r.base, r.base + HEADER)
    ensures RegionRep(m', r, prev', next')
  {
    SpanBounds(r.blocks);
    ChainFrame(m, m', r.base + HEADER, 0, r.blocks);
  }

  lemma RegionFrame(m: Memory, m': Memory, r: Region, prev: int, next: int)
    requires RegionRep(m, r, prev, next) && Sized(r.blocks) && SameIn(m, m', r.base, r.base + RegionSize(r))
    ensures RegionRep(m', r, prev, next)
  {
    SpanBounds(r.blocks);
    RegionRelink(m, m', r, prev, next, prev, next);
  }

  /** A change inside one region leaves the representation of all others alone. */
  lemma RepUpdate(m: Memory, m': Memory, rs: seq<Region>, i: int, r': Region)
    requires Rep(m, rs) && Shaped(rs) && 0 <= i < |rs|
    requires r'.base == rs[i].base && RegionSize(r') == RegionSize(rs[i])
    requires SameOutside(m, m', rs[i].base, rs[i].base + RegionSize(rs[i]))
    requires RegionRep(m', r', PrevBase(rs, i), NextBase(rs, i))
    ensures Rep(m', rs[i := r'])
  {
    var rs' := rs[i := r'];
    forall k | 0 <= k < |rs'| ensures RegionRep(m', rs'[k], PrevBase(rs', k), NextBase(rs', k)) {
      if k != i {
        assert Apart(rs[if k < i then k else i], rs[if k < i then i else k]);
        SpanBounds(rs[k].blocks);
        SpanBounds(rs[i].blocks);
        RegionFrame(m, m', rs[k], PrevBase(rs, k), NextBase(rs, k));
      }
    }
  }

  /** A region rewritten in place: the chain now represents it with its new blocks. */
  lemma Lift(m: Memory, m': Memory, rs: seq<Region>, i: int, blocks: seq<Block>, lo: int, hi: int)
    requires Rep(m, rs) && Shaped(rs) && 0 < i < |rs|
    requires RegionRep(m', Region(rs[i].base, blocks), PrevBase(rs, i), NextBase(rs, i))
    requires blocks != [] && Sized(blocks) && Span(blocks) == Span(rs[i].blocks)
    requires rs[i].base <= lo && hi <= rs[i].base + RegionSize(rs[i]) && SameOutside(m, m', lo, hi)
    ensures var rs' := WithBlocks(rs, i, blocks);
            Rep(m', rs') && Shaped(rs') && Extents(rs'[1..]) == Extents(rs[1..])
  {
    RepUpdate(m, m', rs, i, Region(rs[i].base, blocks));
    ReplaceShaped(rs, i, blocks);
  }

  function WithBlocks(rs: seq<Region>, i: int, blocks: seq<Block>): seq<Region>
    requires 0 <= i < |rs|
  {
    rs[i := rs[i].(blocks := blocks)]
  }

  lemma HeadersInside(r: Region, j: int, k: int)
    requires Sized(r.blocks) && 0 <= j <= k <= |r.blocks|
    ensures r.base + HEADER <= HeaderAddr(r, j) <= HeaderAddr(r, k)
    ensures HeaderAddr(r, k) + HEADER <= r.base + RegionSize(r)
  {
    HeaderEnds(r);
    HeaderMonotone(r, 0, j);
    HeaderMonotone(r, j, k);
    HeaderMonotone(r, k, |r.blocks|);
  }

  // ---------- One region: marking, splitting and unifying blocks ----------

  lemma SegmentOne(m: Memory, a: int, prev: int, b: Block)
    requires HeaderAt(m, a, Magic(b.used), b.size, prev, a + HEADER + b.size)
    ensures Segment(m, a, prev, [b]) && LastAddr(a, prev, [b]) == a
  {
    assert [b][1..] == [];
  }

  lemma SegmentTwo(m: Memory, a: int, prev: int, b: Block, c: Block)
    requires HeaderAt(m, a, Magic(b.used), b.size, prev, a + HEADER + b.size)
    requires HeaderAt(m, a + HEADER + b.size, Magic(c.used), c.size, a, a + HEADER + b.size + HEADER + c.size)
    ensures Segment(m, a, prev, [b, c]) && LastAddr(a, prev, [b, c]) == a + HEADER + b.size
  {
    assert [b, c][1..] == [c];
    SegmentOne(m, a + HEADER + b.size, a, c);
  }

  lemma MarkCells(m: Memory, a: int, magic: int, size: int, prev: int, magic': int)
    requires size > 0 && HeaderAt(m, a, magic, size, prev, a + HEADER + size)
    requires HeaderMapped(m, a + HEADER + size) && m[a + HEADER + size + PREV] == a
    ensures var m' := m[a := magic'];
            HeaderAt(m', a, magic', size, prev, a + HEADER + size) && Relinked(m, m', a, a + HEADER + size, a)
  {
  }

  lemma MarkRegion(m: Memory, m': Memory, r: Region, j: int, used: bool, prev: int, next: int)
    requires RegionRep(m, r, prev, next) && Sized(r.blocks) && 0 <= j < |r.blocks|
    requires HeaderAt(m', HeaderAddr(r, j), Magic(used), r.blocks[j].size, PrevAddr(r, j), HeaderAddr(r, j + 1))
    requires Relinked(m, m', HeaderAddr(r, j), HeaderAddr(r, j + 1), HeaderAddr(r, j))
    ensures var blocks := Remark(r.blocks, j, used);
            RegionRep(m', Region(r.base, blocks), prev, next) && Sized(blocks) && Span(blocks) == Span(r.blocks)
  {
    var b, b' := r.blocks[j], r.blocks[j].(used := used);
    HeaderStep(r, j);
    SizedAt(r.blocks, j);
    SpanOne(b);
    SpanOne(b');
    SizedOne(b');
    assert r.blocks[j..j + 1] == [b];
    SegmentOne(m', HeaderAddr(r, j), PrevAddr(r, j), b');
    Splice(m, m', r, j, j + 1, [b'], prev, next);
  }

  function Halves(b: Block, size: int): seq<Block> {
    [Block(false, size), Block(false, b.size - HEADER - size)]
  }

  lemma HalvesKeep(b: Block, size: int)
    requires Whole(b.size) && Whole(size) && b.size > HEADER + size
    ensures Sized(Halves(b, size)) && Span(Halves(b, size)) == Span([b])
  {
    AlignedSum(b.size, size);
    SpanOne(b);
    SpanTwo(Block(false, size), Block(false, b.size - HEADER - size));
    SizedTwo(Block(false, size), Block(false, b.size - HEADER - size));
  }

  lemma SplitReadable(m: Memory, r: Region, j: int, size: int, prev: int, next: int)
    requires RegionRep(m, r, prev, next) && Mapping(r) && 0 <= j < |r.blocks|
    requires Whole(size) && r.blocks[j].size > HEADER + size
    ensures Whole(r.blocks[j].size) && HeaderAddr(r, j + 1) == HeaderAddr(r, j) + HEADER + r.blocks[j].size
    ensures BlockHeaderAt(m, r, j) && BlockHeaderAt(m, r, j + 1)
    ensures HeaderMapped(m, HeaderAddr(r, j) + HEADER + size)
  {
    ReadHeader(m, r, j, prev, next);
    ReadHeader(m, r, j + 1, prev, next);
    HeaderStep(r, j);
    SizedAt(r.blocks, j);
    PayloadInRegion(r, j);
    HeaderAligned(r, j);
    AlignedSum(HeaderAddr(r, j), size);
    AlignedWords(HeaderAddr(r, j) + HEADER + size);
  }

  /** The word-level effect of a split. */
  ghost predicate SplitEffect(m: Memory, m': Memory, block: int, magic: int, size: int, total: int, prev: int) {
    var newBlock, next := block + HEADER + size, block + HEADER + total;
    && HeaderAt(m', block, magic, size, prev, newBlock)
    && HeaderAt(m', newBlock, MAGIC_FREE_MCB, total - HEADER - size, block, next)
    && Relinked(m, m', block, next, newBlock)
  }

  lemma SplitRegion(m: Memory, m': Memory, r: Region, j: int, size: int, prev: int, next: int)
    requires RegionRep(m, r, prev, next) && Sized(r.blocks) && 0 <= j < |r.blocks|
    requires Whole(size) && !r.blocks[j].used && r.blocks[j].size > HEADER + size
    requires SplitEffect(m, m', HeaderAddr(r, j), MAGIC_FREE_MCB, size, r.blocks[j].size, PrevAddr(r, j))
    ensures var blocks := Replace(r.blocks, j, j + 1, Halves(r.blocks[j], size));
            RegionRep(m', Region(r.base, blocks), prev, next) && Sized(blocks) && Span(blocks) == Span(r.blocks)
  {
    var b := r.blocks[j];
    HeaderStep(r, j);
    SizedAt(r.blocks, j);
    HalvesKeep(b, size);
    SegmentTwo(m', HeaderAddr(r, j), PrevAddr(r, j), Halves(b, size)[0], Halves(b, size)[1]);
    assert r.blocks[j..j + 1] == [b];
    Splice(m, m', r, j, j + 1, Halves(b, size), prev, next);
  }

  lemma UnifyReadable(m: Memory, r: Region, j: int, prev: int, next: int)
    requires RegionRep(m, r, prev, next) && Sized(r.blocks) && 0 <= j < |r.blocks| - 1
    ensures BlockHeaderAt(m, r, j) && BlockHeaderAt(m, r, j + 1) && BlockHeaderAt(m, r, j + 2)
    ensures HeaderAddr(r, j + 1) == HeaderAddr(r, j) + HEADER + r.blocks[j].size
    ensures HeaderAddr(r, j + 2) == HeaderAddr(r, j + 1) + HEADER + r.blocks[j + 1].size
    ensures Whole(r.blocks[j].size) && Whole(r.blocks[j + 1].size)
  {
    ReadHeader(m, r, j, prev, next);
    ReadHeader(m, r, j + 1, prev, next);
    ReadHeader(m, r, j + 2, prev, next);
    HeaderStep(r, j);
    HeaderStep(r, j + 1);
    SizedAt(r.blocks, j);
    SizedAt(r.blocks, j + 1);
  }

  /** The word-level effect of a merge. */
  ghost predicate UnifyEffect(m: Memory, m': Memory, first: int, magic: int, n: int, prev: int, n': int) {
    var next := first + HEADER + n + HEADER + n';
    HeaderAt(m', first, magic, n + HEADER + n', prev, next) && Relinked(m, m', first, next, first)
  }

  lemma UnifyRegion(m: Memory, m': Memory, r: Region, j: int, prev: int, next: int)
    requires RegionRep(m, r, prev, next) && Sized(r.blocks) && 0 <= j < |r.blocks| - 1
    requires UnifyEffect(m, m', HeaderAddr(r, j), Magic(r.blocks[j].used), r.blocks[j].size, PrevAddr(r, j), r.blocks[j + 1].size)
    ensures RegionRep(m', Region(r.base, Unify(r.blocks, j)), prev, next)
    ensures Sized(Unify(r.blocks, j)) && Span(Unify(r.blocks, j)) == Span(r.blocks)
  {
    var b, c := r.blocks[j], r.blocks[j + 1];
    HeaderStep(r, j);
    HeaderStep(r, j + 1);
    SizedAt(r.blocks, j);
    SizedAt(r.blocks, j + 1);
    SegmentOne(m', HeaderAddr(r, j), PrevAddr(r, j), Unified(b, c));
    UnifiedKeeps(b, c);
    assert r.blocks[j..j + 2] == [b, c];
    Splice(m, m', r, j, j + 2, [Unified(b, c)], prev, next);
  }

  // ---------- Payload words ----------

  /** x is a byte address inside the payload of block j of region i, which is in use. */
  ghost predicate InPayload(rs: seq<Region>, i: int, j: int, x: int) {
    && 0 <= i < |rs| && 0 <= j < |rs[i].blocks| && rs[i].blocks[j].used
    && PayloadAddr(rs[i], j) <= x < PayloadAddr(rs[i], j) + rs[i].blocks[j].size
  }

  /** Every payload word live in rs, except those of block (i, j), holds in m' what it held in m. */
  ghost predicate PayloadsKept(m: Memory, m': Memory, rs: seq<Region>, i: int, j: int) {
    forall i', j', x :: InPayload(rs, i', j', x) && (i', j') != (i, j) && x in m ==> x in m' && m'[x] == m[x]
  }

  /** Words of headers j..k and of the blocks between them belong to no other live payload. */
  lemma PayloadOutside(rs: seq<Region>, i: int, j: int, k: int, i': int, j': int, x: int)
    requires Shaped(rs) && 0 <= i < |rs| && 0 <= j <= k <= |rs[i].blocks| && InPayload(rs, i', j', x)
    requires i' == i ==> !(j <= j' < k)
    ensures !(HeaderAddr(rs[i], j) <= x < HeaderAddr(rs[i], k) + HEADER)
  {
    PayloadInRegion(rs[i'], j');
    if i == i' {
      if j' < j { HeaderMonotone(rs[i], j', j); } else { HeaderMonotone(rs[i], k, j'); }
    } else {
      HeaderEnds(rs[i]);
      HeaderMonotone(rs[i], 0, j);
      HeaderMonotone(rs[i], k, |rs[i].blocks|);
      assert Apart(rs[if i < i' then i else i'], rs[if i < i' then i' else i]);
    }
  }
}
