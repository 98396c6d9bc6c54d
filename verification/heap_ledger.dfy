/**
  Which allocations are outstanding after a run of malloc and free, and that these
  are exactly the live blocks, each large enough for what was asked of it.
 */
module HeapLedger {
  import opened HeapBlocks
  import M = MallocHeap

  // ---------- The live blocks of a region ----------

  ghost predicate HoldsAt(r: Region, l: int, addr: int, size: int) {
    0 <= l < |r.blocks| && r.blocks[l].used && PayloadAddr(r, l) == addr && r.blocks[l].size == size
  }

  ghost predicate Holds(r: Region, addr: int, size: int) { exists l :: HoldsAt(r, l, addr, size) }

  /** A live block of that payload address and size. */
  ghost predicate Live(rs: seq<Region>, addr: int, size: int) {
    exists i :: 0 <= i < |rs| && Holds(rs[i], addr, size)
  }

  lemma LiveIs(rs: seq<Region>, addr: int)
    ensures IsLive(rs, addr) <==> exists size :: Live(rs, addr, size)
  {
    if IsLive(rs, addr) {
      var i, j :| IsPayload(rs, addr, i, j);
      assert HoldsAt(rs[i], j, addr, rs[i].blocks[j].size);
      assert Holds(rs[i], addr, rs[i].blocks[j].size);
      assert Live(rs, addr, rs[i].blocks[j].size);
    }
    forall size | Live(rs, addr, size) ensures IsLive(rs, addr) {
      var i :| 0 <= i < |rs| && Holds(rs[i], addr, size);
      var j :| HoldsAt(rs[i], j, addr, size);
      assert IsPayload(rs, addr, i, j);
    }
  }

  function PlaceBehind(j: int, k: int, mid: seq<Block>, l: int): int { if l < j then l else l - (k - j) + |mid| }

  lemma ReplacedAt(blocks: seq<Block>, j: int, k: int, mid: seq<Block>, l: int)
    requires 0 <= j <= k <= |blocks| && (l < j || l >= k)
    ensures var l' := PlaceBehind(j, k, mid, l); var blocks' := Replace(blocks, j, k, mid);
      (0 <= l < |blocks| <==> 0 <= l' < |blocks'|) && (0 <= l < |blocks| ==> blocks'[l'] == blocks[l] && (l < j ==> l' < j) && (l >= k ==> l' >= j + |mid|))
  {
  }

  /** A stretch of blocks of the same span put in place of another moves no other block. */
  lemma OutsideReplaced(r: Region, j: int, k: int, mid: seq<Block>, l: int, addr: int, size: int)
    requires 0 <= j <= k <= |r.blocks| && Span(mid) == Span(r.blocks[j..k])
    requires l < j || l >= k
    ensures HoldsAt(r, l, addr, size) <==> HoldsAt(Region(r.base, Replace(r.blocks, j, k, mid)), PlaceBehind(j, k, mid, l), addr, size)
  {
    ReplacedAt(r.blocks, j, k, mid, l);
    if 0 <= l < |r.blocks| { M.ReplaceAddrs(r, j, k, mid, PlaceBehind(j, k, mid, l)); }
    hide Span, HeaderAddr, Replace;
  }

  lemma HoldsReplaced(r: Region, j: int, k: int, mid: seq<Block>, addr: int, size: int)
    requires 0 <= j <= k <= |r.blocks| && Span(mid) == Span(r.blocks[j..k])
    ensures var r' := Region(r.base, Replace(r.blocks, j, k, mid));
            Holds(r', addr, size) <==> (exists l :: (l < j || l >= k) && HoldsAt(r, l, addr, size))
                                       || (exists l :: j <= l < j + |mid| && HoldsAt(r', l, addr, size))
  {
    var r' := Region(r.base, Replace(r.blocks, j, k, mid));
    hide Span, HoldsAt, Replace;
    forall l | (l < j || l >= k) && HoldsAt(r, l, addr, size) ensures Holds(r', addr, size) {
      OutsideReplaced(r, j, k, mid, l, addr, size);
    }
    forall l | HoldsAt(r', l, addr, size) && !(j <= l < j + |mid|)
      ensures exists l0 :: (l0 < j || l0 >= k) && HoldsAt(r, l0, addr, size)
    {
      var l0 := if l < j then l else l + (k - j) - |mid|;
      OutsideReplaced(r, j, k, mid, l0, addr, size);
      assert (l0 < j || l0 >= k) && HoldsAt(r, l0, addr, size);
    }
  }

  /** Handing out block j makes that block live, and leaves the live blocks of the region as they are. */
  lemma HoldsCarved(r: Region, j: int, size: int, addr: int, n: int)
    requires Sized(r.blocks) && 0 <= j < |r.blocks| && Fits(r.blocks[j], size) && Whole(size)
    ensures Holds(Region(r.base, Carve(r.blocks, j, size)), addr, n) <==>
      Holds(r, addr, n) || (addr == PayloadAddr(r, j) && n == Carved(r.blocks[j], size)[0].size)
  {
    var b := r.blocks[j];
    var mid := Carved(b, size);
    SizedAt(r.blocks, j);
    CarvedKeeps(b, size);
    assert r.blocks[j..j + 1] == [b];
    hide Span, Sized, Whole, HeaderAddr, Replace;
    HoldsReplaced(r, j, j + 1, mid, addr, n);
    MidHolds(r, j, mid, addr, n);
    assert forall l :: HoldsAt(r, l, addr, n) ==> l != j;
  }

  /** Of the blocks put in place of block j only the first is in use. */
  lemma MidHolds(r: Region, j: int, mid: seq<Block>, addr: int, n: int)
    requires 0 <= j < |r.blocks| && Span(mid) == Span(r.blocks[j..j + 1])
    requires 1 <= |mid| <= 2 && mid[0].used && (|mid| > 1 ==> !mid[1].used)
    ensures var r' := Region(r.base, Replace(r.blocks, j, j + 1, mid));
      (exists l :: j <= l < j + |mid| && HoldsAt(r', l, addr, n)) <==> addr == PayloadAddr(r, j) && n == mid[0].size
  {
    var r' := Region(r.base, Replace(r.blocks, j, j + 1, mid));
    M.ReplaceAddrs(r, j, j + 1, mid, j);
    assert r'.blocks[j] == mid[0] && (|mid| > 1 ==> r'.blocks[j + 1] == mid[1]);
    hide Span, HeaderAddr, Replace;
    assert HoldsAt(r', j, PayloadAddr(r, j), mid[0].size);
  }

  /** Blocks that are not in use, before or after, matter to no live block. */
  lemma HoldsUnused(r: Region, j: int, k: int, mid: seq<Block>, addr: int, n: int)
    requires 0 <= j <= k <= |r.blocks| && Span(mid) == Span(r.blocks[j..k])
    requires (forall l :: j <= l < k ==> !r.blocks[l].used) && forall l :: 0 <= l < |mid| ==> !mid[l].used
    ensures Holds(Region(r.base, Replace(r.blocks, j, k, mid)), addr, n) <==> Holds(r, addr, n)
  {
    HoldsReplaced(r, j, k, mid, addr, n);
    var r' := Region(r.base, Replace(r.blocks, j, k, mid));
    forall l | j <= l < j + |mid| ensures !HoldsAt(r', l, addr, n) {
      assert r'.blocks[l] == mid[l - j];
    }
    forall l | HoldsAt(r, l, addr, n) ensures l < j || l >= k {
    }
  }

  lemma HoldsUnified(r: Region, j: int, addr: int, n: int)
    requires Sized(r.blocks) && 0 <= j < |r.blocks| - 1 && !r.blocks[j].used && !r.blocks[j + 1].used
    ensures Holds(Region(r.base, Unify(r.blocks, j)), addr, n) <==> Holds(r, addr, n)
  {
    SizedAt(r.blocks, j);
    SizedAt(r.blocks, j + 1);
    UnifiedKeeps(r.blocks[j], r.blocks[j + 1]);
    assert r.blocks[j..j + 2] == [r.blocks[j], r.blocks[j + 1]];
    HoldsUnused(r, j, j + 2, [Unified(r.blocks[j], r.blocks[j + 1])], addr, n);
  }

  /** Marking block j as free takes its address, and no other, from the live blocks. */
  lemma HoldsRemarked(r: Region, j: int, addr: int, n: int)
    requires Sized(r.blocks) && 0 <= j < |r.blocks|
    ensures Holds(Region(r.base, Remark(r.blocks, j, false)), addr, n) <==> Holds(r, addr, n) && addr != PayloadAddr(r, j)
  {
    var b := r.blocks[j].(used := false);
    SpanOne(r.blocks[j]);
    SpanOne(b);
    assert r.blocks[j..j + 1] == [r.blocks[j]];
    HoldsReplaced(r, j, j + 1, [b], addr, n);
    var r' := Region(r.base, Remark(r.blocks, j, false));
    assert r'.blocks[j] == b;
    forall l | HoldsAt(r, l, addr, n) && l != j ensures addr != PayloadAddr(r, j) {
      SizedAt(r.blocks, j);
      SizedAt(r.blocks, l);
      if l < j { HeaderMonotone(r, l, j); } else { HeaderMonotone(r, j, l); }
    }
  }

  lemma HoldsReleased(r: Region, j: int, addr: int, n: int)
    requires Sized(r.blocks) && 0 <= j < |r.blocks|
    ensures Holds(Region(r.base, Release(r.blocks, j)), addr, n) <==> Holds(r, addr, n) && addr != PayloadAddr(r, j)
  {
    HoldsRemarked(r, j, addr, n);
    RemarkKeeps(r.blocks, j, false);
    var freed := Remark(r.blocks, j, false);
    var left, k := MergedLeft(freed, j), MergePoint(freed, j);
    if MergesLeft(freed, j) {
      UnifyKeeps(freed, j - 1);
      HoldsUnified(Region(r.base, freed), j - 1, addr, n);
    }
    hide Holds, Span, Sized;
    assert !left[k].used;
    if k + 1 < |left| && !left[k + 1].used {
      HoldsUnified(Region(r.base, left), k, addr, n);
    }
  }

  // ---------- The live blocks of the heap ----------

  /** malloc: its result becomes live, in a block no smaller than the request; everything live before still is, in the same place and size. */
  lemma MallocLive(h: Heap, request: int, place: int)
    requires Sound(h) && Legal(h, Op.Malloc(request, place))
    ensures var p := MallocAddr(h, PayloadSize(request), place); var rs' := MallocStep(h, PayloadSize(request), place).regions;
      && !IsLive(h.regions, p) && (exists n :: n >= request && Live(rs', p, n))
      && forall addr, n :: addr != p ==> (Live(rs', addr, n) <==> Live(h.regions, addr, n))
  {
    MallocResult(h, request, place);
    var size := PayloadSize(request);
    var rs, i, j := TakenFits(h, request, place);
    var p, rs' := MallocAddr(h, size, place), MallocStep(h, size, place).regions;
    NewLive(rs', p, request);
    SizedIn(rs, i);
    forall addr, n | addr != p ensures Live(rs', addr, n) <==> Live(h.regions, addr, n) {
      HoldsCarved(rs[i], j, size, addr, n);
      if i == |h.regions| { NoneHeld(rs[i], addr, n); }
      hide Holds, Sound, Legal, PayloadAddr, Shaped, Carve;
      SameLive(h.regions, rs, rs', i, addr, n);
    }
  }

  lemma NewLive(rs: seq<Region>, p: int, request: int)
    requires exists i, j :: IsPayload(rs, p, i, j) && rs[i].blocks[j].size >= request
    ensures exists n :: n >= request && Live(rs, p, n)
  {
    var i, j :| IsPayload(rs, p, i, j) && rs[i].blocks[j].size >= request;
    assert HoldsAt(rs[i], j, p, rs[i].blocks[j].size);
    assert Holds(rs[i], p, rs[i].blocks[j].size);
    assert Live(rs, p, rs[i].blocks[j].size);
  }

  lemma SizedIn(rs: seq<Region>, i: int)
    requires Shaped(rs) && 0 <= i < |rs|
    ensures Sized(rs[i].blocks)
  {
  }

  lemma NoneHeld(r: Region, addr: int, n: int)
    requires forall l :: 0 <= l < |r.blocks| ==> !r.blocks[l].used
    ensures !Holds(r, addr, n)
  {
  }

  /** Regions rs' are rs but for the i-th, and rs is old, perhaps with a region more that holds nothing. */
  lemma SameLive(old0: seq<Region>, rs: seq<Region>, rs': seq<Region>, i: int, addr: int, n: int)
    requires 0 <= i < |rs| == |rs'| && (rs == old0 || (|rs| == |old0| + 1 && old0 <= rs && i == |old0| && !Holds(rs[i], addr, n)))
    requires (forall k :: 0 <= k < |rs| && k != i ==> rs'[k] == rs[k]) && (Holds(rs'[i], addr, n) <==> Holds(rs[i], addr, n))
    ensures Live(rs', addr, n) <==> Live(old0, addr, n)
  {
    hide Holds;
    forall k | 0 <= k < |rs'| && Holds(rs'[k], addr, n) ensures Live(old0, addr, n) {
      assert k < |old0| ==> old0[k] == rs[k];
      assert Holds(rs[k], addr, n);
    }
    forall k | 0 <= k < |old0| && Holds(old0[k], addr, n) ensures Live(rs', addr, n) {
      assert rs[k] == old0[k];
      assert Holds(rs'[k], addr, n);
    }
  }

  /** free: its argument is live no longer; everything else that was live still is, in the same place and size. */
  lemma FreeKeepsLive(h: Heap, addr: int, i: int, j: int)
    requires Sound(h) && IsPayload(h.regions, addr, i, j)
    ensures forall a, n :: Live(FreeStep(h, i, j).regions, a, n) <==> Live(h.regions, a, n) && a != addr
  {
    var r := h.regions[i];
    var r' := Region(r.base, Release(r.blocks, j));
    var rs' := FreeStep(h, i, j).regions;
    SizedIn(h.regions, i);
    forall a, n ensures Live(rs', a, n) <==> Live(h.regions, a, n) && a != addr {
      HoldsReleased(r, j, a, n);
      if |r'.blocks| == 1 { ReleasedFree(r.blocks, j); NoneHeld(r', a, n); }
      OnlyThere(h.regions, addr, i, j, n);
      hide Holds, Sound, Release, PayloadAddr, Shaped;
      LiveWithout(h.regions, rs', i, r', addr, a, n);
    }
  }

  lemma ReleasedFree(blocks: seq<Block>, j: int)
    requires 0 <= j < |blocks| && |Release(blocks, j)| == 1
    ensures !Release(blocks, j)[0].used
  {
  }

  /** A payload address is live in one region only. */
  lemma OnlyThere(rs: seq<Region>, addr: int, i: int, j: int, n: int)
    requires Shaped(rs) && IsPayload(rs, addr, i, j)
    ensures forall k :: 0 <= k < |rs| && k != i ==> !Holds(rs[k], addr, n)
  {
    forall k | 0 <= k < |rs| && k != i ensures !Holds(rs[k], addr, n) {
      forall l | HoldsAt(rs[k], l, addr, n) ensures false {
        PayloadUnique(rs, addr, i, j, k, l);
      }
    }
  }

  lemma LiveWithout(rs: seq<Region>, rs': seq<Region>, i: int, r': Region, addr: int, a: int, n: int)
    requires 0 <= i < |rs| && (rs' == rs[i := r'] || (rs' == rs[..i] + rs[i + 1..] && !Holds(r', a, n)))
    requires Holds(r', a, n) <==> Holds(rs[i], a, n) && a != addr
    requires a == addr ==> forall k :: 0 <= k < |rs| && k != i ==> !Holds(rs[k], a, n)
    ensures Live(rs', a, n) <==> Live(rs, a, n) && a != addr
  {
    hide Holds;
    if rs' == rs[i := r'] {
      forall k | 0 <= k < |rs| && Holds(rs[k], a, n) && a != addr ensures Live(rs', a, n) {
        assert Holds(rs'[k], a, n);
      }
      forall k | 0 <= k < |rs'| && Holds(rs'[k], a, n) ensures Live(rs, a, n) && a != addr {
        assert Holds(rs[k], a, n);
      }
    } else {
      forall k | 0 <= k < |rs| && Holds(rs[k], a, n) && a != addr ensures Live(rs', a, n) {
        assert Holds(rs'[if k < i then k else k - 1], a, n);
      }
      forall k | 0 <= k < |rs'| && Holds(rs'[k], a, n) ensures Live(rs, a, n) && a != addr {
        assert Holds(rs[if k < i then k else k + 1], a, n);
      }
    }
  }

  // ---------- Runs ----------

  /** What was asked for and not yet freed after the first k operations, by the address malloc returned. */
  ghost function Outstanding(states: seq<Heap>, ops: seq<Op>, k: int): map<int, int>
    requires IsRun(states, ops) && 0 <= k <= |ops|
  {
    if k == 0 then map[]
    else
      match ops[k - 1]
      case Malloc(request, place) => Outstanding(states, ops, k - 1)[MallocAddr(states[k - 1], PayloadSize(request), place) := request]
      case Free(addr) => Outstanding(states, ops, k - 1) - {addr}
  }

  /** The live blocks are those of the outstanding allocations, each at least as large as its request. */
  ghost predicate Accounted(rs: seq<Region>, out: map<int, int>) {
    && (forall addr :: IsLive(rs, addr) <==> addr in out)
    && forall addr :: addr in out ==> exists n :: n >= out[addr] && Live(rs, addr, n)
  }

  lemma MallocAccounted(h: Heap, request: int, place: int, out: map<int, int>)
    requires Sound(h) && Legal(h, Op.Malloc(request, place)) && Accounted(h.regions, out)
    ensures Accounted(MallocStep(h, PayloadSize(request), place).regions, out[MallocAddr(h, PayloadSize(request), place) := request])
  {
    MallocLive(h, request, place);
    var p, rs' := MallocAddr(h, PayloadSize(request), place), MallocStep(h, PayloadSize(request), place).regions;
    hide Live, IsLive, MallocStep, MallocAddr, Sound, Legal;
    var out' := out[p := request];
    forall addr ensures IsLive(rs', addr) <==> addr in out' {
      LiveIs(rs', addr);
      LiveIs(h.regions, addr);
    }
    forall addr | addr in out' ensures exists n :: n >= out'[addr] && Live(rs', addr, n) {
      if addr != p {
        var n :| n >= out[addr] && Live(h.regions, addr, n);
        assert Live(rs', addr, n);
      }
    }
  }

  lemma FreeAccounted(h: Heap, addr: int, i: int, j: int, out: map<int, int>)
    requires Sound(h) && IsPayload(h.regions, addr, i, j) && Accounted(h.regions, out)
    ensures Accounted(FreeStep(h, i, j).regions, out - {addr})
  {
    FreeKeepsLive(h, addr, i, j);
    var rs' := FreeStep(h, i, j).regions;
    hide Live, IsLive, FreeStep, Sound;
    forall a ensures IsLive(rs', a) <==> a in out - {addr} {
      LiveIs(rs', a);
      LiveIs(h.regions, a);
    }
    forall a | a in out - {addr} ensures exists n :: n >= (out - {addr})[a] && Live(rs', a, n) {
      var n :| n >= out[a] && Live(h.regions, a, n);
      assert Live(rs', a, n);
    }
  }

  /**
    Over every run of malloc and free from the static empty heap, in every state: an address is live exactly when it was
    allocated and not freed since, and its block has at least the size that was asked for.
   */
  lemma {:induction false} OutstandingLive(base: int, states: seq<Heap>, ops: seq<Op>, k: int)
    requires base > 0 && WordAligned(base) && base + 2 * HEADER <= TOP
    requires IsRun(states, ops) && states[0] == Initial(base) && 0 <= k <= |ops|
    ensures Accounted(states[k].regions, Outstanding(states, ops, k))
  {
    if k > 0 {
      var h, out := states[k - 1], Outstanding(states, ops, k - 1);
      OutstandingLive(base, states, ops, k - 1);
      RunsSound(base, states, ops, k - 1);
      match ops[k - 1]
      case Malloc(request, place) => MallocAccounted(h, request, place, out);
      case Free(addr) =>
        if addr == 0 {
          NullNotLive(h);
          assert out - {0} == out;
        } else {
          forall i, j | IsPayload(h.regions, addr, i, j) ensures Accounted(FreeStep(h, i, j).regions, out - {addr}) {
            FreeAccounted(h, addr, i, j, out);
          }
        }
    }
  }

  lemma NullNotLive(h: Heap)
    requires Sound(h)
    ensures !IsLive(h.regions, 0)
  {
    forall i, j | IsPayload(h.regions, 0, i, j) ensures false {
      PayloadInRegion(h.regions[i], j);
    }
  }

  lemma LiveApart(rs: seq<Region>, a: int, n: int, b: int, m: int)
    requires Shaped(rs) && Live(rs, a, n) && Live(rs, b, m) && a != b
    ensures Aligned(a) && Disjoint(a, n, b, m)
  {
    hide Shaped, Aligned, HoldsAt, PayloadAddr;
    var i :| 0 <= i < |rs| && Holds(rs[i], a, n);
    var j :| HoldsAt(rs[i], j, a, n);
    var i' :| 0 <= i' < |rs| && Holds(rs[i'], b, m);
    var j' :| HoldsAt(rs[i'], j', b, m);
    HeldApart(rs, i, j, a, n, i', j', b, m);
  }

  lemma HeldApart(rs: seq<Region>, i: int, j: int, a: int, n: int, i': int, j': int, b: int, m: int)
    requires Shaped(rs) && 0 <= i < |rs| && HoldsAt(rs[i], j, a, n) && 0 <= i' < |rs| && HoldsAt(rs[i'], j', b, m) && a != b
    ensures Aligned(a) && Disjoint(a, n, b, m)
  {
    hide Shaped, Aligned, HeaderAddr;
    PayloadsApart(rs, i, j, i', j');
  }

  /** In every state of such a run outstanding allocations are aligned for any type and do not overlap, for all the bytes asked for. */
  lemma OutstandingApart(base: int, states: seq<Heap>, ops: seq<Op>, k: int, a: int, b: int)
    requires base > 0 && WordAligned(base) && base + 2 * HEADER <= TOP
    requires IsRun(states, ops) && states[0] == Initial(base) && 0 <= k <= |ops|
    requires a in Outstanding(states, ops, k) && b in Outstanding(states, ops, k) && a != b
    ensures Aligned(a) && Disjoint(a, Outstanding(states, ops, k)[a], b, Outstanding(states, ops, k)[b])
  {
    OutstandingLive(base, states, ops, k);
    RunsSound(base, states, ops, k);
    var rs, out := states[k].regions, Outstanding(states, ops, k);
    hide Outstanding, IsRun, IsLive, Live, Shaped, Aligned, Ledger, AllTidy;
    var n :| n >= out[a] && Live(rs, a, n);
    var m :| m >= out[b] && Live(rs, b, m);
    LiveApart(rs, a, n, b, m);
  }
}
