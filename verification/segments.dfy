/**
  The segments of one address space as a sorted sequence of values: adding at the
  lowest fitting gap, and what removal really does for every range.
 */
module Segments {
  const TOP: int := 0x1_0000_0000

  datatype Segment = Segment(address: int, size: int, flags: int) {
    function End(): int { address + size }
  }

  /** 32-bit arithmetic of size_t. */
  function Wrap(x: int): (r: int)
    ensures 0 <= r < TOP && (0 <= x < TOP ==> r == x) && (-TOP <= x < 0 ==> r == x + TOP)
  {
    x % TOP
  }

  predicate Proper(s: Segment) {
    s.address >= 0 && s.size > 0 && s.End() <= TOP
  }

  /** Non-empty segments in address order, none overlapping another. */
  ghost predicate Sorted(segs: seq<Segment>) {
    && (forall i :: 0 <= i < |segs| ==> Proper(segs[i]))
    && (forall i, k :: 0 <= i < k < |segs| ==> segs[i].End() <= segs[k].address)
  }

  ghost predicate Covered(segs: seq<Segment>, x: int) {
    exists i :: 0 <= i < |segs| && segs[i].address <= x < segs[i].End()
  }

  /** No byte of [address, address + size) belongs to a segment. */
  ghost predicate Vacant(segs: seq<Segment>, address: int, size: int) {
    forall i :: 0 <= i < |segs| ==> segs[i].End() <= address || address + size <= segs[i].address
  }

  function Gap(segs: seq<Segment>, i: int): int
    requires 0 <= i < |segs| - 1
  {
    segs[i + 1].address - segs[i].End()
  }

  ghost predicate HasGap(segs: seq<Segment>, size: int) {
    exists i :: 0 <= i < |segs| - 1 && Gap(segs, i) >= size
  }

  // ---------- Finding a gap and adding a segment ----------

  /** The segment before the first gap of at least `size` bytes. */
  function GapIndex(segs: seq<Segment>, size: int): (i: int)
    requires HasGap(segs, size)
    ensures 0 <= i < |segs| - 1 && Gap(segs, i) >= size
    ensures forall k :: 0 <= k < i ==> Gap(segs, k) < size
  {
    GapFrom(segs, size, 0)
  }

  function GapFrom(segs: seq<Segment>, size: int, from: int): (i: int)
    requires 0 <= from && exists i :: from <= i < |segs| - 1 && Gap(segs, i) >= size
    ensures from <= i < |segs| - 1 && Gap(segs, i) >= size
    ensures forall k :: from <= k < i ==> Gap(segs, k) < size
    decreases |segs| - from
  {
    if Gap(segs, from) >= size then from else GapFrom(segs, size, from + 1)
  }

  /** The lowest address, above the first segment, where `size` bytes are vacant. */
  lemma LowestGap(segs: seq<Segment>, size: int, a: int)
    requires Sorted(segs) && HasGap(segs, size) && size > 0
    ensures Vacant(segs, segs[GapIndex(segs, size)].End(), size)
    ensures segs[GapIndex(segs, size)].End() + size <= segs[|segs| - 1].address
    ensures segs[0].End() <= a && Vacant(segs, a, size) ==> segs[GapIndex(segs, size)].End() <= a
  {
    var g := GapIndex(segs, size);
    if segs[0].End() <= a < segs[g].End() {
      var k := 0;
      while segs[k + 1].End() <= a
        invariant 0 <= k < g && segs[k].End() <= a
        decreases g - k
      {
        assert k + 1 != g;
        k := k + 1;
      }
      assert Gap(segs, k) < size;
      assert segs[k + 1].address < a + size && a < segs[k + 1].End();
    }
  }

  /** Where addSegment's walk stops: the first segment at or beyond `end`, but never the head. */
  function InsertIndex(segs: seq<Segment>, end: int): (k: int)
    requires |segs| > 0
    ensures 1 <= k <= |segs|
    ensures forall i :: 1 <= i < k ==> segs[i].address < end
    ensures k < |segs| ==> segs[k].address >= end
  {
    InsertFrom(segs, end, 1)
  }

  function InsertFrom(segs: seq<Segment>, end: int, from: int): (k: int)
    requires 1 <= from <= |segs|
    ensures from <= k <= |segs|
    ensures forall i :: from <= i < k ==> segs[i].address < end
    ensures k < |segs| ==> segs[k].address >= end
    decreases |segs| - from
  {
    if from == |segs| || segs[from].address >= end then from else InsertFrom(segs, end, from + 1)
  }

  function Added(segs: seq<Segment>, s: Segment): seq<Segment>
    requires |segs| > 0
  {
    var k := InsertIndex(segs, s.End());
    segs[..k] + [s] + segs[k..]
  }

  /** The two assertions of addSegment hold exactly when the new range is vacant. */
  lemma AddAsserts(segs: seq<Segment>, s: Segment)
    requires Sorted(segs) && |segs| > 0 && s.size > 0 && segs[0].address <= s.address
    ensures var k := InsertIndex(segs, s.End());
            segs[k - 1].End() <= s.address && (k < |segs| ==> s.End() <= segs[k].address) <==> Vacant(segs, s.address, s.size)
  {
    var k := InsertIndex(segs, s.End());
    assert segs[k - 1].address < s.End();
  }

  /** Adding a vacant range keeps the list in order. */
  lemma AddSorted(segs: seq<Segment>, s: Segment)
    requires Sorted(segs) && |segs| > 0 && s.size > 0 && 0 <= segs[0].address <= s.address && s.End() <= TOP
    requires Vacant(segs, s.address, s.size)
    ensures Sorted(Added(segs, s))
  {
    AddAsserts(segs, s);
    var k := InsertIndex(segs, s.End());
    InsertSorted(segs[..k], s, segs[k..]);
    assert segs == segs[..k] + segs[k..];
  }

  lemma InsertSorted(a: seq<Segment>, s: Segment, b: seq<Segment>)
    requires Sorted(a + b) && s.address >= 0 && s.size > 0 && s.End() <= TOP
    requires a != [] ==> a[|a| - 1].End() <= s.address
    requires b != [] ==> s.End() <= b[0].address
    ensures Sorted(a + [s] + b)
  {
    var added := a + [s] + b;
    SortedParts(a, b);
    forall i | 0 <= i < |added| ensures Proper(added[i]) && (i + 1 < |added| ==> added[i].End() <= added[i + 1].address) {
      if i < |a| {
        assert added[i] == a[i] && added[i + 1] == (if i + 1 < |a| then a[i + 1] else s);
      } else if i == |a| {
        assert added[i] == s && (b != [] ==> added[i + 1] == b[0]);
      } else {
        assert added[i] == b[i - |a| - 1] && (i + 1 < |added| ==> added[i + 1] == b[i - |a|]);
      }
    }
    Adjacent(added);
  }

  lemma SortedParts(a: seq<Segment>, b: seq<Segment>)
    requires Sorted(a + b)
    ensures Sorted(a) && Sorted(b)
  {
    var all := a + b;
    assert forall i :: 0 <= i < |a| ==> a[i] == all[i];
    assert forall i :: 0 <= i < |b| ==> b[i] == all[|a| + i];
  }

  /** Order between neighbours is order throughout. */
  lemma Adjacent(segs: seq<Segment>)
    requires forall i :: 0 <= i < |segs| ==> Proper(segs[i]) && (i + 1 < |segs| ==> segs[i].End() <= segs[i + 1].address)
    ensures Sorted(segs)
  {
    forall i, k | 0 <= i < k < |segs| ensures segs[i].End() <= segs[k].address {
      Chain(segs, i, k);
    }
  }

  lemma {:induction false} Chain(segs: seq<Segment>, i: int, k: int)
    requires forall i :: 0 <= i < |segs| ==> Proper(segs[i]) && (i + 1 < |segs| ==> segs[i].End() <= segs[i + 1].address)
    requires 0 <= i < k < |segs|
    ensures segs[i].End() <= segs[k].address
    decreases k
  {
    if i < k - 1 { Chain(segs, i, k - 1); }
  }

  /** Adding grows the covered set by exactly the new range. */
  lemma AddCovers(segs: seq<Segment>, s: Segment, x: int)
    requires |segs| > 0
    ensures Covered(Added(segs, s), x) <==> Covered(segs, x) || s.address <= x < s.End()
  {
    var k := InsertIndex(segs, s.End());
    var added := Added(segs, s);
    assert added[k] == s;
    if Covered(segs, x) {
      var i :| 0 <= i < |segs| && segs[i].address <= x < segs[i].End();
      assert added[if i < k then i else i + 1] == segs[i];
    }
    if Covered(added, x) {
      var i :| 0 <= i < |added| && added[i].address <= x < added[i].End();
      assert i == k || added[i] == segs[if i < k then i else i - 1];
    }
  }

  // ---------- Removing a range ----------

  /** The segment removal starts at: the first that ends beyond `address`. */
  function StartIndex(segs: seq<Segment>, address: int): (k: int)
    requires |segs| > 0 && segs[|segs| - 1].End() > address
    ensures 0 <= k < |segs| && segs[k].End() > address
    ensures forall i :: 0 <= i < k ==> segs[i].End() <= address
  {
    StartFrom(segs, address, 0)
  }

  function StartFrom(segs: seq<Segment>, address: int, from: int): (k: int)
    requires 0 <= from < |segs| && segs[|segs| - 1].End() > address
    ensures from <= k < |segs| && segs[k].End() > address
    ensures forall i :: from <= i < k ==> segs[i].End() <= address
    decreases |segs| - from
  {
    if segs[from].End() > address then from else StartFrom(segs, address, from + 1)
  }

  /** `size` after the free space behind the current segment has been deducted. */
  function Deduct(size: int, free: int): int {
    if size < free then 0 else size - free
  }

  datatype Branch = Whole | Front | Tail | Inner

  /** Which of removeSegment's four branches applies. */
  function BranchOf(c: Segment, address: int, size: int): Branch {
    if c.address == address && c.size <= size then Whole
    else if c.address == address then Front
    else if c.End() < address + size then Tail
    else Inner
  }

  /** The list without segment i. */
  function Drop(segs: seq<Segment>, i: int): seq<Segment>
    requires 0 <= i < |segs|
  {
    segs[..i] + segs[i + 1..]
  }

  lemma DropAt(segs: seq<Segment>, i: int)
    requires 0 <= i < |segs|
    ensures |Drop(segs, i)| == |segs| - 1
    ensures forall k :: 0 <= k < i ==> Drop(segs, i)[k] == segs[k]
    ensures forall k :: i <= k < |segs| - 1 ==> Drop(segs, i)[k] == segs[k + 1]
  {
  }

  /** removeSegment's loop from segment i on, branch by branch, with 32-bit sizes. */
  function RemoveFrom(segs: seq<Segment>, i: int, address: int, size: int): seq<Segment>
    requires 0 <= i <= |segs|
    decreases |segs| - i
  {
    if size == 0 || i + 1 >= |segs| then segs else
    var c, next := segs[i], segs[i + 1];
    match BranchOf(c, address, size)
    case Whole =>
      RemoveFrom(Drop(segs, i), i, address + c.size, Deduct(size - c.size, Wrap(next.address - c.End())))
    case Front =>
      segs[i := Segment(c.address + size, c.size - size, c.flags)]
    case Tail =>
      var diff := c.End() - address;
      var c' := c.(size := Wrap(c.size - diff));
      RemoveFrom(segs[i := c'], i + 1, address + diff, Deduct(size - diff, Wrap(next.address - c'.End())))
    case Inner =>
      var first := Wrap(address - c.address);
      segs[..i] + [c.(size := first), Segment(address + size, Wrap(c.size - first - size), c.flags)] + segs[i + 1..]
  }

  /** Whether the loop ends in the branch that splits a segment. */
  ghost predicate SplitsFrom(segs: seq<Segment>, i: int, address: int, size: int)
    requires 0 <= i <= |segs|
    decreases |segs| - i
  {
    if size == 0 || i + 1 >= |segs| then false else
    var c, next := segs[i], segs[i + 1];
    match BranchOf(c, address, size)
    case Whole =>
      SplitsFrom(Drop(segs, i), i, address + c.size, Deduct(size - c.size, Wrap(next.address - c.End())))
    case Front => false
    case Tail =>
      var diff := c.End() - address;
      var c' := c.(size := Wrap(c.size - diff));
      SplitsFrom(segs[i := c'], i + 1, address + diff, Deduct(size - diff, Wrap(next.address - c'.End())))
    case Inner => true
  }

  /** A range removal may be asked for: between the first and the last segment, which every space reserves. */
  ghost predicate Removable(segs: seq<Segment>, address: int, size: int) {
    && Sorted(segs) && |segs| > 2 && segs[0].End() <= address < segs[|segs| - 2].End()
    && size > 0 && address + size <= segs[|segs| - 1].address
  }

  /** The range is that of segment k. */
  predicate IsSegment(segs: seq<Segment>, k: int, address: int, size: int) {
    0 <= k < |segs| && segs[k].address == address && segs[k].size == size
  }

  function Removed(segs: seq<Segment>, address: int, size: int): seq<Segment>
    requires Removable(segs, address, size)
  {
    RemoveFrom(segs, StartIndex(segs, address), address, size)
  }

  ghost predicate Splits(segs: seq<Segment>, address: int, size: int)
    requires Removable(segs, address, size)
  {
    SplitsFrom(segs, StartIndex(segs, address), address, size)
  }

  /** The range starts at a segment, and no gap inside it is followed by another segment of it. */
  ghost predicate CleanAt(segs: seq<Segment>, k: int, address: int, size: int) {
    && 0 <= k < |segs| && segs[k].address == address
    && forall l :: k < l < |segs| && segs[l].address < address + size ==> Follows(segs, l)
  }

  /** Segment l begins where the one before it ends. */
  predicate Follows(segs: seq<Segment>, l: int)
    requires 0 < l < |segs|
  {
    segs[l].address == segs[l - 1].End()
  }

  ghost predicate Clean(segs: seq<Segment>, address: int, size: int)
    requires Removable(segs, address, size)
  {
    CleanAt(segs, StartIndex(segs, address), address, size)
  }

  /** The result is a proper list that covers exactly what was covered outside the range. */
  ghost predicate Exact(segs: seq<Segment>, segs': seq<Segment>, address: int, size: int) {
    && Sorted(segs')
    && forall x :: Covered(segs', x) <==> Covered(segs, x) && !(address <= x < address + size)
  }

  /** A state of the loop: everything before segment i ends at or below the range still to be removed. */
  ghost predicate Removing(segs: seq<Segment>, i: int, address: int, size: int) {
    && Sorted(segs) && 0 <= i < |segs| && 0 <= address && size >= 0 && address + size <= segs[|segs| - 1].address
    && forall k :: 0 <= k < i ==> segs[k].End() <= address
  }

  /** Taking segment i out uncovers exactly its bytes. */
  lemma DropCovers(segs: seq<Segment>, i: int)
    requires Sorted(segs) && 0 <= i < |segs|
    ensures Sorted(Drop(segs, i))
    ensures Exact(segs, Drop(segs, i), segs[i].address, segs[i].size)
  {
    var rest := Drop(segs, i);
    DropAt(segs, i);
    hide Drop;
    forall x ensures Covered(rest, x) <==> Covered(segs, x) && !(segs[i].address <= x < segs[i].End()) {
      if Covered(segs, x) && !(segs[i].address <= x < segs[i].End()) {
        var k :| 0 <= k < |segs| && segs[k].address <= x < segs[k].End();
        assert rest[if k < i then k else k - 1] == segs[k];
      }
    }
  }

  /** Shortening segment i, at either end, uncovers exactly the bytes cut off. */
  lemma CutCovers(segs: seq<Segment>, i: int, c: Segment)
    requires Sorted(segs) && 0 <= i < |segs| && c.size > 0
    requires segs[i].address <= c.address && c.End() <= segs[i].End()
    ensures Sorted(segs[i := c])
    ensures forall x :: Covered(segs[i := c], x) <==> Covered(segs, x) && (segs[i].address <= x < segs[i].End() ==> c.address <= x < c.End())
  {
    var cut := segs[i := c];
    forall x ensures Covered(cut, x) <==> Covered(segs, x) && (segs[i].address <= x < segs[i].End() ==> c.address <= x < c.End()) {
      if Covered(segs, x) && (segs[i].address <= x < segs[i].End() ==> c.address <= x < c.End()) {
        var k :| 0 <= k < |segs| && segs[k].address <= x < segs[k].End();
        assert cut[k] == (if k == i then c else segs[k]);
      }
      if Covered(cut, x) {
        var k :| 0 <= k < |cut| && cut[k].address <= x < cut[k].End();
        assert k == i || cut[k] == segs[k];
      }
    }
  }

  /** From a clean start the loop removes exactly the range, and never splits. */
  lemma {:induction false} CleanExact(segs: seq<Segment>, i: int, address: int, size: int)
    requires Removing(segs, i, address, size) && (size == 0 || CleanAt(segs, i, address, size))
    ensures Exact(segs, RemoveFrom(segs, i, address, size), address, size) && !SplitsFrom(segs, i, address, size)
    decreases |segs| - i
  {
    hide Wrap, Covered, Drop, RemoveFrom, SplitsFrom, Sorted;
    if size == 0 {
      RemoveNothing(segs, i, address, size);
    } else if segs[i].size <= size {
      CleanStep(segs, i, address, size);
      var c, next := segs[i], segs[i + 1];
      var rest := Drop(segs, i);
      var left := Deduct(size - c.size, next.address - c.End());
      WholeStep(segs, i, address, size);
      DropCovers(segs, i);
      DropAt(segs, i);
      hide Exact, CleanAt;
      CleanExact(rest, i, c.End(), left);
      GapUncovered(segs, i);
      DropThen(segs, rest, RemoveFrom(rest, i, c.End(), left), address, c.size, left, size, next.address);
    } else {
      FrontExact(segs, i, address, size);
    }
  }

  lemma FrontExact(segs: seq<Segment>, i: int, address: int, size: int)
    requires Removing(segs, i, address, size) && size > 0 && CleanAt(segs, i, address, size) && segs[i].size > size
    ensures i + 1 < |segs|
    ensures Exact(segs, RemoveFrom(segs, i, address, size), address, size) && !SplitsFrom(segs, i, address, size)
  {
    var c := segs[i];
    CutCovers(segs, i, Segment(c.address + size, c.size - size, c.flags));
  }

  lemma GapUncovered(segs: seq<Segment>, i: int)
    requires Sorted(segs) && 0 <= i < |segs| - 1
    ensures forall x :: segs[i].End() <= x < segs[i + 1].address ==> !Covered(segs, x)
  {
  }

  lemma CleanStep(segs: seq<Segment>, i: int, address: int, size: int)
    requires Removing(segs, i, address, size) && size > 0 && CleanAt(segs, i, address, size) && segs[i].size <= size
    ensures i + 1 < |segs|
    ensures var c, next := segs[i], segs[i + 1]; var left := Deduct(size - c.size, next.address - c.End());
            && c.size > 0 && c.End() <= next.address && (left == 0 || CleanAt(Drop(segs, i), i, c.End(), left))
            && (left == size - c.size || (left == 0 && next.address >= address + size))
  {
    DropAt(segs, i);
    hide Drop;
    var rest := Drop(segs, i);
    var c, next := segs[i], segs[i + 1];
    assert c.End() <= next.address && Proper(c);
    if next.address < address + size {
      assert Follows(segs, i + 1);
      forall l | i < l < |rest| && rest[l].address < address + size ensures Follows(rest, l) {
        assert Follows(segs, l + 1);
      }
    }
  }

  /** Removing [address, +a) and then what was left of the range removes the range, when nothing else of it is covered. */
  lemma DropThen(segs: seq<Segment>, rest: seq<Segment>, done: seq<Segment>, address: int, a: int, left: int, size: int, next: int)
    requires Exact(segs, rest, address, a) && Exact(rest, done, address + a, left) && 0 <= a <= size && 0 <= left
    requires left == size - a || (left == 0 && next >= address + size)
    requires forall x :: address + a <= x < next ==> !Covered(segs, x)
    ensures Exact(segs, done, address, size)
  {
  }

  lemma StartRemoving(segs: seq<Segment>, address: int, size: int)
    requires Removable(segs, address, size)
    ensures Removing(segs, StartIndex(segs, address), address, size) && StartIndex(segs, address) < |segs| - 1
  {
    assert segs[|segs| - 2].End() > address;
  }

  lemma RemoveStepWhole(segs: seq<Segment>, i: int, address: int, size: int)
    requires 0 <= i < |segs| - 1 && segs[i].address == address && 0 < size && segs[i].size <= size
    ensures var c, next := segs[i], segs[i + 1]; var left := Deduct(size - c.size, Wrap(next.address - c.End()));
            && RemoveFrom(segs, i, address, size) == RemoveFrom(Drop(segs, i), i, c.End(), left)
            && SplitsFrom(segs, i, address, size) == SplitsFrom(Drop(segs, i), i, c.End(), left)
  {
  }

  lemma RemoveStepTail(segs: seq<Segment>, i: int, address: int, size: int)
    requires 0 <= i < |segs| - 1 && 0 < size && BranchOf(segs[i], address, size) == Tail
    ensures var c, next := segs[i], segs[i + 1]; var diff := c.End() - address; var c' := c.(size := Wrap(c.size - diff));
            var left := Deduct(size - diff, Wrap(next.address - c'.End()));
            && RemoveFrom(segs, i, address, size) == RemoveFrom(segs[i := c'], i + 1, c.End(), left)
            && SplitsFrom(segs, i, address, size) == SplitsFrom(segs[i := c'], i + 1, c.End(), left)
  {
  }

  lemma RemoveStepLast(segs: seq<Segment>, i: int, address: int, size: int)
    requires 0 <= i < |segs| - 1 && 0 < size && BranchOf(segs[i], address, size) in {Front, Inner}
    ensures var c := segs[i]; var first := Wrap(address - c.address);
            && SplitsFrom(segs, i, address, size) == (BranchOf(c, address, size) == Inner)
            && RemoveFrom(segs, i, address, size) ==
               (if BranchOf(c, address, size) == Front then segs[i := Segment(c.address + size, c.size - size, c.flags)]
                else segs[..i] + [c.(size := first), Segment(address + size, Wrap(c.size - first - size), c.flags)] + segs[i + 1..])
  {
  }

  /** Elements before the loop's position stay as they are. */
  lemma {:induction false} PrefixStays(segs: seq<Segment>, i: int, address: int, size: int, k: int)
    requires 0 <= k < i <= |segs| && 0 <= size
    ensures k < |RemoveFrom(segs, i, address, size)| && RemoveFrom(segs, i, address, size)[k] == segs[k]
    decreases |segs| - i
  {
    hide Wrap, RemoveFrom, SplitsFrom, Drop;
    if size > 0 && i + 1 < |segs| {
      var c, next := segs[i], segs[i + 1];
      match BranchOf(c, address, size)
      case Whole =>
        DropAt(segs, i);
        RemoveStepWhole(segs, i, address, size);
        PrefixStays(Drop(segs, i), i, c.End(), Deduct(size - c.size, Wrap(next.address - c.End())), k);
      case Tail =>
        var c' := c.(size := Wrap(c.size - (c.End() - address)));
        RemoveStepTail(segs, i, address, size);
        PrefixStays(segs[i := c'], i + 1, c.End(), Deduct(size - (c.End() - address), Wrap(next.address - c'.End())), k);
      case _ =>
        RemoveStepLast(segs, i, address, size);
    } else {
      RemoveNothing(segs, i, address, size);
    }
  }

  lemma RemoveNothing(segs: seq<Segment>, i: int, address: int, size: int)
    requires 0 <= i <= |segs| && (size == 0 || i + 1 >= |segs|)
    ensures RemoveFrom(segs, i, address, size) == segs && !SplitsFrom(segs, i, address, size)
  {
  }

  /** A position in a gap with bytes left to remove: some segment's size wraps around and reaches past the top. */
  lemma GapBreaks(segs: seq<Segment>, i: int, address: int, size: int)
    requires Removing(segs, i, address, size) && 0 < address < segs[i].address && size > 0 && i + 1 < |segs|
    ensures !Sorted(RemoveFrom(segs, i, address, size))
  {
    var c, next := segs[i], segs[i + 1];
    var done := RemoveFrom(segs, i, address, size);
    if c.End() < address + size {
      var c' := c.(size := Wrap(c.size - (c.End() - address)));
      PrefixStays(segs[i := c'], i + 1, c.End(), Deduct(size - (c.End() - address), Wrap(next.address - c'.End())), i);
      assert done[i] == c' && c'.End() > TOP;
    } else {
      assert done[i] == c.(size := Wrap(address - c.address)) && done[i].End() > TOP;
    }
    assert !Proper(done[i]);
  }

  /** One iteration of the loop that removes a whole segment. */
  lemma WholeStep(segs: seq<Segment>, i: int, address: int, size: int)
    requires Removing(segs, i, address, size) && segs[i].address == address && 0 < size && segs[i].size <= size && i + 1 < |segs|
    ensures var c, next := segs[i], segs[i + 1]; var rest := Drop(segs, i);
            var left := Deduct(size - c.size, next.address - c.End());
            && RemoveFrom(segs, i, address, size) == RemoveFrom(rest, i, c.End(), left)
            && SplitsFrom(segs, i, address, size) == SplitsFrom(rest, i, c.End(), left)
            && Removing(rest, i, c.End(), left)
  {
    var rest := Drop(segs, i);
    DropCovers(segs, i);
    DropAt(segs, i);
    assert segs[i].End() <= segs[i + 1].address;
    hide Drop, SplitsFrom, RemoveFrom, Exact;
    RemoveStepWhole(segs, i, address, size);
    assert rest[|rest| - 1] == segs[|segs| - 1];
  }

  /** From a segment's start over a gap with a further segment l behind it, removal goes wrong. */
  lemma {:induction false} UncleanBreaks(segs: seq<Segment>, i: int, address: int, size: int, l: int)
    requires Removing(segs, i, address, size) && segs[i].address == address
    requires i < l < |segs| && segs[l].address < address + size && !Follows(segs, l)
    ensures !Sorted(RemoveFrom(segs, i, address, size))
    decreases |segs| - i
  {
    hide RemoveFrom, SplitsFrom, Drop, Wrap, Covered;
    var c, next := segs[i], segs[i + 1];
    assert c.End() <= next.address && Proper(c) && Proper(next);
    assert l > i + 1 ==> next.End() <= segs[l].address;
    WholeStep(segs, i, address, size);
    DropAt(segs, i);
    var rest := Drop(segs, i);
    var left := Deduct(size - c.size, next.address - c.End());
    assert rest[i] == next;
    if c.End() == next.address {
      assert l - 1 > i && rest[l - 1] == segs[l] && rest[l - 2] == segs[l - 1];
      UncleanBreaks(rest, i, c.End(), left, l - 1);
    } else {
      GapBreaks(rest, i, c.End(), left);
    }
  }

  /**
    A range that starts at a segment is removed exactly if and only if no gap inside it is followed by
    another segment of it.
   */
  lemma RemoveFromStart(segs: seq<Segment>, address: int, size: int)
    requires Removable(segs, address, size) && segs[StartIndex(segs, address)].address == address
    ensures Exact(segs, Removed(segs, address, size), address, size) && !Splits(segs, address, size) <==> Clean(segs, address, size)
  {
    StartRemoving(segs, address, size);
    if Clean(segs, address, size) {
      CleanExact(segs, StartIndex(segs, address), address, size);
    } else {
      var k := StartIndex(segs, address);
      var l :| k < l < |segs| && segs[l].address < address + size && !Follows(segs, l);
      UncleanBreaks(segs, k, address, size, l);
    }
  }

  ghost predicate AllCovered(segs: seq<Segment>, address: int, size: int) {
    forall x :: address <= x < address + size ==> Covered(segs, x)
  }

  /** In a covered range every segment follows the one before it without a gap. */
  lemma CoveredIsClean(segs: seq<Segment>, i: int, address: int, size: int)
    requires Removing(segs, i, address, size) && AllCovered(segs, address, size) && segs[i].address <= address < segs[i].End()
    ensures forall l :: i < l < |segs| && segs[l].address < address + size ==> Follows(segs, l)
  {
    forall l | i < l < |segs| && segs[l].address < address + size ensures Follows(segs, l) {
      assert segs[l - 1].End() <= segs[l].address;
      assert address < segs[i].End() <= segs[l - 1].End();
      if segs[l - 1].End() < segs[l].address {
        assert Covered(segs, segs[l - 1].End());
        GapUncovered(segs, l - 1);
      }
    }
  }

  /** A range that starts inside a segment and runs past its end is not removed whole: its last byte stays. */
  lemma TailStays(segs: seq<Segment>, i: int, address: int, size: int)
    requires Removing(segs, i, address, size) && AllCovered(segs, address, size) && size > 0
    requires segs[i].address < address < segs[i].End() < address + size
    ensures Covered(RemoveFrom(segs, i, address, size), address + size - 1)
  {
    hide RemoveFrom, SplitsFrom, Wrap, Covered, Sorted, Proper, CleanAt;
    CoveredIsClean(segs, i, address, size);
    var c, last := segs[i], address + size - 1;
    var c' := c.(size := address - c.address);
    assert Covered(segs, last);
    LastCovered(segs, i, last);
    CutCovers(segs, i, c');
    var cut := segs[i := c'];
    assert Covered(cut, last);
    var left := Deduct(address + size - c.End(), c.End() - address);
    assert Follows(segs, i + 1);
    CutClean(segs, i, c', address, size, left);
    CleanExact(cut, i + 1, c.End(), left);
    TailStep(segs, i, address, size);
  }

  /** One iteration that trims a tail: the bytes trimmed are deducted a second time as free space. */
  lemma TailStep(segs: seq<Segment>, i: int, address: int, size: int)
    requires Removing(segs, i, address, size) && 0 <= i < |segs| - 1 && Follows(segs, i + 1)
    requires segs[i].address < address < segs[i].End() < address + size
    ensures var c := segs[i]; var c' := c.(size := address - c.address);
            var left := Deduct(address + size - c.End(), c.End() - address);
            RemoveFrom(segs, i, address, size) == RemoveFrom(segs[i := c'], i + 1, c.End(), left)
  {
    var c := segs[i];
    assert Proper(c) && Proper(segs[|segs| - 1]);
    hide RemoveFrom, Wrap, Sorted;
    RemoveStepTail(segs, i, address, size);
    var diff := c.End() - address;
    assert c.size - diff == address - c.address && size - diff == address + size - c.End();
    WrapSmall(c.size - diff);
    var c' := c.(size := Wrap(c.size - diff));
    assert c' == c.(size := address - c.address);
    assert segs[i + 1].address - c'.End() == c.End() - address;
    WrapSmall(c.End() - address);
  }

  lemma WrapSmall(x: int)
    ensures 0 <= x < TOP ==> Wrap(x) == x
  {
  }

  lemma LastCovered(segs: seq<Segment>, i: int, x: int)
    requires Sorted(segs) && 0 <= i < |segs| && segs[i].End() <= x && Covered(segs, x)
    ensures i + 1 < |segs| && segs[i].End() <= segs[i + 1].address <= x
  {
    var k :| 0 <= k < |segs| && segs[k].address <= x < segs[k].End();
    assert k > i;
    if k > i + 1 { assert segs[i + 1].End() <= segs[k].address; }
  }

  /** What is left after a trimmed tail starts at the next segment and is clean. */
  lemma CutClean(segs: seq<Segment>, i: int, c': Segment, address: int, size: int, left: int)
    requires Removing(segs, i, address, size) && 0 <= left && i + 1 < |segs|
    requires segs[i].address == c'.address && 0 < c'.size && c'.End() <= segs[i].End() && Follows(segs, i + 1)
    requires segs[i].End() + left <= address + size
    requires forall l :: i < l < |segs| && segs[l].address < address + size ==> Follows(segs, l)
    ensures Removing(segs[i := c'], i + 1, segs[i].End(), left) && CleanAt(segs[i := c'], i + 1, segs[i].End(), left)
  {
    CutCovers(segs, i, c');
    hide Covered;
    var cut := segs[i := c'];
    assert forall l :: 0 <= l < |segs| && l != i ==> cut[l] == segs[l];
    assert cut[i].End() <= segs[i].End();
    assert Follows(segs, i + 1);
    forall l | i + 1 < l < |cut| && cut[l].address < segs[i].End() + left ensures Follows(cut, l) {
      assert Follows(segs, l);
    }
  }

  /**
    A range covered throughout is removed exactly, without leaving a stale link, if and only if it starts
    where a segment starts.
   */
  lemma RemoveCovered(segs: seq<Segment>, address: int, size: int)
    requires Removable(segs, address, size) && AllCovered(segs, address, size)
    ensures Exact(segs, Removed(segs, address, size), address, size) && !Splits(segs, address, size) <==>
            segs[StartIndex(segs, address)].address == address
  {
    StartRemoving(segs, address, size);
    var i := StartIndex(segs, address);
    assert Covered(segs, address);
    var k :| 0 <= k < |segs| && segs[k].address <= address < segs[k].End();
    assert k == i;
    if segs[i].address == address {
      CoveredIsClean(segs, i, address, size);
      CleanExact(segs, i, address, size);
    } else if segs[i].End() < address + size {
      TailStays(segs, i, address, size);
    }
  }

  /**
    A range that starts inside segment k is removed exactly when it runs past the segment's end, and either ends before
    the next segment or holds nothing in as many bytes at its end as were trimmed from segment k, with the rest clean.
   */
  ghost predicate TailClean(segs: seq<Segment>, k: int, address: int, size: int)
    requires 0 <= k < |segs| - 1
  {
    var c, next, end := segs[k], segs[k + 1], address + size;
    var trimmed := c.End() - address;
    && c.address < address && c.End() < end
    && (end <= next.address ||
        (Follows(segs, k + 1) && CleanAt(segs, k + 1, c.End(), size - 2 * trimmed)
         && forall x :: end - trimmed <= x < end ==> !Covered(segs, x)))
  }

  /** A loop step that trims a tail, whatever lies behind it. */
  lemma TrimStep(segs: seq<Segment>, i: int, address: int, size: int)
    requires Removing(segs, i, address, size) && 0 <= i < |segs| - 1
    requires segs[i].address < address < segs[i].End() < address + size
    ensures var c := segs[i]; var cut := segs[i := c.(size := address - c.address)];
            var left := Deduct(address + size - c.End(), segs[i + 1].address - address);
            && RemoveFrom(segs, i, address, size) == RemoveFrom(cut, i + 1, c.End(), left)
            && SplitsFrom(segs, i, address, size) == SplitsFrom(cut, i + 1, c.End(), left)
            && Removing(cut, i + 1, c.End(), left)
            && (forall x :: Covered(cut, x) <==> Covered(segs, x) && !(address <= x < c.End()))
  {
    hide RemoveFrom, SplitsFrom, Wrap, Sorted, Covered;
    var c := segs[i];
    InsideCovered(segs, i);
    TrimRemoving(segs, i, address, size);
    hide Removing;
    RemoveStepTail(segs, i, address, size);
    var diff := c.End() - address;
    WrapSmall(c.size - diff);
    WrapSmall(segs[i + 1].address - address);
    assert c.(size := Wrap(c.size - diff)) == c.(size := address - c.address);
    assert size - diff == address + size - c.End();
  }

  lemma TrimRemoving(segs: seq<Segment>, i: int, address: int, size: int)
    requires Removing(segs, i, address, size) && 0 <= i < |segs| - 1
    requires segs[i].address < address < segs[i].End() < address + size
    ensures var c := segs[i]; var cut := segs[i := c.(size := address - c.address)];
            var left := Deduct(address + size - c.End(), segs[i + 1].address - address);
            && Removing(cut, i + 1, c.End(), left) && segs[i + 1].address < TOP && c.End() - address < TOP
            && (forall x :: Covered(cut, x) <==> Covered(segs, x) && !(address <= x < c.End()))
  {
    var c := segs[i];
    var c' := c.(size := address - c.address);
    CutCovers(segs, i, c');
    CutKeeps(segs, i, c');
    NextCovered(segs, i);
    InsideCovered(segs, i);
    hide Covered;
  }

  lemma InsideCovered(segs: seq<Segment>, i: int)
    requires Sorted(segs) && 0 <= i < |segs| - 1
    ensures segs[i].End() <= segs[i + 1].address < TOP && 0 <= segs[i].address
    ensures forall x :: segs[i].address <= x < segs[i].End() ==> Covered(segs, x)
  {
    assert Proper(segs[i]) && Proper(segs[i + 1]);
  }

  lemma CutKeeps(segs: seq<Segment>, i: int, c: Segment)
    requires Sorted(segs) && 0 <= i < |segs| - 1 && c.End() <= segs[i].End()
    ensures var cut := segs[i := c];
            cut[|cut| - 1] == segs[|segs| - 1] && forall k :: 0 <= k <= i ==> cut[k].End() <= segs[i].End()
  {
  }

  lemma TailExact(segs: seq<Segment>, i: int, address: int, size: int)
    requires Removing(segs, i, address, size) && 0 <= i < |segs| - 1 && segs[i].address < address < segs[i].End() && size > 0
    ensures Exact(segs, RemoveFrom(segs, i, address, size), address, size) && !SplitsFrom(segs, i, address, size) <==>
            TailClean(segs, i, address, size)
  {
    hide RemoveFrom, SplitsFrom, Covered, Sorted, Wrap;
    var c, next, end := segs[i], segs[i + 1], address + size;
    if c.End() < end {
      TrimStep(segs, i, address, size);
      var cut := segs[i := c.(size := address - c.address)];
      var left := Deduct(end - c.End(), next.address - address);
      NextCovered(segs, i);
      if left == 0 {
        RemoveNothing(cut, i + 1, c.End(), left);
      } else if c.End() < next.address {
        GapBreaks(cut, i + 1, c.End(), left);
      } else if CleanAt(cut, i + 1, c.End(), left) {
        CleanExact(cut, i + 1, c.End(), left);
        SameClean(segs, cut, i, c.End(), left);
      } else {
        SameClean(segs, cut, i, c.End(), left);
        var l :| i + 1 < l < |cut| && cut[l].address < c.End() + left && !Follows(cut, l);
        UncleanBreaks(cut, i + 1, c.End(), left, l);
      }
    } else {
      RemoveStepLast(segs, i, address, size);
    }
  }

  lemma SameClean(segs: seq<Segment>, cut: seq<Segment>, i: int, address: int, size: int)
    requires 0 <= i < |segs| - 1 == |cut| - 1 && forall k :: i < k < |segs| ==> cut[k] == segs[k]
    ensures CleanAt(cut, i + 1, address, size) <==> CleanAt(segs, i + 1, address, size)
  {
    assert forall l :: i + 1 < l < |segs| ==> (Follows(cut, l) <==> Follows(segs, l));
  }

  lemma NextCovered(segs: seq<Segment>, i: int)
    requires Sorted(segs) && 0 <= i < |segs| - 1
    ensures segs[i].End() <= segs[i + 1].address && Covered(segs, segs[i + 1].address)
    ensures forall x :: segs[i].End() <= x < segs[i + 1].address ==> !Covered(segs, x)
  {
    assert Proper(segs[i + 1]);
    GapUncovered(segs, i);
  }

  /** When a range between the first and the last segment is removed exactly, its list left properly linked. */
  ghost predicate RemovesExactly(segs: seq<Segment>, address: int, size: int)
    requires Removable(segs, address, size)
  {
    var k := StartIndex(segs, address);
    if segs[k].address == address then Clean(segs, address, size)
    else k + 1 < |segs| && TailClean(segs, k, address, size)
  }

  /** Of every range: it is removed exactly if and only if RemovesExactly says so. */
  lemma RemoveExactlyWhen(segs: seq<Segment>, address: int, size: int)
    requires Removable(segs, address, size)
    ensures Exact(segs, Removed(segs, address, size), address, size) && !Splits(segs, address, size) <==>
            RemovesExactly(segs, address, size)
  {
    var k := StartIndex(segs, address);
    StartRemoving(segs, address, size);
    assert Proper(segs[0]);
    if segs[k].address == address {
      RemoveFromStart(segs, address, size);
    } else if segs[k].address < address {
      TailExact(segs, k, address, size);
    } else {
      GapBreaks(segs, k, address, size);
    }
  }

  // ---------- What a removal leaves of the segments ----------

  predicate Inside(s: Segment, c: Segment) { c.address <= s.address && s.End() <= c.End() && s.flags == c.flags }

  /** Segment s is part of one of the segments of the list, with its flags. */
  ghost predicate PartOf(s: Segment, segs: seq<Segment>) {
    exists i :: 0 <= i < |segs| && Inside(s, segs[i])
  }

  ghost predicate PartsOf(segs': seq<Segment>, segs: seq<Segment>) {
    forall k :: 0 <= k < |segs'| ==> PartOf(segs'[k], segs)
  }

  lemma PartsTrans(segs2: seq<Segment>, segs1: seq<Segment>, segs: seq<Segment>)
    requires PartsOf(segs2, segs1) && PartsOf(segs1, segs)
    ensures PartsOf(segs2, segs)
  {
    forall k | 0 <= k < |segs2| ensures PartOf(segs2[k], segs) {
      var i :| 0 <= i < |segs1| && Inside(segs2[k], segs1[i]);
      assert PartOf(segs1[i], segs);
    }
  }

  lemma PartsRefl(segs: seq<Segment>)
    ensures PartsOf(segs, segs)
  {
    forall k | 0 <= k < |segs| ensures PartOf(segs[k], segs) { assert Inside(segs[k], segs[k]); }
  }

  lemma CutParts(segs: seq<Segment>, i: int, c: Segment)
    requires 0 <= i < |segs| && segs[i].address <= c.address && c.End() <= segs[i].End() && c.flags == segs[i].flags
    ensures PartsOf(segs[i := c], segs)
  {
    var cut := segs[i := c];
    forall k | 0 <= k < |cut| ensures PartOf(cut[k], segs) { assert Inside(cut[k], segs[k]); }
  }

  lemma {:induction false} CleanParts(segs: seq<Segment>, i: int, address: int, size: int)
    requires Removing(segs, i, address, size) && (size == 0 || CleanAt(segs, i, address, size))
    ensures PartsOf(RemoveFrom(segs, i, address, size), segs)
    decreases |segs| - i
  {
    hide Wrap, Drop, RemoveFrom, SplitsFrom, PartsOf;
    PartsRefl(segs);
    if size == 0 {
      RemoveNothing(segs, i, address, size);
    } else if segs[i].size <= size {
      CleanStep(segs, i, address, size);
      var c, next := segs[i], segs[i + 1];
      var left := Deduct(size - c.size, next.address - c.End());
      WholeStep(segs, i, address, size);
      DropCovers(segs, i);
      DropAt(segs, i);
      DropParts(segs, i);
      hide Exact, CleanAt, Sorted;
      CleanParts(Drop(segs, i), i, c.End(), left);
      PartsTrans(RemoveFrom(segs, i, address, size), Drop(segs, i), segs);
    } else {
      FrontParts(segs, i, address, size);
    }
  }

  lemma DropParts(segs: seq<Segment>, i: int)
    requires 0 <= i < |segs|
    ensures PartsOf(Drop(segs, i), segs)
  {
    DropAt(segs, i);
    hide Drop;
    forall k | 0 <= k < |Drop(segs, i)| ensures PartOf(Drop(segs, i)[k], segs) {
      assert Inside(Drop(segs, i)[k], segs[if k < i then k else k + 1]);
    }
  }

  lemma FrontParts(segs: seq<Segment>, i: int, address: int, size: int)
    requires 0 <= i < |segs| - 1 && segs[i].address == address && 0 < size < segs[i].size
    ensures PartsOf(RemoveFrom(segs, i, address, size), segs)
  {
    var c := segs[i];
    CutParts(segs, i, Segment(c.address + size, c.size - size, c.flags));
  }

  lemma InnerParts(segs: seq<Segment>, i: int, address: int, size: int)
    requires 0 <= i < |segs| - 1 && 0 < size && 0 <= segs[i].address < address && address + size <= segs[i].End() <= TOP
    ensures PartsOf(RemoveFrom(segs, i, address, size), segs)
  {
    var c, segs' := segs[i], RemoveFrom(segs, i, address, size);
    assert |segs'| == |segs| + 1;
    forall k | 0 <= k < |segs'| ensures PartOf(segs'[k], segs) {
      var l := if k <= i then k else k - 1;
      assert Inside(segs'[k], segs[l]);
    }
  }

  /** The range lies within one segment. */
  ghost predicate InOne(segs: seq<Segment>, address: int, size: int) {
    exists i :: 0 <= i < |segs| && segs[i].address <= address && address + size <= segs[i].End()
  }

  /**
    A removal that is exact, and any within one segment, splits included, leaves parts of the segments there were, each with
    its flags.
   */
  lemma RemoveKeepsFlags(segs: seq<Segment>, address: int, size: int)
    requires Removable(segs, address, size) && (RemovesExactly(segs, address, size) || InOne(segs, address, size))
    ensures PartsOf(Removed(segs, address, size), segs)
  {
    var k := StartIndex(segs, address);
    StartRemoving(segs, address, size);
    assert Proper(segs[0]) && Proper(segs[k]);
    hide RemoveFrom, PartsOf;
    if InOne(segs, address, size) {
      var i :| 0 <= i < |segs| && segs[i].address <= address && address + size <= segs[i].End();
      assert i == k;
      OneParts(segs, k, address, size);
    } else if segs[k].address == address {
      CleanParts(segs, k, address, size);
    } else {
      TailParts(segs, k, address, size);
    }
  }

  lemma OneParts(segs: seq<Segment>, i: int, address: int, size: int)
    requires Removing(segs, i, address, size) && 0 <= i < |segs| - 1 && segs[i].address <= address && size > 0
    requires address + size <= segs[i].End() <= TOP && segs[i].address >= 0
    ensures PartsOf(RemoveFrom(segs, i, address, size), segs)
  {
    if segs[i].address < address { InnerParts(segs, i, address, size); }
    else if segs[i].size > size { FrontParts(segs, i, address, size); }
    else { CleanParts(segs, i, address, size); }
  }

  lemma TailParts(segs: seq<Segment>, i: int, address: int, size: int)
    requires Removing(segs, i, address, size) && 0 <= i < |segs| - 1 && segs[i].address < address < segs[i].End() && size > 0
    requires TailClean(segs, i, address, size)
    ensures PartsOf(RemoveFrom(segs, i, address, size), segs)
  {
    hide RemoveFrom, SplitsFrom, Covered, Sorted, Wrap, PartsOf;
    var c, next, end := segs[i], segs[i + 1], address + size;
    TrimStep(segs, i, address, size);
    var c' := c.(size := address - c.address);
    var cut := segs[i := c'];
    var left := Deduct(end - c.End(), next.address - address);
    CutParts(segs, i, c');
    NextCovered(segs, i);
    if left == 0 {
      RemoveNothing(cut, i + 1, c.End(), left);
    } else {
      SameClean(segs, cut, i, c.End(), left);
      CleanParts(cut, i + 1, c.End(), left);
      PartsTrans(RemoveFrom(cut, i + 1, c.End(), left), cut, segs);
    }
  }

  const LOW: Segment := Segment(0, 0x1000, 0)
  const HIGH: Segment := Segment(0xC000_0000, 0x4000_0000, 0)

  lemma SecondStarts(segs: seq<Segment>, address: int)
    requires |segs| > 1 && segs[0].End() <= address < segs[1].End() && segs[|segs| - 1].End() > address
    ensures StartIndex(segs, address) == 1
  {
    assert segs[1].End() > address && segs[0].End() <= address;
  }

  /** Removing the middle page of three splits the segment. */
  lemma MiddleExample()
    ensures var segs := [LOW, Segment(0x2000, 0x3000, 3), HIGH];
            Removable(segs, 0x3000, 0x1000) && Splits(segs, 0x3000, 0x1000) && !RemovesExactly(segs, 0x3000, 0x1000)
  {
    var segs := [LOW, Segment(0x2000, 0x3000, 3), HIGH];
    SecondStarts(segs, 0x3000);
    RemoveStepLast(segs, 1, 0x3000, 0x1000);
    hide RemoveFrom;
  }

  /** Removing the second page of one segment and the first of the next leaves the latter. */
  lemma TailExample()
    ensures var segs := [LOW, Segment(0x2000, 0x2000, 3), Segment(0x4000, 0x2000, 3), HIGH];
            && Removable(segs, 0x3000, 0x2000) && AllCovered(segs, 0x3000, 0x2000)
            && Covered(Removed(segs, 0x3000, 0x2000), 0x4000)
  {
    var segs := [LOW, Segment(0x2000, 0x2000, 3), Segment(0x4000, 0x2000, 3), HIGH];
    SecondStarts(segs, 0x3000);
    RemoveStepTail(segs, 1, 0x3000, 0x2000);
    var cut := segs[1 := Segment(0x2000, 0x1000, 3)];
    hide RemoveFrom;
    RemoveNothing(cut, 2, 0x4000, 0);
    assert cut[2].address <= 0x4000 < cut[2].End();
    forall x | 0x3000 <= x < 0x5000 ensures Covered(segs, x) {
      assert segs[if x < 0x4000 then 1 else 2].address <= x < segs[if x < 0x4000 then 1 else 2].End();
    }
  }
}
