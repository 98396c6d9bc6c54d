/**
  The segment list of an address space in whole pages: what reserving and giving
  back a range does to the list as a set of segments, and which lists a user space
  and the kernel can have.
 */
module SpaceSegments {
  import opened Segments

  const PAGE: int := 4096
  const NOUNMAP: int := 0x1_0000
  const USER_HEAD: Segment := Segment(0, 4096, NOUNMAP)
  const USER_TAIL: Segment := Segment(0xC000_0000, 0x4000_0000, NOUNMAP)

  predicate WholePages(x: int) { x % PAGE == 0 }

  lemma PagesAdd(x: int, y: int)
    ensures WholePages(x) && WholePages(y) ==> WholePages(x + y) && WholePages(x - y)
  {
  }

  /** Whether the destructor and fork pass over a segment. */
  predicate Reserved(s: Segment) { !(0 <= s.flags < NOUNMAP) }

  /** A sorted list of whole pages between two fixed segments; in a user space only those two are reserved. */
  ghost predicate ListOk(segs: seq<Segment>, head: Segment, tail: Segment, user: bool) {
    && Sorted(segs) && |segs| >= 2 && segs[0] == head && segs[|segs| - 1] == tail
    && (forall k :: 0 <= k < |segs| ==> WholePages(segs[k].address) && WholePages(segs[k].size))
    && (user ==> forall k :: 0 < k < |segs| - 1 ==> !Reserved(segs[k]))
  }

  /** Sorted lists of the same segments are the same list. */
  lemma {:induction false} SortedUnique(a: seq<Segment>, b: seq<Segment>)
    requires Sorted(a) && Sorted(b) && forall s :: s in a <==> s in b
    ensures a == b
    decreases |a|
  {
    hide Sorted;
    Inhabited(a);
    Inhabited(b);
    if a != [] {
      SameFirst(a, b);
      Rest(a, b);
      SortedUnique(a[1..], b[1..]);
      assert a == [a[0]] + a[1..] && b == [b[0]] + b[1..];
    }
  }

  lemma Inhabited(a: seq<Segment>)
    ensures a != [] <==> exists s :: s in a
  {
    assert a != [] ==> a[0] in a;
  }

  lemma FirstLeast(a: seq<Segment>, k: int)
    requires Sorted(a) && 0 <= k < |a|
    ensures k == 0 || a[0].address < a[k].address
  {
    assert Proper(a[0]);
  }

  lemma SameFirst(a: seq<Segment>, b: seq<Segment>)
    requires Sorted(a) && Sorted(b) && a != [] && b != [] && a[0] in b && b[0] in a
    ensures a[0] == b[0]
  {
    var i :| 0 <= i < |b| && b[i] == a[0];
    var k :| 0 <= k < |a| && a[k] == b[0];
    FirstLeast(b, i);
    FirstLeast(a, k);
  }

  lemma Rest(a: seq<Segment>, b: seq<Segment>)
    requires Sorted(a) && Sorted(b) && (forall s :: s in a <==> s in b) && a != [] && b != [] && a[0] == b[0]
    ensures Sorted(a[1..]) && Sorted(b[1..]) && forall s :: s in a[1..] <==> s in b[1..]
  {
    Tail(a);
    Tail(b);
  }

  lemma Tail(a: seq<Segment>)
    requires Sorted(a) && a != []
    ensures Sorted(a[1..]) && forall s :: s in a[1..] <==> s in a && s != a[0]
  {
    SortedParts([a[0]], a[1..]);
    assert [a[0]] + a[1..] == a;
    forall s | s in a[1..] ensures s in a && s != a[0] {
      var k :| 0 <= k < |a| - 1 && a[1..][k] == s;
      assert a[k + 1] == s && Proper(a[0]);
    }
  }

  lemma AddedElements(segs: seq<Segment>, s: Segment)
    requires |segs| > 0
    ensures forall x :: x in Added(segs, s) <==> x in segs || x == s
  {
    var k := InsertIndex(segs, s.End());
    assert segs == segs[..k] + segs[k..];
  }

  /** Removing a range that is one of the segments takes that segment out. */
  lemma RemovedWhole(segs: seq<Segment>, k: int)
    requires Sorted(segs) && 0 < k < |segs| - 1
    ensures Removable(segs, segs[k].address, segs[k].size)
    ensures Removed(segs, segs[k].address, segs[k].size) == Drop(segs, k) && !Splits(segs, segs[k].address, segs[k].size)
    ensures Sorted(Drop(segs, k)) && forall x :: x in Drop(segs, k) <==> x in segs && x != segs[k]
  {
    var s := segs[k];
    assert Proper(s) && segs[0].End() <= s.address && s.End() <= segs[|segs| - 1].address;
    assert k < |segs| - 2 ==> s.End() <= segs[|segs| - 2].address && Proper(segs[|segs| - 2]);
    hide RemoveFrom, SplitsFrom, Drop;
    assert segs[k].End() <= segs[k + 1].address && Proper(segs[k + 1]);
    WrapSmall(segs[k + 1].address - s.End());
    RemoveStepWhole(segs, k, s.address, s.size);
    DropAt(segs, k);
    RemoveNothing(Drop(segs, k), k, s.End(), 0);
    DropCovers(segs, k);
    DropElements(segs, k);
  }

  lemma DropElements(segs: seq<Segment>, k: int)
    requires Sorted(segs) && 0 <= k < |segs|
    ensures |Drop(segs, k)| == |segs| - 1 && forall x :: x in Drop(segs, k) <==> x in segs && x != segs[k]
  {
    forall x | x in Drop(segs, k) ensures x in segs && x != segs[k] {
      if x in segs[..k] {
        var i :| 0 <= i < k && segs[i] == x;
        assert segs[i].End() <= segs[k].address && Proper(segs[i]);
      } else {
        var i :| k < i < |segs| && segs[i] == x;
        assert segs[k].End() <= segs[i].address && Proper(segs[k]);
      }
    }
  }

  /** The segments at each end and the pages of a list stay whole when a vacant range in between is added. */
  lemma ListAdd(segs: seq<Segment>, head: Segment, tail: Segment, user: bool, s: Segment)
    requires ListOk(segs, head, tail, user) && Vacant(segs, s.address, s.size) && s.size > 0
    requires head.End() <= s.address && s.End() <= tail.address && WholePages(s.address) && WholePages(s.size)
    requires user ==> !Reserved(s)
    ensures ListOk(Added(segs, s), head, tail, user)
  {
    assert Proper(segs[0]) && Proper(segs[|segs| - 1]);
    AddSorted(segs, s);
    var k := InsertIndex(segs, s.End());
    assert k < |segs|;
    var added := Added(segs, s);
    hide WholePages, Sorted, Vacant;
    forall i | 0 <= i < |added| ensures WholePages(added[i].address) && WholePages(added[i].size) && (user && 0 < i < |added| - 1 ==> !Reserved(added[i])) {
      assert added[i] == if i < k then segs[i] else if i == k then s else segs[i - 1];
    }
  }

  /** The lowest gap of a list of whole pages starts at a page. */
  lemma ListGap(segs: seq<Segment>, head: Segment, tail: Segment, user: bool, size: int)
    requires ListOk(segs, head, tail, user) && HasGap(segs, size) && size > 0
    ensures var a := segs[GapIndex(segs, size)].End();
            WholePages(a) && Vacant(segs, a, size) && head.End() <= a && a + size <= tail.address && a < TOP
  {
    var i := GapIndex(segs, size);
    LowestGap(segs, size, 0);
    PagesAdd(segs[i].address, segs[i].size);
    assert i > 0 ==> head.End() <= segs[i].address;
    assert Proper(segs[i]) && Proper(tail);
  }

  /** A whole segment taken out between the two ends. */
  lemma ListDrop(segs: seq<Segment>, head: Segment, tail: Segment, user: bool, k: int)
    requires ListOk(segs, head, tail, user) && 0 < k < |segs| - 1
    ensures ListOk(Drop(segs, k), head, tail, user)
  {
    DropCovers(segs, k);
    DropAt(segs, k);
    hide Drop, WholePages, Sorted;
    var rest := Drop(segs, k);
    forall i | 0 <= i < |rest| ensures WholePages(rest[i].address) && WholePages(rest[i].size) && (user && 0 < i < |rest| - 1 ==> !Reserved(rest[i])) {
      assert rest[i] == if i < k then segs[i] else segs[i + 1];
    }
  }

  /** The front of segment k cut off. */
  lemma ListCut(segs: seq<Segment>, head: Segment, tail: Segment, user: bool, k: int, size: int)
    requires ListOk(segs, head, tail, user) && 0 < k < |segs| - 1 && 0 < size < segs[k].size && WholePages(size)
    ensures ListOk(segs[k := Segment(segs[k].address + size, segs[k].size - size, segs[k].flags)], head, tail, user)
  {
    var c := Segment(segs[k].address + size, segs[k].size - size, segs[k].flags);
    CutCovers(segs, k, c);
    PagesAdd(segs[k].address, size);
    PagesAdd(segs[k].size, size);
    hide WholePages, Sorted, Covered;
  }

  /** Removing whole pages from a segment's start on, over no gap, keeps the list in shape. */
  lemma {:induction false} ListRemove(segs: seq<Segment>, head: Segment, tail: Segment, user: bool, i: int, address: int, size: int)
    requires ListOk(segs, head, tail, user) && Removing(segs, i, address, size) && WholePages(size) && 0 < i
    requires size == 0 || CleanAt(segs, i, address, size)
    ensures ListOk(RemoveFrom(segs, i, address, size), head, tail, user)
    decreases |segs| - i
  {
    hide Wrap, Covered, Drop, WholePages;
    if size == 0 {
      RemoveNothing(segs, i, address, size);
    } else if segs[i].size <= size {
      CleanStep(segs, i, address, size);
      var c, next := segs[i], segs[i + 1];
      var left := Deduct(size - c.size, next.address - c.End());
      WholeStep(segs, i, address, size);
      hide RemoveFrom, SplitsFrom;
      ListDrop(segs, head, tail, user, i);
      PagesAdd(size, c.size);
      PagesAdd(size, size);
      DropAt(segs, i);
      ListRemove(Drop(segs, i), head, tail, user, i, c.End(), left);
    } else {
      FrontExact(segs, i, address, size);
      ListCut(segs, head, tail, user, i, size);
    }
  }

  lemma StartAt(segs: seq<Segment>, k: int)
    requires Sorted(segs) && 0 <= k < |segs| && segs[|segs| - 1].End() > segs[k].address
    ensures StartIndex(segs, segs[k].address) == k
  {
    assert Proper(segs[k]);
  }

  /** Giving back whole pages that are all covered, from a segment's start on. */
  lemma ListUnmap(segs: seq<Segment>, head: Segment, tail: Segment, user: bool, address: int, size: int)
    requires ListOk(segs, head, tail, user) && size > 0 && WholePages(size)
    requires head.End() <= address && address + size <= tail.address && AllCovered(segs, address, size)
    requires exists k :: 0 <= k < |segs| && segs[k].address == address
    ensures Removable(segs, address, size) && ListOk(Removed(segs, address, size), head, tail, user)
    ensures Exact(segs, Removed(segs, address, size), address, size) && !Splits(segs, address, size) && Clean(segs, address, size)
  {
    hide WholePages, RemoveFrom, SplitsFrom, Exact, Covered;
    var k :| 0 <= k < |segs| && segs[k].address == address;
    assert Proper(segs[k]) && Proper(segs[0]) && Proper(segs[|segs| - 1]);
    assert 0 < k < |segs| - 1;
    assert k < |segs| - 2 ==> segs[k].End() <= segs[|segs| - 2].address && Proper(segs[|segs| - 2]);
    var i := StartIndex(segs, address);
    StartAt(segs, k);
    StartRemoving(segs, address, size);
    CoveredIsClean(segs, i, address, size);
    CleanExact(segs, i, address, size);
    ListRemove(segs, head, tail, user, i, address, size);
  }

  /** Removing a segment of the list leaves the list of the others. */
  lemma RemovedIs(segs: seq<Segment>, head: Segment, tail: Segment, user: bool, s: Segment, rest: seq<Segment>)
    requires ListOk(segs, head, tail, user) && s in segs && head.End() <= s.address && s.End() <= tail.address
    requires Sorted(rest) && forall x :: x in rest <==> x in segs && x != s
    ensures Removable(segs, s.address, s.size) && Removed(segs, s.address, s.size) == rest
  {
    var k :| 0 <= k < |segs| && segs[k] == s;
    assert Proper(segs[k]) && Proper(segs[0]) && Proper(segs[|segs| - 1]);
    RemovedWhole(segs, k);
    SortedUnique(Drop(segs, k), rest);
  }

  /** A range reserved at the lowest gap of a list. */
  function AtGap(segs: seq<Segment>, size: int, flags: int): Segment
    requires HasGap(segs, size)
  {
    Segment(segs[GapIndex(segs, size)].End(), size, flags)
  }

  lemma ListAtGap(segs: seq<Segment>, head: Segment, tail: Segment, user: bool, size: int, flags: int)
    requires ListOk(segs, head, tail, user) && HasGap(segs, size) && size > 0 && WholePages(size) && 0 <= flags < NOUNMAP
    ensures ListOk(Added(segs, AtGap(segs, size, flags)), head, tail, user)
    ensures forall x :: x in Added(segs, AtGap(segs, size, flags)) <==> x in segs || x == AtGap(segs, size, flags)
    ensures AtGap(segs, size, flags) !in segs
  {
    var s := AtGap(segs, size, flags);
    ListGap(segs, head, tail, user, size);
    ListAdd(segs, head, tail, user, s);
    AddedElements(segs, s);
    assert forall i :: 0 <= i < |segs| ==> segs[i].End() <= s.address || s.End() <= segs[i].address;
  }

  /** Two ranges reserved one after the other and given back in the same order: the list is as before. */
  lemma TwoReserved(segs: seq<Segment>, head: Segment, tail: Segment, size: int, f1: int, f2: int)
    requires ListOk(segs, head, tail, false) && size > 0 && WholePages(size) && 0 <= f1 < NOUNMAP && 0 <= f2 < NOUNMAP
    requires HasGap(segs, size) && HasGap(Added(segs, AtGap(segs, size, f1)), size)
    ensures var a := AtGap(segs, size, f1); var one := Added(segs, a); var b := AtGap(one, size, f2); var two := Added(one, b);
            && Removable(two, a.address, size)
            && var only := Removed(two, a.address, size);
               b in only && Removable(only, b.address, size) && Removed(only, b.address, size) == segs && ListOk(only, head, tail, false)
  {
    hide WholePages, Removable, Removed, HasGap;
    var a := AtGap(segs, size, f1);
    var one := Added(segs, a);
    ListAtGap(segs, head, tail, false, size, f1);
    ListGap(segs, head, tail, false, size);
    var b := AtGap(one, size, f2);
    var two := Added(one, b);
    ListAtGap(one, head, tail, false, size, f2);
    ListGap(one, head, tail, false, size);
    hide Added, AtGap, Sorted, ListOk, Vacant;
    TakenBack(segs, two, head, tail, a, b);
  }

  lemma TakenBack(segs: seq<Segment>, two: seq<Segment>, head: Segment, tail: Segment, a: Segment, b: Segment)
    requires ListOk(segs, head, tail, false) && ListOk(two, head, tail, false)
    requires a !in segs && b !in segs && a != b && forall x :: x in two <==> x in segs || x == a || x == b
    requires head.End() <= a.address && a.End() <= tail.address && head.End() <= b.address && b.End() <= tail.address
    ensures Removable(two, a.address, a.size)
    ensures var only := Removed(two, a.address, a.size);
            b in only && Removable(only, b.address, b.size) && Removed(only, b.address, b.size) == segs && ListOk(only, head, tail, false)
  {
    hide WholePages, Removable, Removed;
    var i :| 0 <= i < |two| && two[i] == a;
    assert a != head && a != tail by {
      assert segs[0] == head && segs[|segs| - 1] == tail;
    }
    RemovedWhole(two, i);
    ListDrop(two, head, tail, false, i);
    var only := Drop(two, i);
    hide Sorted, Drop;
    RemovedIs(two, head, tail, false, a, only);
    RemovedIs(only, head, tail, false, b, segs);
  }
}
