/**
  The linked descriptors behind the segment lists: every space has a list of its
  own in the table, and what the table's operations do to the lists is what the
  specification of the segments says.
 */
module SpaceTables {
  import opened Segments
  import opened SpaceSegments
  import opened SpaceRules
  import L = SegmentLists
  import T = SegmentTables

  const READ_WRITE: int := 3

  /** The list of each space in `dirs` starts at its own head and holds the segments given for the space. */
  ghost predicate Describes(node: L.Nodes, lists: L.Lists, kernelFirst: L.Ref, heads: map<int, L.Ref>,
                            segments: map<int, seq<Segment>>, dirs: map<int, int>) {
    && 0 in dirs && 0 in heads && heads[0] == kernelFirst
    && (forall id :: id in dirs ==> id in heads && heads[id] in lists && id in segments && L.Values(node, lists[heads[id]]) == segments[id])
    && (forall i, j :: i in dirs && j in dirs && i in heads && j in heads && i != j ==> heads[i] != heads[j])
  }

  /** The descriptors that make up the lists of all user spaces but id are the same, in the same order. */
  ghost predicate OthersStay(lists: L.Lists, lists': L.Lists, heads: map<int, L.Ref>, dirs: map<int, int>, id: int) {
    forall j :: j in dirs && j in heads && heads[j] in lists && j != id && j != 0 ==>
      heads[j] in lists' && lists'[heads[j]] == lists[heads[j]]
  }

  lemma OthersTrans(lists0: L.Lists, lists1: L.Lists, lists2: L.Lists, heads: map<int, L.Ref>, dirs: map<int, int>, id: int, k: int)
    requires OthersStay(lists0, lists1, heads, dirs, id) && OthersStay(lists1, lists2, heads, dirs, k) && k in {0, id}
    ensures OthersStay(lists0, lists2, heads, dirs, id)
  {
  }

  /** The segment lists after addSegment in space id. */
  function WithSegment(segments: map<int, seq<Segment>>, id: int, s: Segment): map<int, seq<Segment>> {
    if id in segments && segments[id] != [] then segments[id := Added(segments[id], s)] else segments
  }

  /** The kernel's list has room for a page of descriptors. */
  ghost predicate PageFits(segments: map<int, seq<Segment>>) {
    0 in segments && HasGap(segments[0], PAGE)
  }

  /** And after the pool has mapped itself a page there. */
  function WithPage(segments: map<int, seq<Segment>>): map<int, seq<Segment>>
    requires PageFits(segments)
  {
    WithSegment(segments, 0, AtGap(segments[0], PAGE, READ_WRITE))
  }

  lemma RangeFresh(segs: seq<Segment>, id: int, v: int, n: int, flags: int)
    requires List(segs, id) && Between(id, v, n) && Vacant(segs, v * PAGE, n * PAGE)
    ensures T.Fresh(segs, Segment(v * PAGE, n * PAGE, flags))
  {
  }

  /** What the table needs to know before a segment is added. */
  lemma TableReady(node: L.Nodes, lists: L.Lists, pages: nat, kernelFirst: L.Ref, heads: map<int, L.Ref>, segments: map<int, seq<Segment>>,
                   dirs: map<int, int>, id: int, s: Segment)
    requires Describes(node, lists, kernelFirst, heads, segments, dirs) && id in dirs && id in segments && segments[id] != []
    requires L.FreeSlots(node, L.SLOTS * pages) == 2 ==> PageFits(WithSegment(segments, id, s))
    ensures id in heads && heads[id] in lists && L.Values(node, lists[heads[id]]) == segments[id]
    ensures T.PoolCanGrow(node, lists, pages, kernelFirst, heads[id], s)
  {
    hide L.FreeSlots, Added, HasGap;
  }

  lemma DescribedAdd(node: L.Nodes, lists: L.Lists, node': L.Nodes, lists': L.Lists, pages: nat, kernelFirst: L.Ref, heads: map<int, L.Ref>,
                     segments: map<int, seq<Segment>>, dirs: map<int, int>, id: int, s: Segment)
    requires Describes(node, lists, kernelFirst, heads, segments, dirs) && id in dirs && id in segments && segments[id] != [] && id in heads
    requires T.AfterAdd(node, node', lists, lists', pages, kernelFirst, heads[id], s)
    ensures L.FreeSlots(node, L.SLOTS * pages) != 2 ==> Describes(node', lists', kernelFirst, heads, WithSegment(segments, id, s), dirs)
    ensures L.FreeSlots(node, L.SLOTS * pages) == 2 ==>
      PageFits(WithSegment(segments, id, s)) && Describes(node', lists', kernelFirst, heads, WithPage(WithSegment(segments, id, s)), dirs)
    ensures OthersStay(lists, lists', heads, dirs, id)
  {
    hide L.FreeSlots, L.Values, Added, HasGap, GapIndex;
    SameLength(node, lists[heads[id]]);
    SameLength(node, lists[heads[0]]);
  }

  /** What removing a range needs: no gap in it before a segment of it. */
  lemma RangeClean(segs: seq<Segment>, id: int, v: int, n: int)
    requires List(segs, id) && Between(id, v, n) && AllCovered(segs, v * PAGE, n * PAGE)
    requires exists k :: 0 <= k < |segs| && segs[k].address == v * PAGE
    ensures Removable(segs, v * PAGE, n * PAGE) && Clean(segs, v * PAGE, n * PAGE)
  {
    hide AllCovered, ListOk, Removable, Clean;
    ListUnmap(segs, FirstOf(id), LastOf(id), id != 0, v * PAGE, n * PAGE);
  }

  lemma SameLength(node: L.Nodes, refs: seq<L.Ref>)
    ensures L.Values(node, refs) != [] <==> refs != []
  {
  }

  lemma DescribedRemoved(node: L.Nodes, lists: L.Lists, node': L.Nodes, lists': L.Lists, kernelFirst: L.Ref, heads: map<int, L.Ref>,
                         segments: map<int, seq<Segment>>, dirs: map<int, int>, id: int, segs: seq<Segment>)
    requires Describes(node, lists, kernelFirst, heads, segments, dirs) && id in dirs && id in heads && lists'.Keys == lists.Keys
    requires heads[id] in lists' && L.Values(node', lists'[heads[id]]) == segs
    requires forall h :: h in lists && h != heads[id] ==> lists'[h] == lists[h] && L.Values(node', lists'[h]) == L.Values(node, lists[h])
    ensures Describes(node', lists', kernelFirst, heads, segments[id := segs], dirs) && OthersStay(lists, lists', heads, dirs, id)
  {
    hide L.Values;
  }

  /** A new space with a list of its own. */
  lemma DescribedNew(node: L.Nodes, lists: L.Lists, node': L.Nodes, lists': L.Lists, kernelFirst: L.Ref, heads: map<int, L.Ref>,
                     segments: map<int, seq<Segment>>, dirs: map<int, int>, id: int, f: int, first: L.Ref)
    requires Describes(node, lists, kernelFirst, heads, segments, dirs) && id !in dirs && first !in lists && lists'.Keys == lists.Keys + {first}
    requires forall h :: h in lists ==> L.Values(node', lists'[h]) == L.Values(node, lists[h])
    ensures Describes(node', lists', kernelFirst, heads[id := first], segments[id := L.Values(node', lists'[first])], dirs[id := f])
  {
    hide L.Values;
  }

  /** Ranges reserved one after the other, in either order. */
  lemma AddedCommute(segs: seq<Segment>, head: Segment, tail: Segment, user: bool, a: Segment, b: Segment)
    requires ListOk(segs, head, tail, user) && ListOk(Added(segs, a), head, tail, user) && ListOk(Added(segs, b), head, tail, user)
    requires ListOk(Added(Added(segs, a), b), head, tail, user) && ListOk(Added(Added(segs, b), a), head, tail, user)
    ensures Added(Added(segs, a), b) == Added(Added(segs, b), a)
  {
    hide Added, Sorted;
    AddedElements(segs, a);
    AddedElements(segs, b);
    AddedElements(Added(segs, a), b);
    AddedElements(Added(segs, b), a);
    SortedUnique(Added(Added(segs, a), b), Added(Added(segs, b), a));
  }

  /** A range vacant once another has been reserved was vacant before, and lies apart from the other. */
  lemma VacantBefore(segs: seq<Segment>, a: Segment, address: int, size: int)
    requires segs != [] && Vacant(Added(segs, a), address, size)
    ensures Vacant(segs, address, size) && (a.End() <= address || address + size <= a.address)
  {
    hide Added;
    AddedElements(segs, a);
    var added := Added(segs, a);
    forall i | 0 <= i < |segs| ensures segs[i].End() <= address || address + size <= segs[i].address {
      assert segs[i] in segs;
      var k :| 0 <= k < |added| && added[k] == segs[i];
    }
    assert a in added;
  }

  lemma VacantMore(segs: seq<Segment>, a: Segment, address: int, size: int)
    requires segs != [] && Vacant(segs, address, size) && (a.End() <= address || address + size <= a.address)
    ensures Vacant(Added(segs, a), address, size)
  {
    hide Added;
    AddedElements(segs, a);
    var added := Added(segs, a);
    forall k | 0 <= k < |added| ensures added[k].End() <= address || address + size <= added[k].address {
      assert added[k] in added;
      if added[k] != a {
        var i :| 0 <= i < |segs| && segs[i] == added[k];
      }
    }
  }
}
