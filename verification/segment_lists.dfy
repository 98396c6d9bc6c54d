/**
  Segment descriptors in memory: doubly linked lists, one per address space, whose
  nodes come from a pool of fixed-size slots.  The lemmas relate relinking a list
  and zeroing or filling a slot to the sequences of segments and the free slots.
 */
module SegmentLists {
  import opened Segments

  /** Where a descriptor lives: allocated statically or on the heap, or in slot n of the pool. */
  datatype Ref = Null | Own(id: nat) | Slot(n: nat)

  datatype Node = Node(address: int, size: int, flags: int, prev: Ref, next: Ref)

  type Nodes = map<Ref, Node>

  /** The refs of each space's list, by the space's first descriptor. */
  type Lists = map<Ref, seq<Ref>>

  const ZERO: Node := Node(0, 0, 0, Null, Null)

  function Value(n: Node): Segment {
    Segment(n.address, n.size, n.flags)
  }

  // ---------- One list ----------

  function PrevRef(refs: seq<Ref>, i: int): Ref
    requires 0 <= i < |refs|
  {
    if i == 0 then Null else refs[i - 1]
  }

  function NextRef(refs: seq<Ref>, i: int): Ref
    requires 0 <= i < |refs|
  {
    if i + 1 < |refs| then refs[i + 1] else Null
  }

  ghost predicate LinkedAt(node: Nodes, refs: seq<Ref>, i: int)
    requires 0 <= i < |refs|
  {
    && refs[i] != Null && refs[i] in node
    && node[refs[i]].prev == PrevRef(refs, i) && node[refs[i]].next == NextRef(refs, i)
  }

  ghost predicate Distinct(refs: seq<Ref>) {
    forall i, k :: 0 <= i < k < |refs| ==> refs[i] != refs[k]
  }

  ghost predicate ListRep(node: Nodes, refs: seq<Ref>) {
    refs != [] && Distinct(refs) && forall i :: 0 <= i < |refs| ==> LinkedAt(node, refs, i)
  }

  ghost function Values(node: Nodes, refs: seq<Ref>): (segs: seq<Segment>)
    ensures |segs| == |refs|
  {
    seq(|refs|, i requires 0 <= i < |refs| => if refs[i] in node then Value(node[refs[i]]) else Segment(0, 0, 0))
  }

  /** The nodes of a list are as they were. */
  ghost predicate SameNodes(node: Nodes, node': Nodes, refs: seq<Ref>) {
    forall r :: r in refs && r in node ==> r in node' && node'[r] == node[r]
  }

  lemma ListFrame(node: Nodes, node': Nodes, refs: seq<Ref>)
    requires ListRep(node, refs) && SameNodes(node, node', refs)
    ensures ListRep(node', refs) && Values(node', refs) == Values(node, refs)
  {
    forall i | 0 <= i < |refs| ensures LinkedAt(node', refs, i) && Values(node', refs)[i] == Values(node, refs)[i] {
      assert LinkedAt(node, refs, i);
    }
  }

  /** A change of node i's value only. */
  lemma ListRevalue(node: Nodes, refs: seq<Ref>, i: int, address: int, size: int)
    requires ListRep(node, refs) && 0 <= i < |refs| && refs[i] in node
    ensures var n := node[refs[i]]; var node' := node[refs[i] := n.(address := address, size := size)];
            ListRep(node', refs) && Values(node', refs) == Values(node, refs)[i := Segment(address, size, n.flags)]
  {
    var node' := node[refs[i] := node[refs[i]].(address := address, size := size)];
    forall k | 0 <= k < |refs| ensures LinkedAt(node', refs, k) {
      assert LinkedAt(node, refs, k);
    }
  }

  function InsertAt<T>(s: seq<T>, k: int, x: T): seq<T>
    requires 0 <= k <= |s|
  {
    s[..k] + [x] + s[k..]
  }

  lemma InsertAtFacts<T>(s: seq<T>, k: int, x: T)
    requires 0 <= k <= |s|
    ensures |InsertAt(s, k, x)| == |s| + 1 && InsertAt(s, k, x)[k] == x
    ensures forall i :: 0 <= i < k ==> InsertAt(s, k, x)[i] == s[i]
    ensures forall i :: k < i <= |s| ==> InsertAt(s, k, x)[i] == s[i - 1]
    ensures forall y :: y in InsertAt(s, k, x) <==> y == x || y in s
  {
    assert s == s[..k] + s[k..];
  }

  function DropRef(refs: seq<Ref>, k: int): seq<Ref>
    requires 0 <= k < |refs|
  {
    refs[..k] + refs[k + 1..]
  }

  /** One list is the other without its k-th descriptor. */
  predicate Without(refs: seq<Ref>, refs': seq<Ref>, k: int) {
    0 <= k < |refs| && refs' == DropRef(refs, k)
  }

  lemma DropRefFacts(refs: seq<Ref>, k: int)
    requires 0 <= k < |refs| && Distinct(refs)
    ensures |DropRef(refs, k)| == |refs| - 1
    ensures forall i :: 0 <= i < k ==> DropRef(refs, k)[i] == refs[i]
    ensures forall i :: k <= i < |refs| - 1 ==> DropRef(refs, k)[i] == refs[i + 1]
    ensures forall y :: y in DropRef(refs, k) <==> y in refs && y != refs[k]
  {
    assert refs == refs[..k] + [refs[k]] + refs[k + 1..];
  }

  /** How the links are set when `s` goes in before position k (behind the head). */
  ghost predicate Inserted(node: Nodes, node': Nodes, refs: seq<Ref>, k: int, s: Ref)
    requires 1 <= k <= |refs|
  {
    && s in node && s in node' && Value(node'[s]) == Value(node[s])
    && node'[s].prev == refs[k - 1] && node'[s].next == (if k < |refs| then refs[k] else Null)
    && (forall i :: 0 <= i < |refs| && refs[i] in node
          ==> refs[i] in node' && node'[refs[i]] == node[refs[i]].(prev := if i == k then s else node[refs[i]].prev,
                                                                    next := if i == k - 1 then s else node[refs[i]].next))
  }

  lemma InsertRep(node: Nodes, node': Nodes, refs: seq<Ref>, k: int, s: Ref)
    requires ListRep(node, refs) && 1 <= k <= |refs| && s != Null && s !in refs && Inserted(node, node', refs, k, s)
    ensures ListRep(node', InsertAt(refs, k, s))
    ensures Values(node', InsertAt(refs, k, s)) == InsertAt(Values(node, refs), k, Value(node[s]))
  {
    var refs' := InsertAt(refs, k, s);
    InsertAtFacts(refs, k, s);
    InsertAtFacts(Values(node, refs), k, Value(node[s]));
    hide InsertAt;
    forall i | 0 <= i < |refs'| ensures LinkedAt(node', refs', i) {
      if i != k { assert LinkedAt(node, refs, if i < k then i else i - 1); }
    }
    forall i | 0 <= i < |refs'| ensures Values(node', refs')[i] == InsertAt(Values(node, refs), k, Value(node[s]))[i] {
      assert LinkedAt(node', refs', i);
      if i != k { assert LinkedAt(node, refs, if i < k then i else i - 1); }
    }
  }

  /** How the links are set when node k, not the head, is taken out. */
  ghost predicate Unlinked(node: Nodes, node': Nodes, refs: seq<Ref>, k: int)
    requires 1 <= k < |refs|
  {
    forall i :: 0 <= i < |refs| && i != k && refs[i] in node && refs[k] in node
      ==> refs[i] in node' && node'[refs[i]] == node[refs[i]].(prev := if i == k + 1 then refs[k - 1] else node[refs[i]].prev,
                                                                next := if i == k - 1 then NextRef(refs, k) else node[refs[i]].next)
  }

  lemma UnlinkRep(node: Nodes, node': Nodes, refs: seq<Ref>, k: int)
    requires ListRep(node, refs) && 1 <= k < |refs| && Unlinked(node, node', refs, k)
    ensures ListRep(node', DropRef(refs, k))
    ensures Values(node', DropRef(refs, k)) == Drop(Values(node, refs), k)
  {
    var refs' := DropRef(refs, k);
    DropRefFacts(refs, k);
    DropAt(Values(node, refs), k);
    hide DropRef, Drop;
    assert LinkedAt(node, refs, k);
    forall i | 0 <= i < |refs'| ensures LinkedAt(node', refs', i) {
      assert LinkedAt(node, refs, if i < k then i else i + 1);
    }
    forall i | 0 <= i < |refs'| ensures Values(node', refs')[i] == Drop(Values(node, refs), k)[i] {
      assert LinkedAt(node', refs', i);
      assert LinkedAt(node, refs, if i < k then i else i + 1);
    }
  }

  // ---------- The pool of slots ----------

  /** A pool page holds 4096 / 20 descriptors, the rest is the link to the next page. */
  const SLOTS: nat := 204

  predicate Zeroed(n: Node) {
    n.address == 0 && n.size == 0
  }

  /** Free slots among the first n, as verifySegmentList counts them. */
  function FreeSlots(node: Nodes, n: nat): (count: nat)
    ensures count <= n
  {
    if n == 0 then 0
    else FreeSlots(node, n - 1) + if Slot(n - 1) in node && Zeroed(node[Slot(n - 1)]) then 1 else 0
  }

  lemma {:induction false} FreeSlotsFrame(node: Nodes, node': Nodes, n: nat)
    requires forall k :: 0 <= k < n ==> (Slot(k) in node && Zeroed(node[Slot(k)]) <==> Slot(k) in node' && Zeroed(node'[Slot(k)]))
    ensures FreeSlots(node', n) == FreeSlots(node, n)
  {
    if n > 0 { FreeSlotsFrame(node, node', n - 1); }
  }

  /** Filling or clearing one slot changes the count by one. */
  lemma {:induction false} FreeSlotsChange(node: Nodes, node': Nodes, n: nat, k: nat)
    requires k < n && Slot(k) in node && Slot(k) in node'
    requires forall l :: 0 <= l < n && l != k ==>
               (Slot(l) in node && Zeroed(node[Slot(l)]) <==> Slot(l) in node' && Zeroed(node'[Slot(l)]))
    ensures FreeSlots(node', n) - FreeSlots(node, n) ==
            (if Zeroed(node'[Slot(k)]) then 1 else 0) - (if Zeroed(node[Slot(k)]) then 1 else 0)
  {
    if k == n - 1 { FreeSlotsFrame(node, node', n - 1); } else { FreeSlotsChange(node, node', n - 1, k); }
  }

  lemma {:induction false} FreeSlotExists(node: Nodes, n: nat)
    requires FreeSlots(node, n) > 0
    ensures exists k :: 0 <= k < n && Slot(k) in node && Zeroed(node[Slot(k)])
  {
    if !(Slot(n - 1) in node && Zeroed(node[Slot(n - 1)])) { FreeSlotExists(node, n - 1); }
  }

  /** A new page of zeroed slots adds all of them. */
  lemma {:induction false} FreeSlotsGrow(node: Nodes, n: nat, m: nat)
    requires forall k :: n <= k < n + m ==> Slot(k) in node && Zeroed(node[Slot(k)])
    ensures FreeSlots(node, n + m) == FreeSlots(node, n) + m
  {
    if m > 0 { FreeSlotsGrow(node, n, m - 1); }
  }
}
