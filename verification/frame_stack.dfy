/**
  The stack of free physical frames.  Its words live in frames it manages: when
  there is no room for another entry, the frame being freed becomes the next page
  of the stack itself, and when the last entry has been handed out, the pages of
  the stack are handed out as well.  The class keeps the two counters; the words
  are those of physical memory, in the window of the kernel where the stack lies.
 */
module FrameStacks {
  import opened PageTables

  const PER_PAGE: int := 1024            // words of a stack page
  const FRAMES: int := 0x10_0000        // 4 GiB of physical memory in frames
  const WINDOW: int := 1024             // pages of the 4 MiB below the recursive mapping

  /** Entry e of the stack, e from 1, is the word at stack - 4e: on page PageOf(e) of the window, counted downwards from 1. */
  function PageOf(e: int): int { (e - 1) / PER_PAGE + 1 }
  function SlotOf(e: int): int { PER_PAGE * PageOf(e) - e }

  class FrameStack {
    var stackUsed: int
    var stackLeft: int

    /** The frames that are entries of the stack. */
    ghost var stack: map<int, int>
    /** The frames mapped at the pages of the window. */
    ghost var window: map<int, int>
    /** How many pages the stack occupies. */
    ghost var pages: int

    /** All frames that can be had from the stack: its entries and its own pages. */
    ghost function Held(): set<int>
      reads this
    {
      HeldBy(stack, stackUsed, window, pages)
    }

    ghost predicate Valid()
      reads this
    {
      && stackUsed >= 0 && stackLeft >= 0 && stackUsed + stackLeft == PER_PAGE * pages
      && pages <= WINDOW && Disjoint(stack, stackUsed, window, pages)
    }

    /** The words of physical memory are those of this stack, in the window of the kernel's directory. */
    ghost predicate StoredIn(mem: Memory, dir: int)
      reads this
    {
      StackStored(mem, dir, stack, stackUsed, window, pages)
    }

    constructor ()
      ensures Valid() && Held() == {} && stackUsed == 0 && pages == 0
    {
      stack, window, stackUsed, stackLeft, pages := map[], map[], 0, 0, 0;
    }

    /** One page more, for a frame.  The pages never outgrow the 4 MiB window, because all held frames are distinct. */
    method AddPage(frame: int)
      requires Valid() && stackLeft == 0 && 0 < frame < FRAMES && frame !in Held()
      modifies this
      ensures Valid() && Held() == old(Held()) + {frame} && |Held()| == old(|Held()|) + 1
      ensures stackUsed == old(stackUsed) && stack == old(stack) && pages == old(pages) + 1 && window == old(window)[pages := frame]
    {
      hide HeldBy, Disjoint;
      PushedPage(stack, stackUsed, window, pages, frame);
      stackLeft := stackLeft + PER_PAGE;
      pages := pages + 1;
      window := window[pages := frame];
    }

    /** Room for one entry more, which is to hold a frame. */
    method AddEntry(ghost frame: int)
      requires Valid() && stackLeft > 0 && 0 < frame < FRAMES && frame !in Held()
      modifies this
      ensures Valid() && Held() == old(Held()) + {frame} && |Held()| == old(|Held()|) + 1
      ensures stackUsed == old(stackUsed) + 1 && stack == old(stack)[stackUsed := frame] && pages == old(pages) && window == old(window)
    {
      hide HeldBy, Disjoint;
      PushedEntry(stack, stackUsed, window, pages, frame);
      stackUsed := stackUsed + 1;
      stackLeft := stackLeft - 1;
      stack := stack[stackUsed := frame];
    }

    /** The last page of an empty stack is given up. */
    method DropPage()
      requires Valid() && stackUsed == 0 && stackLeft > 0
      modifies this
      ensures Valid() && old(pages in window) && 0 < old(window[pages]) < FRAMES && old(window[pages] in Held())
      ensures Held() == old(Held()) - {old(window[pages])} && |Held()| == old(|Held()|) - 1
      ensures stackUsed == 0 && stack == old(stack) && pages == old(pages) - 1 && window == old(window) - {old(pages)}
    {
      hide HeldBy, Disjoint;
      PoppedPage(stack, window, pages);
      stackLeft := stackLeft - PER_PAGE;
      window := window - {pages};
      pages := pages - 1;
    }

    /** The last entry is given up. */
    method DropEntry()
      requires Valid() && stackUsed > 0
      modifies this
      ensures Valid() && old(stackUsed in stack) && 0 < old(stack[stackUsed]) < FRAMES && old(stack[stackUsed] in Held())
      ensures Held() == old(Held()) - {old(stack[stackUsed])} && |Held()| == old(|Held()|) - 1
      ensures stackUsed == old(stackUsed) - 1 && stack == old(stack) && pages == old(pages) && window == old(window)
    {
      hide HeldBy, Disjoint;
      PoppedEntry(stack, stackUsed, window, pages);
      stackLeft := stackLeft + 1;
      stackUsed := stackUsed - 1;
    }
  }

  // ---------- The words of the stack ----------

  lemma PlaceOf(e: int, pages: int)
    requires 1 <= e <= PER_PAGE * pages
    ensures 1 <= PageOf(e) <= pages && 0 <= SlotOf(e) < PER_PAGE
  {
  }

  lemma PlacesApart(d: int, e: int)
    requires d != e
    ensures PageOf(d) != PageOf(e) || SlotOf(d) != SlotOf(e)
  {
  }

  /** Page k is mapped at its place in the window, and holds the words of its entries. */
  ghost predicate StackStored(mem: Memory, dir: int, stack: map<int, int>, used: int, window: map<int, int>, pages: int) {
    && Present(Get(mem, dir, STACK_PD))
    && (forall k :: 1 <= k <= pages && k in window ==> Walk(mem, dir, STACK_PD, ENTRIES - k) == Word(window[k], 3))
    && (forall e :: 1 <= e <= used && e in stack && PageOf(e) in window ==> Get(mem, window[PageOf(e)], SlotOf(e)) == Word(stack[e], 0))
  }

  /** The words that belong to the stack are as before: its directory entry, its table and its pages. */
  ghost predicate StackWords(mem: Memory, mem': Memory, dir: int, held: set<int>) {
    && Get(mem', dir, STACK_PD) == Get(mem, dir, STACK_PD)
    && forall g, i :: g == Get(mem, dir, STACK_PD).frame || g in held ==> Get(mem', g, i) == Get(mem, g, i)
  }

  lemma WindowHeld(stack: map<int, int>, used: int, window: map<int, int>, pages: int)
    requires Disjoint(stack, used, window, pages)
    ensures forall k :: 1 <= k <= pages ==> k in window && window[k] in HeldBy(stack, used, window, pages)
    ensures forall k, l :: 1 <= k < l <= pages && k in window && l in window ==> window[k] != window[l]
    ensures forall e :: 1 <= e <= used ==> e in stack
  {
    forall k | 1 <= k <= pages ensures k in window && window[k] in HeldBy(stack, used, window, pages) {
      assert k in window;
    }
  }

  lemma StackKept(mem: Memory, mem': Memory, dir: int, stack: map<int, int>, used: int, window: map<int, int>, pages: int)
    requires StackStored(mem, dir, stack, used, window, pages) && Disjoint(stack, used, window, pages) && used <= PER_PAGE * pages
    requires StackWords(mem, mem', dir, HeldBy(stack, used, window, pages))
    ensures StackStored(mem', dir, stack, used, window, pages)
  {
    WindowHeld(stack, used, window, pages);
    hide Get, HeldBy, Disjoint, PageOf, SlotOf;
    forall e | 1 <= e <= used && e in stack && PageOf(e) in window ensures Get(mem', window[PageOf(e)], SlotOf(e)) == Word(stack[e], 0) {
      PlaceOf(e, pages);
    }
  }

  /** A frame is mapped at the next page of the window. */
  lemma PageStored(mem: Memory, dir: int, stack: map<int, int>, used: int, window: map<int, int>, pages: int, frame: int)
    requires StackStored(mem, dir, stack, used, window, pages) && Disjoint(stack, used, window, pages) && used == PER_PAGE * pages && pages >= 0
    requires dir !in HeldBy(stack, used, window, pages) && dir != Get(mem, dir, STACK_PD).frame
    requires Get(mem, dir, STACK_PD).frame !in HeldBy(stack, used, window, pages)
    ensures var t := Get(mem, dir, STACK_PD).frame;
            StackStored(Set(mem, t, ENTRIES - (pages + 1), Word(frame, 3)), dir, stack, used, window[pages + 1 := frame], pages + 1)
  {
    WindowHeld(stack, used, window, pages);
    var t := Get(mem, dir, STACK_PD).frame;
    GetSet(mem, t, ENTRIES - (pages + 1), Word(frame, 3));
    hide Get, Set, HeldBy, Disjoint, PageOf, SlotOf;
    forall e | 1 <= e <= used ensures 1 <= PageOf(e) <= pages {
      PlaceOf(e, pages);
    }
  }

  /** A frame is stored as the next entry. */
  lemma EntryStored(mem: Memory, dir: int, stack: map<int, int>, used: int, window: map<int, int>, pages: int, frame: int)
    requires StackStored(mem, dir, stack, used, window, pages) && Disjoint(stack, used, window, pages) && 0 <= used < PER_PAGE * pages
    requires dir !in HeldBy(stack, used, window, pages) && Get(mem, dir, STACK_PD).frame !in HeldBy(stack, used, window, pages)
    ensures PageOf(used + 1) in window && 1 <= PageOf(used + 1) <= pages
    ensures var g := window[PageOf(used + 1)];
            StackStored(Set(mem, g, SlotOf(used + 1), Word(frame, 0)), dir, stack[used + 1 := frame], used + 1, window, pages)
  {
    WindowHeld(stack, used, window, pages);
    PlaceOf(used + 1, pages);
    var g := window[PageOf(used + 1)];
    GetSet(mem, g, SlotOf(used + 1), Word(frame, 0));
    var mem' := Set(mem, g, SlotOf(used + 1), Word(frame, 0));
    hide Get, Set, HeldBy, Disjoint, PageOf, SlotOf;
    forall e | 1 <= e <= used && e in stack && PageOf(e) in window
      ensures Get(mem', window[PageOf(e)], SlotOf(e)) == Word(stack[e], 0)
    {
      PlaceOf(e, pages);
      PlacesApart(e, used + 1);
    }
  }

  /** The last page of an empty stack is unmapped. */
  lemma PageUnmapped(mem: Memory, dir: int, stack: map<int, int>, window: map<int, int>, pages: int)
    requires StackStored(mem, dir, stack, 0, window, pages) && dir != Get(mem, dir, STACK_PD).frame
    ensures var t := Get(mem, dir, STACK_PD).frame;
            StackStored(Set(mem, t, ENTRIES - pages, NONE), dir, stack, 0, window - {pages}, pages - 1)
  {
    var t := Get(mem, dir, STACK_PD).frame;
    GetSet(mem, t, ENTRIES - pages, NONE);
    hide Get, Set;
  }

  ghost function HeldBy(stack: map<int, int>, used: int, window: map<int, int>, pages: int): set<int> {
    Entries(stack, used) + Entries(window, pages)
  }

  /** Entries and stack pages are frames, none of them twice. */
  ghost predicate Disjoint(stack: map<int, int>, used: int, window: map<int, int>, pages: int) {
    Stored(stack, used) && Stored(window, pages) && Entries(stack, used) !! Entries(window, pages)
  }

  lemma PushedPage(stack: map<int, int>, used: int, window: map<int, int>, pages: int, frame: int)
    requires pages >= 0 && used == PER_PAGE * pages && Disjoint(stack, used, window, pages)
    requires 0 < frame < FRAMES && frame !in HeldBy(stack, used, window, pages)
    ensures pages + 1 <= WINDOW && Disjoint(stack, used, window[pages + 1 := frame], pages + 1)
    ensures var held := HeldBy(stack, used, window[pages + 1 := frame], pages + 1);
            held == HeldBy(stack, used, window, pages) + {frame} && |held| == |HeldBy(stack, used, window, pages)| + 1
  {
    hide Entries, Stored;
    StackFits(stack, window, used, pages, frame);
    StoreNext(window, pages, frame);
  }

  lemma PushedEntry(stack: map<int, int>, used: int, window: map<int, int>, pages: int, frame: int)
    requires used >= 0 && Disjoint(stack, used, window, pages)
    requires 0 < frame < FRAMES && frame !in HeldBy(stack, used, window, pages)
    ensures Disjoint(stack[used + 1 := frame], used + 1, window, pages)
    ensures var held := HeldBy(stack[used + 1 := frame], used + 1, window, pages);
            held == HeldBy(stack, used, window, pages) + {frame} && |held| == |HeldBy(stack, used, window, pages)| + 1
  {
    hide Entries, Stored;
    StoreNext(stack, used, frame);
    var held := HeldBy(stack[used + 1 := frame], used + 1, window, pages);
    assert held == HeldBy(stack, used, window, pages) + {frame};
  }

  lemma PoppedPage(stack: map<int, int>, window: map<int, int>, pages: int)
    requires pages > 0 && Disjoint(stack, 0, window, pages)
    ensures pages in window && 0 < window[pages] < FRAMES && window[pages] in HeldBy(stack, 0, window, pages)
    ensures Disjoint(stack, 0, window - {pages}, pages - 1)
    ensures var held := HeldBy(stack, 0, window - {pages}, pages - 1);
            held == HeldBy(stack, 0, window, pages) - {window[pages]} && |held| == |HeldBy(stack, 0, window, pages)| - 1
  {
    hide Entries, Stored;
    TakeLast(window, pages);
    Without(Entries(stack, 0), Entries(window, pages), window[pages]);
  }

  lemma PoppedEntry(stack: map<int, int>, used: int, window: map<int, int>, pages: int)
    requires used > 0 && Disjoint(stack, used, window, pages)
    ensures used in stack && 0 < stack[used] < FRAMES && stack[used] in HeldBy(stack, used, window, pages)
    ensures Disjoint(stack, used - 1, window, pages)
    ensures var held := HeldBy(stack, used - 1, window, pages);
            held == HeldBy(stack, used, window, pages) - {stack[used]} && |held| == |HeldBy(stack, used, window, pages)| - 1
  {
    hide Entries, Stored;
    TakeLast(stack, used);
    Without(Entries(window, pages), Entries(stack, used), stack[used]);
    assert Entries(window, pages) + Entries(stack, used) == HeldBy(stack, used, window, pages);
    assert Entries(window, pages) + Entries(stack, used - 1) == HeldBy(stack, used - 1, window, pages);
  }

  lemma NothingHeld(stack: map<int, int>, window: map<int, int>)
    ensures HeldBy(stack, 0, window, 0) == {}
  {
  }

  /** The first n values of m, counted from 1. */
  ghost function Entries(m: map<int, int>, n: int): set<int> {
    set e | 1 <= e <= n && e in m :: m[e]
  }

  /** The first n values are frames, all different. */
  ghost predicate Stored(m: map<int, int>, n: int) {
    && (forall e :: 1 <= e <= n ==> e in m && 0 < m[e] < FRAMES)
    && (forall d, e :: 1 <= d < e <= n && d in m && e in m ==> m[d] != m[e])
  }

  lemma StoreNext(m: map<int, int>, n: int, frame: int)
    requires n >= 0 && Stored(m, n) && frame !in Entries(m, n) && 0 < frame < FRAMES
    ensures Stored(m[n + 1 := frame], n + 1) && Entries(m[n + 1 := frame], n + 1) == Entries(m, n) + {frame}
  {
    var m' := m[n + 1 := frame];
    assert m'[n + 1] == frame;
    forall e | 1 <= e <= n ensures m[e] in Entries(m, n) {
    }
    forall f | f in Entries(m, n) ensures f in Entries(m', n + 1) {
      var e :| 1 <= e <= n && e in m && m[e] == f;
      assert m'[e] == f;
    }
  }

  lemma TakeLast(m: map<int, int>, n: int)
    requires n > 0 && Stored(m, n)
    ensures n in m && m[n] in Entries(m, n) && 0 < m[n] < FRAMES
    ensures Stored(m, n - 1) && Entries(m, n - 1) == Entries(m, n) - {m[n]}
    ensures Stored(m - {n}, n - 1) && Entries(m - {n}, n - 1) == Entries(m, n) - {m[n]}
  {
    assert n in m;
    forall f | f in Entries(m, n) - {m[n]} ensures f in Entries(m, n - 1) && f in Entries(m - {n}, n - 1) {
      var e :| 1 <= e <= n && e in m && m[e] == f;
      assert e != n && (m - {n})[e] == f;
    }
  }

  lemma NoEntries(m: map<int, int>)
    ensures Entries(m, 0) == {}
  {
  }

  lemma {:induction false} EntriesCount(m: map<int, int>, n: int)
    requires n >= 0 && Stored(m, n)
    ensures |Entries(m, n)| == n
  {
    if n == 0 {
      NoEntries(m);
    } else {
      TakeLast(m, n);
      EntriesCount(m, n - 1);
    }
  }

  /** There are fewer than n frames below n. */
  lemma {:induction false} Bounded(s: set<int>, n: int)
    requires n > 0 && forall f :: f in s ==> 0 < f < n
    ensures |s| < n
  {
    if n == 1 {
      assert forall f :: f !in s;
      assert s == {};
    } else {
      Bounded(s - {n - 1}, n - 1);
      if n - 1 in s { assert |s| == |s - {n - 1}| + 1; } else { assert s - {n - 1} == s; }
    }
  }

  lemma EntriesBelow(m: map<int, int>, n: int)
    requires Stored(m, n)
    ensures forall f :: f in Entries(m, n) ==> 0 < f < FRAMES
  {
  }

  /** Taking a member of b out of a disjoint union. */
  lemma Without(a: set<int>, b: set<int>, f: int)
    requires a !! b && f in b
    ensures a !! b - {f} && f in a + b && a + (b - {f}) == a + b - {f} && |a + b - {f}| == |a + b| - 1
  {
    assert a + (b - {f}) == a + b - {f};
  }

  lemma Union(a: set<int>, b: set<int>)
    requires a !! b
    ensures |a + b| == |a| + |b|
  {
  }

  /** A full stack of p pages holds 1025 p frames, so with one more frame there are fewer than 1024 pages. */
  lemma StackFits(stack: map<int, int>, window: map<int, int>, used: int, p: int, frame: int)
    requires used == PER_PAGE * p && p >= 0 && Stored(stack, used) && Stored(window, p)
    requires Entries(stack, used) !! Entries(window, p)
    requires 0 < frame < FRAMES && frame !in Entries(stack, used) + Entries(window, p)
    ensures p + 1 <= WINDOW
  {
    hide Entries;
    EntriesCount(stack, used);
    EntriesCount(window, p);
    var all := Entries(stack, used) + Entries(window, p) + {frame};
    var n := FRAMES;
    EntriesBelow(stack, used);
    EntriesBelow(window, p);
    Bounded(all, n);
    Union(Entries(stack, used), Entries(window, p));
    Union(Entries(stack, used) + Entries(window, p), {frame});
  }
}
