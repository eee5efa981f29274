/** The steps of malloc and free (threads/malloc.c) on the heap's state. */
module MallocSteps {
  import opened Bits
  import opened Order
  import opened PageAllocators
  import opened MallocBlocks
  import opened MallocHeap

  ghost function WithList(h: Heap, k: nat, list: seq<nat>): (r: Heap)
    requires k < |h.descs|
  {
    h.(descs := h.descs[k := h.descs[k].(freeList := list)])
  }

  /** A page becomes an arena and its blocks join an empty free list. */
  ghost function NewArena(h: Heap, k: nat, page: nat): (r: Heap)
    requires k < |h.descs|
  {
    WithList(h, k, h.descs[k].freeList + Blocks(page, k, PerArena(k)))
    .(arenas := h.arenas[page := Arena(Some(k), PerArena(k))])
  }

  // Filling the free list of a new arena, block by block.

  lemma NoBlocks(h: Heap, page: nat, k: nat)
    requires k < |h.descs| && h.descs[k].freeList == []
    ensures WithList(h, k, Blocks(page, k, 0)).descs == h.descs
  {}

  lemma NextBlock(h: Heap, g: Heap, page: nat, k: nat, i: nat)
    requires DescsOk(h) && k < DESC_CNT && g.descs == WithList(h, k, Blocks(page, k, i)).descs
    ensures DescsOk(g) && k < |g.descs|
    ensures g.descs[k := g.descs[k].(freeList := g.descs[k].freeList + [BlockAt(page, k, i)])]
         == WithList(h, k, Blocks(page, k, i + 1)).descs
  {
    hide PerArena, BlockSize, BlockAt;
  }

  lemma FilledArena(h: Heap, g: Heap, page: nat, k: nat)
    requires k < |h.descs| && h.descs[k].freeList == [] && g.descs == WithList(h, k, Blocks(page, k, PerArena(k))).descs
    requires g == h.(descs := g.descs, arenas := h.arenas[page := Arena(Some(k), PerArena(k))])
    ensures g == NewArena(h, k, page)
  {
    hide PerArena, Blocks;
    assert [] + Blocks(page, k, PerArena(k)) == Blocks(page, k, PerArena(k));
  }

  /** The first listed block of descriptor k becomes live. */
  ghost function Taken(h: Heap, k: nat, size: nat): (r: Heap)
    requires k < |h.descs| && h.descs[k].freeList != [] && PageOf(h.descs[k].freeList[0]) in h.arenas
  {
    var p := h.descs[k].freeList[0];
    var a := h.arenas[PageOf(p)];
    WithList(h, k, h.descs[k].freeList[1..])
    .(arenas := h.arenas[PageOf(p) := a.(freeCnt := if a.freeCnt > 0 then a.freeCnt - 1 else 0)], live := h.live[p := size])
  }

  /** A live block goes to the front of its descriptor's list. */
  ghost function Given(h: Heap, k: nat, p: nat): (r: Heap)
    requires k < |h.descs| && PageOf(p) in h.arenas
  {
    var a := h.arenas[PageOf(p)];
    WithList(h, k, [p] + h.descs[k].freeList)
    .(arenas := h.arenas[PageOf(p) := a.(freeCnt := a.freeCnt + 1)], live := h.live - {p})
  }

  /** A wholly free arena's blocks are unlinked and its page is given up. */
  ghost function Dropped(h: Heap, k: nat, page: nat): (r: Heap)
    requires k < |h.descs|
  {
    WithList(h, k, Minus(h.descs[k].freeList, Blocks(page, k, PerArena(k)))).(arenas := h.arenas - {page})
  }

  ghost function NewBig(h: Heap, page: nat, cnt: nat, size: nat): (r: Heap) {
    h.(arenas := h.arenas[page := Arena(None, cnt)], live := h.live[BigBlock(page) := size])
  }

  ghost function DroppedBig(h: Heap, page: nat): (r: Heap) {
    h.(arenas := h.arenas - {page}, live := h.live - {BigBlock(page)})
  }

  // ---- A step touches one page ---------------------------------------------------

  /** r is h except for what concerns page a. */
  ghost predicate Local(h: Heap, r: Heap, a: nat)
    requires DescsOk(h) && DescsOk(r)
  {
    && (forall c :: c != a ==> (c in r.arenas <==> c in h.arenas))
    && (forall c :: c != a && c in h.arenas ==> r.arenas[c] == h.arenas[c])
    && (forall p :: PageOf(p) != a ==> (p in r.live <==> p in h.live))
    && (forall p :: PageOf(p) != a && p in h.live ==> r.live[p] == h.live[p])
    && (forall k :: 0 <= k < DESC_CNT ==> LocalList(h.descs[k].freeList, r.descs[k].freeList, a))
  }

  ghost predicate LocalList(was: seq<nat>, list: seq<nat>, a: nat) {
    && Distinct(list)
    && (forall p :: PageOf(p) != a ==> (p in list <==> p in was))
    && (forall c :: c != a ==> CountIn(list, c) == CountIn(was, c))
  }

  /** The invariant, as far as it concerns page a. */
  ghost predicate PageOk(r: Heap, full: set<nat>, a: nat)
    requires DescsOk(r)
  {
    && (forall k, p :: 0 <= k < DESC_CNT && p in r.descs[k].freeList && PageOf(p) == a ==> BlockOf(r, k, p))
    && (a in r.arenas ==> CountOk(r, full, a))
    && (forall p :: p in r.live && PageOf(p) == a ==> LiveBlock(r, p))
    && (forall k, p :: 0 <= k < DESC_CNT && PageOf(p) == a && BlockOf(r, k, p) ==> p in r.live || p in r.descs[k].freeList)
    && (a in r.arenas && r.arenas[a].desc.None? ==> BigBlock(a) in r.live)
  }

  lemma LocalLists(h: Heap, inUse: set<nat>, r: Heap, a: nat, full: set<nat>)
    requires HeapOk(h, inUse, {a}) && DescsOk(r) && Local(h, r, a) && PageOk(r, full, a)
    ensures ListsOk(r)
  {
    hide PageOf, IsBlock, CountIn, Distinct;
    forall k, p | 0 <= k < DESC_CNT && p in r.descs[k].freeList
      ensures BlockOf(r, k, p)
    {
      if PageOf(p) != a {
        assert LocalList(h.descs[k].freeList, r.descs[k].freeList, a);
        assert BlockOf(h, k, p);
      }
    }
    assert forall k :: 0 <= k < DESC_CNT ==> LocalList(h.descs[k].freeList, r.descs[k].freeList, a);
  }

  lemma LocalCounts(h: Heap, inUse: set<nat>, r: Heap, a: nat, full: set<nat>)
    requires HeapOk(h, inUse, {a}) && DescsOk(r) && Local(h, r, a) && PageOk(r, full, a)
    ensures CountsOk(r, full)
  {
    hide PageOf, IsBlock, CountIn, Distinct;
    forall c | c in r.arenas
      ensures CountOk(r, full, c)
    {
      if c != a {
        assert CountOk(h, {a}, c);
        if r.arenas[c].desc.Some? {
          var k := r.arenas[c].desc.value;
          assert LocalList(h.descs[k].freeList, r.descs[k].freeList, a);
        }
      }
    }
  }

  lemma LocalLive(h: Heap, inUse: set<nat>, r: Heap, a: nat, full: set<nat>)
    requires HeapOk(h, inUse, {a}) && DescsOk(r) && Local(h, r, a) && PageOk(r, full, a)
    ensures LiveOk(r)
  {
    hide PageOf, IsBlock, CountIn, Distinct;
    forall p | p in r.live
      ensures LiveBlock(r, p)
    {
      if PageOf(p) != a {
        assert LiveBlock(h, p);
        if r.arenas[PageOf(p)].desc.Some? {
          var k := r.arenas[PageOf(p)].desc.value;
          assert LocalList(h.descs[k].freeList, r.descs[k].freeList, a);
        }
      }
    }
  }

  lemma LocalCovered(h: Heap, inUse: set<nat>, r: Heap, a: nat, full: set<nat>)
    requires HeapOk(h, inUse, {a}) && DescsOk(r) && Local(h, r, a) && PageOk(r, full, a)
    ensures Covered(r)
  {
    hide PageOf, IsBlock, CountIn, Distinct, BigBlock, ListsOk, CountOk, LiveOk, SpansOk;
    forall k, p | 0 <= k < DESC_CNT && BlockOf(r, k, p)
      ensures p in r.live || p in r.descs[k].freeList
    {
      if PageOf(p) != a {
        assert BlockOf(h, k, p);
        assert LocalList(h.descs[k].freeList, r.descs[k].freeList, a);
      }
    }
    forall c | c in r.arenas && r.arenas[c].desc.None?
      ensures BigBlock(c) in r.live
    {
      assert PageOf(BigBlock(c)) == c;
    }
  }

  /** A step that touches only page a need only be checked there. */
  lemma LocalOk(h: Heap, inUse: set<nat>, r: Heap, a: nat, full: set<nat>, inUse': set<nat>)
    requires HeapOk(h, inUse, {a}) && DescsOk(r) && Local(h, r, a) && PageOk(r, full, a) && SpansOk(r, inUse')
    ensures HeapOk(r, inUse', full)
  {
    hide PageOf, IsBlock, CountIn, Distinct, DescsOk, Local, PageOk, SpansOk, ListsOk, CountsOk, LiveOk, Covered;
    LocalLists(h, inUse, r, a, full);
    LocalCounts(h, inUse, r, a, full);
    LocalLive(h, inUse, r, a, full);
    LocalCovered(h, inUse, r, a, full);
  }

  lemma Allow(h: Heap, inUse: set<nat>, a: nat)
    requires HeapOk(h, inUse, {})
    ensures HeapOk(h, inUse, {a})
  {
    hide PageOf, IsBlock, CountIn, Distinct, ListsOk, SpansOk, LiveOk, Covered;
    assert forall c :: c in h.arenas ==> CountOk(h, {}, c);
  }

  lemma ArenaInUse(h: Heap, inUse: set<nat>, a: nat)
    requires HeapOk(h, inUse, {}) && a in h.arenas
    ensures a in inUse
  {
    assert CountOk(h, {}, a);
    assert a in Span(h, a);
  }

  /** Nothing in the heap concerns a page that is not in use. */
  lemma NewPage(h: Heap, inUse: set<nat>, a: nat)
    requires HeapOk(h, inUse, {}) && a !in inUse
    ensures a !in h.arenas
    ensures forall p :: p in h.live ==> PageOf(p) != a
    ensures forall k, p :: 0 <= k < DESC_CNT && p in h.descs[k].freeList ==> PageOf(p) != a
  {
    hide PageOf, IsBlock, CountIn, Distinct;
    if a in h.arenas { ArenaInUse(h, inUse, a); }
    assert forall p :: p in h.live ==> LiveBlock(h, p);
    assert forall k, p :: 0 <= k < DESC_CNT && p in h.descs[k].freeList ==> BlockOf(h, k, p);
  }

  // ---- Changes to a free list ----------------------------------------------------

  lemma FillLocal(k: nat, a: nat)
    requires k < DESC_CNT
    ensures LocalList([], Blocks(a, k, PerArena(k)), a)
    ensures CountIn(Blocks(a, k, PerArena(k)), a) == PerArena(k)
  {
    hide PageOf, IsBlock, CountIn, Distinct, PerArena, BlockAt;
    BlocksAll(a, k);
    forall c
      ensures CountIn(Blocks(a, k, PerArena(k)), c) == if c == a then PerArena(k) else 0
    {
      CountBlocks(a, k, PerArena(k), c);
    }
    forall c
      ensures CountIn([], c) == 0
    {
      CountNone([], c);
    }
  }

  lemma CountNone(list: seq<nat>, c: nat)
    requires list == []
    ensures CountIn(list, c) == 0
  {
  }

  lemma PushLocal(list: seq<nat>, p: nat)
    requires Distinct(list) && p !in list
    ensures LocalList(list, [p] + list, PageOf(p)) && CountIn([p] + list, PageOf(p)) == CountIn(list, PageOf(p)) + 1
  {
    hide PageOf;
    forall c
      ensures CountIn([p] + list, c) == CountIn(list, c) + if c == PageOf(p) then 1 else 0
    {
      CountInAppend([p], list, c);
      CountNone([p][..0], c);
    }
  }

  lemma PopLocal(list: seq<nat>)
    requires Distinct(list) && list != []
    ensures LocalList(list, list[1..], PageOf(list[0])) && list[0] !in list[1..]
    ensures CountIn(list[1..], PageOf(list[0])) == CountIn(list, PageOf(list[0])) - 1
  {
    hide PageOf, CountIn;
    var p, rest := list[0], list[1..];
    assert list == [p] + rest;
    PushLocal(rest, p);
  }

  lemma MinusLocal(list: seq<nat>, k: nat, a: nat)
    requires Distinct(list) && k < DESC_CNT
    requires forall p :: p in list && PageOf(p) == a ==> IsBlock(k, p)
    ensures LocalList(list, Minus(list, Blocks(a, k, PerArena(k))), a)
    ensures forall p :: p in Minus(list, Blocks(a, k, PerArena(k))) ==> PageOf(p) != a
  {
    hide PageOf, IsBlock, CountIn, PerArena, BlockAt, Minus;
    var all := Blocks(a, k, PerArena(k));
    BlocksAll(a, k);
    MinusDistinct(list, all);
    forall p
      ensures p in Minus(list, all) <==> p in list && p !in all
    {
      MinusMember(list, all, p);
    }
    forall c | c != a
      ensures CountIn(Minus(list, all), c) == CountIn(list, c)
    {
      MinusCount(list, all, c);
    }
  }

  /** One descriptor's list changes, about page a only. */
  lemma ListLocal(h: Heap, inUse: set<nat>, full: set<nat>, r: Heap, k: nat, list: seq<nat>, a: nat)
    requires HeapOk(h, inUse, full) && k < DESC_CNT && r.descs == WithList(h, k, list).descs
    requires LocalList(h.descs[k].freeList, list, a)
    ensures DescsOk(r)
    ensures forall j :: 0 <= j < DESC_CNT ==> LocalList(h.descs[j].freeList, r.descs[j].freeList, a)
  {
    hide PageOf, CountIn;
  }

  // ---- Changes to the arenas -------------------------------------------------------

  lemma SpansKept(h: Heap, inUse: set<nat>, r: Heap, a: nat, cnt: nat)
    requires SpansOk(h, inUse) && a in h.arenas && h.arenas[a].desc.Some?
    requires r.arenas == h.arenas[a := h.arenas[a].(freeCnt := cnt)]
    ensures SpansOk(r, inUse)
  {
    hide Pages;
    assert forall c :: c in h.arenas ==> Span(r, c) == Span(h, c);
  }

  lemma SpansAdded(h: Heap, inUse: set<nat>, r: Heap, a: nat, x: Arena, cnt: nat)
    requires SpansOk(h, inUse) && a !in h.arenas && a > 0 && r.arenas == h.arenas[a := x]
    requires x.desc.Some? ==> cnt == 1
    requires x.desc.None? ==> cnt == x.freeCnt
    requires Pages(a, cnt) !! inUse
    ensures SpansOk(r, inUse + Pages(a, cnt))
  {
    hide Pages;
    assert forall c :: c in h.arenas ==> Span(r, c) == Span(h, c);
  }

  lemma SpansRemoved(h: Heap, inUse: set<nat>, r: Heap, a: nat)
    requires SpansOk(h, inUse) && a in h.arenas && r.arenas == h.arenas - {a}
    ensures SpansOk(r, inUse - Span(h, a))
  {
    hide Pages;
    assert forall c :: c in r.arenas ==> c in h.arenas && Span(r, c) == Span(h, c);
  }

  /** The pages that arenas own. */
  ghost function Owned(h: Heap): (s: set<nat>) {
    set a, c | a in h.arenas && c in Span(h, a) :: c
  }

  lemma OwnedKept(h: Heap, r: Heap, a: nat, cnt: nat)
    requires a in h.arenas && h.arenas[a].desc.Some? && r.arenas == h.arenas[a := h.arenas[a].(freeCnt := cnt)]
    ensures Owned(r) == Owned(h)
  {
    hide Pages;
    assert forall c :: c in h.arenas ==> Span(r, c) == Span(h, c);
  }

  lemma OwnedAdded(h: Heap, r: Heap, a: nat, x: Arena)
    requires a !in h.arenas && r.arenas == h.arenas[a := x]
    ensures Owned(r) == Owned(h) + Span(r, a)
  {
    hide Pages;
    assert forall c :: c in h.arenas ==> Span(r, c) == Span(h, c);
  }

  lemma OwnedRemoved(h: Heap, inUse: set<nat>, r: Heap, a: nat)
    requires SpansOk(h, inUse) && a in h.arenas && r.arenas == h.arenas - {a}
    ensures Owned(r) == Owned(h) - Span(h, a) && Span(h, a) <= Owned(h) <= inUse
  {
    hide Pages;
    assert forall c :: c in r.arenas ==> c in h.arenas && Span(r, c) == Span(h, c);
  }

  // ---- The steps -------------------------------------------------------------------

  lemma NewArenaPage(h: Heap, inUse: set<nat>, k: nat, a: nat)
    requires HeapOk(h, inUse, {}) && k < DESC_CNT && a !in inUse && h.descs[k].freeList == []
    ensures var r := NewArena(h, k, a); DescsOk(r) && Local(h, r, a) && PageOk(r, {a}, a)
  {
    hide PageOf, IsBlock, CountIn, Distinct, BigBlock, PerArena, BlockAt, LocalList, BlockSize, SpansOk, ListsOk, CountOk;
    NewPage(h, inUse, a);
    var r, all := NewArena(h, k, a), Blocks(a, k, PerArena(k));
    assert r.descs[k].freeList == all;
    FillLocal(k, a);
    ListLocal(h, inUse, {}, r, k, all, a);
    assert CountOk(r, {a}, a) by {
      CountIs(r, {a}, a, k);
    }
    BlocksAll(a, k);
  }

  lemma CountIs(r: Heap, full: set<nat>, a: nat, k: nat)
    requires DescsOk(r) && a in r.arenas && k < DESC_CNT && r.arenas[a].desc == Some(k)
    requires r.arenas[a].freeCnt == CountIn(r.descs[k].freeList, a) <= PerArena(k)
    requires a in full || r.arenas[a].freeCnt < PerArena(k)
    ensures CountOk(r, full, a)
  {
  }

  lemma NewArenaOk(h: Heap, inUse: set<nat>, k: nat, a: nat)
    requires HeapOk(h, inUse, {}) && k < DESC_CNT && a > 0 && a !in inUse && h.descs[k].freeList == []
    ensures HeapOk(NewArena(h, k, a), inUse + Pages(a, 1), {a})
  {
    hide PageOk, Local, ListsOk, CountsOk, SpansOk, LiveOk, Covered;
    var r := NewArena(h, k, a);
    NewPage(h, inUse, a);
    NewArenaPage(h, inUse, k, a);
    SpansAdded(h, inUse, r, a, Arena(Some(k), PerArena(k)), 1);
    Allow(h, inUse, a);
    LocalOk(h, inUse, r, a, {a}, inUse + Pages(a, 1));
  }

  /** The page of the block that Taken takes is an arena of descriptor k. */
  lemma HeadBlock(h: Heap, inUse: set<nat>, full: set<nat>, k: nat)
    requires HeapOk(h, inUse, full) && k < DESC_CNT && h.descs[k].freeList != []
    ensures var p := h.descs[k].freeList[0];
            BlockOf(h, k, p) && h.arenas[PageOf(p)].freeCnt == CountIn(h.descs[k].freeList, PageOf(p)) > 0
  {
    var list := h.descs[k].freeList;
    assert list[0] in list;
    assert CountOk(h, full, PageOf(list[0]));
    PopLocal(list);
  }

  lemma TakenLocal(h: Heap, inUse: set<nat>, k: nat, size: nat, a: nat)
    requires k < DESC_CNT && HeapOk(h, inUse, {a}) && h.descs[k].freeList != [] && a == PageOf(h.descs[k].freeList[0])
    requires a in h.arenas
    ensures var r := Taken(h, k, size); DescsOk(r) && Local(h, r, a)
  {
    hide PageOf, CountIn, Distinct, LocalList, SpansOk, CountsOk, LiveOk, Covered;
    var list := h.descs[k].freeList;
    PopLocal(list);
    ListLocal(h, inUse, {a}, Taken(h, k, size), k, list[1..], a);
  }

  lemma TakenPage(h: Heap, inUse: set<nat>, k: nat, size: nat, a: nat)
    requires k < DESC_CNT && HeapOk(h, inUse, {a}) && h.descs[k].freeList != [] && a == PageOf(h.descs[k].freeList[0])
    requires a in h.arenas && 0 < size <= BlockSize(k)
    ensures var r := Taken(h, k, size); DescsOk(r) && Local(h, r, a) && PageOk(r, {}, a)
  {
    hide PageOf, IsBlock, CountIn, Distinct, BigBlock, PerArena, LocalList, BlockSize, SpansOk, Local;
    var r, list := Taken(h, k, size), h.descs[k].freeList;
    HeadBlock(h, inUse, {a}, k);
    TakenLocal(h, inUse, k, size, a);
    PopLocal(list);
    assert list == [list[0]] + list[1..];
    assert CountOk(h, {a}, a);
    CountIs(r, {}, a, k);
    forall j, p | 0 <= j < DESC_CNT && p in r.descs[j].freeList && PageOf(p) == a
      ensures BlockOf(r, j, p)
    {
      assert BlockOf(h, j, p);
    }
    forall p | p in r.live && PageOf(p) == a
      ensures LiveBlock(r, p)
    {
      if p != list[0] { assert LiveBlock(h, p); }
    }
    forall j, p | 0 <= j < DESC_CNT && PageOf(p) == a && BlockOf(r, j, p)
      ensures p in r.live || p in r.descs[j].freeList
    {
      assert BlockOf(h, j, p);
    }
  }

  /** Taking a block leaves no arena wholly free. */
  lemma TakenOk(h: Heap, inUse: set<nat>, k: nat, size: nat, a: nat)
    requires k < DESC_CNT && HeapOk(h, inUse, {a}) && h.descs[k].freeList != [] && a == PageOf(h.descs[k].freeList[0])
    requires a in h.arenas && 0 < size <= BlockSize(k)
    ensures HeapOk(Taken(h, k, size), inUse, {})
  {
    hide PageOk, Local, ListsOk, CountsOk, SpansOk, LiveOk, Covered, PageOf;
    var r := Taken(h, k, size);
    HeadBlock(h, inUse, {a}, k);
    TakenPage(h, inUse, k, size, a);
    SpansKept(h, inUse, r, a, h.arenas[a].freeCnt - 1);
    LocalOk(h, inUse, r, a, {}, inUse);
  }

  lemma GivenPage(h: Heap, inUse: set<nat>, k: nat, p: nat, a: nat)
    requires HeapOk(h, inUse, {}) && k < DESC_CNT && p in h.live && a == PageOf(p) && BlockOf(h, k, p)
    ensures var r := Given(h, k, p); DescsOk(r) && Local(h, r, a) && PageOk(r, {a}, a)
  {
    hide PageOf, IsBlock, Distinct, BigBlock, PerArena, LocalList, BlockSize, SpansOk, CountIn;
    var r, list := Given(h, k, p), h.descs[k].freeList;
    assert LiveBlock(h, p);
    PushLocal(list, p);
    ListLocal(h, inUse, {}, r, k, [p] + list, a);
    assert CountOk(h, {}, a);
    CountIs(r, {a}, a, k);
    forall j, q | 0 <= j < DESC_CNT && q in r.descs[j].freeList && PageOf(q) == a
      ensures BlockOf(r, j, q)
    {
      if q != p { assert BlockOf(h, j, q); }
    }
    forall q | q in r.live && PageOf(q) == a
      ensures LiveBlock(r, q)
    {
      assert LiveBlock(h, q);
    }
    forall j, q | 0 <= j < DESC_CNT && PageOf(q) == a && BlockOf(r, j, q)
      ensures q in r.live || q in r.descs[j].freeList
    {
      assert BlockOf(h, j, q);
    }
  }

  lemma GivenOk(h: Heap, inUse: set<nat>, k: nat, p: nat, a: nat)
    requires HeapOk(h, inUse, {}) && k < DESC_CNT && p in h.live && a == PageOf(p) && BlockOf(h, k, p)
    ensures HeapOk(Given(h, k, p), inUse, {a})
  {
    hide PageOk, Local, ListsOk, CountsOk, SpansOk, LiveOk, Covered, PageOf;
    var r := Given(h, k, p);
    GivenPage(h, inUse, k, p, a);
    SpansKept(h, inUse, r, a, h.arenas[a].freeCnt + 1);
    Allow(h, inUse, a);
    LocalOk(h, inUse, r, a, {a}, inUse);
  }

  /** An arena allowed to be wholly free, but not so, needs no allowance. */
  lemma NotFull(h: Heap, inUse: set<nat>, k: nat, a: nat)
    requires HeapOk(h, inUse, {a}) && a in h.arenas && h.arenas[a].desc == Some(k)
    requires h.arenas[a].freeCnt < PerArena(k)
    ensures HeapOk(h, inUse, {})
  {
    hide PageOf, IsBlock, CountIn, Distinct, ListsOk, SpansOk, LiveOk, Covered;
    assert forall c :: c in h.arenas ==> CountOk(h, {a}, c);
  }

  /** All blocks of a wholly free arena are listed, and none is live. */
  lemma FullListed(h: Heap, inUse: set<nat>, k: nat, a: nat)
    requires HeapOk(h, inUse, {a}) && a in h.arenas && h.arenas[a] == Arena(Some(k), PerArena(k))
    ensures k < DESC_CNT
    ensures forall p :: p in Blocks(a, k, PerArena(k)) ==> p in h.descs[k].freeList
    ensures forall p :: p in h.live ==> PageOf(p) != a
  {
    hide PageOf, IsBlock, CountIn, Distinct, BigBlock, BlockAt, PerArena;
    assert CountOk(h, {a}, a);
    assert forall p :: p in h.descs[k].freeList ==> BlockOf(h, k, p);
    AllListed(h.descs[k].freeList, k, a);
    BlocksAll(a, k);
    assert forall p :: p in h.live ==> LiveBlock(h, p);
  }

  /** Nothing concerns page a any more. */
  lemma GonePage(r: Heap, a: nat)
    requires DescsOk(r) && a !in r.arenas
    requires forall p :: p in r.live ==> PageOf(p) != a
    requires forall k, p :: 0 <= k < DESC_CNT && p in r.descs[k].freeList ==> PageOf(p) != a
    ensures PageOk(r, {}, a)
  {
    hide PageOf, IsBlock, CountIn, BigBlock;
  }

  lemma DroppedPage(h: Heap, inUse: set<nat>, k: nat, a: nat)
    requires HeapOk(h, inUse, {a}) && a in h.arenas && k < DESC_CNT && h.arenas[a] == Arena(Some(k), PerArena(k))
    ensures var r := Dropped(h, k, a); DescsOk(r) && Local(h, r, a) && PageOk(r, {}, a)
  {
    hide PageOf, IsBlock, CountIn, Distinct, BigBlock, BlockAt, PerArena, Minus, LocalList;
    hide PageOk, CountsOk, SpansOk, LiveOk, Covered;
    var r, list := Dropped(h, k, a), h.descs[k].freeList;
    FullListed(h, inUse, k, a);
    assert forall p :: p in list ==> BlockOf(h, k, p);
    MinusLocal(list, k, a);
    ListLocal(h, inUse, {a}, r, k, Minus(list, Blocks(a, k, PerArena(k))), a);
    forall j, p | 0 <= j < DESC_CNT && p in r.descs[j].freeList
      ensures PageOf(p) != a
    {
      if j != k { assert BlockOf(h, j, p); }
    }
    GonePage(r, a);
  }

  lemma DroppedOk(h: Heap, inUse: set<nat>, k: nat, a: nat)
    requires HeapOk(h, inUse, {a}) && a in h.arenas && k < DESC_CNT && h.arenas[a] == Arena(Some(k), PerArena(k))
    ensures HeapOk(Dropped(h, k, a), inUse - Pages(a, 1), {})
  {
    hide PageOk, Local, ListsOk, CountsOk, SpansOk, LiveOk, Covered;
    var r := Dropped(h, k, a);
    DroppedPage(h, inUse, k, a);
    SpansRemoved(h, inUse, r, a);
    LocalOk(h, inUse, r, a, {}, inUse - Pages(a, 1));
  }

  /** With its lists as they are, a heap may change its big arenas freely. */
  lemma SameLists(h: Heap, inUse: set<nat>, full: set<nat>, a: nat)
    requires HeapOk(h, inUse, full)
    ensures forall j :: 0 <= j < DESC_CNT ==> LocalList(h.descs[j].freeList, h.descs[j].freeList, a)
  {
  }

  lemma NewBigPage(h: Heap, inUse: set<nat>, a: nat, cnt: nat, size: nat)
    requires HeapOk(h, inUse, {}) && a > 0 && cnt > 0 && Pages(a, cnt) !! inUse
    requires 0 < size && ARENA + size <= cnt * PGSIZE
    ensures PageOk(NewBig(h, a, cnt, size), {}, a)
  {
    hide PageOf, IsBlock, CountIn, Distinct, BigBlock, LocalList, SpansOk, ListsOk;
    assert a in Pages(a, cnt);
    NewPage(h, inUse, a);
    assert PageOf(BigBlock(a)) == a;
  }

  lemma NewBigOk(h: Heap, inUse: set<nat>, a: nat, cnt: nat, size: nat)
    requires HeapOk(h, inUse, {}) && a > 0 && cnt > 0 && Pages(a, cnt) !! inUse
    requires 0 < size && ARENA + size <= cnt * PGSIZE
    ensures HeapOk(NewBig(h, a, cnt, size), inUse + Pages(a, cnt), {})
  {
    hide PageOf, IsBlock, CountIn, Distinct, BigBlock, LocalList, SpansOk, ListsOk, PageOk;
    var r := NewBig(h, a, cnt, size);
    assert a in Pages(a, cnt);
    NewPage(h, inUse, a);
    SameLists(h, inUse, {}, a);
    NewBigPage(h, inUse, a, cnt, size);
    SpansAdded(h, inUse, r, a, Arena(None, cnt), cnt);
    Allow(h, inUse, a);
    LocalOk(h, inUse, r, a, {}, inUse + Pages(a, cnt));
  }

  lemma DroppedBigPage(h: Heap, inUse: set<nat>, a: nat)
    requires HeapOk(h, inUse, {}) && a in h.arenas && h.arenas[a].desc.None?
    ensures var r := DroppedBig(h, a); DescsOk(r) && Local(h, r, a) && PageOk(r, {}, a)
  {
    hide PageOf, IsBlock, CountIn, Distinct, BigBlock, LocalList, SpansOk, PageOk, CountsOk, Covered;
    var r := DroppedBig(h, a);
    SameLists(h, inUse, {}, a);
    assert PageOf(BigBlock(a)) == a;
    assert forall p :: p in h.live ==> LiveBlock(h, p);
    assert forall k, p :: 0 <= k < DESC_CNT && p in h.descs[k].freeList ==> BlockOf(h, k, p);
    GonePage(r, a);
  }

  lemma DroppedBigOk(h: Heap, inUse: set<nat>, a: nat)
    requires HeapOk(h, inUse, {}) && a in h.arenas && h.arenas[a].desc.None?
    ensures HeapOk(DroppedBig(h, a), inUse - Pages(a, h.arenas[a].freeCnt), {})
  {
    hide PageOk, Local, ListsOk, CountsOk, SpansOk, LiveOk, Covered;
    var r := DroppedBig(h, a);
    DroppedBigPage(h, inUse, a);
    SpansRemoved(h, inUse, r, a);
    Allow(h, inUse, a);
    LocalOk(h, inUse, r, a, {}, inUse - Pages(a, h.arenas[a].freeCnt));
  }

  /** A block that is freed is the next one handed out: taking one of the same size right
      after undoes it, lists and counts included. */
  lemma GivenThenTaken(h: Heap, k: nat, p: nat)
    requires k < |h.descs| && p in h.live && PageOf(p) in h.arenas
    ensures Taken(Given(h, k, p), k, h.live[p]) == h
  {
    var g := Given(h, k, p);
    var r := Taken(g, k, h.live[p]);
    assert g.descs[k].freeList == [p] + h.descs[k].freeList;
    assert r.descs[k].freeList == h.descs[k].freeList;
    assert r.descs == h.descs;
    assert r.arenas == h.arenas;
    assert r.live == h.live;
  }
}
