/** malloc and free (threads/malloc.c), with arena headers kept by page. */
module Malloc {
  import opened Bits
  import opened Order
  import opened BitmapWords
  import opened PageAllocators
  import opened MallocBlocks
  import opened MallocHeap
  import opened MallocSteps

  /** The pages malloc asks for when it must: one for a small block. */
  function PagesFor(size: nat): (n: nat)
    ensures n > 0
  {
    if size <= 1024 then 1 else BigPages(size)
  }

  function BigPages(size: nat): (n: nat)
    ensures n > 0 && size + ARENA <= n * PGSIZE < size + ARENA + PGSIZE
  {
    DivRoundUp(size + ARENA, PGSIZE)
  }

  /** malloc_init's loop: seven descriptors, of 16 to 1024 bytes. */
  method MakeDescs() returns (ds: seq<Desc>)
    ensures |ds| == DESC_CNT
    ensures forall k :: 0 <= k < DESC_CNT ==> ds[k] == Desc(BlockSize(k), PerArena(k), [])
  {
    ds := [];
    var blockSize := 16;
    while blockSize < PGSIZE / 2
      invariant |ds| <= DESC_CNT && blockSize == BlockSize(|ds|)
      invariant forall k :: 0 <= k < |ds| ==> ds[k] == Desc(BlockSize(k), PerArena(k), [])
      decreases PGSIZE - blockSize
    {
      LastSize(|ds|);
      ds := ds + [Desc(blockSize, Quotient(PGSIZE - ARENA, blockSize), [])];
      blockSize := blockSize * 2;
    }
    LastSize(|ds|);
  }

  class Allocator {
    const pages: PageAllocator
    var descs: seq<Desc>
    /** The arena headers, by page. */
    var arenas: map<nat, Arena>
    /** The blocks handed out, with the sizes asked for. */
    ghost var live: map<nat, nat>

    ghost function State(): (h: Heap)
      reads this
    {
      Heap(arenas, descs, live)
    }

    ghost predicate Valid()
      reads this, pages.Repr()
    {
      pages.Valid() && HeapOk(State(), pages.InUse(), {})
    }

    /** The pages in use that are none of malloc's. */
    ghost function Foreign(): (s: set<nat>)
      reads this, pages.Repr()
      requires pages.Valid()
    {
      pages.InUse() - Owned(State())
    }

    /** Once every block has been freed, malloc holds no page. */
    lemma NothingLeaks()
      requires Valid() && live == map[]
      ensures pages.InUse() == Foreign()
    {
      NothingKept(State(), pages.InUse());
    }

    /** malloc_init */
    constructor (pages: PageAllocator)
      requires pages.Valid()
      ensures Valid() && live == map[] && this.pages == pages && Foreign() == pages.InUse()
    {
      hide PerArena, BlockSize;
      this.pages := pages;
      arenas, live := map[], map[];
      var ds := MakeDescs();
      descs := ds;
    }

    /** The address of an arena's block, as arena_to_block reckons it. */
    function ArenaToBlock(page: nat, k: nat, i: nat): (p: nat)
      requires DescsOk(State()) && k < DESC_CNT
      reads this
      ensures p == BlockAt(page, k, i)
    {
      page * PGSIZE + ARENA + i * descs[k].blockSize
    }

    /** The search for the smallest descriptor whose blocks hold size bytes. */
    method FindDesc(size: nat) returns (k: nat)
      requires DescsOk(State())
      ensures k <= DESC_CNT && (k < DESC_CNT ==> size <= BlockSize(k))
      ensures forall j :: 0 <= j < k ==> BlockSize(j) < size
      ensures k < DESC_CNT <==> size <= 1024
    {
      k := 0;
      while k < |descs| && descs[k].blockSize < size
        invariant k <= |descs| && forall j :: 0 <= j < k ==> BlockSize(j) < size
      {
        k := k + 1;
      }
      if k < DESC_CNT { Sizes(k); }
      assert BlockSize(6) == 1024;
    }

    /** The header and the blocks of a new arena. */
    method FillArena(k: nat, page: nat)
      requires DescsOk(State()) && k < DESC_CNT && descs[k].freeList == []
      modifies this`descs, this`arenas
      ensures State() == NewArena(old(State()), k, page)
    {
      hide PerArena, BlockSize, BlockAt, Allocator.ArenaToBlock, DescsOk, WithList, Blocks;
      DescCount(State(), k);
      ghost var h := State();
      var count := descs[k].blocksPerArena;
      arenas := arenas[page := Arena(Some(k), count)];
      NoBlocks(h, page, k);
      var i := 0;
      while i < count
        invariant 0 <= i <= count && arenas == h.arenas[page := Arena(Some(k), count)]
        invariant descs == WithList(h, k, Blocks(page, k, i)).descs
      {
        NextBlock(h, State(), page, k, i);
        var block := ArenaToBlock(page, k, i);
        descs := descs[k := descs[k].(freeList := descs[k].freeList + [block])];
        i := i + 1;
      }
      hide NewArena;
      FilledArena(h, State(), page, k);
    }

    /** A new arena, if a page can be had, with its blocks on the free list. */
    method AddArena(k: nat) returns (ok: bool, page: nat)
      requires Valid() && k < DESC_CNT && descs[k].freeList == []
      modifies this`descs, this`arenas, pages.Repr()
      ensures pages.Valid() && Foreign() == old(Foreign())
      ensures ok ==> HeapOk(State(), pages.InUse(), {page}) && State() == NewArena(old(State()), k, page) && page > 0
      ensures !ok ==> State() == old(State()) && pages.InUse() == old(pages.InUse()) && old(pages.Exhausted(false, 1))
    {
      hide HeapOk, Pages, PageAllocator.InUse, Owned, PageAllocator.Exhausted, NewArena;
      ghost var h, inUse := State(), pages.InUse();
      HeapParts(h, inUse);
      var a := pages.GetMultiple(false, 1);
      if a.None? {
        return false, 0;
      }
      page := a.value / PGSIZE;
      NewArenaStep(h, inUse, k, page);
      FillArena(k, page);
      ok := true;
    }

    /** The first block of a nonempty free list. */
    method TakeBlock(k: nat, size: nat, ghost page: nat) returns (p: nat)
      requires pages.Valid() && k < DESC_CNT && HeapOk(State(), pages.InUse(), {page})
      requires descs[k].freeList != [] && PageOf(descs[k].freeList[0]) == page && 0 < size <= BlockSize(k)
      modifies this`descs, this`arenas, this`live
      ensures Valid() && Foreign() == old(Foreign())
      ensures p == old(descs[k].freeList[0]) && p !in old(live) && live == old(live)[p := size]
      ensures page in arenas && arenas[page].desc == Some(k)
    {
      hide HeapOk, Pages, PageAllocator.InUse, Owned, PageOf, CountIn, BlockSize;
      ghost var h := State();
      assert this !in pages.Repr();
      HeadTaken(h, pages.InUse(), k, size, page);
      p := descs[k].freeList[0];
      descs := descs[k := descs[k].(freeList := descs[k].freeList[1..])];
      var a := arenas[PageOf(p)];
      arenas := arenas[PageOf(p) := a.(freeCnt := a.freeCnt - 1)];
      live := live[p := size];
      assert State() == Taken(h, k, size);
      assert pages.InUse() == old(pages.InUse());
    }

    /** A block too big for any descriptor gets pages of its own. */
    method BigMalloc(size: nat) returns (p: Option<nat>)
      requires Valid() && size > 1024
      modifies this`arenas, this`live, pages.Repr()
      ensures Valid() && Foreign() == old(Foreign())
      ensures p.Some? ==> p.value !in old(live) && live == old(live)[p.value := size]
      ensures p.None? ==> State() == old(State()) && old(pages.Exhausted(false, PagesFor(size)))
    {
      hide HeapOk, Pages, PageAllocator.InUse, Owned, PageAllocator.Exhausted;
      ghost var h, inUse := State(), pages.InUse();
      var cnt := BigPages(size);
      var a := pages.GetMultiple(false, cnt);
      if a.None? {
        return None;
      }
      var page := a.value / PGSIZE;
      NewBigStep(h, inUse, page, cnt, size);
      arenas := arenas[page := Arena(None, cnt)];
      p := Some(a.value + ARENA);
      assert p.value == BigBlock(page);
      live := live[p.value := size];
    }

    /** malloc: a block of at least size bytes that nobody holds, from the smallest
        class that fits; None only for size 0 or when the pages cannot be had. */
    method Malloc(size: nat) returns (p: Option<nat>)
      requires Valid()
      modifies this, pages.Repr()
      ensures Valid() && Foreign() == old(Foreign())
      ensures p.Some? ==> size > 0 && p.value !in old(live) && live == old(live)[p.value := size]
      ensures p.Some? && size <= 1024 ==> SmallestClass(State(), p.value, size)
      ensures p.None? ==> State() == old(State()) && (size == 0 || old(pages.Exhausted(false, PagesFor(size))))
    {
      hide HeapOk, Pages, PageAllocator.InUse, Owned, PageAllocator.Exhausted, PageOf, BlockSize;
      if size == 0 {
        return None;
      }
      HeapParts(State(), pages.InUse());
      var k := FindDesc(size);
      if k == DESC_CNT {
        p := BigMalloc(size);
        return;
      }
      ghost var page;
      if descs[k].freeList == [] {
        var ok, a := AddArena(k);
        if !ok {
          return None;
        }
        page := a;
        FirstNew(old(State()), k, page);
      } else {
        page := PageOf(descs[k].freeList[0]);
        Allow(State(), pages.InUse(), page);
      }
      var block := TakeBlock(k, size, page);
      return Some(block);
    }

    /** Takes each of an arena's blocks off the free list; each is there to be taken. */
    method UnlinkArena(k: nat, page: nat)
      requires DescsOk(State()) && k < DESC_CNT
      requires forall b :: b in Blocks(page, k, PerArena(k)) ==> b in descs[k].freeList
      modifies this`descs
      ensures descs == WithList(old(State()), k, Minus(old(descs[k].freeList), Blocks(page, k, PerArena(k)))).descs
    {
      hide PerArena, BlockAt, Minus, IsBlock, PageOf, BlockSize, Allocator.ArenaToBlock;
      ghost var list := descs[k].freeList;
      var i := 0;
      MinusNone(list);
      while i < descs[k].blocksPerArena
        invariant 0 <= i <= PerArena(k) && |descs| == DESC_CNT
        invariant descs == WithList(old(State()), k, Minus(list, Blocks(page, k, i))).descs
      {
        var block := ArenaToBlock(page, k, i);
        NextUnlinked(list, page, k, i);
        assert block in descs[k].freeList;
        descs := descs[k := descs[k].(freeList := Minus(descs[k].freeList, [block]))];
        i := i + 1;
      }
    }

    /** free; a null pointer is address 0. */
    method Free(p: nat)
      requires Valid() && (p != 0 ==> p in live)
      modifies this, pages.Repr()
      ensures Valid() && Foreign() == old(Foreign())
      ensures live == if p == 0 then old(live) else old(live) - {p}
    {
      hide HeapOk, Pages, PageAllocator.InUse, Owned, PageOf, PerArena, Blocks, LiveBlock;
      if p == 0 {
        return;
      }
      ghost var h, inUse := State(), pages.InUse();
      var page := PageOf(p);
      LiveArena(h, inUse, p);
      if arenas[page].desc.None? {
        FreeBig(p, page);
      } else {
        FreeBlock(p, page, arenas[page].desc.value);
      }
    }

    method FreeBig(p: nat, page: nat)
      requires Valid() && p in live && page == PageOf(p) && page in arenas && arenas[page].desc.None? && p == BigBlock(page)
      modifies this, pages.Repr()
      ensures Valid() && Foreign() == old(Foreign()) && live == old(live) - {p}
    {
      hide HeapOk, Pages, PageAllocator.InUse, Owned, PageOf, BigBlock;
      ghost var h, inUse := State(), pages.InUse();
      DropBigStep(h, inUse, page);
      pages.FreeMultiple(page * PGSIZE, arenas[page].freeCnt);
      arenas, live := arenas - {page}, live - {p};
      assert State() == DroppedBig(h, page);
    }

    method FreeBlock(p: nat, page: nat, k: nat)
      requires Valid() && p in live && page == PageOf(p) && k < DESC_CNT && BlockOf(State(), k, p)
      modifies this, pages.Repr()
      ensures Valid() && Foreign() == old(Foreign()) && live == old(live) - {p}
    {
      hide HeapOk, Pages, PageAllocator.InUse, Owned, PageOf, PerArena, Blocks, IsBlock, Minus;
      ghost var h, inUse := State(), pages.InUse();
      assert this !in pages.Repr();
      HeapParts(h, inUse);
      GiveStep(h, inUse, k, p, page);
      descs := descs[k := descs[k].(freeList := [p] + descs[k].freeList)];
      arenas := arenas[page := arenas[page].(freeCnt := arenas[page].freeCnt + 1)];
      live := live - {p};
      ghost var g := Given(h, k, p);
      assert State() == g;
      if arenas[page].freeCnt >= descs[k].blocksPerArena {
        DropStep(g, inUse, k, page);
        UnlinkArena(k, page);
        arenas := arenas - {page};
        pages.FreeMultiple(page * PGSIZE, 1);
        assert State() == Dropped(g, k, page);
      } else {
        NotFull(g, inUse, k, page);
      }
    }
  }

  /** p's arena is of the smallest class that holds size bytes. */
  ghost predicate SmallestClass(h: Heap, p: nat, size: nat) {
    && PageOf(p) in h.arenas && h.arenas[PageOf(p)].desc.Some?
    && var k := h.arenas[PageOf(p)].desc.value;
    && k < DESC_CNT && size <= BlockSize(k)
    && forall j :: 0 <= j < k ==> BlockSize(j) < size
  }

  /** The list of a new arena starts with its first block. */
  lemma FirstNew(h: Heap, k: nat, page: nat)
    requires k < DESC_CNT <= |h.descs| && h.descs[k].freeList == []
    ensures var list := NewArena(h, k, page).descs[k].freeList; list != [] && PageOf(list[0]) == page
  {
    Sizes(k);
    BlockIs(page, k, 0);
    assert h.descs[k].freeList + Blocks(page, k, PerArena(k)) == Blocks(page, k, PerArena(k));
  }

  lemma HeadTaken(h: Heap, inUse: set<nat>, k: nat, size: nat, page: nat)
    requires k < DESC_CNT && HeapOk(h, inUse, {page}) && 0 < size <= BlockSize(k)
    requires h.descs[k].freeList != [] && PageOf(h.descs[k].freeList[0]) == page
    ensures DescsOk(h) && page in h.arenas && h.arenas[page].desc == Some(k) && h.arenas[page].freeCnt > 0
    ensures h.descs[k].freeList[0] !in h.live
    ensures HeapOk(Taken(h, k, size), inUse, {}) && Owned(Taken(h, k, size)) == Owned(h)
  {
    hide PageOf, IsBlock, CountIn, ListsOk, CountsOk, Covered, PerArena, SpansOk;
    HeadBlock(h, inUse, {page}, k);
    TakenOk(h, inUse, k, size, page);
    OwnedKept(h, Taken(h, k, size), page, h.arenas[page].freeCnt - 1);
    var p := h.descs[k].freeList[0];
    assert p in h.live ==> LiveBlock(h, p);
  }

  lemma NewBigStep(h: Heap, inUse: set<nat>, a: nat, cnt: nat, size: nat)
    requires HeapOk(h, inUse, {}) && a > 0 && cnt > 0 && Pages(a, cnt) !! inUse
    requires 0 < size && ARENA + size <= cnt * PGSIZE
    ensures var r := NewBig(h, a, cnt, size);
            && HeapOk(r, inUse + Pages(a, cnt), {})
            && Owned(r) == Owned(h) + Pages(a, cnt) && Owned(h) <= inUse
    ensures BigBlock(a) !in h.live
  {
    hide PageOf, IsBlock, CountIn, ListsOk, CountsOk, LiveOk, Covered, PerArena;
    assert a in Pages(a, cnt);
    NewPage(h, inUse, a);
    NewBigOk(h, inUse, a, cnt, size);
    OwnedAdded(h, NewBig(h, a, cnt, size), a, Arena(None, cnt));
  }

  lemma LiveArena(h: Heap, inUse: set<nat>, p: nat)
    requires HeapOk(h, inUse, {}) && p in h.live
    ensures PageOf(p) in h.arenas
    ensures match h.arenas[PageOf(p)].desc
            case Some(k) => k < DESC_CNT && BlockOf(h, k, p)
            case None => p == BigBlock(PageOf(p))
  {
    assert LiveBlock(h, p);
  }

  lemma NextUnlinked(list: seq<nat>, page: nat, k: nat, i: nat)
    requires k < DESC_CNT && i < PerArena(k)
    requires forall b :: b in Blocks(page, k, PerArena(k)) ==> b in list
    ensures BlockAt(page, k, i) in Minus(list, Blocks(page, k, i))
    ensures Minus(Minus(list, Blocks(page, k, i)), [BlockAt(page, k, i)]) == Minus(list, Blocks(page, k, i + 1))
  {
    hide PerArena, BlockAt, Minus, IsBlock, PageOf, IndexOf;
    var b, all := BlockAt(page, k, i), Blocks(page, k, PerArena(k));
    assert all[i] == b;
    forall j | 0 <= j < i
      ensures Blocks(page, k, i)[j] != b
    {
      BlockIs(page, k, j);
      BlockIs(page, k, i);
    }
    MinusMember(list, Blocks(page, k, i), b);
    MinusMore(list, Blocks(page, k, i), b);
  }

  lemma GiveStep(h: Heap, inUse: set<nat>, k: nat, p: nat, page: nat)
    requires HeapOk(h, inUse, {}) && k < DESC_CNT && p in h.live && page == PageOf(p) && BlockOf(h, k, p)
    ensures HeapOk(Given(h, k, p), inUse, {page}) && Owned(Given(h, k, p)) == Owned(h)
    ensures h.arenas[page].freeCnt < PerArena(k)
  {
    hide PageOf, IsBlock, CountIn, ListsOk, LiveOk, Covered, PerArena, SpansOk;
    GivenOk(h, inUse, k, p, page);
    OwnedKept(h, Given(h, k, p), page, h.arenas[page].freeCnt + 1);
    assert CountOk(h, {}, page);
  }

  lemma DropStep(g: Heap, inUse: set<nat>, k: nat, page: nat)
    requires HeapOk(g, inUse, {page}) && page in g.arenas && k < DESC_CNT && g.arenas[page].desc == Some(k)
    requires g.arenas[page].freeCnt >= PerArena(k)
    ensures forall p :: p in Blocks(page, k, PerArena(k)) ==> p in g.descs[k].freeList
    ensures HeapOk(Dropped(g, k, page), inUse - Pages(page, 1), {})
    ensures Owned(Dropped(g, k, page)) == Owned(g) - Pages(page, 1) && Pages(page, 1) <= Owned(g) <= inUse && page > 0
  {
    hide PageOf, IsBlock, CountIn, ListsOk, LiveOk, Covered, PerArena;
    assert CountOk(g, {page}, page);
    FullListed(g, inUse, k, page);
    DroppedOk(g, inUse, k, page);
    OwnedRemoved(g, inUse, Dropped(g, k, page), page);
  }

  lemma DropBigStep(h: Heap, inUse: set<nat>, page: nat)
    requires HeapOk(h, inUse, {}) && page in h.arenas && h.arenas[page].desc.None?
    ensures HeapOk(DroppedBig(h, page), inUse - Pages(page, h.arenas[page].freeCnt), {})
    ensures Owned(DroppedBig(h, page)) == Owned(h) - Pages(page, h.arenas[page].freeCnt)
    ensures Pages(page, h.arenas[page].freeCnt) <= Owned(h) <= inUse && page > 0
  {
    hide PageOf, IsBlock, CountIn, ListsOk, LiveOk, Covered, BigBlock;
    DroppedBigOk(h, inUse, page);
    OwnedRemoved(h, inUse, DroppedBig(h, page), page);
  }

  lemma HeapParts(h: Heap, inUse: set<nat>)
    requires HeapOk(h, inUse, {})
    ensures DescsOk(h) && SpansOk(h, inUse)
  {
  }

  lemma NewArenaStep(h: Heap, inUse: set<nat>, k: nat, a: nat)
    requires HeapOk(h, inUse, {}) && k < DESC_CNT && a > 0 && Pages(a, 1) !! inUse && h.descs[k].freeList == []
    ensures var r := NewArena(h, k, a);
            && HeapOk(r, inUse + Pages(a, 1), {a})
            && Owned(r) == Owned(h) + Pages(a, 1) && Owned(h) <= inUse
  {
    hide PageOf, IsBlock, CountIn, ListsOk, CountsOk, LiveOk, Covered, PerArena;
    assert a in Pages(a, 1);
    NewPage(h, inUse, a);
    NewArenaOk(h, inUse, k, a);
    OwnedAdded(h, NewArena(h, k, a), a, Arena(Some(k), PerArena(k)));
  }

  lemma LastSize(k: nat)
    requires k <= DESC_CNT
    ensures BlockSize(k) < PGSIZE / 2 <==> k < DESC_CNT
  {
    if k < DESC_CNT { Sizes(k); }
  }
}
