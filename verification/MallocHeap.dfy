/**
  The state of malloc (threads/malloc.c) and what every call keeps true of it.
 */
module MallocHeap {
  import opened Bits
  import opened Order
  import opened PageAllocators
  import opened MallocBlocks

  datatype Desc = Desc(blockSize: nat, blocksPerArena: nat, freeList: seq<nat>)

  /** An arena's header; desc is None for a big block, whose freeCnt counts pages. */
  datatype Arena = Arena(desc: Option<nat>, freeCnt: nat)

  /** The headers by page, the descriptors, and the live blocks with the sizes
      they were asked for. */
  datatype Heap = Heap(arenas: map<nat, Arena>, descs: seq<Desc>, live: map<nat, nat>)

  ghost function Span(h: Heap, page: nat): (s: set<nat>)
    requires page in h.arenas
  {
    Pages(page, if h.arenas[page].desc.Some? then 1 else h.arenas[page].freeCnt)
  }

  ghost predicate DescsOk(h: Heap) {
    && |h.descs| == DESC_CNT
    && forall k :: 0 <= k < DESC_CNT ==> h.descs[k].blockSize == BlockSize(k) && h.descs[k].blocksPerArena == PerArena(k)
  }

  lemma DescCount(h: Heap, k: nat)
    requires DescsOk(h) && k < DESC_CNT
    ensures |h.descs| == DESC_CNT && h.descs[k].blocksPerArena == PerArena(k)
  {}

  /** p is a block of some arena of descriptor k. */
  ghost predicate BlockOf(h: Heap, k: nat, p: nat) {
    PageOf(p) in h.arenas && h.arenas[PageOf(p)].desc == Some(k) && IsBlock(k, p)
  }

  ghost predicate ListsOk(h: Heap)
    requires DescsOk(h)
  {
    forall k :: 0 <= k < DESC_CNT ==>
      && Distinct(h.descs[k].freeList)
      && forall p :: p in h.descs[k].freeList ==> BlockOf(h, k, p)
  }

  /** Each arena counts its blocks on its descriptor's free list, and none but
      those in `full` is wholly free. */
  ghost predicate CountOk(h: Heap, full: set<nat>, page: nat)
    requires DescsOk(h) && page in h.arenas
  {
    match h.arenas[page].desc
    case Some(k) =>
      && k < DESC_CNT
      && h.arenas[page].freeCnt == CountIn(h.descs[k].freeList, page) <= PerArena(k)
      && (page !in full ==> h.arenas[page].freeCnt < PerArena(k))
    case None => h.arenas[page].freeCnt > 0
  }

  ghost predicate CountsOk(h: Heap, full: set<nat>)
    requires DescsOk(h)
  {
    forall page :: page in h.arenas ==> CountOk(h, full, page)
  }

  /** Arenas own different pages, all in use. */
  ghost predicate SpansOk(h: Heap, inUse: set<nat>) {
    && (forall page :: page in h.arenas ==> page > 0 && Span(h, page) <= inUse)
    && (forall a, b :: a in h.arenas && b in h.arenas && a != b ==> Span(h, a) !! Span(h, b))
  }

  ghost predicate LiveBlock(h: Heap, p: nat)
    requires DescsOk(h) && p in h.live
  {
    PageOf(p) in h.arenas &&
    match h.arenas[PageOf(p)].desc
    case Some(k) => k < DESC_CNT && IsBlock(k, p) && p !in h.descs[k].freeList && 0 < h.live[p] <= BlockSize(k)
    case None => p == BigBlock(PageOf(p)) && 0 < h.live[p] && ARENA + h.live[p] <= h.arenas[PageOf(p)].freeCnt * PGSIZE
  }

  ghost predicate LiveOk(h: Heap)
    requires DescsOk(h)
  {
    forall p :: p in h.live ==> LiveBlock(h, p)
  }

  /** Every block of every arena is live or listed. */
  ghost predicate Covered(h: Heap)
    requires DescsOk(h)
  {
    && (forall k, p :: 0 <= k < DESC_CNT && BlockOf(h, k, p) ==> p in h.live || p in h.descs[k].freeList)
    && (forall page :: page in h.arenas && h.arenas[page].desc.None? ==> BigBlock(page) in h.live)
  }

  ghost predicate HeapOk(h: Heap, inUse: set<nat>, full: set<nat>) {
    DescsOk(h) && ListsOk(h) && CountsOk(h, full) && SpansOk(h, inUse) && LiveOk(h) && Covered(h)
  }

  // ---- What the invariant means ------------------------------------------------

  /** The bytes a live block was asked for. */
  ghost predicate InBlock(h: Heap, p: nat, byte: nat)
    requires p in h.live
  {
    p <= byte < p + h.live[p]
  }

  /** A live block lies inside its own arena, behind the header. */
  lemma LiveInside(h: Heap, inUse: set<nat>, p: nat, byte: nat)
    requires HeapOk(h, inUse, {}) && p in h.live && InBlock(h, p, byte)
    ensures PageOf(p) in h.arenas && PageOf(byte) in Span(h, PageOf(p)) && PageOf(byte) in inUse
    ensures byte >= PageOf(p) * PGSIZE + ARENA
  {
    assert LiveBlock(h, p);
    var page := PageOf(p);
    match h.arenas[page].desc
    case Some(k) =>
      IsBlockAt(k, p);
      BlockIs(page, k, IndexOf(k, p));
      InPages(byte, page, 1);
    case None =>
      InPages(byte, page, h.arenas[page].freeCnt);
  }

  lemma InPages(byte: nat, page: nat, cnt: nat)
    requires page * PGSIZE <= byte < (page + cnt) * PGSIZE
    ensures PageOf(byte) in Pages(page, cnt)
  {
  }

  /** No byte belongs to two live blocks. */
  lemma LiveApart(h: Heap, inUse: set<nat>, p: nat, q: nat, byte: nat)
    requires HeapOk(h, inUse, {}) && p in h.live && q in h.live && InBlock(h, p, byte) && InBlock(h, q, byte)
    ensures p == q
  {
    LiveInside(h, inUse, p, byte);
    LiveInside(h, inUse, q, byte);
    assert PageOf(p) == PageOf(q);
    assert LiveBlock(h, p) && LiveBlock(h, q);
    if h.arenas[PageOf(p)].desc.Some? {
      var k := h.arenas[PageOf(p)].desc.value;
      if p < q { BlocksApart(k, p, q); }
      if q < p { BlocksApart(k, q, p); }
    }
  }

  lemma {:induction false} SubsetSize(a: set<nat>, b: set<nat>)
    ensures a <= b ==> |a| <= |b|
  {
    if a != {} && a <= b {
      var x :| x in a;
      SubsetSize(a - {x}, b - {x});
    }
  }

  /** No arena is wholly free: each has a live block. */
  lemma ArenaUsed(h: Heap, inUse: set<nat>, page: nat)
    requires HeapOk(h, inUse, {}) && page in h.arenas
    ensures exists p :: p in h.live && PageOf(p) == page
  {
    assert CountOk(h, {}, page);
    match h.arenas[page].desc
    case None =>
      assert PageOf(BigBlock(page)) == page;
    case Some(k) =>
      var list, all := h.descs[k].freeList, Blocks(page, k, PerArena(k));
      BlocksAll(page, k);
      CountInMembers(list, page);
      CountInMembers(all, page);
      CountBlocks(page, k, PerArena(k), page);
      SubsetSize(Members(all, page), Members(list, page));
      var p :| p in Members(all, page) && p !in Members(list, page);
      assert BlockOf(h, k, p);
  }

  lemma HeadIn(list: seq<nat>)
    ensures list != [] ==> list[0] in list
  {
  }

  /** When nothing is live malloc holds no page and lists no block. */
  lemma NothingKept(h: Heap, inUse: set<nat>)
    requires HeapOk(h, inUse, {}) && h.live == map[]
    ensures h.arenas == map[]
    ensures forall k :: 0 <= k < DESC_CNT ==> h.descs[k].freeList == []
  {
    forall page
      ensures page !in h.arenas
    {
      if page in h.arenas { ArenaUsed(h, inUse, page); }
    }
    forall k | 0 <= k < DESC_CNT
      ensures h.descs[k].freeList == []
    {
      HeadIn(h.descs[k].freeList);
    }
  }
}
