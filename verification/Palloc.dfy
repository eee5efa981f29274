/**
  The page allocator (threads/palloc.c): two pools of pages, each a bitmap of
  pages in use. Addresses are byte addresses; page n starts at n * PGSIZE.
 */
module PageAllocators {
  import opened Bits
  import opened BitmapWords

  const PGSIZE: nat := 4096

  function DivRoundUp(x: nat, y: nat): (q: nat)
    requires y > 0
    ensures (q - 1) * y < x <= q * y
  {
    (x + y - 1) / y
  }

  /** bitmap_buf_size: an 8-byte header and a 4-byte word for every 32 bits, so a bit for
      every page and fewer than 32 to spare. */
  function BitmapBufSize(bitCnt: nat): (n: nat)
    ensures bitCnt <= 8 * (n - 8) < bitCnt + 32
  {
    8 + 4 * DivRoundUp(bitCnt, 32)
  }

  ghost function Pages(first: nat, cnt: nat): (s: set<nat>)
    ensures forall p :: p in s <==> first <= p < first + cnt
  {
    if cnt == 0 then {} else Pages(first, cnt - 1) + {first + cnt - 1}
  }

  class Pool {
    const usedMap: Bitmap
    const base: nat

    ghost predicate Valid() {
      usedMap.Valid() && base > 0
    }

    ghost function All(): (s: set<nat>) {
      Pages(base, usedMap.bitCnt)
    }

    /** The pages of the pool that are in use. */
    ghost function InUse(): (s: set<nat>)
      requires Valid()
      reads usedMap.bits
    {
      set p | p in All() && usedMap.View()[p - base]
    }

    /** init_pool: the bitmap takes the first pages; the rest are the pool, all free. */
    constructor (first: nat, pageCnt: nat)
      requires first > 0 && DivRoundUp(BitmapBufSize(pageCnt), PGSIZE) <= pageCnt
      ensures Valid() && InUse() == {} && fresh(usedMap) && fresh(usedMap.bits)
      ensures first < base && base + usedMap.bitCnt == first + pageCnt
      ensures (base - first - 1) * PGSIZE < BitmapBufSize(pageCnt) <= (base - first) * PGSIZE
    {
      var bmPages := DivRoundUp(BitmapBufSize(pageCnt), PGSIZE);
      usedMap := new Bitmap(pageCnt - bmPages);
      base := first + bmPages;
    }

    /** page_from_pool */
    method PageFromPool(page: nat) returns (b: bool)
      requires Valid()
      ensures b <==> page in All()
    {
      b := base <= page < base + usedMap.bitCnt;
    }

    /** cnt consecutive free pages start at page. */
    ghost predicate FreeRun(page: nat, cnt: nat)
      requires Valid()
      reads usedMap.bits
    {
      Pages(page, cnt) <= All() - InUse()
    }

    lemma FreeRunAt(i: nat, cnt: nat)
      requires Valid() && cnt > 0
      ensures FreeRun(base + i, cnt) <==> RunAt(usedMap.View(), i, cnt, false)
    {
      var v := usedMap.View();
      if FreeRun(base + i, cnt) {
        assert base + i + cnt - 1 in Pages(base + i, cnt);
        forall j | i <= j < i + cnt
          ensures v[j] == false
        {
          assert base + j in Pages(base + i, cnt);
        }
      }
    }

    /** The locked part of palloc_get_multiple: the first cnt free pages in a row. */
    method Take(cnt: nat) returns (page: Option<nat>)
      requires Valid() && cnt > 0
      modifies usedMap.bits
      ensures page.Some? ==>
                && base <= page.value && old(FreeRun(page.value, cnt))
                && InUse() == old(InUse()) + Pages(page.value, cnt)
                && forall p :: base <= p < page.value ==> !old(FreeRun(p, cnt))
      ensures page.None? ==>
                && InUse() == old(InUse())
                && forall p :: base <= p ==> !old(FreeRun(p, cnt))
    {
      hide Bitmap.View;
      ghost var v := usedMap.View();
      forall p | base <= p
        ensures FreeRun(p, cnt) <==> RunAt(v, p - base, cnt, false)
      {
        FreeRunAt(p - base, cnt);
      }
      var r := usedMap.ScanAndFlip(0, cnt, false);
      if r.None? {
        return None;
      }
      return Some(base + r.value);
    }

    /** The end of palloc_free_multiple. */
    method Give(page: nat, cnt: nat)
      requires Valid() && cnt > 0 && Pages(page, cnt) <= InUse()
      modifies usedMap.bits
      ensures InUse() == old(InUse()) - Pages(page, cnt)
    {
      hide Bitmap.View;
      assert page in Pages(page, cnt) && page + cnt - 1 in Pages(page, cnt);
      usedMap.SetMultiple(page - base, cnt, false);
    }
  }

  class PageAllocator {
    const kernelPool: Pool
    const userPool: Pool

    /** The pools are apart: the user pool's bitmap lies between them. */
    ghost predicate Valid() {
      && kernelPool.Valid() && userPool.Valid()
      && kernelPool.usedMap.bits != userPool.usedMap.bits
      && kernelPool.base + kernelPool.usedMap.bitCnt < userPool.base
    }

    ghost function Repr(): (s: set<object>) {
      {kernelPool.usedMap.bits, userPool.usedMap.bits}
    }

    ghost function InUse(): (s: set<nat>)
      requires Valid()
      reads Repr()
    {
      kernelPool.InUse() + userPool.InUse()
    }

    /** palloc_init, given the first page after 1 MB and the number of free pages */
    constructor (first: nat, freePages: nat, userPageLimit: nat)
      requires first > 0
      requires
        var user := if freePages / 2 > userPageLimit then userPageLimit else freePages / 2;
        && DivRoundUp(BitmapBufSize(user), PGSIZE) <= user
        && DivRoundUp(BitmapBufSize(freePages - user), PGSIZE) <= freePages - user
      ensures Valid() && InUse() == {} && fresh(Repr())
      ensures kernelPool.All() + userPool.All() <= Pages(first, freePages)
      ensures var user := if freePages / 2 > userPageLimit then userPageLimit else freePages / 2;
              && first < kernelPool.base && kernelPool.base + kernelPool.usedMap.bitCnt == first + freePages - user
              && first + freePages - user < userPool.base && userPool.base + userPool.usedMap.bitCnt == first + freePages
    {
      var userPages := freePages / 2;
      if userPages > userPageLimit {
        userPages := userPageLimit;
      }
      var kernelPages := freePages - userPages;
      kernelPool := new Pool(first, kernelPages);
      userPool := new Pool(first + kernelPages, userPages);
    }

    ghost function PoolFor(user: bool): (p: Pool) {
      if user then userPool else kernelPool
    }

    /** The pool has no cnt free pages in a row. */
    ghost predicate Exhausted(user: bool, cnt: nat)
      requires Valid()
      reads Repr()
    {
      forall p :: PoolFor(user).base <= p ==> !PoolFor(user).FreeRun(p, cnt)
    }

    lemma PoolsApart()
      requires Valid()
      ensures kernelPool.All() !! userPool.All()
      ensures kernelPool.InUse() <= kernelPool.All() && userPool.InUse() <= userPool.All()
    {
    }

    /** palloc_get_multiple: the address of the first page. */
    method GetMultiple(user: bool, cnt: nat) returns (addr: Option<nat>)
      requires Valid()
      modifies Repr()
      ensures addr.Some? ==>
                && addr.value % PGSIZE == 0 && addr.value > 0 && cnt > 0
                && Pages(addr.value / PGSIZE, cnt) <= PoolFor(user).All() && Pages(addr.value / PGSIZE, cnt) !! old(InUse())
                && InUse() == old(InUse()) + Pages(addr.value / PGSIZE, cnt)
                && (if user then kernelPool.InUse() == old(kernelPool.InUse()) else userPool.InUse() == old(userPool.InUse()))
                && forall p :: PoolFor(user).base <= p < addr.value / PGSIZE ==> !old(PoolFor(user).FreeRun(p, cnt))
      ensures addr.None? ==>
                && InUse() == old(InUse())
                && (cnt > 0 ==> old(Exhausted(user, cnt)))
    {
      hide Bitmap.View, Pool.InUse, Pool.All, Pages;
      PoolsApart();
      if cnt == 0 {
        return None;
      }
      var pool := if user then userPool else kernelPool;
      var page := pool.Take(cnt);
      if page.None? {
        return None;
      }
      return Some(page.value * PGSIZE);
    }

    /** Pages in use that follow one another are all of one pool. */
    lemma OnePool(page: nat, cnt: nat)
      requires Valid() && cnt > 0 && Pages(page, cnt) <= InUse()
      ensures Pages(page, cnt) <= (if page in kernelPool.All() then kernelPool else userPool).InUse()
    {
      assert page in Pages(page, cnt);
      var gap := kernelPool.base + kernelPool.usedMap.bitCnt;
      assert gap !in InUse();
      assert gap in Pages(page, cnt) <==> page <= gap < page + cnt;
    }

    /** palloc_free_multiple; a null pointer is address 0. */
    method FreeMultiple(addr: nat, cnt: nat)
      requires Valid() && addr % PGSIZE == 0
      requires addr > 0 ==> Pages(addr / PGSIZE, cnt) <= InUse()
      modifies Repr()
      ensures InUse() == if addr > 0 then old(InUse()) - Pages(addr / PGSIZE, cnt) else old(InUse())
    {
      if addr == 0 || cnt == 0 {
        return;
      }
      var page := addr / PGSIZE;
      OnePool(page, cnt);
      assert page in Pages(page, cnt);
      var inKernel := kernelPool.PageFromPool(page);
      var pool := if inKernel then kernelPool else userPool;
      pool.Give(page, cnt);
    }
  }
}
