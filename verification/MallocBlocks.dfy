/**
  How malloc cuts a page into blocks (threads/malloc.c), and the counting that
  its free lists rest on.
 */
module MallocBlocks {
  import opened Order
  import opened PageAllocators
  import Arithmetic

  const DESC_CNT: nat := 7

  /** sizeof (struct arena): three 4-byte fields. */
  const ARENA: nat := 12

  function BlockSize(k: nat): (n: nat)
    ensures n >= 16
  {
    if k == 0 then 16 else 2 * BlockSize(k - 1)
  }

  function Quotient(a: nat, b: nat): (q: nat)
    requires b > 0
  {
    a / b
  }

  function PerArena(k: nat): (n: nat) {
    if k < DESC_CNT then Quotient(PGSIZE - ARENA, BlockSize(k)) else 0
  }

  lemma Sizes(k: nat)
    requires k < DESC_CNT
    ensures 16 <= BlockSize(k) <= 1024 && 3 <= PerArena(k)
    ensures ARENA + PerArena(k) * BlockSize(k) <= PGSIZE
  {
    assert BlockSize(0) == 16 && BlockSize(1) == 32 && BlockSize(2) == 64 && BlockSize(3) == 128;
    assert BlockSize(4) == 256 && BlockSize(5) == 512 && BlockSize(6) == 1024;
  }

  function PageOf(p: nat): (page: nat) { p / PGSIZE }

  /** arena_to_block */
  function BlockAt(page: nat, k: nat, i: nat): (p: nat) {
    page * PGSIZE + ARENA + i * BlockSize(k)
  }

  /** The one block of a big arena, right behind its header. */
  function BigBlock(page: nat): (p: nat)
    ensures PageOf(p) == page
  {
    page * PGSIZE + ARENA
  }

  function IndexOf(k: nat, p: nat): (i: int) { (p % PGSIZE - ARENA) / BlockSize(k) }

  /** p is the address of a block of a descriptor-k arena. */
  predicate IsBlock(k: nat, p: nat) {
    && p % PGSIZE >= ARENA
    && (p % PGSIZE - ARENA) % BlockSize(k) == 0
    && IndexOf(k, p) < PerArena(k)
  }

  lemma BlockIs(page: nat, k: nat, i: nat)
    requires k < DESC_CNT && i < PerArena(k)
    ensures var p := BlockAt(page, k, i); PageOf(p) == page && IsBlock(k, p) && IndexOf(k, p) == i
    ensures BlockAt(page, k, i) + BlockSize(k) <= (page + 1) * PGSIZE
  {
    hide BlockSize, PerArena;
    Sizes(k);
    var z := BlockSize(k);
    Arithmetic.MulMono(i + 1, PerArena(k), z);
    assert (i + 1) * z == i * z + z;
    var o := ARENA + i * z;
    PageSplit(page, o);
    DivExact(i, z);
  }

  lemma PageSplit(page: nat, o: nat)
    requires o < PGSIZE
    ensures (page * PGSIZE + o) / PGSIZE == page && (page * PGSIZE + o) % PGSIZE == o
  {
  }

  lemma DivExact(i: nat, z: nat)
    requires z > 0
    ensures (i * z) / z == i && (i * z) % z == 0
  {
    assert (i + 1) * z == i * z + z;
    Arithmetic.DivUnique(i * z, z, i);
  }

  lemma IsBlockAt(k: nat, p: nat)
    requires k < DESC_CNT && IsBlock(k, p)
    ensures 0 <= IndexOf(k, p) < PerArena(k) && p == BlockAt(PageOf(p), k, IndexOf(k, p))
  {
    var o, z := p % PGSIZE - ARENA, BlockSize(k);
    assert o == z * (o / z) + o % z;
  }

  /** Different blocks of one arena do not overlap. */
  lemma BlocksApart(k: nat, p: nat, q: nat)
    requires k < DESC_CNT && IsBlock(k, p) && IsBlock(k, q) && PageOf(p) == PageOf(q) && p < q
    ensures p + BlockSize(k) <= q
  {
    hide IsBlock, PageOf, IndexOf, BlockSize, PerArena;
    IsBlockAt(k, p);
    IsBlockAt(k, q);
    var i, j, z := IndexOf(k, p), IndexOf(k, q), BlockSize(k);
    if i < j {
      Arithmetic.MulMono(i + 1, j, z);
      assert (i + 1) * z == i * z + z;
    } else {
      Arithmetic.MulMono(j, i, z);
    }
  }

  // ---- Counting on a free list -----------------------------------------------

  /** The number of list's blocks that lie in page. */
  ghost function CountIn(list: seq<nat>, page: nat): (n: nat) {
    if list == [] then 0 else CountIn(list[..|list|-1], page) + if PageOf(list[|list|-1]) == page then 1 else 0
  }

  lemma {:induction false} CountInAppend(a: seq<nat>, b: seq<nat>, page: nat)
    ensures CountIn(a + b, page) == CountIn(a, page) + CountIn(b, page)
  {
    if b == [] {
      assert a + b == a;
    } else {
      var n := |b| - 1;
      CountInAppend(a, b[..n], page);
      assert (a + b)[..|a| + n] == a + b[..n];
    }
  }

  ghost function Members(list: seq<nat>, page: nat): (s: set<nat>) {
    set p | p in list && PageOf(p) == page
  }

  lemma {:induction false} CountInMembers(list: seq<nat>, page: nat)
    requires Distinct(list)
    ensures CountIn(list, page) == |Members(list, page)|
  {
    if list != [] {
      var n := |list| - 1;
      var rest := list[..n];
      CountInMembers(rest, page);
      assert list == rest + [list[n]];
      assert list[n] !in rest;
      var m := Members(rest, page);
      if PageOf(list[n]) == page {
        assert Members(list, page) == m + {list[n]};
      } else {
        assert Members(list, page) == m;
      }
    }
  }

  /** The first n blocks of an arena, in order. */
  ghost function Blocks(page: nat, k: nat, n: nat): (s: seq<nat>)
    ensures |s| == n
    ensures forall i :: 0 <= i < n ==> s[i] == BlockAt(page, k, i)
  {
    if n == 0 then [] else Blocks(page, k, n - 1) + [BlockAt(page, k, n - 1)]
  }

  lemma BlocksAll(page: nat, k: nat)
    requires k < DESC_CNT
    ensures Distinct(Blocks(page, k, PerArena(k)))
    ensures forall p :: p in Blocks(page, k, PerArena(k)) <==> PageOf(p) == page && IsBlock(k, p)
  {
    hide IsBlock, PageOf, IndexOf, BlockAt, PerArena;
    var s := Blocks(page, k, PerArena(k));
    forall i | 0 <= i < |s|
      ensures PageOf(s[i]) == page && IsBlock(k, s[i]) && IndexOf(k, s[i]) == i
    {
      BlockIs(page, k, i);
    }
    forall p | PageOf(p) == page && IsBlock(k, p)
      ensures p in s
    {
      IsBlockAt(k, p);
      assert s[IndexOf(k, p)] == p;
    }
  }

  lemma {:induction false} CountBlocks(page: nat, k: nat, n: nat, other: nat)
    requires k < DESC_CNT && n <= PerArena(k)
    ensures CountIn(Blocks(page, k, n), other) == if other == page then n else 0
  {
    hide IsBlock, PageOf, IndexOf, BlockAt, BlockSize, PerArena;
    if n > 0 {
      CountBlocks(page, k, n - 1, other);
      BlockIs(page, k, n - 1);
      var s := Blocks(page, k, n);
      assert s[..n-1] == Blocks(page, k, n - 1) && s[n-1] == BlockAt(page, k, n - 1);
    }
  }

  lemma {:induction false} SameSize(a: set<nat>, b: set<nat>)
    requires a <= b && |a| == |b|
    ensures a == b
  {
    if a != {} {
      var x :| x in a;
      SameSize(a - {x}, b - {x});
    } else {
      assert b == {};
    }
  }

  /** If a list counts as many blocks of an arena as there are, it lists them all. */
  lemma AllListed(list: seq<nat>, k: nat, page: nat)
    requires k < DESC_CNT && Distinct(list) && CountIn(list, page) == PerArena(k)
    requires forall p :: p in list && PageOf(p) == page ==> IsBlock(k, p)
    ensures forall p :: p in Blocks(page, k, PerArena(k)) ==> p in list
  {
    var all := Blocks(page, k, PerArena(k));
    BlocksAll(page, k);
    CountInMembers(list, page);
    CountInMembers(all, page);
    CountBlocks(page, k, PerArena(k), page);
    assert Members(list, page) <= Members(all, page);
    SameSize(Members(list, page), Members(all, page));
    forall p | p in all
      ensures p in list
    {
      assert p in Members(all, page);
    }
  }

  // ---- Unlinking ---------------------------------------------------------------

  /** list without the members of gone. */
  function Minus(list: seq<nat>, gone: seq<nat>): (r: seq<nat>) {
    if list == [] then [] else
    var n := |list| - 1;
    Minus(list[..n], gone) + if list[n] in gone then [] else [list[n]]
  }

  lemma MinusLast(list: seq<nat>, p: nat, gone: seq<nat>)
    ensures Minus(list + [p], gone) == Minus(list, gone) + if p in gone then [] else [p]
  {
    assert (list + [p])[..|list|] == list;
  }

  lemma {:induction false} MinusMember(list: seq<nat>, gone: seq<nat>, p: nat)
    ensures p in Minus(list, gone) <==> p in list && p !in gone
  {
    if list != [] {
      var n := |list| - 1;
      MinusMember(list[..n], gone, p);
      assert list == list[..n] + [list[n]];
    }
  }

  lemma {:induction false} MinusNone(list: seq<nat>)
    ensures Minus(list, []) == list
  {
    if list != [] {
      var n := |list| - 1;
      MinusNone(list[..n]);
      assert list == list[..n] + [list[n]];
    }
  }

  lemma {:induction false} MinusMore(list: seq<nat>, gone: seq<nat>, p: nat)
    ensures Minus(Minus(list, gone), [p]) == Minus(list, gone + [p])
  {
    if list != [] {
      var n := |list| - 1;
      var x, r := list[n], Minus(list[..n], gone);
      MinusMore(list[..n], gone, p);
      MinusLast(r, x, [p]);
      if x in gone {
        assert Minus(list, gone) == r;
      } else {
        assert Minus(list, gone) == r + [x] && (x in gone + [p] <==> x in [p]);
      }
    }
  }

  lemma {:induction false} MinusDistinct(list: seq<nat>, gone: seq<nat>)
    requires Distinct(list)
    ensures Distinct(Minus(list, gone))
  {
    if list != [] {
      var n := |list| - 1;
      MinusDistinct(list[..n], gone);
      assert list[n] !in list[..n];
      MinusMember(list[..n], gone, list[n]);
    }
  }

  lemma {:induction false} MinusCount(list: seq<nat>, gone: seq<nat>, page: nat)
    requires forall p :: p in gone ==> PageOf(p) != page
    ensures CountIn(Minus(list, gone), page) == CountIn(list, page)
  {
    if list != [] {
      var n := |list| - 1;
      MinusCount(list[..n], gone, page);
      CountInAppend(Minus(list[..n], gone), if list[n] in gone then [] else [list[n]], page);
    }
  }
}
