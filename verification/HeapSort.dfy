/**
  sort and binary_search (lib/stdlib.c). Elements are values of any type; indices
  into the heap count from 1, as in the source.
 */
module HeapSort {
  import opened Bits

  /** A strcmp()-type comparison, as sort demands it. */
  ghost predicate CompareLaw<T(!new)>(compare: (T, T) -> int, x: T, y: T, z: T) {
    && (compare(x, y) > 0 <==> compare(y, x) < 0)
    && (compare(x, y) <= 0 && compare(y, z) <= 0 ==> compare(x, z) <= 0)
  }

  ghost predicate Lawful<T(!new)>(compare: (T, T) -> int) {
    forall x, y, z {:trigger CompareLaw(compare, x, y, z)} :: CompareLaw(compare, x, y, z)
  }

  ghost predicate Le<T(!new)>(compare: (T, T) -> int, x: T, y: T) {
    compare(x, y) <= 0
  }

  lemma LeTrans<T(!new)>(compare: (T, T) -> int, x: T, y: T, z: T)
    requires Lawful(compare) && Le(compare, x, y) && Le(compare, y, z)
    ensures Le(compare, x, z)
  {
    assert CompareLaw(compare, x, y, z);
  }

  /** Not less is not greater the other way round, and an element equals itself. */
  lemma LeTotal<T(!new)>(compare: (T, T) -> int, x: T, y: T)
    requires Lawful(compare)
    ensures compare(x, y) > 0 ==> Le(compare, y, x)
    ensures compare(x, y) < 0 <==> compare(y, x) > 0
    ensures Le(compare, x, x)
  {
    assert CompareLaw(compare, x, y, x) && CompareLaw(compare, y, x, y) && CompareLaw(compare, x, x, x);
  }

  ghost predicate Sorted<T(!new)>(compare: (T, T) -> int, s: seq<T>) {
    forall i, j :: 0 <= i < j < |s| ==> Le(compare, s[i], s[j])
  }

  // ---- Heaps ---------------------------------------------------------------------

  /** Neither child of j, among the first cnt elements, exceeds it. */
  ghost predicate ParentOk<T(!new)>(compare: (T, T) -> int, s: seq<T>, cnt: nat, j: nat)
    requires 1 <= j && cnt <= |s|
  {
    && (2 * j <= cnt ==> Le(compare, s[2 * j - 1], s[j - 1]))
    && (2 * j + 1 <= cnt ==> Le(compare, s[2 * j], s[j - 1]))
  }

  /** The heap property at lo and beyond. */
  ghost predicate HeapFrom<T(!new)>(compare: (T, T) -> int, s: seq<T>, cnt: nat, lo: nat)
    requires 1 <= lo && cnt <= |s|
  {
    forall j :: lo <= j <= cnt ==> ParentOk(compare, s, cnt, j)
  }

  /** The heap property at lo and beyond, except at p, whose children do not exceed
      p's parent either. */
  ghost predicate HeapBut<T(!new)>(compare: (T, T) -> int, s: seq<T>, cnt: nat, lo: nat, p: nat)
    requires 1 <= lo <= p <= cnt <= |s|
  {
    && (forall j :: lo <= j <= cnt && j != p ==> ParentOk(compare, s, cnt, j))
    && (p / 2 >= lo ==>
          && (2 * p <= cnt ==> Le(compare, s[2 * p - 1], s[p / 2 - 1]))
          && (2 * p + 1 <= cnt ==> Le(compare, s[2 * p], s[p / 2 - 1])))
  }

  function Swap<T>(s: seq<T>, i: nat, j: nat): (r: seq<T>)
    requires 1 <= i <= |s| && 1 <= j <= |s|
    ensures |r| == |s|
  {
    s[i - 1 := s[j - 1]][j - 1 := s[i - 1]]
  }

  /** The first cnt elements are rearranged and the rest are as they were. */
  ghost predicate Rearranged<T>(s: seq<T>, t: seq<T>, cnt: nat)
    requires cnt <= |s|
  {
    |t| == |s| && t[cnt..] == s[cnt..] && multiset(t[..cnt]) == multiset(s[..cnt])
  }

  lemma SwapRearranged<T>(s: seq<T>, i: nat, j: nat, cnt: nat)
    requires 1 <= i <= cnt && 1 <= j <= cnt <= |s|
    ensures Rearranged(s, Swap(s, i, j), cnt)
  {
    assert Swap(s, i, j)[..cnt] == Swap(s[..cnt], i, j);
  }

  lemma RearrangedTrans<T>(s: seq<T>, t: seq<T>, u: seq<T>, cnt: nat)
    requires cnt <= |s| && Rearranged(s, t, cnt) && Rearranged(t, u, cnt)
    ensures Rearranged(s, u, cnt)
  {
  }

  lemma RearrangedWider<T>(s: seq<T>, t: seq<T>, cnt: nat, wide: nat)
    requires cnt <= wide <= |s| && Rearranged(s, t, cnt)
    ensures Rearranged(s, t, wide)
  {
    assert s[..wide] == s[..cnt] + s[cnt..][..wide - cnt];
    assert t[..wide] == t[..cnt] + t[cnt..][..wide - cnt];
    assert s[wide..] == s[cnt..][wide - cnt..];
    assert t[wide..] == t[cnt..][wide - cnt..];
  }

  /** Swapping p with its larger child moves the one fault down to that child. */
  lemma SwapDown<T(!new)>(compare: (T, T) -> int, s: seq<T>, cnt: nat, lo: nat, p: nat, m: nat)
    requires Lawful(compare) && 1 <= lo <= p < m <= cnt <= |s| && HeapBut(compare, s, cnt, lo, p)
    requires m == 2 * p || m == 2 * p + 1
    requires Le(compare, s[p - 1], s[m - 1])
    requires 2 * p <= cnt ==> Le(compare, s[2 * p - 1], s[m - 1])
    requires 2 * p + 1 <= cnt ==> Le(compare, s[2 * p], s[m - 1])
    ensures HeapBut(compare, Swap(s, p, m), cnt, lo, m)
  {
    var t := Swap(s, p, m);
    assert m / 2 == p;
    assert ParentOk(compare, s, cnt, m);
    forall j | lo <= j <= cnt && j != m
      ensures ParentOk(compare, t, cnt, j)
    {
      if j != p {
        assert ParentOk(compare, s, cnt, j);
      }
    }
  }

  /** Without a larger child there is no fault. */
  lemma Settled<T(!new)>(compare: (T, T) -> int, s: seq<T>, cnt: nat, lo: nat, p: nat)
    requires 1 <= lo <= p <= cnt <= |s| && HeapBut(compare, s, cnt, lo, p) && ParentOk(compare, s, cnt, p)
    ensures HeapFrom(compare, s, cnt, lo)
  {
  }

  /** The root of a heap is its maximum. */
  lemma {:induction false} RootIsMax<T(!new)>(compare: (T, T) -> int, s: seq<T>, cnt: nat, j: nat)
    requires Lawful(compare) && 1 <= j <= cnt <= |s| && HeapFrom(compare, s, cnt, 1)
    ensures Le(compare, s[j - 1], s[0])
  {
    if j == 1 {
      LeTotal(compare, s[0], s[0]);
    } else {
      RootIsMax(compare, s, cnt, j / 2);
      assert ParentOk(compare, s, cnt, j / 2);
      LeTrans(compare, s[j - 1], s[j / 2 - 1], s[0]);
    }
  }

  /** The larger of a node and its children. */
  method Largest<T(!new)>(a: array<T>, p: nat, cnt: nat, compare: (T, T) -> int) returns (max: nat)
    requires Lawful(compare) && 1 <= p <= cnt <= a.Length
    ensures max in {p, 2 * p, 2 * p + 1} && p <= max <= cnt && Le(compare, a[p - 1], a[max - 1])
    ensures 2 * p <= cnt ==> Le(compare, a[2 * p - 1], a[max - 1])
    ensures 2 * p + 1 <= cnt ==> Le(compare, a[2 * p], a[max - 1])
    ensures max == p ==> ParentOk(compare, a[..], cnt, p)
  {
    var left, right := 2 * p, 2 * p + 1;
    max := p;
    if left <= cnt && compare(a[left - 1], a[max - 1]) > 0 {
      max := left;
    }
    if right <= cnt && compare(a[right - 1], a[max - 1]) > 0 {
      max := right;
    }
    LargestOf(compare, a[..], cnt, p, max);
  }

  /** heapify */
  method Heapify<T(!new)>(a: array<T>, i: nat, cnt: nat, compare: (T, T) -> int)
    requires Lawful(compare) && 1 <= i <= cnt <= a.Length && HeapFrom(compare, a[..], cnt, i + 1)
    modifies a
    ensures HeapFrom(compare, a[..], cnt, i) && Rearranged(old(a[..]), a[..], cnt)
  {
    hide ParentOk, HeapFrom, HeapBut, Rearranged;
    ghost var was := a[..];
    var p := i;
    assert HeapBut(compare, a[..], cnt, i, p) by { HeapButStart(compare, a[..], cnt, i); }
    assert Rearranged(was, a[..], cnt) by { RearrangedSelf(was, cnt); }
    while true
      invariant i <= p <= cnt && HeapBut(compare, a[..], cnt, i, p) && Rearranged(was, a[..], cnt)
      decreases cnt - p
    {
      ghost var s := a[..];
      var max := Largest(a, p, cnt, compare);
      if max == p {
        Settled(compare, s, cnt, i, p);
        break;
      }
      SwapDown(compare, s, cnt, i, p, max);
      SwapRearranged(s, p, max, cnt);
      a[p - 1], a[max - 1] := a[max - 1], a[p - 1];
      assert a[..] == Swap(s, p, max);
      RearrangedTrans(was, s, a[..], cnt);
      p := max;
    }
  }

  lemma HeapButStart<T(!new)>(compare: (T, T) -> int, s: seq<T>, cnt: nat, i: nat)
    requires 1 <= i <= cnt <= |s| && HeapFrom(compare, s, cnt, i + 1)
    ensures HeapBut(compare, s, cnt, i, i)
  {
  }

  lemma RearrangedSelf<T>(s: seq<T>, cnt: nat)
    requires cnt <= |s|
    ensures Rearranged(s, s, cnt)
  {
  }

  /** max is heapify's choice among p and its children; then neither child exceeds it. */
  lemma LargestOf<T(!new)>(compare: (T, T) -> int, s: seq<T>, cnt: nat, p: nat, max: nat)
    requires Lawful(compare) && 1 <= p <= cnt <= |s|
    requires var l := if 2 * p <= cnt && compare(s[2 * p - 1], s[p - 1]) > 0 then 2 * p else p;
             max == if 2 * p + 1 <= cnt && compare(s[2 * p], s[l - 1]) > 0 then 2 * p + 1 else l
    ensures p <= max <= cnt && Le(compare, s[p - 1], s[max - 1])
    ensures 2 * p <= cnt ==> Le(compare, s[2 * p - 1], s[max - 1])
    ensures 2 * p + 1 <= cnt ==> Le(compare, s[2 * p], s[max - 1])
    ensures max == p ==> ParentOk(compare, s, cnt, p)
  {
    var l := if 2 * p <= cnt && compare(s[2 * p - 1], s[p - 1]) > 0 then 2 * p else p;
    LeTotal(compare, s[l - 1], s[p - 1]);
    LeTotal(compare, s[p - 1], s[p - 1]);
    if 2 * p + 1 <= cnt {
      LeTotal(compare, s[2 * p], s[l - 1]);
      if max == 2 * p + 1 {
        LeTrans(compare, s[p - 1], s[l - 1], s[2 * p]);
        if 2 * p <= cnt && l == p {
          LeTrans(compare, s[2 * p - 1], s[l - 1], s[2 * p]);
        }
        LeTotal(compare, s[2 * p], s[2 * p]);
      }
    }
  }

  // ---- Sorting -------------------------------------------------------------------

  /** The elements from i on are sorted and no element before i exceeds any of them. */
  ghost predicate Tail<T(!new)>(compare: (T, T) -> int, s: seq<T>, i: nat)
    requires i <= |s|
  {
    && Sorted(compare, s[i..])
    && forall x, y :: x in s[..i] && y in s[i..] ==> Le(compare, x, y)
  }

  lemma TailGrows<T(!new)>(compare: (T, T) -> int, s: seq<T>, i: nat)
    requires Lawful(compare) && 1 < i <= |s| && HeapFrom(compare, s, i, 1) && Tail(compare, s, i)
    ensures Tail(compare, Swap(s, 1, i), i - 1) && HeapFrom(compare, Swap(s, 1, i), i - 1, 2)
  {
    var t, c := Swap(s, 1, i), i - 1;
    assert t[c..] == [s[0]] + s[i..] && s[0] in s[..i];
    forall x | x in t[..c]
      ensures Le(compare, x, s[0]) && x in s[..i]
    {
      var j :| 0 <= j < c && t[..c][j] == x;
      var k := if j == 0 then c else j;
      assert s[k] == x && s[..i][k] == x;
      RootIsMax(compare, s, i, k + 1);
    }
    forall j | 2 <= j <= c
      ensures ParentOk(compare, t, c, j)
    {
      assert ParentOk(compare, s, i, j);
    }
  }

  lemma TailKept<T(!new)>(compare: (T, T) -> int, s: seq<T>, t: seq<T>, c: nat)
    requires c <= |s| && Tail(compare, s, c) && Rearranged(s, t, c)
    ensures Tail(compare, t, c)
  {
    assert forall x :: x in t[..c] <==> x in multiset(t[..c]);
    assert forall x :: x in s[..c] <==> x in multiset(s[..c]);
  }

  lemma TailSorted<T(!new)>(compare: (T, T) -> int, s: seq<T>)
    requires |s| > 0 && Tail(compare, s, 1)
    ensures Sorted(compare, s)
  {
    assert s[0] in s[..1];
    forall i, j | 0 <= i < j < |s|
      ensures Le(compare, s[i], s[j])
    {
      assert s[j] == s[1..][j - 1] && s[j] in s[1..];
      if i > 0 { assert s[i] == s[1..][i - 1]; }
    }
  }

  /** The first loop of sort: the array becomes a heap. */
  method BuildHeap<T(!new)>(a: array<T>, compare: (T, T) -> int)
    requires Lawful(compare)
    modifies a
    ensures HeapFrom(compare, a[..], a.Length, 1) && Rearranged(old(a[..]), a[..], a.Length)
  {
    hide HeapFrom, Rearranged, Lawful;
    ghost var was := a[..];
    var cnt := a.Length;
    var i := cnt / 2;
    RearrangedSelf(was, cnt);
    Leaves(compare, a[..], cnt);
    while i > 0
      invariant 0 <= i <= cnt / 2 && Rearranged(was, a[..], cnt) && HeapFrom(compare, a[..], cnt, i + 1)
    {
      ghost var s := a[..];
      Heapify(a, i, cnt, compare);
      RearrangedTrans(was, s, a[..], cnt);
      i := i - 1;
    }
  }

  /** sort: a sorted permutation. */
  method Sort<T(!new)>(a: array<T>, compare: (T, T) -> int)
    requires Lawful(compare)
    modifies a
    ensures Sorted(compare, a[..]) && multiset(a[..]) == multiset(old(a[..]))
  {
    hide HeapFrom, Rearranged, Tail, Sorted, Lawful;
    ghost var was := a[..];
    var cnt := a.Length;
    BuildHeap(a, compare);
    var i := cnt;
    WholeTail(compare, a[..]);
    while i > 1
      invariant 0 <= i <= cnt && (cnt > 0 ==> i > 0)
      invariant Rearranged(was, a[..], cnt) && HeapFrom(compare, a[..], i, 1) && Tail(compare, a[..], i)
    {
      ghost var s := a[..];
      TailGrows(compare, s, i);
      SwapRearranged(s, 1, i, cnt);
      a[0], a[i - 1] := a[i - 1], a[0];
      ghost var t := a[..];
      assert t == Swap(s, 1, i);
      Heapify(a, 1, i - 1, compare);
      TailKept(compare, t, a[..], i - 1);
      RearrangedWider(t, a[..], i - 1, cnt);
      RearrangedTrans(was, s, t, cnt);
      RearrangedTrans(was, t, a[..], cnt);
      i := i - 1;
    }
    SortDone(compare, was, a[..], i);
  }

  lemma Leaves<T(!new)>(compare: (T, T) -> int, s: seq<T>, cnt: nat)
    requires cnt <= |s|
    ensures HeapFrom(compare, s, cnt, cnt / 2 + 1)
  {
  }

  lemma WholeTail<T(!new)>(compare: (T, T) -> int, s: seq<T>)
    ensures Tail(compare, s, |s|)
  {
  }

  lemma SortDone<T(!new)>(compare: (T, T) -> int, was: seq<T>, s: seq<T>, i: nat)
    requires Rearranged(was, s, |was|) && i <= |was| && (|was| > 0 ==> i == 1) && Tail(compare, s, i)
    ensures Sorted(compare, s) && multiset(s) == multiset(was)
  {
    assert s[..|was|] == s && was[..|was|] == was;
    if |was| > 0 { TailSorted(compare, s); }
  }

  // ---- Searching -------------------------------------------------------------------

  /** binary_search finds a match if and only if there is one. */
  method BinarySearch<T(!new)>(key: T, a: seq<T>, compare: (T, T) -> int) returns (r: Option<nat>)
    requires Lawful(compare) && Sorted(compare, a)
    ensures r.Some? ==> r.value < |a| && compare(key, a[r.value]) == 0
    ensures r.None? ==> forall i :: 0 <= i < |a| ==> compare(key, a[i]) != 0
  {
    var first, last := 0, |a|;
    while first < last
      invariant 0 <= first <= last <= |a|
      invariant forall i :: 0 <= i < first ==> compare(key, a[i]) > 0
      invariant forall i :: last <= i < |a| ==> compare(key, a[i]) < 0
    {
      var range := last - first;
      var middle := first + range / 2;
      var cmp := compare(key, a[middle]);
      if cmp < 0 {
        Beyond(compare, key, a, middle);
        last := middle;
      } else if cmp > 0 {
        Below(compare, key, a, middle);
        first := middle + 1;
      } else {
        return Some(middle);
      }
    }
    return None;
  }

  lemma Beyond<T(!new)>(compare: (T, T) -> int, key: T, a: seq<T>, m: nat)
    requires Lawful(compare) && Sorted(compare, a) && m < |a| && compare(key, a[m]) < 0
    ensures forall i :: m <= i < |a| ==> compare(key, a[i]) < 0
  {
    forall i | m <= i < |a|
      ensures compare(key, a[i]) < 0
    {
      LeTotal(compare, key, a[i]);
      LeTotal(compare, key, a[m]);
      LeTotal(compare, a[m], a[i]);
      assert Le(compare, a[m], a[i]);
      assert CompareLaw(compare, a[m], a[i], key);
    }
  }

  lemma Below<T(!new)>(compare: (T, T) -> int, key: T, a: seq<T>, m: nat)
    requires Lawful(compare) && Sorted(compare, a) && m < |a| && compare(key, a[m]) > 0
    ensures forall i :: 0 <= i <= m ==> compare(key, a[i]) > 0
  {
    forall i | 0 <= i <= m
      ensures compare(key, a[i]) > 0
    {
      LeTotal(compare, key, a[i]);
      LeTotal(compare, a[i], a[m]);
      assert Le(compare, a[i], a[m]);
      assert CompareLaw(compare, key, a[i], a[m]);
    }
  }
}
