/**
  struct list (lib/kernel/list.h, lib/kernel/list.c): the two sentinels of a
  chain, with the interior elements as the abstract value `nodes`.
 */
module Lists {
  import opened Order
  import opened KernelList
  import opened ListSort
  import Arithmetic

  class List {
    const head: Elem
    const tail: Elem
    ghost var nodes: seq<Elem>

    ghost function Chain(): (c: seq<Elem>)
      reads this
    {
      [head] + nodes + [tail]
    }

    ghost predicate Valid()
      reads this, Chain()
    {
      Linked(Chain())
    }

    /** list_init */
    constructor ()
      ensures Valid() && nodes == [] && fresh(head) && fresh(tail)
    {
      head := new Elem();
      tail := new Elem();
      nodes := [];
      new;
      head.next := tail;
      tail.prev := head;
    }

    /** list_empty */
    method IsEmpty() returns (b: bool)
      requires Valid()
      ensures b <==> nodes == []
    {
      assert Chain()[1] == if nodes == [] then tail else nodes[0];
      b := head.next == tail;
    }

    /** list_front */
    method Front() returns (e: Elem)
      requires Valid() && nodes != []
      ensures e == nodes[0]
    {
      assert Chain()[1] == nodes[0];
      e := head.next;
    }

    /** list_push_front */
    method PushFront(e: Elem)
      requires Valid() && e !in Chain()
      modifies this, Chain(), e
      ensures Valid() && nodes == [e] + old(nodes)
    {
      ghost var t := InsertBefore(head.next, e, Chain(), 1);
      nodes := [e] + nodes;
      assert Chain() == t;
    }

    /** list_push_back */
    method PushBack(e: Elem)
      requires Valid() && e !in Chain()
      modifies this, Chain(), e
      ensures Valid() && nodes == old(nodes) + [e]
    {
      ghost var t := InsertBefore(tail, e, Chain(), |nodes| + 1);
      nodes := nodes + [e];
      assert Chain() == t;
    }

    /** list_remove */
    method Remove(e: Elem, ghost i: nat) returns (r: Elem)
      requires Valid() && i < |nodes| && e == nodes[i]
      modifies this, Chain()
      ensures Valid() && nodes == old(nodes)[..i] + old(nodes)[i+1..]
      ensures r == if i + 1 < |old(nodes)| then old(nodes)[i+1] else tail
    {
      ghost var c := Chain();
      ghost var t;
      r, t := Unlink(e, c, i + 1);
      nodes := nodes[..i] + nodes[i+1..];
      assert Chain() == t;
    }

    /** list_pop_front */
    method PopFront() returns (e: Elem)
      requires Valid() && nodes != []
      modifies this, Chain()
      ensures Valid() && [e] + nodes == old(nodes)
    {
      assert head == Chain()[0] && Chain()[1] == nodes[0];
      e := head.next;
      var _ := Remove(e, 0);
    }

    /** list_reverse */
    method Reverse()
      requires Valid()
      modifies this, Chain()
      ensures Valid() && nodes == Backward(old(nodes))
    {
      hide Linked, ReversedInside, Backward;
      ReversedNodes(head, tail, nodes);
      ghost var _ := ReverseChain(head, tail, Chain());
      nodes := Backward(nodes);
    }

    /** list_insert_ordered */
    method InsertOrdered(e: Elem, less: (Elem, Elem) -> bool)
      requires Valid() && e !in Chain()
      modifies this, Chain(), e
      ensures Valid() && nodes == Order.InsertOrdered(less, old(nodes), e)
    {
      nodes := InsertInside(head, tail, e, less, Chain(), nodes);
    }

    /** list_sort: the list's one and only stable sort, whatever the order of its
        passes, and the same list that inserting the elements one by one in
        order would give. */
    method Sort(less: (Elem, Elem) -> bool) returns (ghost passes: nat)
      requires Valid() && StrictWeak(less, Elements(nodes))
      modifies this, Chain()
      ensures Valid() && IsStableSort(less, old(nodes), nodes)
      ensures nodes == InsertionSort(less, old(nodes))
      ensures passes == 1 || (passes > 1 && Arithmetic.Pow2(passes - 1) < Runs(less, old(nodes), 0, |old(nodes)|))
    {
      ghost var s := nodes;
      nodes, passes := SortInside(head, tail, less, Chain(), nodes);
      assert nodes == InsertionSort(less, s);
    }
  }

  ghost function Backward<T>(s: seq<T>): (r: seq<T>)
    ensures |r| == |s| && forall i :: 0 <= i < |s| ==> r[i] == s[|s| - 1 - i]
  {
    seq(|s|, i requires 0 <= i < |s| => s[|s| - 1 - i])
  }

  lemma ReversedNodes(head: Elem, tail: Elem, s: seq<Elem>)
    ensures ReversedInside([head] + s + [tail]) == [head] + Backward(s) + [tail]
  {
    var c := [head] + s + [tail];
    var t, u := ReversedInside(c), [head] + Backward(s) + [tail];
    forall i | 0 <= i < |c| ensures t[i] == u[i] {
      if 1 <= i < |c| - 1 {
        assert c[|c| - 1 - i] == s[|c| - 2 - i];
      }
    }
  }

  /** list_sort, from interior elements to interior elements. */
  method SortInside(head: Elem, tail: Elem, less: (Elem, Elem) -> bool, ghost c: seq<Elem>, ghost s: seq<Elem>)
      returns (ghost u: seq<Elem>, ghost passes: nat)
    requires Linked(c) && c == [head] + s + [tail] && StrictWeak(less, Elements(s))
    modifies c
    ensures Linked([head] + u + [tail]) && IsStableSort(less, s, u) && u == InsertionSort(less, s)
    ensures passes == 1 || (passes > 1 && Arithmetic.Pow2(passes - 1) < Runs(less, s, 0, |s|))
  {
    hide StrictWeak, Rearranged, Sorted, IsStableSort, Within, InsertionSort, Distinct, Runs, InnerRuns;
    assert c[1..|c|-1] == s;
    SortReady(less, c, s);
    ghost var t;
    t, passes := SortChain(head, tail, less, Elements(s), c);
    SortedInside(less, Elements(s), c, t);
    u := t[1..|t|-1];
    assert t == [head] + u + [tail];
  }

  /** list_insert_ordered, from interior elements to interior elements. */
  method InsertInside(head: Elem, tail: Elem, e: Elem, less: (Elem, Elem) -> bool, ghost c: seq<Elem>, ghost s: seq<Elem>)
      returns (ghost u: seq<Elem>)
    requires Linked(c) && c == [head] + s + [tail] && e !in c
    modifies c, e
    ensures Linked([head] + u + [tail]) && u == Order.InsertOrdered(less, s, e)
  {
    hide InsertPoint, Linked;
    assert s == c[1..|c|-1];
    var p, k := FindInsertPoint(head, tail, e, less, c, s);
    ghost var t := InsertBefore(p, e, c, k + 1);
    u := s[..k] + [e] + s[k..];
    InsertedChain(head, s, tail, e, k);
  }

  lemma InsertedChain<T>(head: T, s: seq<T>, tail: T, e: T, k: nat)
    requires k <= |s|
    ensures var c := [head] + s + [tail]; c[..k+1] + [e] + c[k+1..] == [head] + (s[..k] + [e] + s[k..]) + [tail]
  {
    var c := [head] + s + [tail];
    assert c[..k+1] == [head] + s[..k] && c[k+1..] == s[k..] + [tail];
  }

  /** The search loop of list_insert_ordered. */
  method FindInsertPoint(head: Elem, tail: Elem, e: Elem, less: (Elem, Elem) -> bool, ghost c: seq<Elem>, ghost s: seq<Elem>)
      returns (p: Elem, ghost k: nat)
    requires Linked(c) && head == c[0] && tail == c[|c|-1] && s == c[1..|c|-1]
    ensures k == InsertPoint(less, s, e) && k + 1 < |c| && p == c[k+1]
  {
    p, k := head.next, 0;
    while p != tail
      invariant 0 <= k <= |s| && p == c[k+1]
      invariant forall i :: 0 <= i < k ==> !less(e, s[i])
      decreases |s| - k
    {
      if less(e, p) {
        break;
      }
      p, k := p.next, k + 1;
    }
    InsertPointUnique(less, s, e, k);
  }

  lemma SortReady(less: (Elem, Elem) -> bool, c: seq<Elem>, s: seq<Elem>)
    requires |c| >= 2 && s == c[1..|c|-1]
    ensures InnerRuns(less, c) == Runs(less, s, 0, |s|) && Within(c, 1, |c| - 1, Elements(s))
  {
    InnerRunsAre(less, c, s);
    forall i | 1 <= i < |c| - 1 ensures c[i] in Elements(s) {
      assert c[i] == s[i-1];
    }
  }

  lemma InnerRunsAre(less: (Elem, Elem) -> bool, c: seq<Elem>, s: seq<Elem>)
    requires |c| == |s| + 2 && forall i :: 0 <= i < |s| ==> c[i+1] == s[i]
    ensures InnerRuns(less, c) == Runs(less, s, 0, |s|)
  {
    InnerDescentsAre(less, c, s, |s|);
  }

  lemma {:induction false} InnerDescentsAre(less: (Elem, Elem) -> bool, c: seq<Elem>, s: seq<Elem>, n: nat)
    requires |c| == |s| + 2 && n <= |s| && forall i :: 0 <= i < |s| ==> c[i+1] == s[i]
    ensures Descents(less, c, 1, n + 1) == Descents(less, s, 0, n)
  {
    if n > 1 {
      InnerDescentsAre(less, c, s, n - 1);
    }
  }

  lemma InsideMultiset<T>(c: seq<T>, t: seq<T>)
    requires 2 <= |c| == |t| && multiset(c) == multiset(t) && c[0] == t[0] && c[|c|-1] == t[|t|-1]
    ensures multiset(c[1..|c|-1]) == multiset(t[1..|t|-1])
  {
    Ends(c);
    Ends(t);
    assert multiset(c[1..|c|-1]) == multiset(c) - multiset{c[0]} - multiset{c[|c|-1]};
  }

  lemma Ends<T>(c: seq<T>)
    requires |c| >= 2
    ensures multiset(c) == multiset{c[0]} + multiset(c[1..|c|-1]) + multiset{c[|c|-1]}
  {
    assert c == [c[0]] + c[1..|c|-1] + [c[|c|-1]];
  }

  lemma InsideStable(less: (Elem, Elem) -> bool, c: seq<Elem>, t: seq<Elem>)
    requires |c| >= 2 && Rearranged(less, c, t, 1, |c| - 1) && Distinct(t)
    ensures StableRearrangement(less, c[1..|c|-1], t[1..|t|-1])
  {
    var s, u := c[1..|c|-1], t[1..|t|-1];
    InsideMultiset(c, t);
    forall i, j | 0 <= i < j < |s| && !less(s[j], s[i]) ensures Precedes(u, s[i], s[j]) {
      assert s[i] == c[i+1] && s[j] == c[j+1];
      SameMembers(s, u);
      assert s[i] in u && s[j] in u;
      var i', j' :| 0 <= i' < |u| && 0 <= j' < |u| && u[i'] == s[i] && u[j'] == s[j];
      var p, q :| 0 <= p < q < |t| && t[p] == c[i+1] && t[q] == c[j+1];
      assert t[i'+1] == t[p] && t[j'+1] == t[q];
    }
  }

  lemma InsideShape(less: (Elem, Elem) -> bool, dom: set<Elem>, c: seq<Elem>, t: seq<Elem>)
    requires |c| >= 2 && Distinct(c) && Distinct(t) && Rearranged(less, c, t, 1, |c| - 1)
    requires Sorted(less, t, 1, |t| - 1) && Within(c, 1, |c| - 1, dom)
    ensures |t| == |c| && t[0] == c[0] && t[|t|-1] == c[|c|-1]
    ensures var s, u := c[1..|c|-1], t[1..|t|-1];
            Distinct(s) && Distinct(u) && Within(s, 0, |s|, dom) && Sorted(less, u, 0, |u|)
  {
    hide StableRearrangement;
  }

  lemma SortedInside(less: (Elem, Elem) -> bool, dom: set<Elem>, c: seq<Elem>, t: seq<Elem>)
    requires |c| >= 2 && Distinct(c) && Distinct(t) && Rearranged(less, c, t, 1, |c| - 1)
    requires Sorted(less, t, 1, |t| - 1) && StrictWeak(less, dom) && Within(c, 1, |c| - 1, dom)
    ensures IsStableSort(less, c[1..|c|-1], t[1..|t|-1])
    ensures t[1..|t|-1] == InsertionSort(less, c[1..|c|-1]) && t[0] == c[0] && t[|t|-1] == c[|c|-1]
  {
    hide Distinct, Sorted, Within, Rearranged, StrictWeak, InsertionSort, StableRearrangement;
    InsideShape(less, dom, c, t);
    var s, u := c[1..|c|-1], t[1..|t|-1];
    InsideStable(less, c, t);
    InsertionSortIsStableSort(less, dom, s);
    StableMultiset(less, s, InsertionSort(less, s));
    DistinctMultiset(s, InsertionSort(less, s));
    StableSortUnique(less, s, u, InsertionSort(less, s));
  }

  lemma StableMultiset<T>(less: (T, T) -> bool, s: seq<T>, t: seq<T>)
    requires StableRearrangement(less, s, t)
    ensures multiset(s) == multiset(t)
  {}

  lemma {:induction false} DistinctOnce<T>(s: seq<T>, x: T)
    requires Distinct(s)
    ensures multiset(s)[x] <= 1
  {
    if s != [] {
      var n := |s| - 1;
      assert s == s[..n] + [s[n]];
      DistinctOnce(s[..n], x);
      assert x == s[n] ==> x !in s[..n];
    }
  }

  lemma DistinctMultiset<T>(s: seq<T>, t: seq<T>)
    requires Distinct(s) && multiset(s) == multiset(t)
    ensures Distinct(t)
  {
    forall i, j | 0 <= i < j < |t| ensures t[i] != t[j] {
      DistinctOnce(s, t[i]);
      assert t == t[..i] + [t[i]] + t[i+1..j] + [t[j]] + t[j+1..];
    }
  }
}
