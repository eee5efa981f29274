/**
  Sequences under a strict weak order given as a `less` predicate: the theory
  behind the kernel list's sort and its ordered insertion.
 */
module Order {

  ghost predicate Distinct<T>(s: seq<T>) {
    forall i, j :: 0 <= i < j < |s| ==> s[i] != s[j]
  }

  ghost function Elements<T>(s: seq<T>): (r: set<T>) {
    set x | x in s
  }

  /** The laws of a strict weak order for three elements. */
  ghost predicate WeakOrderLaw<T>(less: (T, T) -> bool, x: T, y: T, z: T) {
    && !less(x, x)
    && (less(x, y) && less(y, z) ==> less(x, z))
    && (less(x, z) ==> less(x, y) || less(y, z))
  }

  /** `less` is a strict weak order on the elements of `dom`. */
  ghost predicate StrictWeak<T>(less: (T, T) -> bool, dom: set<T>) {
    forall x, y, z {:trigger WeakOrderLaw(less, x, y, z)} | x in dom && y in dom && z in dom :: WeakOrderLaw(less, x, y, z)
  }

  /** No later element of s[lo..hi] is less than an earlier one. */
  ghost predicate Sorted<T>(less: (T, T) -> bool, s: seq<T>, lo: nat, hi: nat)
    requires lo <= hi <= |s|
  {
    forall p, q :: lo <= p < q < hi ==> !less(s[q], s[p])
  }

  /** No element of s[lo..hi] is less than its left neighbour. */
  ghost predicate Run<T>(less: (T, T) -> bool, s: seq<T>, lo: nat, hi: nat)
    requires lo <= hi <= |s|
  {
    forall q :: lo < q < hi ==> !less(s[q], s[q-1])
  }

  ghost predicate Within<T>(s: seq<T>, lo: nat, hi: nat, dom: set<T>)
    requires lo <= hi <= |s|
  {
    forall i :: lo <= i < hi ==> s[i] in dom
  }

  lemma {:induction false} RunIsSorted<T>(less: (T, T) -> bool, dom: set<T>, s: seq<T>, lo: nat, hi: nat)
    requires lo <= hi <= |s|
    requires StrictWeak(less, dom) && Within(s, lo, hi, dom) && Run(less, s, lo, hi)
    ensures Sorted(less, s, lo, hi)
    decreases hi - lo
  {
    if lo + 1 < hi {
      RunIsSorted(less, dom, s, lo + 1, hi);
      forall q | lo < q < hi ensures !less(s[q], s[lo]) {
        assert WeakOrderLaw(less, s[q], s[lo+1], s[lo]);
      }
    }
  }

  // ---- Stability -----------------------------------------------------------

  ghost predicate Precedes<T>(s: seq<T>, x: T, y: T) {
    exists i, j :: 0 <= i < j < |s| && s[i] == x && s[j] == y
  }

  /** t rearranges s, and any two elements that s does not hold in inverted
      order keep their relative position. */
  ghost predicate StableRearrangement<T>(less: (T, T) -> bool, s: seq<T>, t: seq<T>) {
    && multiset(s) == multiset(t)
    && (forall i, j :: 0 <= i < j < |s| && !less(s[j], s[i]) ==> Precedes(t, s[i], s[j]))
  }

  lemma StableRefl<T>(less: (T, T) -> bool, s: seq<T>)
    ensures StableRearrangement(less, s, s)
  {}

  lemma StableTrans<T>(less: (T, T) -> bool, s: seq<T>, t: seq<T>, u: seq<T>)
    requires StableRearrangement(less, s, t) && StableRearrangement(less, t, u)
    ensures StableRearrangement(less, s, u)
  {
    forall i, j | 0 <= i < j < |s| && !less(s[j], s[i]) ensures Precedes(u, s[i], s[j]) {
      var i', j' :| 0 <= i' < j' < |t| && t[i'] == s[i] && t[j'] == s[j];
    }
  }

  /** s with its element at k taken out and put back at b. */
  ghost function MoveBack<T>(s: seq<T>, b: nat, k: nat): (t: seq<T>)
    requires b <= k < |s|
  {
    s[..b] + [s[k]] + s[b..k] + s[k+1..]
  }

  ghost function MovedTo(b: nat, k: nat, i: nat): (r: nat) {
    if i == k then b else if b <= i < k then i + 1 else i
  }

  lemma MoveBackAt<T>(s: seq<T>, b: nat, k: nat, i: nat)
    requires b <= k < |s| && i < |s|
    ensures |MoveBack(s, b, k)| == |s| && MovedTo(b, k, i) < |s|
    ensures MoveBack(s, b, k)[MovedTo(b, k, i)] == s[i]
  {}

  lemma MoveBackMultiset<T>(s: seq<T>, b: nat, k: nat)
    requires b <= k < |s|
    ensures multiset(MoveBack(s, b, k)) == multiset(s)
  {
    assert s == s[..b] + s[b..k] + [s[k]] + s[k+1..];
  }

  /** Moving an element left past elements it is less than is stable. */
  lemma MoveBackStable<T>(less: (T, T) -> bool, s: seq<T>, b: nat, k: nat)
    requires b <= k < |s|
    requires forall p :: b <= p < k ==> less(s[k], s[p])
    ensures StableRearrangement(less, s, MoveBack(s, b, k))
  {
    var t := MoveBack(s, b, k);
    MoveBackMultiset(s, b, k);
    forall i, j | 0 <= i < j < |s| && !less(s[j], s[i]) ensures Precedes(t, s[i], s[j]) {
      MoveBackAt(s, b, k, i);
      MoveBackAt(s, b, k, j);
      assert MovedTo(b, k, i) < MovedTo(b, k, j);
    }
  }

  /** t is s stably sorted. */
  ghost predicate IsStableSort<T>(less: (T, T) -> bool, s: seq<T>, t: seq<T>) {
    StableRearrangement(less, s, t) && Sorted(less, t, 0, |t|)
  }

  lemma SameMembers<T>(s: seq<T>, t: seq<T>)
    requires multiset(s) == multiset(t)
    ensures |s| == |t| && forall x :: x in s <==> x in t
  {
    assert |s| == |multiset(s)| && |t| == |multiset(t)|;
    assert forall x :: x in s <==> x in multiset(s);
    assert forall x :: x in t <==> x in multiset(t);
  }

  /** Two stable sorts of s order any two elements alike. */
  lemma StableSortsAgree<T>(less: (T, T) -> bool, s: seq<T>, t: seq<T>, u: seq<T>, i: nat, j: nat)
    requires Distinct(t) && IsStableSort(less, s, t) && IsStableSort(less, s, u)
    requires i < j < |t|
    ensures Precedes(u, t[i], t[j])
  {
    var x, y := t[i], t[j];
    SameMembers(s, t);
    SameMembers(s, u);
    assert x in s && y in s && x in u && y in u;
    var p, q :| 0 <= p < |s| && 0 <= q < |s| && s[p] == x && s[q] == y;
    assert q < p && !less(x, y) ==> Precedes(t, y, x);
    if p < q {
      assert !less(y, x);
    } else {
      var p', q' :| 0 <= p' < |u| && 0 <= q' < |u| && u[p'] == x && u[q'] == y;
      assert less(x, y);
      assert p' < q';
    }
  }

  lemma {:induction false} StableSortPrefix<T>(less: (T, T) -> bool, s: seq<T>, t: seq<T>, u: seq<T>, k: nat)
    requires Distinct(t) && Distinct(u) && IsStableSort(less, s, t) && IsStableSort(less, s, u)
    requires |t| == |u| && k <= |t|
    ensures forall p :: 0 <= p < k ==> t[p] == u[p]
  {
    if k > 0 {
      StableSortPrefix(less, s, t, u, k - 1);
      SameMembers(s, t);
      SameMembers(s, u);
      assert u[k-1] in t;
      var j :| 0 <= j < |t| && t[j] == u[k-1];
      assert k - 1 <= j;
      if k - 1 < j {
        StableSortsAgree(less, s, t, u, k - 1, j);
      }
    }
  }

  /** A sequence of distinct elements has only one stable sort. */
  lemma StableSortUnique<T>(less: (T, T) -> bool, s: seq<T>, t: seq<T>, u: seq<T>)
    requires Distinct(s) && Distinct(t) && Distinct(u) && IsStableSort(less, s, t) && IsStableSort(less, s, u)
    ensures t == u
  {
    SameMembers(s, t);
    SameMembers(s, u);
    StableSortPrefix(less, s, t, u, |t|);
  }

  // ---- Ordered insertion ---------------------------------------------------

  /** Where list_insert_ordered puts e: before the first element e is less than. */
  function InsertPoint<T>(less: (T, T) -> bool, s: seq<T>, e: T): (k: nat)
    ensures k <= |s| && (forall i :: 0 <= i < k ==> !less(e, s[i])) && (k < |s| ==> less(e, s[k]))
  {
    if s == [] || less(e, s[0]) then 0
    else
      var k := InsertPoint(less, s[1..], e);
      assert forall i :: 1 <= i < k + 1 ==> s[i] == s[1..][i-1];
      k + 1
  }

  function InsertOrdered<T>(less: (T, T) -> bool, s: seq<T>, e: T): (t: seq<T>)
    ensures |t| == |s| + 1
  {
    var k := InsertPoint(less, s, e);
    s[..k] + [e] + s[k..]
  }

  lemma InsertPointUnique<T>(less: (T, T) -> bool, s: seq<T>, e: T, k: nat)
    requires k <= |s| && (forall i :: 0 <= i < k ==> !less(e, s[i])) && (k < |s| ==> less(e, s[k]))
    ensures k == InsertPoint(less, s, e)
  {}

  lemma InsertOrderedMultiset<T>(less: (T, T) -> bool, s: seq<T>, e: T)
    ensures multiset(InsertOrdered(less, s, e)) == multiset(s) + multiset{e}
  {
    var k := InsertPoint(less, s, e);
    assert s == s[..k] + s[k..];
  }

  /** Ordered insertion keeps a sorted list sorted, and e goes behind the
      elements it ties with. */
  lemma InsertOrderedSorted<T>(less: (T, T) -> bool, dom: set<T>, s: seq<T>, e: T)
    requires StrictWeak(less, dom) && Within(s, 0, |s|, dom) && e in dom && Sorted(less, s, 0, |s|)
    ensures var t := InsertOrdered(less, s, e); Sorted(less, t, 0, |t|)
    ensures forall i :: InsertPoint(less, s, e) <= i < |s| ==> less(e, s[i])
  {
    var k := InsertPoint(less, s, e);
    forall i | k <= i < |s| ensures less(e, s[i]) && !less(s[i], e) {
      assert WeakOrderLaw(less, e, s[i], s[k]) && WeakOrderLaw(less, e, s[i], e);
    }
  }

  /** Inserting the elements of s one by one, in order. */
  function InsertionSort<T>(less: (T, T) -> bool, s: seq<T>): (t: seq<T>)
    ensures |t| == |s|
  {
    if s == [] then [] else InsertOrdered(less, InsertionSort(less, s[..|s|-1]), s[|s|-1])
  }

  lemma InsertOrderedPrecedes<T>(less: (T, T) -> bool, s: seq<T>, e: T, x: T, y: T)
    requires Precedes(s, x, y)
    ensures Precedes(InsertOrdered(less, s, e), x, y)
  {
    var k := InsertPoint(less, s, e);
    var i, j :| 0 <= i < j < |s| && s[i] == x && s[j] == y;
    var t := InsertOrdered(less, s, e);
    var i', j' := if i < k then i else i + 1, if j < k then j else j + 1;
    assert t[i'] == x && t[j'] == y;
  }

  lemma {:induction false} InsertionSortIsStableSort<T>(less: (T, T) -> bool, dom: set<T>, s: seq<T>)
    requires StrictWeak(less, dom) && Within(s, 0, |s|, dom)
    ensures IsStableSort(less, s, InsertionSort(less, s))
  {
    if s != [] {
      hide InsertOrdered, IsStableSort, StrictWeak;
      var n := |s| - 1;
      InsertionSortIsStableSort(less, dom, s[..n]);
      InsertionStep(less, dom, s, InsertionSort(less, s[..n]));
    }
  }

  /** Inserting the last element of s into a stable sort of the others. */
  lemma InsertionStep<T>(less: (T, T) -> bool, dom: set<T>, s: seq<T>, a: seq<T>)
    requires StrictWeak(less, dom) && Within(s, 0, |s|, dom) && s != [] && IsStableSort(less, s[..|s|-1], a)
    ensures IsStableSort(less, s, InsertOrdered(less, a, s[|s|-1]))
  {
    hide InsertOrdered, InsertPoint, Precedes, StrictWeak;
    var n, e := |s| - 1, s[|s|-1];
    SameMembers(s[..n], a);
    assert Within(a, 0, |a|, dom) by {
      forall i | 0 <= i < |a| ensures a[i] in dom { assert a[i] in s[..n]; }
    }
    InsertOrderedSorted(less, dom, a, e);
    InsertOrderedMultiset(less, a, e);
    assert s == s[..n] + [e];
    InsertionStepStable(less, s, a);
  }

  /** If a is a stable sort of all of s but its last element, inserting that one keeps
      the pairs of s that are in order. */
  lemma InsertionStepStable<T>(less: (T, T) -> bool, s: seq<T>, a: seq<T>)
    requires s != [] && StableRearrangement(less, s[..|s|-1], a)
    requires forall p :: InsertPoint(less, a, s[|s|-1]) <= p < |a| ==> less(s[|s|-1], a[p])
    ensures var t := InsertOrdered(less, a, s[|s|-1]);
            forall i, j :: 0 <= i < j < |s| && !less(s[j], s[i]) ==> Precedes(t, s[i], s[j])
  {
    hide InsertOrdered, InsertPoint, Precedes;
    var n, e := |s| - 1, s[|s|-1];
    var r := s[..n];
    forall i, j | 0 <= i < j < |s| && !less(s[j], s[i]) ensures Precedes(InsertOrdered(less, a, e), s[i], s[j]) {
      assert s[i] == r[i];
      if j < n {
        assert s[j] == r[j];
        InsertOrderedPrecedes(less, a, e, s[i], s[j]);
      } else {
        InsertedLastStable(less, r, a, e, i);
      }
    }
  }

  lemma InsertedLastStable<T>(less: (T, T) -> bool, r: seq<T>, a: seq<T>, e: T, i: nat)
    requires i < |r| && !less(e, r[i]) && multiset(r) == multiset(a)
    requires forall p :: InsertPoint(less, a, e) <= p < |a| ==> less(e, a[p])
    ensures Precedes(InsertOrdered(less, a, e), r[i], e)
  {
    hide InsertOrdered, InsertPoint;
    SameMembers(r, a);
    assert r[i] in a;
    var p :| 0 <= p < |a| && a[p] == r[i];
    InsertOrderedBehind(less, a, e, p);
  }

  lemma InsertOrderedBehind<T>(less: (T, T) -> bool, s: seq<T>, e: T, p: nat)
    requires p < InsertPoint(less, s, e)
    ensures Precedes(InsertOrdered(less, s, e), s[p], e)
  {
    var t, k := InsertOrdered(less, s, e), InsertPoint(less, s, e);
    assert t[p] == s[p] && t[k] == e;
  }

  // ---- Natural runs --------------------------------------------------------

  /** The number of positions in s[lo..hi] where an element is less than its
      left neighbour. */
  ghost function Descents<T>(less: (T, T) -> bool, s: seq<T>, lo: nat, hi: nat): (n: nat)
    requires lo <= hi <= |s|
    decreases hi
  {
    if hi <= lo + 1 then 0
    else Descents(less, s, lo, hi - 1) + if less(s[hi-1], s[hi-2]) then 1 else 0
  }

  /** The number of maximal nondecreasing runs that s[lo..hi] splits into. */
  ghost function Runs<T>(less: (T, T) -> bool, s: seq<T>, lo: nat, hi: nat): (n: nat)
    requires lo <= hi <= |s|
  {
    if lo == hi then 0 else 1 + Descents(less, s, lo, hi)
  }

  lemma {:induction false} DescentsSplit<T>(less: (T, T) -> bool, s: seq<T>, lo: nat, mid: nat, hi: nat)
    requires lo < mid < hi <= |s|
    ensures Descents(less, s, lo, hi)
         == Descents(less, s, lo, mid) + (if less(s[mid], s[mid-1]) then 1 else 0) + Descents(less, s, mid, hi)
    decreases hi
  {
    if mid + 1 < hi {
      DescentsSplit(less, s, lo, mid, hi - 1);
    }
  }

  lemma {:induction false} DescentsOfRun<T>(less: (T, T) -> bool, s: seq<T>, lo: nat, hi: nat)
    requires lo <= hi <= |s|
    ensures Descents(less, s, lo, hi) == 0 <==> Run(less, s, lo, hi)
    decreases hi
  {
    if lo + 1 < hi {
      DescentsOfRun(less, s, lo, hi - 1);
      assert Run(less, s, lo, hi) <==> Run(less, s, lo, hi - 1) && !less(s[hi-1], s[hi-2]);
    }
  }

  lemma {:induction false} DescentsSame<T>(less: (T, T) -> bool, s: seq<T>, t: seq<T>, lo: nat, hi: nat)
    requires lo <= hi <= |s| == |t|
    requires forall i :: lo <= i < hi ==> s[i] == t[i]
    ensures Descents(less, s, lo, hi) == Descents(less, t, lo, hi)
    decreases hi
  {
    if lo + 1 < hi {
      DescentsSame(less, s, t, lo, hi - 1);
    }
  }

  lemma RunsJoin<T>(less: (T, T) -> bool, s: seq<T>, lo: nat, mid: nat, hi: nat)
    requires lo <= mid <= hi <= |s|
    ensures Runs(less, s, lo, hi) <= Runs(less, s, lo, mid) + Runs(less, s, mid, hi)
  {
    if lo < mid < hi {
      DescentsSplit(less, s, lo, mid, hi);
    }
  }

  /** A maximal run in front counts as one. */
  lemma RunsPeel<T>(less: (T, T) -> bool, s: seq<T>, lo: nat, k: nat, hi: nat)
    requires lo < k <= hi <= |s| && Run(less, s, lo, k)
    requires k < hi ==> less(s[k], s[k-1])
    ensures Runs(less, s, lo, hi) == 1 + Runs(less, s, k, hi)
  {
    DescentsOfRun(less, s, lo, k);
    if k < hi {
      DescentsSplit(less, s, lo, k, hi);
    }
  }
}
