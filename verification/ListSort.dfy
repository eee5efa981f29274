/**
  list_sort (lib/kernel/list.c): a natural merge sort done in place on the
  chain. A pass merges neighbouring runs pairwise, so it at least halves the
  number of runs; every element it moves passes only elements it is less than,
  so the whole sort is stable.
 */
module ListSort {
  import opened Order
  import opened KernelList
  import Arithmetic

  /** find_end_of_run: the longest run that starts at position i of the chain and ends
      before position e. */
  method FindEndOfRun(a: Elem, b: Elem, less: (Elem, Elem) -> bool, ghost c: seq<Elem>, ghost i: nat, ghost e: nat)
      returns (r: Elem, ghost k: nat)
    requires Linked(c) && 1 <= i < e < |c| && a == c[i] && b == c[e]
    ensures i < k <= e && r == c[k] && Run(less, c, i, k)
    ensures k < e ==> less(c[k], c[k-1])
  {
    r, k := a.next, i + 1;
    while r != b && !less(r, r.prev)
      invariant i < k <= e && r == c[k] && Run(less, c, i, k)
      decreases e - k
    {
      r, k := r.next, k + 1;
    }
  }

  /** While c[i0..m] is being merged, i and k mark what is left of the two runs:
      only pairs across them may still be inverted. */
  ghost predicate Merging(less: (Elem, Elem) -> bool, c: seq<Elem>, i0: nat, i: nat, k: nat, m: nat) {
    && i0 <= i <= k <= m <= |c|
    && forall p, q :: i0 <= p < q < m && !(i <= p < k <= q) ==> !less(c[q], c[p])
  }

  lemma MergeKeepsLeft(less: (Elem, Elem) -> bool, dom: set<Elem>, c: seq<Elem>, i0: nat, i: nat, k: nat, m: nat)
    requires StrictWeak(less, dom) && Merging(less, c, i0, i, k, m) && Within(c, i0, m, dom)
    requires i < k < m && !less(c[k], c[i])
    ensures Merging(less, c, i0, i + 1, k, m)
  {
    forall q | k <= q < m ensures !less(c[q], c[i]) {
      assert WeakOrderLaw(less, c[q], c[k], c[i]);
    }
  }

  lemma MoveBackMerging(less: (Elem, Elem) -> bool, c: seq<Elem>, i0: nat, i: nat, k: nat, m: nat)
    requires Merging(less, c, i0, i, k, m) && i < k < m
    requires forall p :: i <= p < k ==> !less(c[p], c[k])
    ensures Merging(less, MoveBack(c, i, k), i0, i + 1, k + 1, m)
  {
    var t := MoveBack(c, i, k);
    forall p, q | i0 <= p < q < m && !(i + 1 <= p < k + 1 <= q) ensures !less(t[q], t[p]) {
    }
  }

  lemma MergeMovesRight(less: (Elem, Elem) -> bool, dom: set<Elem>, c: seq<Elem>, i0: nat, i: nat, k: nat, m: nat)
    requires StrictWeak(less, dom) && Merging(less, c, i0, i, k, m) && Within(c, i0, m, dom)
    requires i < k < m && less(c[k], c[i])
    ensures Merging(less, MoveBack(c, i, k), i0, i + 1, k + 1, m)
    ensures StableRearrangement(less, c, MoveBack(c, i, k))
  {
    forall p | i <= p < k ensures less(c[k], c[p]) && !less(c[p], c[k]) {
      assert WeakOrderLaw(less, c[k], c[p], c[i]) && WeakOrderLaw(less, c[k], c[p], c[k]);
    }
    MoveBackMerging(less, c, i0, i, k, m);
    MoveBackStable(less, c, i, k);
  }

  /** What sorting the range lo..hi of the chain c into t keeps. */
  ghost predicate Rearranged(less: (Elem, Elem) -> bool, c: seq<Elem>, t: seq<Elem>, lo: nat, hi: nat) {
    && lo <= hi <= |c| == |t|
    && StableRearrangement(less, c, t)
    && (forall p :: 0 <= p < lo || hi <= p < |c| ==> c[p] == t[p])
  }

  lemma RearrangedTrans(less: (Elem, Elem) -> bool, c: seq<Elem>, t: seq<Elem>, u: seq<Elem>, lo: nat, hi: nat)
    requires Rearranged(less, c, t, lo, hi) && Rearranged(less, t, u, lo, hi)
    ensures Rearranged(less, c, u, lo, hi)
    ensures |t| == |u| == |c| && (forall i :: 0 <= i < |t| ==> t[i] in c)
    ensures hi < |c| ==> u[hi] == t[hi]
  {
    StableTrans(less, c, t, u);
    RearrangedMembers(less, c, t, lo, hi);
  }

  lemma MoveBackFrame(dom: set<Elem>, c: seq<Elem>, i0: nat, i: nat, k: nat, m: nat)
    requires i0 <= i < k < m <= |c| && Within(c, i0, m, dom)
    ensures var u := MoveBack(c, i, k);
            |u| == |c| && u[i+1] == c[i] && Within(u, i0, m, dom) && (forall p :: 0 <= p < i || k < p < |c| ==> c[p] == u[p])
    ensures Spliced(c, i, k, k + 1) == MoveBack(c, i, k)
  {
    var u := MoveBack(c, i, k);
    assert c[k..k+1] == [c[k]];
    forall p | i0 <= p < m ensures u[p] in dom {
      MoveBackAt(c, i, k, if p == i then k else if i < p <= k then p - 1 else p);
    }
  }

  /** One step of the merge: either the left run's front stays, or the right
      run's front moves before it. */
  lemma MergeStep(less: (Elem, Elem) -> bool, dom: set<Elem>, t: seq<Elem>, i0: nat, i: nat, k: nat, m: nat)
    requires StrictWeak(less, dom) && Merging(less, t, i0, i, k, m) && Within(t, i0, m, dom) && i < k < m
    ensures !less(t[k], t[i]) ==> Merging(less, t, i0, i + 1, k, m)
    ensures less(t[k], t[i]) ==>
              var u := Spliced(t, i, k, k + 1);
              && Merging(less, u, i0, i + 1, k + 1, m) && Within(u, i0, m, dom) && Rearranged(less, t, u, i0, m)
              && u[i+1] == t[i] && (k + 1 < |t| ==> u[k+1] == t[k+1])
  {
    if less(t[k], t[i]) {
      MergeMovesRight(less, dom, t, i0, i, k, m);
      MoveBackFrame(dom, t, i0, i, k, m);
    } else {
      MergeKeepsLeft(less, dom, t, i0, i, k, m);
    }
  }

  lemma MergeBegins(less: (Elem, Elem) -> bool, c: seq<Elem>, i0: nat, k: nat, m: nat)
    requires i0 <= k <= m <= |c| && Sorted(less, c, i0, k) && Sorted(less, c, k, m)
    ensures Merging(less, c, i0, i0, k, m) && Rearranged(less, c, c, i0, m)
  {}

  lemma MergeEnds(less: (Elem, Elem) -> bool, c: seq<Elem>, i0: nat, i: nat, k: nat, m: nat)
    requires Merging(less, c, i0, i, k, m) && (i == k || k == m)
    ensures Sorted(less, c, i0, m)
  {}

  lemma RearrangedMembers(less: (Elem, Elem) -> bool, c: seq<Elem>, t: seq<Elem>, lo: nat, hi: nat)
    requires Rearranged(less, c, t, lo, hi)
    ensures |t| == |c| && forall i :: 0 <= i < |t| ==> t[i] in c
    ensures forall p :: 0 <= p < lo || hi <= p < |c| ==> c[p] == t[p]
  {
    forall i | 0 <= i < |t| ensures t[i] in c {
      assert t[i] in multiset(t);
    }
  }

  lemma AtMostOnce(c: seq<Elem>, i: nat, j: nat)
    requires Distinct(c) && i < |c| && j < |c|
    ensures c[i] == c[j] ==> i == j
  {}

  /** One iteration of inplace_merge. */
  method MergeOne(a: Elem, b: Elem, less: (Elem, Elem) -> bool, ghost dom: set<Elem>,
                  ghost c: seq<Elem>, ghost t: seq<Elem>, ghost i0: nat, ghost i: nat, ghost k: nat, ghost m: nat)
      returns (a': Elem, b': Elem, ghost t': seq<Elem>, ghost k': nat)
    requires Linked(t) && Rearranged(less, c, t, i0, m) && |t| == |c|
    requires 1 <= i0 <= i < k < m < |c| && a == t[i] && b == t[k]
    requires StrictWeak(less, dom) && Merging(less, t, i0, i, k, m) && Within(t, i0, m, dom)
    modifies c
    ensures Linked(t') && Rearranged(less, c, t', i0, m) && |t'| == |c| && t'[m] == t[m]
    ensures i < k' <= m && a' == t'[i+1] && b' == t'[k'] && Merging(less, t', i0, i + 1, k', m) && Within(t', i0, m, dom)
  {
    hide Merging, Within, Rearranged, StrictWeak, Spliced, Distinct;
    MergeStep(less, dom, t, i0, i, k, m);
    if !less(b, a) {
      a', b', t', k' := a.next, b, t, k;
    } else {
      b' := b.next;
      RearrangedTrans(less, c, t, Spliced(t, i, k, k + 1), i0, m);
      t' := Splice(a, b'.prev, b', t, i, k, k + 1);
      a', k' := a, k + 1;
    }
  }

  /** inplace_merge */
  method InplaceMerge(a0: Elem, a1b0: Elem, b1: Elem, less: (Elem, Elem) -> bool,
                      ghost dom: set<Elem>, ghost c: seq<Elem>, ghost i0: nat, ghost k0: nat, ghost m: nat)
      returns (ghost t: seq<Elem>)
    requires Linked(c) && 1 <= i0 < k0 < m < |c| && a0 == c[i0] && a1b0 == c[k0] && b1 == c[m]
    requires StrictWeak(less, dom) && Within(c, i0, m, dom)
    requires Sorted(less, c, i0, k0) && Sorted(less, c, k0, m)
    modifies c
    ensures Linked(t) && Rearranged(less, c, t, i0, m) && Sorted(less, t, i0, m)
  {
    hide Merging, Within, Rearranged, Sorted, StrictWeak, Distinct;
    var a, b := a0, a1b0;
    ghost var i, k := i0, k0;
    t := c;
    MergeBegins(less, c, i0, k0, m);
    while a != b && b != b1
      invariant Linked(t) && Rearranged(less, c, t, i0, m)
      invariant |t| == |c| && i0 <= i <= k <= m && i < m && a == t[i] && b == t[k] && b1 == t[m]
      invariant Merging(less, t, i0, i, k, m) && Within(t, i0, m, dom)
      decreases m - i
    {
      a, b, t, k := MergeOne(a, b, less, dom, c, t, i0, i, k, m);
      i := i + 1;
    }
    AtMostOnce(t, i, k);
    AtMostOnce(t, k, m);
    MergeEnds(less, t, i0, i, k, m);
  }

  /** The number of natural runs between the two ends of a chain. */
  ghost function InnerRuns(less: (Elem, Elem) -> bool, c: seq<Elem>): (n: nat)
    requires |c| >= 2
  {
    Runs(less, c, 1, |c| - 1)
  }

  /** A chain that list_sort has turned c into, with its first i elements in
      `cnt` output runs and the rest as they were. */
  ghost predicate Passing(less: (Elem, Elem) -> bool, dom: set<Elem>, c: seq<Elem>, t: seq<Elem>, i: nat, cnt: nat) {
    && 2 <= |c| == |t| && 1 <= i < |c|
    && Rearranged(less, c, t, 1, |c| - 1) && Within(t, 1, |t| - 1, dom)
    && Runs(less, t, 1, i) <= cnt
    && 2 * cnt + Runs(less, t, i, |t| - 1) == InnerRuns(less, c)
  }

  lemma PassSkipsLastRun(less: (Elem, Elem) -> bool, dom: set<Elem>, c: seq<Elem>, t: seq<Elem>, i: nat, cnt: nat)
    requires Passing(less, dom, c, t, i, cnt) && i < |t| - 1 && Run(less, t, i, |t| - 1)
    ensures InnerRuns(less, t) <= cnt + 1 == (InnerRuns(less, c) + 1) / 2
  {
    RunsPeel(less, t, i, |t| - 1, |t| - 1);
    RunsJoin(less, t, 1, i, |t| - 1);
  }

  lemma MergeTakesTwoRuns(less: (Elem, Elem) -> bool, t: seq<Elem>, u: seq<Elem>, i: nat, k: nat, m: nat, n: nat)
    requires 1 <= i < k < m <= n <= |t| == |u|
    requires Run(less, t, i, k) && less(t[k], t[k-1])
    requires Run(less, t, k, m) && (m < n ==> less(t[m], t[m-1]))
    requires (forall p :: 0 <= p < i || m <= p < |t| ==> t[p] == u[p]) && Run(less, u, i, m)
    ensures Runs(less, u, 1, m) <= Runs(less, t, 1, i) + 1
    ensures Runs(less, t, i, n) == 2 + Runs(less, u, m, n)
  {
    RunsPeel(less, t, i, k, n);
    RunsPeel(less, t, k, m, n);
    DescentsSame(less, t, u, 1, i);
    DescentsSame(less, t, u, m, n);
    RunsPeel(less, u, i, m, m);
    RunsJoin(less, u, 1, i, m);
  }

  lemma PassMergesTwoRuns(less: (Elem, Elem) -> bool, dom: set<Elem>, c: seq<Elem>, t: seq<Elem>, u: seq<Elem>,
                          i: nat, k: nat, m: nat, cnt: nat)
    requires Passing(less, dom, c, t, i, cnt) && i < k < m <= |t| - 1
    requires Run(less, t, i, k) && less(t[k], t[k-1])
    requires Run(less, t, k, m) && (m < |t| - 1 ==> less(t[m], t[m-1]))
    requires Rearranged(less, t, u, i, m) && Sorted(less, u, i, m) && Distinct(u)
    ensures Passing(less, dom, c, u, m, cnt + 1)
  {
    hide StableRearrangement, Runs, Within, Distinct;
    var n := |t| - 1;
    MergeTakesTwoRuns(less, t, u, i, k, m, n);
    RearrangedWidens(less, t, u, i, m, 1, n);
    RearrangedTrans(less, c, t, u, 1, n);
    RearrangedWithin(less, dom, t, u, 1, n);
  }

  lemma RearrangedWidens(less: (Elem, Elem) -> bool, t: seq<Elem>, u: seq<Elem>, lo: nat, hi: nat, lo': nat, hi': nat)
    requires Rearranged(less, t, u, lo, hi) && lo' <= lo && hi <= hi' <= |t|
    ensures Rearranged(less, t, u, lo', hi')
  {}

  lemma RearrangedWithin(less: (Elem, Elem) -> bool, dom: set<Elem>, t: seq<Elem>, u: seq<Elem>, lo: nat, hi: nat)
    requires Rearranged(less, t, u, lo, hi) && Within(t, lo, hi, dom) && Distinct(u)
    ensures Within(u, lo, hi, dom)
  {
    RearrangedMembers(less, t, u, lo, hi);
    forall i | lo <= i < hi ensures u[i] in dom {
      var j :| 0 <= j < |t| && t[j] == u[i];
    }
  }

  /** One iteration of a pass: two neighbouring runs are merged, or there is only one
      run left. */
  method PassStep(a0: Elem, tail: Elem, less: (Elem, Elem) -> bool,
                  ghost dom: set<Elem>, ghost c: seq<Elem>, ghost t: seq<Elem>, ghost i: nat, ghost cnt: nat)
      returns (last: bool, b1: Elem, ghost u: seq<Elem>, ghost m: nat)
    requires Linked(t) && 1 <= i < |t| - 1 && a0 == t[i] && tail == t[|t|-1]
    requires StrictWeak(less, dom) && Passing(less, dom, c, t, i, cnt)
    modifies c
    ensures Linked(u) && |u| == |t| && tail == u[|u|-1]
    ensures last ==> u == t && Run(less, t, i, |t| - 1)
    ensures !last ==> i < m < |u| && b1 == u[m] && Passing(less, dom, c, u, m, cnt + 1)
  {
    hide Passing, Rearranged, Within, Sorted, Runs, InnerRuns, StrictWeak, Distinct, Run;
    u, b1, m := t, tail, i;
    var a1b0, k := FindEndOfRun(a0, tail, less, t, i, |t| - 1);
    last := a1b0 == tail;
    if last {
      AtMostOnce(t, k, |t| - 1);
    } else {
      b1, m := FindEndOfRun(a1b0, tail, less, t, k, |t| - 1);
      PassReady(less, dom, c, t, i, k, m, cnt);
      u := InplaceMerge(a0, a1b0, b1, less, dom, t, i, k, m);
      PassMergesTwoRuns(less, dom, c, t, u, i, k, m, cnt);
      RearrangedMembers(less, t, u, i, m);
    }
  }

  lemma LinkedDistinct(t: seq<Elem>)
    requires Linked(t)
    ensures Distinct(t)
  {
  }

  /** One pass of list_sort's outer loop: cnt is output_run_cnt at its end. */
  method Pass(head: Elem, tail: Elem, less: (Elem, Elem) -> bool, ghost dom: set<Elem>, ghost c: seq<Elem>)
      returns (cnt: nat, ghost t: seq<Elem>)
    requires Linked(c) && head == c[0] && tail == c[|c|-1]
    requires StrictWeak(less, dom) && Within(c, 1, |c| - 1, dom)
    modifies c
    ensures Linked(t) && Rearranged(less, c, t, 1, |c| - 1) && Within(t, 1, |t| - 1, dom)
    ensures InnerRuns(less, t) <= cnt == (InnerRuns(less, c) + 1) / 2
  {
    t, cnt := c, 0;
    var a0 := head.next;
    ghost var i, n := 1, |c| - 1;
    PassBegins(less, dom, c);
    assert a0 == c[1];
    hide Passing, Rearranged, Within, Sorted, Runs, InnerRuns, StrictWeak, Distinct, Run, Linked;
    while a0 != tail
      invariant Linked(t) && |t| == n + 1 && 1 <= i <= n && a0 == t[i] && tail == t[n]
      invariant Passing(less, dom, c, t, i, cnt)
      decreases n - i
    {
      cnt := cnt + 1;
      var last, b1, u, m := PassStep(a0, tail, less, dom, c, t, i, cnt - 1);
      if last {
        PassSkipsLastRun(less, dom, c, t, i, cnt - 1);
        PassKeeps(less, dom, c, t, i, cnt - 1);
        return;
      }
      t, i, a0 := u, m, b1;
    }
    LinkedDistinct(t);
    AtMostOnce(t, i, n);
    PassKeeps(less, dom, c, t, i, cnt);
  }

  lemma PassBegins(less: (Elem, Elem) -> bool, dom: set<Elem>, c: seq<Elem>)
    requires |c| >= 2 && Within(c, 1, |c| - 1, dom)
    ensures Passing(less, dom, c, c, 1, 0)
  {
    StableRefl(less, c);
  }

  lemma PassReady(less: (Elem, Elem) -> bool, dom: set<Elem>, c: seq<Elem>, t: seq<Elem>, i: nat, k: nat, m: nat, cnt: nat)
    requires Passing(less, dom, c, t, i, cnt) && StrictWeak(less, dom)
    requires i < k < m < |t| && Run(less, t, i, k) && Run(less, t, k, m)
    ensures Sorted(less, t, i, k) && Sorted(less, t, k, m) && Within(t, i, m, dom)
    ensures forall p :: 0 <= p < |t| ==> t[p] in c
  {
    RunIsSorted(less, dom, t, i, k);
    RunIsSorted(less, dom, t, k, m);
    RearrangedMembers(less, c, t, 1, |c| - 1);
  }

  lemma PassKeeps(less: (Elem, Elem) -> bool, dom: set<Elem>, c: seq<Elem>, t: seq<Elem>, i: nat, cnt: nat)
    requires Passing(less, dom, c, t, i, cnt)
    ensures Rearranged(less, c, t, 1, |c| - 1) && Within(t, 1, |t| - 1, dom)
    ensures i == |t| - 1 ==> InnerRuns(less, t) <= cnt == (InnerRuns(less, c) + 1) / 2
  {}

  /** list_sort: passes until a pass leaves one run. The passes halve the number
      of runs, so there are at most 1 + log2(runs) of them. */
  method SortChain(head: Elem, tail: Elem, less: (Elem, Elem) -> bool, ghost dom: set<Elem>, ghost c: seq<Elem>)
      returns (ghost t: seq<Elem>, ghost passes: nat)
    requires Linked(c) && head == c[0] && tail == c[|c|-1]
    requires StrictWeak(less, dom) && Within(c, 1, |c| - 1, dom)
    modifies c
    ensures Linked(t) && Rearranged(less, c, t, 1, |c| - 1) && Sorted(less, t, 1, |t| - 1)
    ensures passes == 1 || (passes > 1 && Arithmetic.Pow2(passes - 1) < InnerRuns(less, c))
  {
    hide Rearranged, Within, Sorted, InnerRuns, StrictWeak, Distinct, Arithmetic.Pow2, Halved;
    var cnt: nat;
    cnt, t := Pass(head, tail, less, dom, c);
    passes := 1;
    HalvedOnce(InnerRuns(less, c));
    RearrangedMembers(less, c, t, 1, |c| - 1);
    while cnt > 1
      invariant Linked(t) && Rearranged(less, c, t, 1, |c| - 1) && |t| == |c| && Within(t, 1, |t| - 1, dom)
      invariant t[0] == head && t[|t|-1] == tail
      invariant InnerRuns(less, t) <= cnt
      invariant passes >= 1 && Halved(InnerRuns(less, c), cnt, passes)
      invariant passes == 1 || Arithmetic.Pow2(passes - 1) < InnerRuns(less, c)
      decreases cnt
    {
      RearrangedMembers(less, c, t, 1, |c| - 1);
      ghost var u, m := t, cnt;
      cnt, t := Pass(head, tail, less, dom, t);
      RearrangedTrans(less, c, u, t, 1, |c| - 1);
      RearrangedMembers(less, c, t, 1, |c| - 1);
      HalvedAgain(InnerRuns(less, c), m, passes, InnerRuns(less, u), cnt);
      passes := passes + 1;
    }
    OneRunIsSorted(less, dom, t);
  }

  /** cnt runs are left of `runs` after the given number of passes. */
  ghost predicate Halved(runs: nat, cnt: nat, passes: nat) {
    cnt == 0 || (cnt - 1) * Arithmetic.Pow2(passes) < runs
  }

  lemma HalvedOnce(runs: nat)
    ensures Halved(runs, (runs + 1) / 2, 1)
  {
    assert Arithmetic.Pow2(1) == 2;
  }

  lemma HalvedAgain(runs: nat, cnt: nat, passes: nat, left: nat, cnt': nat)
    requires Halved(runs, cnt, passes) && cnt > 1 && left <= cnt && cnt' == (left + 1) / 2
    ensures Halved(runs, cnt', passes + 1) && Arithmetic.Pow2(passes) < runs && cnt' < cnt
  {
    HalvingStep(runs, cnt, Arithmetic.Pow2(passes), cnt');
  }

  lemma HalvingStep(runs: nat, cnt: nat, p: nat, cnt': nat)
    requires cnt > 1 && (cnt - 1) * p < runs && 2 * (cnt' - 1) <= cnt - 1
    ensures p < runs && (cnt' - 1) * (2 * p) < runs
  {
    assert (cnt' - 1) * (2 * p) == (2 * (cnt' - 1)) * p;
    assert (2 * (cnt' - 1)) * p <= (cnt - 1) * p;
    assert 1 * p <= (cnt - 1) * p;
  }

  lemma OneRunIsSorted(less: (Elem, Elem) -> bool, dom: set<Elem>, c: seq<Elem>)
    requires |c| >= 2 && StrictWeak(less, dom) && Within(c, 1, |c| - 1, dom) && InnerRuns(less, c) <= 1
    ensures Sorted(less, c, 1, |c| - 1)
  {
    DescentsOfRun(less, c, 1, |c| - 1);
    RunIsSorted(less, dom, c, 1, |c| - 1);
  }
}
