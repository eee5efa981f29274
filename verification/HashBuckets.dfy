/**
  Buckets of a chained hash table (lib/kernel/hash.c) and the set they stand for.
 */
module HashBuckets {
  import opened Bits
  import opened Order
  import opened PowerOfTwo

  /** Equality as the table sees it: neither is less than the other. */
  ghost predicate Same<T(!new)>(less: (T, T) -> bool, a: T, b: T) {
    !less(a, b) && !less(b, a)
  }

  /** What the table demands of its two functions: a strict weak order, and hash
      values that agree on equal elements. */
  ghost predicate Lawful<T(!new)>(hash: T -> nat, less: (T, T) -> bool) {
    && (forall x, y, z {:trigger WeakOrderLaw(less, x, y, z)} :: WeakOrderLaw(less, x, y, z))
    && (forall x, y {:trigger Same(less, x, y)} :: Same(less, x, y) ==> hash(x) == hash(y))
  }

  lemma SameTrans<T(!new)>(hash: T -> nat, less: (T, T) -> bool, a: T, b: T, c: T)
    requires Lawful(hash, less) && Same(less, a, b) && Same(less, b, c)
    ensures Same(less, a, c) && Same(less, c, a) && Same(less, b, a)
  {
    assert WeakOrderLaw(less, a, b, c) && WeakOrderLaw(less, c, b, a);
  }

  /** All elements in all buckets. */
  ghost function Contents<T>(bs: seq<seq<T>>): (m: multiset<T>) {
    if bs == [] then multiset{} else Contents(bs[..|bs|-1]) + multiset(bs[|bs|-1])
  }

  lemma {:induction false} ContentsUpdate<T>(bs: seq<seq<T>>, i: nat, b: seq<T>)
    requires i < |bs|
    ensures Contents(bs[i := b]) == Contents(bs) - multiset(bs[i]) + multiset(b)
    ensures multiset(bs[i]) <= Contents(bs)
  {
    var n := |bs| - 1;
    var c := bs[i := b];
    assert Contents(c) == Contents(c[..n]) + multiset(c[n]);
    if i < n {
      ContentsUpdate(bs[..n], i, b);
      assert c[..n] == bs[..n][i := b];
    } else {
      assert c[..n] == bs[..n];
    }
  }

  lemma ContentsNext<T>(bs: seq<seq<T>>, i: nat)
    requires i < |bs|
    ensures Contents(bs[..i+1]) == Contents(bs[..i]) + multiset(bs[i])
  {
    assert bs[..i+1][..i] == bs[..i];
  }

  lemma {:induction false} ContentsMember<T>(bs: seq<seq<T>>, x: T)
    ensures x in Contents(bs) <==> exists i :: 0 <= i < |bs| && x in bs[i]
  {
    if bs != [] {
      var n := |bs| - 1;
      ContentsMember(bs[..n], x);
      if x in Contents(bs[..n]) {
        var i :| 0 <= i < n && x in bs[..n][i];
        assert x in bs[i];
      }
      if j :| 0 <= j < |bs| && x in bs[j] && j < n {
        assert x in bs[..n][j];
      }
    }
  }

  lemma {:induction false} ContentsEmpty<T>(bs: seq<seq<T>>)
    requires forall i :: 0 <= i < |bs| ==> bs[i] == []
    ensures Contents(bs) == multiset{}
  {
    if bs != [] {
      ContentsEmpty(bs[..|bs|-1]);
    }
  }

  /** find_bucket's index. */
  function Home<T>(hash: T -> nat, x: T, cnt: nat): (i: nat)
    requires cnt > 0
    ensures i < cnt
  {
    And(hash(x), cnt - 1)
  }

  ghost predicate Placed<T(!new)>(hash: T -> nat, bs: seq<seq<T>>) {
    |bs| > 0 && forall i, x {:trigger x in bs[i]} :: 0 <= i < |bs| && x in bs[i] ==> Home(hash, x, |bs|) == i
  }

  /** No two elements of m are equal. */
  ghost predicate Unique<T(!new)>(less: (T, T) -> bool, m: multiset<T>) {
    && (forall x :: x in m ==> m[x] == 1)
    && (forall x, y {:trigger Same(less, x, y)} :: x in m && y in m && Same(less, x, y) ==> x == y)
  }

  ghost function Keys<T>(m: multiset<T>): (s: set<T>) {
    set x | x in m
  }

  lemma KeysSize<T(!new)>(less: (T, T) -> bool, m: multiset<T>)
    requires Unique(less, m)
    ensures |Keys(m)| == |m|
  {
    assert m == multiset(Keys(m));
  }

  lemma FindInHome<T(!new)>(hash: T -> nat, less: (T, T) -> bool, bs: seq<seq<T>>, e: T, x: T)
    requires Lawful(hash, less) && Placed(hash, bs) && x in Contents(bs) && Same(less, x, e)
    ensures x in bs[Home(hash, e, |bs|)]
  {
    ContentsMember(bs, x);
    var i :| 0 <= i < |bs| && x in bs[i];
    assert hash(x) == hash(e);
  }

  lemma InHome<T(!new)>(bs: seq<seq<T>>, i: nat, x: T)
    requires i < |bs| && x in bs[i]
    ensures x in Contents(bs)
  {
    ContentsMember(bs, x);
  }

  // ---- Adding and removing -------------------------------------------------

  /** insert_elem: e at the front of its bucket. */
  ghost function Added<T(!new)>(hash: T -> nat, bs: seq<seq<T>>, e: T): (r: seq<seq<T>>)
    requires |bs| > 0
  {
    var i := Home(hash, e, |bs|);
    bs[i := [e] + bs[i]]
  }

  lemma AddedContents<T(!new)>(hash: T -> nat, bs: seq<seq<T>>, e: T)
    requires Placed(hash, bs)
    ensures Contents(Added(hash, bs, e)) == Contents(bs) + multiset{e} && Placed(hash, Added(hash, bs, e))
  {
    hide Contents, Home;
    var i := Home(hash, e, |bs|);
    var b := [e] + bs[i];
    ContentsUpdate(bs, i, b);
    assert multiset(b) == multiset{e} + multiset(bs[i]);
    assert Placed(hash, bs[i := b]) by {
      assert forall x :: x in b <==> x == e || x in bs[i];
    }
  }

  /** remove_elem: the element at position k of bucket i unlinked. */
  ghost function Dropped<T>(bs: seq<seq<T>>, i: nat, k: nat): (r: seq<seq<T>>)
    requires i < |bs| && k < |bs[i]|
  {
    bs[i := bs[i][..k] + bs[i][k+1..]]
  }

  lemma DroppedContents<T(!new)>(hash: T -> nat, bs: seq<seq<T>>, i: nat, k: nat)
    requires Placed(hash, bs) && i < |bs| && k < |bs[i]|
    ensures Contents(Dropped(bs, i, k)) == Contents(bs) - multiset{bs[i][k]} && bs[i][k] in Contents(bs)
    ensures Placed(hash, Dropped(bs, i, k))
  {
    var b := bs[i][..k] + bs[i][k+1..];
    assert bs[i] == bs[i][..k] + [bs[i][k]] + bs[i][k+1..];
    assert multiset(bs[i]) == multiset(b) + multiset{bs[i][k]};
    ContentsUpdate(bs, i, b);
    InHome(bs, i, bs[i][k]);
    assert forall x :: x in b ==> x in bs[i];
  }
}
