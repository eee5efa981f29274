/** Iterating over a hash table: hash_first and hash_next (lib/kernel/hash.c). */
module HashIterators {
  import opened Bits
  import opened HashBuckets
  import opened HashTables

  /** The buckets end to end: the order in which an iterator meets the elements. */
  ghost function Flat<T>(bs: seq<seq<T>>): (s: seq<T>) {
    if bs == [] then [] else Flat(bs[..|bs|-1]) + bs[|bs|-1]
  }

  lemma {:induction false} FlatPrefix<T>(bs: seq<seq<T>>, i: nat)
    requires i < |bs|
    ensures Flat(bs[..i+1]) == Flat(bs[..i]) + bs[i]
    ensures Flat(bs[..i+1]) <= Flat(bs)
    decreases |bs| - i
  {
    assert bs[..i+1][..i] == bs[..i];
    if i + 1 == |bs| {
      assert bs[..i+1] == bs;
    } else {
      FlatPrefix(bs, i + 1);
    }
  }

  /** An iteration meets every element exactly once. */
  lemma {:induction false} FlatContents<T>(bs: seq<seq<T>>)
    ensures multiset(Flat(bs)) == Contents(bs)
  {
    if bs != [] { FlatContents(bs[..|bs|-1]); }
  }

  class HashIterator<T(!new, ==)> {
    const table: HashTable<T>
    var bucket: nat
    /** The current element's index in its bucket; -1 is the bucket's head. */
    var index: int

    ghost predicate Valid()
      reads this, table
    {
      && bucket <= |table.buckets| == table.bucketCnt
      && (bucket == |table.buckets| ==> index == -1)
      && (bucket < |table.buckets| ==> -1 <= index < |table.buckets[bucket]|)
    }

    /** How many elements hash_next has returned. */
    ghost function Returned(): (n: int)
      reads this, table
      requires Valid()
      ensures n >= 0
    {
      |Flat(table.buckets[..bucket])| + index + 1
    }

    /** hash_first */
    constructor (table: HashTable<T>)
      requires table.Valid()
      ensures this.table == table && Valid() && Returned() == 0 && bucket < table.bucketCnt
    {
      this.table := table;
      bucket, index := 0, -1;
    }

    /** hash_next: the next element of Flat, or None when there is none left. */
    method Next() returns (r: Option<T>)
      requires Valid() && bucket < table.bucketCnt
      modifies this
      ensures Valid() && (bucket == table.bucketCnt <==> r.None?)
      ensures r.Some? ==>
                && Returned() == old(Returned()) + 1 <= |Flat(table.buckets)|
                && r.value == Flat(table.buckets)[old(Returned())]
      ensures r.None? ==> old(Returned()) == |Flat(table.buckets)|
    {
      ghost var bs := table.buckets;
      ghost var n := Returned();
      index := index + 1;
      FlatPrefix(bs, bucket);
      while index == |table.buckets[bucket]|
        invariant bucket < table.bucketCnt == |bs| && 0 <= index <= |bs[bucket]|
        invariant |Flat(bs[..bucket])| + index == n
        invariant Flat(bs[..bucket+1]) == Flat(bs[..bucket]) + bs[bucket] && Flat(bs[..bucket+1]) <= Flat(bs)
        decreases table.bucketCnt - bucket
      {
        bucket := bucket + 1;
        if bucket >= table.bucketCnt {
          assert bs[..bucket] == bs;
          index := -1;
          return None;
        }
        index := 0;
        FlatPrefix(bs, bucket);
      }
      r := Some(table.buckets[bucket][index]);
    }
  }

  /** hash_first, then hash_next until it returns a null pointer. */
  method Walk<T(!new, ==)>(table: HashTable<T>) returns (items: seq<T>)
    requires table.Valid()
    ensures items == Flat(table.buckets)
    ensures |items| == table.elemCnt && multiset(items) == multiset(table.View())
  {
    hide Flat, HashIterator.Returned, HashTable.Valid, Contents;
    assert multiset(Flat(table.buckets)) == multiset(table.View()) && |Flat(table.buckets)| == table.elemCnt by {
      MeetsAll(table);
    }
    ghost var all := Flat(table.buckets);
    var it := new HashIterator(table);
    items := [];
    var r := it.Next();
    while r.Some?
      invariant it.Valid() && it.table == table && (it.bucket == table.bucketCnt <==> r.None?)
      invariant |items| <= |all| && items == all[..|items|]
      invariant r.Some? ==> it.Returned() == |items| + 1 <= |all| && r.value == all[|items|]
      invariant r.None? ==> |items| == |all|
      decreases |all| - |items|
    {
      items := items + [r.value];
      r := it.Next();
    }
  }

  lemma MeetsAll<T(!new)>(table: HashTable<T>)
    requires table.Valid()
    ensures multiset(Flat(table.buckets)) == multiset(table.View()) && |Flat(table.buckets)| == table.elemCnt
  {
    FlatContents(table.buckets);
    assert Contents(table.buckets) == multiset(table.View());
  }
}
