/**
  The chained hash table (lib/kernel/hash.c): an implementation of a set that
  holds at most one element of each equality class.
 */
module HashTables {
  import opened Bits
  import opened Order
  import opened PowerOfTwo
  import opened HashBuckets

  // ---- What a table stands for ---------------------------------------------

  /** r is the element of s equal to e, or None if there is none. */
  ghost predicate Match<T(!new)>(less: (T, T) -> bool, s: set<T>, e: T, r: Option<T>) {
    match r
    case Some(x) => x in s && Same(less, x, e)
    case None => forall x {:trigger Same(less, x, e)} :: x in s ==> !Same(less, x, e)
  }

  ghost predicate OneEach<T(!new)>(less: (T, T) -> bool, s: set<T>) {
    forall x, y {:trigger Same(less, x, y)} :: x in s && y in s && Same(less, x, y) ==> x == y
  }

  ghost function Matched<T>(r: Option<T>): (s: set<T>) {
    if r.Some? then {r.value} else {}
  }

  datatype Op<T> = Insert(e: T) | Replace(e: T) | Find(e: T) | Delete(e: T)

  /** The set after op, whose answer was r. */
  ghost function After<T>(s: set<T>, op: Op<T>, r: Option<T>): (t: set<T>) {
    match op
    case Insert(e) => if r.None? then s + {e} else s
    case Replace(e) => s - Matched(r) + {e}
    case Find(e) => s
    case Delete(e) => s - Matched(r)
  }

  /** The operations ops take the set s to t with answers rs. */
  ghost predicate OpRun<T(!new)>(less: (T, T) -> bool, s: set<T>, ops: seq<Op<T>>, rs: seq<Option<T>>, t: set<T>)
    decreases |ops|
  {
    if ops == [] then rs == [] && t == s else
    && rs != []
    && Match(less, s, ops[0].e, rs[0])
    && OpRun(less, After(s, ops[0], rs[0]), ops[1..], rs[1..], t)
  }

  lemma MatchUnique<T(!new)>(hash: T -> nat, less: (T, T) -> bool, s: set<T>, e: T, r: Option<T>, q: Option<T>)
    requires Lawful(hash, less) && OneEach(less, s) && Match(less, s, e, r) && Match(less, s, e, q)
    ensures r == q
  {
    if r.Some? && q.Some? {
      SameSym(less, q.value, e);
      SameTrans(hash, less, r.value, e, q.value);
    }
  }

  lemma SameSym<T(!new)>(less: (T, T) -> bool, a: T, b: T)
    requires Same(less, a, b)
    ensures Same(less, b, a)
  {
  }

  /** Every operation keeps one element of each class. */
  lemma AfterOneEach<T(!new)>(hash: T -> nat, less: (T, T) -> bool, s: set<T>, op: Op<T>, r: Option<T>)
    requires Lawful(hash, less) && OneEach(less, s) && Match(less, s, op.e, r)
    ensures OneEach(less, After(s, op, r))
  {
    var t := After(s, op, r);
    forall x, y | x in t && y in t && Same(less, x, y)
      ensures x == y
    {
      SameSym(less, x, y);
      if x in s && x !in Matched(r) && y !in s { NotMatched(hash, less, s, op.e, r, x); }
      if y in s && y !in Matched(r) && x !in s { NotMatched(hash, less, s, op.e, r, y); }
      if op.Replace? && x in s && x !in Matched(r) { NotMatched(hash, less, s, op.e, r, x); }
      if op.Replace? && y in s && y !in Matched(r) { NotMatched(hash, less, s, op.e, r, y); }
    }
  }

  lemma NotMatched<T(!new)>(hash: T -> nat, less: (T, T) -> bool, s: set<T>, e: T, r: Option<T>, x: T)
    requires Lawful(hash, less) && OneEach(less, s) && Match(less, s, e, r) && x in s && x !in Matched(r)
    ensures !Same(less, x, e)
  {
    if Same(less, x, e) {
      MatchUnique(hash, less, s, e, r, Some(x));
    }
  }

  /** A run has one outcome: the answers and the final set are functions of the
      first set and the operations, however often buckets were rearranged. */
  lemma {:induction false} OpRunUnique<T(!new)>(hash: T -> nat, less: (T, T) -> bool, s: set<T>, ops: seq<Op<T>>,
                                                 rs: seq<Option<T>>, t: set<T>, qs: seq<Option<T>>, u: set<T>)
    requires Lawful(hash, less) && OneEach(less, s) && OpRun(less, s, ops, rs, t) && OpRun(less, s, ops, qs, u)
    ensures rs == qs && t == u
    decreases |ops|
  {
    if ops != [] {
      MatchUnique(hash, less, s, ops[0].e, rs[0], qs[0]);
      AfterOneEach(hash, less, s, ops[0], rs[0]);
      OpRunUnique(hash, less, After(s, ops[0], rs[0]), ops[1..], rs[1..], t, qs[1..], u);
      assert rs == [rs[0]] + rs[1..] && qs == [qs[0]] + qs[1..];
    }
  }

  /** What a find of e answers after op, if it answered c before: op matters only if its
      element equals e. */
  ghost function Answer<T(!new)>(less: (T, T) -> bool, c: Option<T>, op: Op<T>, e: T): (d: Option<T>) {
    if !Same(less, op.e, e) then c
    else match op
         case Insert(x) => if c.None? then Some(x) else c
         case Replace(x) => Some(x)
         case Find(_) => c
         case Delete(_) => None
  }

  /** Each operation changes the answers as that says. */
  lemma AfterAnswers<T(!new)>(hash: T -> nat, less: (T, T) -> bool, s: set<T>, op: Op<T>, r: Option<T>, e: T, c: Option<T>)
    requires Lawful(hash, less) && OneEach(less, s) && Match(less, s, op.e, r) && Match(less, s, e, c)
    ensures Match(less, After(s, op, r), e, Answer(less, c, op, e))
  {
    if Same(less, op.e, e) {
      SameMatch(hash, less, s, op.e, e, r);
      MatchUnique(hash, less, s, e, r, c);
      forall x | x in s && x !in Matched(r) ensures !Same(less, x, e) {
        NotMatched(hash, less, s, e, r, x);
      }
    } else if c.Some? && r == c {
      SameSym(less, c.value, op.e);
      SameTrans(hash, less, op.e, c.value, e);
    }
  }

  lemma SameMatch<T(!new)>(hash: T -> nat, less: (T, T) -> bool, s: set<T>, d: T, e: T, r: Option<T>)
    requires Lawful(hash, less) && Match(less, s, d, r) && Same(less, d, e)
    ensures Match(less, s, e, r)
  {
    SameSym(less, d, e);
    if r.Some? {
      SameTrans(hash, less, r.value, d, e);
    } else {
      forall x | x in s ensures !Same(less, x, e) {
        if Same(less, x, e) { SameTrans(hash, less, x, e, d); }
      }
    }
  }

  ghost function Answers<T(!new)>(less: (T, T) -> bool, c: Option<T>, ops: seq<Op<T>>, e: T): (d: Option<T>)
    decreases |ops|
  {
    if ops == [] then c else Answers(less, Answer(less, c, ops[0], e), ops[1..], e)
  }

  /** Over a whole run, what a find of e answers depends on the operations on elements
      equal to e alone: the table is one cell for each class. */
  lemma {:induction false} RunAnswers<T(!new)>(hash: T -> nat, less: (T, T) -> bool, s: set<T>, ops: seq<Op<T>>,
                                               rs: seq<Option<T>>, t: set<T>, e: T, c: Option<T>)
    requires Lawful(hash, less) && OneEach(less, s) && OpRun(less, s, ops, rs, t) && Match(less, s, e, c)
    ensures OneEach(less, t) && Match(less, t, e, Answers(less, c, ops, e))
    decreases |ops|
  {
    if ops != [] {
      AfterAnswers(hash, less, s, ops[0], rs[0], e, c);
      AfterOneEach(hash, less, s, ops[0], rs[0]);
      RunAnswers(hash, less, After(s, ops[0], rs[0]), ops[1..], rs[1..], t, e, Answer(less, c, ops[0], e));
    }
  }

  // ---- The table -------------------------------------------------------------

  /** rehash's ideal: a power of two, at least 4, about one bucket for two elements. */
  ghost function IdealBuckets(elems: nat): (n: nat)
    ensures n >= 4 && IsPow2(n) && (n > 4 ==> 2 * n <= elems) && elems < 4 * n
  {
    FourFloor(elems / 2);
    Floor2(if elems / 2 < 4 then 4 else elems / 2)
  }

  lemma FourFloor(x: nat)
    ensures Floor2(if x < 4 then 4 else x) >= 4
  {
    assert Floor2(4) == 4;
    if x >= 4 {
      assert Floor2(x) == 4 * Floor2(x / 2 / 2);
    }
  }

  ghost predicate TableOk<T(!new)>(hash: T -> nat, less: (T, T) -> bool, elemCnt: nat, bucketCnt: nat, bs: seq<seq<T>>) {
    && Lawful(hash, less)
    && |bs| == bucketCnt >= 4 && IsPow2(bucketCnt)
    && Placed(hash, bs)
    && Unique(less, Contents(bs))
    && elemCnt == |Contents(bs)|
  }

  lemma UniqueAdd<T(!new)>(hash: T -> nat, less: (T, T) -> bool, m: multiset<T>, e: T)
    requires Lawful(hash, less) && Unique(less, m) && Match(less, Keys(m), e, None)
    ensures Unique(less, m + multiset{e}) && Keys(m + multiset{e}) == Keys(m) + {e}
  {
    assert WeakOrderLaw(less, e, e, e);
    assert Same(less, e, e);
    assert e !in Keys(m);
    forall x, y | x in m + multiset{e} && y in m + multiset{e} && Same(less, x, y)
      ensures x == y
    {
      SameSym(less, x, y);
    }
  }

  lemma UniqueRemove<T(!new)>(hash: T -> nat, less: (T, T) -> bool, m: multiset<T>, e: T, x: T)
    requires Lawful(hash, less) && Unique(less, m) && Match(less, Keys(m), e, Some(x))
    ensures Unique(less, m - multiset{x}) && Keys(m - multiset{x}) == Keys(m) - {x}
    ensures Match(less, Keys(m) - {x}, e, None) && x in m
  {
    assert m[x] == 1;
    forall y | y in Keys(m) - {x}
      ensures !Same(less, y, e)
    {
      if Same(less, y, e) {
        SameSym(less, x, e);
        SameTrans(hash, less, y, e, x);
      }
    }
  }

  class HashTable<T(!new, ==)> {
    const hash: T -> nat
    const less: (T, T) -> bool
    var elemCnt: nat
    var bucketCnt: nat
    var buckets: seq<seq<T>>

    ghost predicate Valid()
      reads this
    {
      TableOk(hash, less, elemCnt, bucketCnt, buckets)
    }

    /** The set the table stands for. */
    ghost function View(): (s: set<T>)
      reads this
    {
      Keys(Contents(buckets))
    }

    constructor (hash: T -> nat, less: (T, T) -> bool)
      requires Lawful(hash, less)
      ensures Valid() && View() == {} && bucketCnt == 4
      ensures this.hash == hash && this.less == less
    {
      this.hash, this.less := hash, less;
      elemCnt, bucketCnt := 0, 4;
      buckets := [[], [], [], []];
      new;
      ContentsEmpty(buckets);
    }

    /** hash_size: the count is that of the set. */
    lemma Size()
      requires Valid()
      ensures elemCnt == |View()|
    {
      KeysSize(less, Contents(buckets));
    }

    /** find_elem */
    method FindElem(bucket: nat, e: T) returns (r: Option<nat>)
      requires bucket < |buckets|
      ensures r.Some? ==> r.value < |buckets[bucket]| && Same(less, buckets[bucket][r.value], e)
      ensures r.None? ==> forall x {:trigger Same(less, x, e)} :: x in buckets[bucket] ==> !Same(less, x, e)
    {
      var i := 0;
      while i < |buckets[bucket]|
        invariant i <= |buckets[bucket]|
        invariant forall k :: 0 <= k < i ==> !Same(less, buckets[bucket][k], e)
      {
        if !less(buckets[bucket][i], e) && !less(e, buckets[bucket][i]) {
          return Some(i);
        }
        i := i + 1;
      }
      return None;
    }

    /** find_bucket then find_elem: where the match is, and which it is. */
    method Locate(e: T) returns (bucket: nat, at: Option<nat>, found: Option<T>)
      requires Valid()
      ensures bucket < |buckets| && bucket == Home(hash, e, |buckets|)
      ensures Match(less, View(), e, found)
      ensures at.Some? == found.Some?
      ensures at.Some? ==> at.value < |buckets[bucket]| && buckets[bucket][at.value] == found.value
    {
      bucket := And(hash(e), bucketCnt - 1);
      at := FindElem(bucket, e);
      if at.Some? {
        found := Some(buckets[bucket][at.value]);
        InHome(buckets, bucket, found.value);
      } else {
        found := None;
        forall x | x in View()
          ensures !Same(less, x, e)
        {
          if Same(less, x, e) {
            FindInHome(hash, less, buckets, e, x);
          }
        }
      }
    }

    /** hash_find */
    method Find(e: T) returns (r: Option<T>)
      requires Valid()
      ensures Match(less, View(), e, r)
    {
      var bucket, at, found := Locate(e);
      return found;
    }

    /** insert_elem: e goes to the front of its bucket. */
    method InsertElem(bucket: nat, e: T)
      requires Valid() && bucket == Home(hash, e, |buckets|)
      requires Match(less, View(), e, None)
      modifies this
      ensures Valid() && View() == old(View()) + {e} && buckets == Added(hash, old(buckets), e)
    {
      AddedContents(hash, buckets, e);
      UniqueAdd(hash, less, Contents(buckets), e);
      elemCnt := elemCnt + 1;
      buckets := buckets[bucket := [e] + buckets[bucket]];
    }

    /** remove_elem */
    method RemoveElem(bucket: nat, at: nat, ghost e: T)
      requires Valid() && bucket < |buckets| && at < |buckets[bucket]| && Same(less, buckets[bucket][at], e)
      modifies this
      ensures Valid() && View() == old(View()) - {old(buckets[bucket][at])} && |buckets| == old(|buckets|)
      ensures Match(less, View(), e, None)
    {
      ghost var x := buckets[bucket][at];
      DroppedContents(hash, buckets, bucket, at);
      UniqueRemove(hash, less, Contents(buckets), e, x);
      elemCnt := elemCnt - 1;
      buckets := buckets[bucket := buckets[bucket][..at] + buckets[bucket][at+1..]];
    }

    /** hash_insert */
    method Insert(e: T, memory: bool) returns (r: Option<T>)
      requires Valid()
      modifies this
      ensures Valid() && Match(less, old(View()), e, r) && View() == After(old(View()), Op.Insert(e), r)
      ensures memory ==> bucketCnt == IdealBuckets(elemCnt)
    {
      var bucket, at, found := Locate(e);
      if found.None? {
        InsertElem(bucket, e);
      }
      Rehash(memory);
      return found;
    }

    /** hash_replace */
    method Replace(e: T, memory: bool) returns (r: Option<T>)
      requires Valid()
      modifies this
      ensures Valid() && Match(less, old(View()), e, r) && View() == After(old(View()), Op.Replace(e), r)
      ensures memory ==> bucketCnt == IdealBuckets(elemCnt)
    {
      var bucket, at, found := Locate(e);
      if found.Some? {
        RemoveElem(bucket, at.value, e);
      }
      InsertElem(bucket, e);
      Rehash(memory);
      return found;
    }

    /** hash_delete */
    method Delete(e: T, memory: bool) returns (r: Option<T>)
      requires Valid()
      modifies this
      ensures Valid() && Match(less, old(View()), e, r) && View() == After(old(View()), Op.Delete(e), r)
      ensures r.None? ==> buckets == old(buckets)
      ensures r.Some? && memory ==> bucketCnt == IdealBuckets(elemCnt)
    {
      var bucket, at, found := Locate(e);
      if found.Some? {
        RemoveElem(bucket, at.value, e);
        Rehash(memory);
      }
      return found;
    }

    /** The bucket count rehash aims for. */
    method IdealCount() returns (n: nat)
      ensures n == IdealBuckets(elemCnt)
    {
      n := elemCnt / 2;
      if n < 4 {
        n := 4;
      }
      ghost var start := n;
      while n == 0 || And(n, n - 1) != 0
        invariant n > 0 && Floor2(n) == Floor2(start)
        decreases n
      {
        PowerTest(n);
        TurnOffKeepsTop(n);
        n := And(n, n - 1);
      }
      PowerTest(n);
      FloorOfPower(n);
    }

    /** rehash: the elements are the same, before and after; only their buckets
        change, and only if the ideal count differs and memory is found. */
    method Rehash(memory: bool)
      requires Valid()
      modifies this`bucketCnt, this`buckets
      ensures Valid() && Contents(buckets) == old(Contents(buckets))
      ensures bucketCnt == if memory then IdealBuckets(elemCnt) else old(bucketCnt)
      ensures bucketCnt == old(bucketCnt) ==> buckets == old(buckets)
    {
      hide Contents;
      var oldBuckets := buckets;
      var count := IdealCount();
      if count == bucketCnt || !memory {
        return;
      }
      buckets, bucketCnt := seq(count, i => []), count;
      ContentsEmpty(buckets);
      ContentsEmpty(oldBuckets[..0]);
      var i := 0;
      while i < |oldBuckets|
        invariant i <= |oldBuckets| && |buckets| == bucketCnt == count && Placed(hash, buckets)
        invariant Contents(buckets) == Contents(oldBuckets[..i])
      {
        MoveBucket(oldBuckets[i]);
        ContentsNext(oldBuckets, i);
        i := i + 1;
      }
      assert oldBuckets[..i] == oldBuckets;
    }

    /** Every element of one old bucket to the front of its new one. */
    method MoveBucket(bucket: seq<T>)
      requires Placed(hash, buckets) && |buckets| == bucketCnt
      modifies this`buckets
      ensures Placed(hash, buckets) && |buckets| == bucketCnt
      ensures Contents(buckets) == old(Contents(buckets)) + multiset(bucket)
    {
      var rest := bucket;
      while rest != []
        invariant Placed(hash, buckets) && |buckets| == bucketCnt
        invariant Contents(buckets) + multiset(rest) == old(Contents(buckets)) + multiset(bucket)
      {
        var e := rest[0];
        AddedContents(hash, buckets, e);
        assert rest == [e] + rest[1..];
        rest := rest[1..];
        var home := And(hash(e), bucketCnt - 1);
        buckets := buckets[home := [e] + buckets[home]];
      }
    }

    /** hash_clear; destroyed lists the calls of the destructor. */
    method Clear(destructor: bool) returns (destroyed: seq<T>)
      requires Valid()
      modifies this
      ensures Valid() && View() == {} && bucketCnt == old(bucketCnt)
      ensures multiset(destroyed) == if destructor then old(Contents(buckets)) else multiset{}
    {
      hide Contents;
      ghost var was := buckets;
      destroyed := [];
      assert Contents(was[..0]) == multiset{} by { ContentsEmpty(was[..0]); }
      var i := 0;
      while i < bucketCnt
        invariant i <= bucketCnt == |buckets| == |was| && bucketCnt == old(bucketCnt)
        invariant forall k :: 0 <= k < i ==> buckets[k] == []
        invariant buckets[i..] == was[i..]
        invariant multiset(destroyed) == if destructor then Contents(was[..i]) else multiset{}
      {
        assert buckets[i] == buckets[i..][0] == was[i..][0];
        ContentsNext(was, i);
        if destructor {
          destroyed := destroyed + buckets[i];
        }
        buckets := buckets[i := []];
        i := i + 1;
      }
      assert was[..i] == was;
      ContentsEmpty(buckets);
      elemCnt := 0;
    }

    /** Any run of operations, with or without memory at each rehash, is the run of
        the set. */
    method Perform(ops: seq<Op<T>>, memory: nat -> bool) returns (rs: seq<Option<T>>)
      requires Valid()
      modifies this
      ensures Valid() && OpRun(less, old(View()), ops, rs, View())
      decreases |ops|
    {
      if ops == [] {
        return [];
      }
      var r;
      match ops[0] {
        case Insert(e) => r := Insert(e, memory(0));
        case Replace(e) => r := Replace(e, memory(0));
        case Find(e) => r := Find(e);
        case Delete(e) => r := Delete(e, memory(0));
      }
      var rest := Perform(ops[1..], (i: nat) => memory(i + 1));
      rs := [r] + rest;
      assert rs[1..] == rest;
    }
  }
}
