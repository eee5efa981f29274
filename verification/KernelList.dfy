/**
  The kernel's intrusive doubly linked list (lib/kernel/list.c): two sentinels,
  edited by pointer surgery. The C functions that take bare elements are methods
  over a ghost chain of elements; `List` wraps a chain with its sentinels.
 */
module KernelList {
  import opened Order

  class Elem {
    var prev: Elem?
    var next: Elem?

    constructor ()
      ensures prev == null && next == null
    {
      prev, next := null, null;
    }
  }

  /** The elements of c are chained by next left to right, by prev right to left. */
  ghost predicate Linked(c: seq<Elem>)
    reads c
  {
    && |c| >= 2
    && Distinct(c)
    && c[0].prev == null
    && c[|c|-1].next == null
    && (forall i {:trigger c[i].next} :: 0 <= i < |c| - 1 ==> c[i].next == c[i+1])
    && (forall i {:trigger c[i].prev} :: 1 <= i < |c| ==> c[i].prev == c[i-1])
  }

  // ---- Insertion and removal ----------------------------------------------

  /** list_insert */
  method InsertBefore(before: Elem, e: Elem, ghost c: seq<Elem>, ghost i: nat) returns (ghost t: seq<Elem>)
    requires Linked(c) && 1 <= i < |c| && before == c[i] && e !in c
    modifies c, e
    ensures Linked(t) && t == c[..i] + [e] + c[i..]
  {
    var p := before.prev;
    assert p == c[i-1];
    e.prev := before.prev;
    e.next := before;
    before.prev.next := e;
    before.prev := e;
    t := c[..i] + [e] + c[i..];
    assert Distinct(t);
  }

  /** list_remove */
  method Unlink(e: Elem, ghost c: seq<Elem>, ghost i: nat) returns (r: Elem, ghost t: seq<Elem>)
    requires Linked(c) && 1 <= i < |c| - 1 && e == c[i]
    modifies c
    ensures Linked(t) && t == c[..i] + c[i+1..]
    ensures r == c[i+1] && e.prev == c[i-1] && e.next == c[i+1]
  {
    e.prev.next := e.next;
    e.next.prev := e.prev;
    r := e.next;
    t := c[..i] + c[i+1..];
    assert Distinct(t);
  }

  // ---- Splicing ------------------------------------------------------------

  /** c with the run c[f..l] taken out and put back before what was c[b]. */
  ghost function Spliced<T>(c: seq<T>, b: nat, f: nat, l: nat): (t: seq<T>)
    requires f <= l <= |c| && b <= |c| && (f == l || b < f || l <= b)
  {
    if f == l then c
    else if b < f then c[..b] + c[f..l] + c[b..f] + c[l..]
    else c[..f] + c[l..b] + c[f..l] + c[b..]
  }

  /** Which element of c stands at position i of Spliced(c, b, f, l). */
  ghost function SplicedFrom(b: nat, f: nat, l: nat, i: nat): (k: nat)
    requires f < l && (b < f || l <= b)
  {
    if b < f then
      if b <= i < b + l - f then i + f - b else if b + l - f <= i < l then i + f - l else i
    else
      if f <= i < f + b - l then i + l - f else if f + b - l <= i < b then i + l - b else i
  }

  lemma SplicedAt<T>(c: seq<T>, b: nat, f: nat, l: nat, i: nat)
    requires f < l <= |c| && b <= |c| && (b < f || l <= b) && i < |c|
    ensures |Spliced(c, b, f, l)| == |c| && SplicedFrom(b, f, l, i) < |c|
    ensures Spliced(c, b, f, l)[i] == c[SplicedFrom(b, f, l, i)]
  {
    if b < f {
      Exchanged(c, b, f, l, i);
    } else {
      Exchanged(c, f, l, b, i);
    }
  }

  /** Exchanging the neighbours c[x..y] and c[y..z]. */
  lemma Exchanged<T>(c: seq<T>, x: nat, y: nat, z: nat, i: nat)
    requires x <= y <= z <= |c| && i < |c|
    ensures var t := c[..x] + c[y..z] + c[x..y] + c[z..];
            && |t| == |c|
            && t[i] == if i < x then c[i] else if i < x + z - y then c[i + y - x]
                       else if i < z then c[i + y - z] else c[i]
  {
    var u := c[y..z] + c[x..y];
    assert c[..x] + c[y..z] + c[x..y] + c[z..] == c[..x] + u + c[z..];
    if x <= i < z {
      assert (c[..x] + u + c[z..])[i] == u[i-x];
    }
  }

  lemma SplicedRearranges<T>(c: seq<T>, b: nat, f: nat, l: nat)
    requires 1 <= f < l < |c| && 1 <= b < |c| && (b < f || l <= b) && Distinct(c)
    ensures var t := Spliced(c, b, f, l);
            && |t| == |c| && Distinct(t) && t[0] == c[0] && t[|c|-1] == c[|c|-1]
            && forall i :: 0 <= i < |c| ==> SplicedFrom(b, f, l, i) < |c| && t[i] == c[SplicedFrom(b, f, l, i)]
    ensures b == l ==> Spliced(c, b, f, l) == c
  {
    var t := Spliced(c, b, f, l);
    forall i | 0 <= i < |c| ensures |t| == |c| && SplicedFrom(b, f, l, i) < |c| && t[i] == c[SplicedFrom(b, f, l, i)] {
      SplicedAt(c, b, f, l, i);
    }
  }

  /** The heap differs from the old one, where c was chained, by the six writes
      of a splice. */
  twostate predicate SpliceWrites(c: seq<Elem>, new b: nat, new f: nat, new l: nat)
    reads c
  {
    && 1 <= f < l < |c| && 1 <= b < |c| && (b < f || l < b)
    && old(Linked(c))
    && (forall x | x in c && x != c[b-1] && x != c[f-1] && x != c[l-1] :: x.next == old(x.next))
    && (forall x | x in c && x != c[b] && x != c[f] && x != c[l] :: x.prev == old(x.prev))
    && c[f-1].next == c[l] && c[l].prev == c[f-1]
    && c[b-1].next == c[f] && c[f].prev == c[b-1]
    && c[l-1].next == c[b] && c[b].prev == c[l-1]
  }

  twostate lemma SplicedLink(c: seq<Elem>, new b: nat, new f: nat, new l: nat, new i: nat, new j: nat)
    requires SpliceWrites(c, b, f, l)
    requires i < |c| && j < |c|
    requires (i, j) == (f-1, l) || (i, j) == (b-1, f) || (i, j) == (l-1, b)
          || (j == i + 1 && j !in {b, f, l})
    ensures c[i].next == c[j] && c[j].prev == c[i]
  {
  }

  /** After the six writes of a splice, the rearranged sequence is chained. */
  twostate lemma SplicedLinked(c: seq<Elem>, new t: seq<Elem>, new b: nat, new f: nat, new l: nat)
    requires SpliceWrites(c, b, f, l)
    requires |t| == |c| && Distinct(t) && t[0] == c[0] && t[|t|-1] == c[|c|-1]
    requires forall i :: 0 <= i < |t| ==> SplicedFrom(b, f, l, i) < |c| && t[i] == c[SplicedFrom(b, f, l, i)]
    ensures Linked(t)
  {
    forall i | 0 <= i < |t| - 1 ensures t[i].next == t[i+1] && t[i+1].prev == t[i] {
      SplicedLink(c, b, f, l, SplicedFrom(b, f, l, i), SplicedFrom(b, f, l, i + 1));
    }
  }

  /** The pointer writes of list_splice, for a nonempty run. */
  method SpliceLinks(before: Elem, first: Elem, last: Elem, ghost c: seq<Elem>, ghost b: nat, ghost f: nat, ghost l: nat)
    requires Linked(c) && 1 <= f < l < |c| && 1 <= b < |c| && (b < f || l <= b)
    requires before == c[b] && first == c[f] && last == c[l]
    modifies c
    ensures if b == l then Linked(c) else SpliceWrites(c, b, f, l)
  {
    var back := last.prev;
    assert back == c[l-1] && first.prev == c[f-1] && before.prev == c[b-1];
    first.prev.next := back.next;
    back.next.prev := first.prev;

    first.prev := before.prev;
    back.next := before;
    before.prev.next := first;
    before.prev := back;
  }

  /** list_splice within one list: the run from first up to last goes before
      `before`. A run may not be spliced before its own first element: the C code
      would then link that element to itself. */
  method Splice(before: Elem, first: Elem, last: Elem, ghost c: seq<Elem>, ghost b: nat, ghost f: nat, ghost l: nat)
      returns (ghost t: seq<Elem>)
    requires Linked(c) && 1 <= f <= l < |c| && 1 <= b < |c|
    requires before == c[b] && first == c[f] && last == c[l]
    requires f == l || b < f || l <= b
    modifies c
    ensures Linked(t) && t == Spliced(c, b, f, l)
  {
    if first == last {
      t := c;
    } else {
      SpliceLinks(before, first, last, c, b, f, l);
      SplicedRearranges(c, b, f, l);
      t := Spliced(c, b, f, l);
      if b != l {
        SplicedLinked(c, t, b, f, l);
      }
    }
  }

  lemma TakenOut<T>(c: seq<T>, f: nat, l: nat)
    requires f <= l <= |c| && Distinct(c)
    ensures var t := c[..f] + c[l..];
            |t| == |c| - (l - f) && Distinct(t) && forall i :: 0 <= i < |t| ==> t[i] == c[if i < f then i else i + l - f]
  {}

  lemma PutIn<T>(d: seq<T>, b: nat, s: seq<T>)
    requires b <= |d| && Distinct(d) && Distinct(s) && forall x :: x in s ==> x !in d
    ensures var t := d[..b] + s + d[b..];
            && |t| == |d| + |s| && Distinct(t)
            && forall i :: 0 <= i < |t| ==> t[i] == if i < b then d[i] else if i < b + |s| then s[i-b] else d[i-|s|]
  {
    var t := d[..b] + s + d[b..];
    forall i, j | 0 <= i < j < |t| ensures t[i] != t[j] {
      assert t[i] in s <==> b <= i < b + |s|;
      assert t[j] in s <==> b <= j < b + |s|;
    }
  }

  /** The links of d with c[f..l] put in before d[b], where c and d were chained and the
      six writes of a splice have been made. */
  ghost predicate SplicedAcross(c: seq<Elem>, d: seq<Elem>, b: nat, f: nat, l: nat)
    reads c, d
  {
    && 1 <= f < l < |c| && 1 <= b < |d|
    && c[0].prev == null && c[|c|-1].next == null && d[0].prev == null && d[|d|-1].next == null
    && c[f-1].next == c[l] && c[l].prev == c[f-1]
    && d[b-1].next == c[f] && c[f].prev == d[b-1]
    && c[l-1].next == d[b] && d[b].prev == c[l-1]
    && (forall i {:trigger c[i].next} :: 0 <= i < |c| - 1 && i != f - 1 && i != l - 1 ==> c[i].next == c[i+1])
    && (forall i {:trigger c[i].prev} :: 1 <= i < |c| && i != f && i != l ==> c[i].prev == c[i-1])
    && (forall i {:trigger d[i].next} :: 0 <= i < |d| - 1 && i != b - 1 ==> d[i].next == d[i+1])
    && (forall i {:trigger d[i].prev} :: 1 <= i < |d| && i != b ==> d[i].prev == d[i-1])
  }

  lemma AcrossLeft(c: seq<Elem>, d: seq<Elem>, b: nat, f: nat, l: nat)
    requires SplicedAcross(c, d, b, f, l) && Distinct(c)
    ensures Linked(c[..f] + c[l..])
  {
    TakenOut(c, f, l);
    var t := c[..f] + c[l..];
    forall i | 0 <= i < |t| - 1 ensures t[i].next == t[i+1] && t[i+1].prev == t[i] {
    }
  }

  lemma AcrossRight(c: seq<Elem>, d: seq<Elem>, b: nat, f: nat, l: nat)
    requires SplicedAcross(c, d, b, f, l) && Distinct(c) && Distinct(d)
    requires forall i, j :: 0 <= i < |c| && 0 <= j < |d| ==> c[i] != d[j]
    ensures Linked(d[..b] + c[f..l] + d[b..])
  {
    var s := c[f..l];
    forall x | x in s ensures x !in d {
      var i :| 0 <= i < |s| && s[i] == x;
      assert x == c[f + i];
    }
    PutIn(d, b, s);
    var u := d[..b] + s + d[b..];
    forall i | 0 <= i < |u| - 1 ensures u[i].next == u[i+1] && u[i+1].prev == u[i] {
    }
  }

  /** The heap differs from the old one, where the two lists were chained, by the six
      writes of a splice. */
  twostate predicate AcrossWrites(p: (seq<Elem>, seq<Elem>), new b: nat, new f: nat, new l: nat)
    reads p.0, p.1
  {
    var (c, d) := p;
    && 1 <= f < l < |c| && 1 <= b < |d|
    && old(Linked(c)) && old(Linked(d)) && (forall i, j :: 0 <= i < |c| && 0 <= j < |d| ==> c[i] != d[j])
    && (forall x | x in c + d && x != d[b-1] && x != c[f-1] && x != c[l-1] :: x.next == old(x.next))
    && (forall x | x in c + d && x != d[b] && x != c[f] && x != c[l] :: x.prev == old(x.prev))
    && c[f-1].next == c[l] && c[l].prev == c[f-1]
    && d[b-1].next == c[f] && c[f].prev == d[b-1]
    && c[l-1].next == d[b] && d[b].prev == c[l-1]
  }

  twostate lemma AcrossIs(p: (seq<Elem>, seq<Elem>), new b: nat, new f: nat, new l: nat)
    requires AcrossWrites(p, b, f, l)
    ensures SplicedAcross(p.0, p.1, b, f, l)
  {
    var (c, d) := p;
    forall i | 0 <= i < |c| && i != f - 1 && i != l - 1 ensures c[i].next == old(c[i].next) {
      assert c[i] in c + d;
    }
    forall i | 0 <= i < |c| && i != f && i != l ensures c[i].prev == old(c[i].prev) {
      assert c[i] in c + d;
    }
    forall i | 0 <= i < |d| && i != b - 1 ensures d[i].next == old(d[i].next) {
      assert d[i] in c + d;
    }
    forall i | 0 <= i < |d| && i != b ensures d[i].prev == old(d[i].prev) {
      assert d[i] in c + d;
    }
  }

  /** list_splice from one list into another. */
  method SpliceAcross(before: Elem, first: Elem, last: Elem, ghost c: seq<Elem>, ghost d: seq<Elem>,
                      ghost b: nat, ghost f: nat, ghost l: nat)
    requires Linked(c) && Linked(d) && (forall i, j :: 0 <= i < |c| && 0 <= j < |d| ==> c[i] != d[j])
    requires 1 <= f < l < |c| && 1 <= b < |d|
    requires before == d[b] && first == c[f] && last == c[l]
    modifies c, d
    ensures Linked(c[..f] + c[l..]) && Linked(d[..b] + c[f..l] + d[b..])
  {
    var back := last.prev;
    assert back == c[l-1] && first.prev == c[f-1] && before.prev == d[b-1];
    first.prev.next := back.next;
    back.next.prev := first.prev;

    first.prev := before.prev;
    back.next := before;
    before.prev.next := first;
    before.prev := back;
    AcrossIs((c, d), b, f, l);
    hide SplicedAcross;
    AcrossLeft(c, d, b, f, l);
    AcrossRight(c, d, b, f, l);
  }

  // ---- Reversal ------------------------------------------------------------

  /** c with everything between its two ends reversed. */
  ghost function ReversedInside<T>(c: seq<T>): (t: seq<T>)
    requires |c| >= 2
    ensures |t| == |c| && t[0] == c[0] && t[|c|-1] == c[|c|-1]
    ensures forall i :: 1 <= i < |c| - 1 ==> t[i] == c[|c| - 1 - i]
  {
    seq(|c|, i requires 0 <= i < |c| => if 1 <= i < |c| - 1 then c[|c| - 1 - i] else c[i])
  }

  /** The links of c[1..k] point the other way; the rest are as in a list. */
  ghost predicate HalfReversed(c: seq<Elem>, k: nat)
    reads c
  {
    && 1 <= k < |c|
    && c[0].next == c[1] && c[|c|-1].prev == c[|c|-2] && c[0].prev == null && c[|c|-1].next == null
    && (forall i {:trigger c[i].next} :: 1 <= i < k ==> c[i].next == c[i-1])
    && (forall i {:trigger c[i].prev} :: 1 <= i < k ==> c[i].prev == c[i+1])
    && (forall i {:trigger c[i].next} :: k <= i < |c| - 1 ==> c[i].next == c[i+1])
    && (forall i {:trigger c[i].prev} :: k <= i < |c| - 1 ==> c[i].prev == c[i-1])
  }

  lemma ReversedLinked(c: seq<Elem>)
    requires |c| >= 3 && Distinct(c)
    requires c[0].prev == null && c[|c|-1].next == null
    requires c[0].next == c[|c|-2] && c[|c|-2].prev == c[0]
    requires c[|c|-1].prev == c[1] && c[1].next == c[|c|-1]
    requires forall i {:trigger c[i].next} :: 2 <= i <= |c| - 2 ==> c[i].next == c[i-1]
    requires forall i {:trigger c[i].prev} :: 1 <= i < |c| - 2 ==> c[i].prev == c[i+1]
    ensures Linked(ReversedInside(c))
  {
    var t := ReversedInside(c);
    assert Distinct(t);
    forall i | 0 <= i < |t| - 1 ensures t[i].next == t[i+1] && t[i+1].prev == t[i] {
    }
  }

  /** The loop of list_reverse, over the elements between the ends. */
  method SwapLinks(head: Elem, tail: Elem, ghost c: seq<Elem>)
    requires Linked(c) && |c| >= 3 && head == c[0] && tail == c[|c|-1]
    modifies c
    ensures HalfReversed(c, |c| - 1)
  {
    var e := head.next;
    ghost var k := 1;
    while e != tail
      invariant HalfReversed(c, k) && e == c[k]
      decreases |c| - k
    {
      e.prev, e.next := e.next, e.prev;
      e := e.prev;
      k := k + 1;
    }
    assert k == |c| - 1;
  }

  /** list_reverse */
  method ReverseChain(head: Elem, tail: Elem, ghost c: seq<Elem>) returns (ghost t: seq<Elem>)
    requires Linked(c) && head == c[0] && tail == c[|c|-1]
    modifies c
    ensures Linked(t) && t == ReversedInside(c)
  {
    t := ReversedInside(c);
    if head.next == tail {
      assert |c| == 2 by { assert c[0].next == c[1]; }
      assert t == c;
      return;
    }
    SwapLinks(head, tail, c);
    head.next, tail.prev := tail.prev, head.next;
    head.next.prev, tail.prev.next := tail.prev.next, head.next.prev;
    ReversedLinked(c);
  }
}
