/**
  Several kernel lists at once (lib/kernel/list.c): an element is on one list at a
  time, so editing one list leaves the others sound.
 */
module ListFamily {
  import opened Order
  import opened KernelList
  import opened Lists

  /** Lists, and the elements and sentinels that they may be made of. */
  datatype Family = Family(lists: set<List>, elems: set<Elem>)

  /** No element or sentinel of one list is one of the other. */
  ghost predicate Disjoint(l: List, m: List)
    reads l, m
  {
    forall e :: e in l.Chain() ==> e !in m.Chain()
  }

  /** Sound lists, no two of which share an element. */
  ghost predicate Sound(f: Family)
    reads f.lists, f.elems
  {
    && (forall l, e :: l in f.lists && e in l.Chain() ==> e in f.elems)
    && (forall l :: l in f.lists ==> l.Valid())
    && (forall l, m :: l in f.lists && m in f.lists && l != m ==> Disjoint(l, m))
  }

  /** What is on each list. */
  ghost function Nodes(f: Family): (m: map<List, seq<Elem>>)
    reads f.lists
    ensures m.Keys == f.lists
  {
    map l | l in f.lists :: l.nodes
  }

  twostate lemma LinkedKept(c: seq<Elem>)
    requires old(Linked(c)) && forall i :: 0 <= i < |c| ==> unchanged(c[i])
    ensures Linked(c)
  {}

  /** Only l has been edited, and got nothing new but e, which was on no other list. */
  twostate lemma SoundKept(f: Family, new l: List, new e: Elem)
    requires old(Sound(f)) && l in f.lists && l.Valid() && e in f.elems
    requires forall m :: m in f.lists && m != l ==> unchanged(m)
    requires forall m, x :: m in f.lists && m != l && x in old(m.Chain()) ==> unchanged(x) && x != e
    requires forall x :: x in l.nodes ==> x in old(l.nodes) || x == e
    ensures Sound(f)
  {
    assert forall x :: x in l.Chain() ==> x in old(l.Chain()) || x == e;
    forall m | m in f.lists && m != l ensures m.Valid() && Disjoint(l, m) && Disjoint(m, l) {
      assert old(m.Valid()) && old(Disjoint(m, l));
      forall i | 0 <= i < |m.Chain()| ensures unchanged(m.Chain()[i]) {
        assert m.Chain()[i] in old(m.Chain());
      }
      LinkedKept(m.Chain());
    }
    forall m, m' | m in f.lists && m' in f.lists && m != m' ensures Disjoint(m, m') {
      if m != l && m' != l {
        assert old(Disjoint(m, m'));
      }
    }
  }

  lemma SoundFacts(f: Family, l: List)
    requires Sound(f) && l in f.lists
    ensures l.Valid() && forall x :: x in l.Chain() ==> x in f.elems
    ensures forall m, x :: m in f.lists && m != l && x in m.Chain() ==> x !in l.Chain()
  {
    assert forall m :: m in f.lists && m != l ==> Disjoint(m, l);
  }

  /** list_insert_ordered of an element on no list. */
  method InsertInto(ghost f: Family, l: List, e: Elem, less: (Elem, Elem) -> bool)
    requires Sound(f) && l in f.lists && e in f.elems && forall m :: m in f.lists ==> e !in m.Chain()
    modifies l, l.Chain(), e
    ensures Sound(f) && Nodes(f) == old(Nodes(f))[l := Order.InsertOrdered(less, old(l.nodes), e)]
  {
    hide Order.InsertOrdered, Linked, Sound;
    SoundFacts(f, l);
    InsertedInto(less, l.nodes, e);
    l.InsertOrdered(e, less);
    forall m, x | m in f.lists && m != l && x in old(m.Chain()) ensures unchanged(x) && x != e {
      assert x !in old(l.Chain());
    }
    SoundKept(f, l, e);
  }

  lemma InsertedInto(less: (Elem, Elem) -> bool, s: seq<Elem>, e: Elem)
    ensures forall x :: x in Order.InsertOrdered(less, s, e) ==> x in s || x == e
  {}

  /** list_pop_front */
  method PopFrom(ghost f: Family, l: List) returns (e: Elem)
    requires Sound(f) && l in f.lists && l.nodes != []
    modifies l, l.Chain()
    ensures Sound(f) && e == old(l.nodes)[0] && Nodes(f) == old(Nodes(f))[l := old(l.nodes)[1..]]
    ensures forall m :: m in f.lists ==> e !in Nodes(f)[m]
  {
    hide Linked, Sound;
    SoundFacts(f, l);
    FrontOnce(l);
    e := l.PopFront();
    assert e == old(l.nodes)[0] && e in old(l.Chain()) && l.nodes == old(l.nodes)[1..];
    forall m, x | m in f.lists && m != l && x in old(m.Chain()) ensures unchanged(x) && x != e {
      assert x !in old(l.Chain());
    }
    SoundKept(f, l, e);
  }

  lemma FrontOnce(l: List)
    requires l.Valid() && l.nodes != []
    ensures l.nodes[0] !in l.nodes[1..] && l.nodes[0] != l.head && l.nodes[0] != l.tail
  {
    var c := l.Chain();
    forall i | 0 <= i < |c| && i != 1 ensures c[i] != c[1] {
    }
    assert c[0] == l.head && c[1] == l.nodes[0] && c[|c|-1] == l.tail;
    forall i | 0 <= i < |l.nodes[1..]| ensures l.nodes[1..][i] != l.nodes[0] {
      assert l.nodes[1..][i] == c[i+2];
    }
  }

  /** list_sort */
  method SortIn(ghost f: Family, l: List, less: (Elem, Elem) -> bool)
    requires Sound(f) && l in f.lists && StrictWeak(less, Elements(l.nodes))
    modifies l, l.Chain()
    ensures Sound(f) && Nodes(f) == old(Nodes(f))[l := InsertionSort(less, old(l.nodes))]
    ensures forall x :: x in l.nodes ==> x in old(l.nodes)
  {
    hide Linked, Sound, InsertionSort, StrictWeak, IsStableSort;
    SoundFacts(f, l);
    assert l.head in l.Chain();
    ghost var _ := l.Sort(less);
    SortedFrom(less, old(l.nodes), l.nodes);
    forall m, x | m in f.lists && m != l && x in old(m.Chain()) ensures unchanged(x) && x != l.head {
      assert x !in old(l.Chain());
    }
    SoundKept(f, l, l.head);
  }

  lemma SortedFrom(less: (Elem, Elem) -> bool, s: seq<Elem>, t: seq<Elem>)
    requires IsStableSort(less, s, t)
    ensures forall x :: x in t ==> x in s
  {
    SameMembers(s, t);
  }
}
