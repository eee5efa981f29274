/**
  The ready list and the semaphores' wait lists (threads/thread.c, threads/synch.c) as
  the kernel lists they are: they share the one element that each thread has
  (threads/thread.h), and stay sound and disjoint.
 */
module ThreadQueues {
  import opened Order
  import opened KernelList
  import opened Lists
  import opened ListFamily
  import opened Scheduler

  // ---- Lists of elements as lists of threads --------------------------------

  /** list_entry (e, struct thread, elem) */
  function TidOf(owner: map<Elem, Tid>, e: Elem): (t: Tid) { if e in owner then owner[e] else 0 }

  ghost function Tids(owner: map<Elem, Tid>, s: seq<Elem>): (ts: seq<Tid>)
    ensures |ts| == |s|
  {
    seq(|s|, i requires 0 <= i < |s| => TidOf(owner, s[i]))
  }

  /** comparePriority, on list elements */
  function HigherElem(prio: map<Tid, int>, owner: map<Elem, Tid>): (less: (Elem, Elem) -> bool) {
    (a: Elem, b: Elem) => PriorityOf(prio, TidOf(owner, a)) > PriorityOf(prio, TidOf(owner, b))
  }

  lemma HigherElemIsOrder(prio: map<Tid, int>, owner: map<Elem, Tid>, dom: set<Elem>)
    ensures StrictWeak(HigherElem(prio, owner), dom)
  {}

  /** Inserting an element in order inserts its thread in order. */
  lemma TidsInsert(prio: map<Tid, int>, owner: map<Elem, Tid>, s: seq<Elem>, e: Elem)
    ensures Tids(owner, Order.InsertOrdered(HigherElem(prio, owner), s, e))
         == Order.InsertOrdered(Higher(prio), Tids(owner, s), TidOf(owner, e))
  {
    hide InsertPoint;
    var k := InsertPoint(HigherElem(prio, owner), s, e);
    InsertPointUnique(Higher(prio), Tids(owner, s), TidOf(owner, e), k);
    TidsSplice(owner, s, k, e);
  }

  lemma TidsSplice(owner: map<Elem, Tid>, s: seq<Elem>, k: nat, e: Elem)
    requires k <= |s|
    ensures var ts := Tids(owner, s); Tids(owner, s[..k] + [e] + s[k..]) == ts[..k] + [TidOf(owner, e)] + ts[k..]
  {}

  lemma TidsLast(owner: map<Elem, Tid>, s: seq<Elem>)
    requires s != []
    ensures var n, ts := |s| - 1, Tids(owner, s); Tids(owner, s[..n]) == ts[..n] && TidOf(owner, s[n]) == ts[n]
  {}

  /** Sorting the elements sorts the threads. */
  lemma {:induction false} TidsSort(prio: map<Tid, int>, owner: map<Elem, Tid>, s: seq<Elem>)
    ensures Tids(owner, InsertionSort(HigherElem(prio, owner), s)) == InsertionSort(Higher(prio), Tids(owner, s))
  {
    hide Order.InsertOrdered, HigherElem, Higher, Tids;
    if s != [] {
      var n := |s| - 1;
      TidsSort(prio, owner, s[..n]);
      TidsLast(owner, s);
      TidsInsert(prio, owner, InsertionSort(HigherElem(prio, owner), s[..n]), s[n]);
    }
  }

  lemma TidsFront(owner: map<Elem, Tid>, s: seq<Elem>)
    ensures s != [] ==> TidOf(owner, s[0]) == Tids(owner, s)[0] && Tids(owner, s[1..]) == Tids(owner, s)[1..]
  {}

  // ---- The invariant -----------------------------------------------------------

  /** The lists are the ready list and one wait list per semaphore. */
  ghost predicate Indexed(lists: set<List>, ready: List, waitLists: map<Sid, List>, semaOf: map<List, Sid>) {
    && ready in lists
    && (forall s :: s in waitLists ==>
          waitLists[s] in lists && waitLists[s] != ready && waitLists[s] in semaOf && semaOf[waitLists[s]] == s)
    && (forall l :: l in lists && l != ready ==> l in semaOf && semaOf[l] in waitLists && waitLists[semaOf[l]] == l)
  }

  /** The lists hold elements of threads, and their sentinels are none. */
  ghost predicate Owned(f: Family, nodes: map<List, seq<Elem>>, elem: map<Tid, Elem>, owner: map<Elem, Tid>) {
    && nodes.Keys == f.lists
    && (forall t :: t in elem ==> elem[t] in owner && owner[elem[t]] == t && elem[t] in f.elems)
    && (forall l :: l in f.lists ==> l.head !in owner && l.tail !in owner)
    && (forall l, e :: l in nodes && e in nodes[l] ==> e in owner && owner[e] in elem && elem[owner[e]] == e)
  }

  /** The threads that wait for each semaphore. */
  ghost function WaitMap(waitLists: map<Sid, List>, nodes: map<List, seq<Elem>>, owner: map<Elem, Tid>): (w: map<Sid, seq<Tid>>)
    ensures w.Keys == waitLists.Keys
    ensures forall s :: s in waitLists && waitLists[s] in nodes ==> w[s] == Tids(owner, nodes[waitLists[s]])
  {
    map s | s in waitLists :: if waitLists[s] in nodes then Tids(owner, nodes[waitLists[s]]) else []
  }

  /** The thread is on no list. */
  ghost predicate OffLists(t: Tid, ready: seq<Tid>, waiting: map<Sid, seq<Tid>>) {
    t !in ready && forall s :: s in waiting ==> t !in waiting[s]
  }

  lemma NotAmong(owner: map<Elem, Tid>, s: seq<Elem>, e: Elem)
    requires TidOf(owner, e) !in Tids(owner, s)
    ensures e !in s
  {
    forall i | 0 <= i < |s| ensures s[i] != e {
      assert Tids(owner, s)[i] == TidOf(owner, s[i]);
    }
  }

  lemma AloneSound(l: List, es: set<Elem>)
    requires l.Valid() && l.nodes == [] && l.head in es && l.tail in es
    ensures var f := Family({l}, es);
            && Sound(f) && Indexed({l}, l, map[], map[]) && Owned(f, Nodes(f), map[], map[])
            && Tids(map[], l.nodes) == [] && WaitMap(map[], Nodes(f), map[]) == map[]
  {}

  lemma OffListsElem(f: Family, nodes: map<List, seq<Elem>>, elem: map<Tid, Elem>, owner: map<Elem, Tid>,
                     ready: List, waitLists: map<Sid, List>, semaOf: map<List, Sid>, t: Tid)
    requires Indexed(f.lists, ready, waitLists, semaOf) && Owned(f, nodes, elem, owner) && t in elem
    requires OffLists(t, Tids(owner, nodes[ready]), WaitMap(waitLists, nodes, owner))
    ensures elem[t] in f.elems && TidOf(owner, elem[t]) == t
    ensures forall l :: l in f.lists ==> elem[t] !in nodes[l] && elem[t] != l.head && elem[t] != l.tail
  {
    hide Tids;
    var w := WaitMap(waitLists, nodes, owner);
    forall l | l in f.lists ensures elem[t] !in nodes[l] {
      if l != ready {
        var s := semaOf[l];
        assert s in w && waitLists[s] == l;
        assert t !in w[s];
      }
      NotAmong(owner, nodes[l], elem[t]);
    }
  }

  /** An edit of l that brings no element but one of a thread. */
  lemma OwnedEdit(f: Family, nodes: map<List, seq<Elem>>, elem: map<Tid, Elem>, owner: map<Elem, Tid>, l: List, ns: seq<Elem>)
    requires Owned(f, nodes, elem, owner) && l in f.lists
    requires forall e :: e in ns ==> e in nodes[l] || (e in owner && owner[e] in elem && elem[owner[e]] == e)
    ensures Owned(f, nodes[l := ns], elem, owner)
  {
    var nodes' := nodes[l := ns];
    forall m, e | m in nodes' && e in nodes'[m] ensures e in owner && owner[e] in elem && elem[owner[e]] == e {
      assert m != l ==> e in nodes[m];
    }
  }

  lemma ReadyEdit(lists: set<List>, ready: List, waitLists: map<Sid, List>, semaOf: map<List, Sid>,
                  nodes: map<List, seq<Elem>>, owner: map<Elem, Tid>, ns: seq<Elem>)
    requires Indexed(lists, ready, waitLists, semaOf) && nodes.Keys == lists
    ensures WaitMap(waitLists, nodes[ready := ns], owner) == WaitMap(waitLists, nodes, owner)
  {
    hide Tids;
    var w, w' := WaitMap(waitLists, nodes, owner), WaitMap(waitLists, nodes[ready := ns], owner);
    forall u | u in waitLists ensures w'[u] == w[u] {
      assert waitLists[u] != ready;
    }
  }

  lemma WaitEdit(lists: set<List>, ready: List, waitLists: map<Sid, List>, semaOf: map<List, Sid>,
                 nodes: map<List, seq<Elem>>, owner: map<Elem, Tid>, s: Sid, ns: seq<Elem>)
    requires Indexed(lists, ready, waitLists, semaOf) && nodes.Keys == lists && s in waitLists
    ensures var nodes' := nodes[waitLists[s] := ns];
            && nodes'[ready] == nodes[ready]
            && WaitMap(waitLists, nodes', owner) == WaitMap(waitLists, nodes, owner)[s := Tids(owner, ns)]
  {
    hide Tids;
    var w, w' := WaitMap(waitLists, nodes, owner), WaitMap(waitLists, nodes[waitLists[s] := ns], owner);
    forall u | u in waitLists ensures w'[u] == if u == s then Tids(owner, ns) else w[u] {
      assert u != s ==> waitLists[u] != waitLists[s];
    }
  }

  lemma OwnedAt(f: Family, nodes: map<List, seq<Elem>>, elem: map<Tid, Elem>, owner: map<Elem, Tid>, l: List, e: Elem)
    requires Owned(f, nodes, elem, owner) && l in f.lists && e in nodes[l]
    ensures e in owner && owner[e] in elem && elem[owner[e]] == e
  {}

  lemma WaitList(lists: set<List>, ready: List, waitLists: map<Sid, List>, semaOf: map<List, Sid>, s: Sid)
    requires Indexed(lists, ready, waitLists, semaOf) && s in waitLists
    ensures ready in lists && waitLists[s] in lists
  {}

  /** An element on no list is that of a thread on no list. */
  lemma OffListsTid(f: Family, nodes: map<List, seq<Elem>>, elem: map<Tid, Elem>, owner: map<Elem, Tid>,
                    ready: List, waitLists: map<Sid, List>, semaOf: map<List, Sid>, e: Elem)
    requires Indexed(f.lists, ready, waitLists, semaOf) && Owned(f, nodes, elem, owner)
    requires e in owner && owner[e] in elem && elem[owner[e]] == e && forall l :: l in f.lists ==> e !in nodes[l]
    ensures OffLists(TidOf(owner, e), Tids(owner, nodes[ready]), WaitMap(waitLists, nodes, owner))
  {
    var t := TidOf(owner, e);
    forall l | l in f.lists ensures t !in Tids(owner, nodes[l]) {
      forall i | 0 <= i < |nodes[l]| ensures Tids(owner, nodes[l])[i] != t {
        assert nodes[l][i] in nodes[l];
      }
    }
  }

  lemma TidsSame(owner: map<Elem, Tid>, e: Elem, t: Tid, s: seq<Elem>)
    requires e !in s
    ensures Tids(owner[e := t], s) == Tids(owner, s)
  {}

  lemma ThreadEdit(f: Family, nodes: map<List, seq<Elem>>, elem: map<Tid, Elem>, owner: map<Elem, Tid>,
                   ready: List, waitLists: map<Sid, List>, semaOf: map<List, Sid>, t: Tid, e: Elem)
    requires Indexed(f.lists, ready, waitLists, semaOf) && Owned(f, nodes, elem, owner) && t !in elem && e !in f.elems
    requires forall l :: l in f.lists ==> l.head != e && l.tail != e && e !in nodes[l]
    ensures var f', elem', owner' := f.(elems := f.elems + {e}), elem[t := e], owner[e := t];
            && Owned(f', nodes, elem', owner')
            && Tids(owner', nodes[ready]) == Tids(owner, nodes[ready])
            && WaitMap(waitLists, nodes, owner') == WaitMap(waitLists, nodes, owner)
            && OffLists(t, Tids(owner, nodes[ready]), WaitMap(waitLists, nodes, owner))
  {
    hide Tids, WaitMap, OffLists;
    forall l | l in f.lists ensures Tids(owner[e := t], nodes[l]) == Tids(owner, nodes[l]) {
      TidsSame(owner, e, t, nodes[l]);
    }
    SameWaitMap(f.lists, ready, waitLists, semaOf, nodes, owner, owner[e := t]);
    OwnedMore(f, nodes, elem, owner, t, e);
    hide Owned;
    OffListsTid(f.(elems := f.elems + {e}), nodes, elem[t := e], owner[e := t], ready, waitLists, semaOf, e);
  }

  lemma OwnedMore(f: Family, nodes: map<List, seq<Elem>>, elem: map<Tid, Elem>, owner: map<Elem, Tid>, t: Tid, e: Elem)
    requires Owned(f, nodes, elem, owner) && t !in elem && e !in f.elems
    requires forall l :: l in f.lists ==> l.head != e && l.tail != e && e !in nodes[l]
    ensures Owned(f.(elems := f.elems + {e}), nodes, elem[t := e], owner[e := t])
  {}

  lemma SameWaitMap(lists: set<List>, ready: List, waitLists: map<Sid, List>, semaOf: map<List, Sid>,
                    nodes: map<List, seq<Elem>>, owner: map<Elem, Tid>, owner': map<Elem, Tid>)
    requires Indexed(lists, ready, waitLists, semaOf) && nodes.Keys == lists
    requires forall l :: l in lists ==> Tids(owner', nodes[l]) == Tids(owner, nodes[l])
    ensures WaitMap(waitLists, nodes, owner') == WaitMap(waitLists, nodes, owner)
  {
    hide Tids;
  }

  lemma SemaEdit(f: Family, nodes: map<List, seq<Elem>>, elem: map<Tid, Elem>, owner: map<Elem, Tid>,
                 ready: List, waitLists: map<Sid, List>, semaOf: map<List, Sid>, s: Sid, l: List)
    requires Indexed(f.lists, ready, waitLists, semaOf) && Owned(f, nodes, elem, owner) && s !in waitLists && l !in f.lists
    requires l.head !in owner && l.tail !in owner
    ensures var f', nodes' := Family(f.lists + {l}, f.elems + {l.head, l.tail}), nodes[l := []];
            && Indexed(f'.lists, ready, waitLists[s := l], semaOf[l := s]) && Owned(f', nodes', elem, owner)
            && nodes'[ready] == nodes[ready]
            && WaitMap(waitLists[s := l], nodes', owner) == WaitMap(waitLists, nodes, owner)[s := []]
  {
    hide Tids, WaitMap;
    NewWaitMap(f.lists, ready, waitLists, semaOf, nodes, owner, s, l);
    OwnedList(f, nodes, elem, owner, l);
    hide Owned;
  }

  lemma OwnedList(f: Family, nodes: map<List, seq<Elem>>, elem: map<Tid, Elem>, owner: map<Elem, Tid>, l: List)
    requires Owned(f, nodes, elem, owner) && l.head !in owner && l.tail !in owner
    ensures Owned(Family(f.lists + {l}, f.elems + {l.head, l.tail}), nodes[l := []], elem, owner)
  {}

  lemma NewWaitMap(lists: set<List>, ready: List, waitLists: map<Sid, List>, semaOf: map<List, Sid>,
                   nodes: map<List, seq<Elem>>, owner: map<Elem, Tid>, s: Sid, l: List)
    requires Indexed(lists, ready, waitLists, semaOf) && nodes.Keys == lists && s !in waitLists && l !in lists
    ensures WaitMap(waitLists[s := l], nodes[l := []], owner) == WaitMap(waitLists, nodes, owner)[s := []]
  {
    assert Tids(owner, []) == [];
    hide Tids;
  }

  lemma SoundElems(f: Family)
    requires Sound(f)
    ensures forall l :: l in f.lists ==> l.head in f.elems && l.tail in f.elems && forall e :: e in l.nodes ==> e in f.elems
    ensures forall l, e :: l in f.lists && e in l.Chain() ==> e in f.elems
  {
    forall l | l in f.lists ensures l.head in l.Chain() && l.tail in l.Chain() && forall e :: e in l.nodes ==> e in l.Chain() {
    }
  }

  lemma MoreElems(f: Family, es: set<Elem>)
    requires Sound(f)
    ensures Sound(f.(elems := f.elems + es))
  {}

  lemma NewList(f: Family, l: List)
    requires Sound(f) && l.Valid() && l.nodes == [] && l.head !in f.elems && l.tail !in f.elems
    ensures var f' := Family(f.lists + {l}, f.elems + {l.head, l.tail});
            l !in f.lists && Sound(f') && Nodes(f') == Nodes(f)[l := []]
  {
    hide Linked;
    SoundElems(f);
    assert l !in f.lists;
    forall m, e | m in f.lists && e in m.Chain() ensures e !in l.Chain() {
      assert e in f.elems;
    }
  }

  class Queues {
    /** The `elem' member of each thread, and the thread around each element. */
    var elem: map<Tid, Elem>
    var owner: map<Elem, Tid>
    const readyList: List
    var waitLists: map<Sid, List>
    /** The lists, with what they are made of, and the semaphore of each wait list. */
    ghost var family: Family
    ghost var semaOf: map<List, Sid>
    /** The threads on the ready list and on each wait list. */
    ghost var ready: seq<Tid>
    ghost var waiting: map<Sid, seq<Tid>>

    ghost function Repr(): (r: set<object>)
      reads this
    {
      {this} + family.lists + family.elems
    }

    ghost predicate Valid()
      reads this, family.lists, family.elems
    {
      && Sound(family) && Indexed(family.lists, readyList, waitLists, semaOf) && Owned(family, Nodes(family), elem, owner)
      && ready == Tids(owner, Nodes(family)[readyList]) && waiting == WaitMap(waitLists, Nodes(family), owner)
    }

    /** The ready list of thread_init; no thread and no semaphore exists. */
    constructor ()
      ensures Valid() && fresh(family.lists) && fresh(family.elems) && elem == map[] && ready == [] && waiting == map[]
    {
      var l := new List();
      elem, owner, waitLists := map[], map[], map[];
      readyList := l;
      family, semaOf := Family({l}, {l.head, l.tail}), map[];
      ready, waiting := [], map[];
      new;
      hide Sound, Indexed, Owned, Tids, WaitMap, Linked, List.Valid;
      AloneSound(l, family.elems);
    }

    /** list_insert_ordered of a thread's element, by priority. */
    method Insert(l: List, t: Tid, prio: map<Tid, int>) returns (ghost ns: seq<Elem>)
      requires Valid() && l in family.lists && t in elem && OffLists(t, ready, waiting)
      modifies family.lists, family.elems
      ensures Sound(family) && Owned(family, Nodes(family), elem, owner) && Nodes(family) == old(Nodes(family))[l := ns]
      ensures Tids(owner, ns) == Order.InsertOrdered(Higher(prio), Tids(owner, old(l.nodes)), t)
    {
      hide Sound, Order.InsertOrdered, Tids, OffLists, Indexed, WaitMap;
      ghost var nodes := Nodes(family);
      OffListsElem(family, nodes, elem, owner, readyList, waitLists, semaOf, t);
      SoundFacts(family, l);
      TidsInsert(prio, owner, l.nodes, elem[t]);
      InsertedInto(HigherElem(prio, owner), l.nodes, elem[t]);
      ns := Order.InsertOrdered(HigherElem(prio, owner), l.nodes, elem[t]);
      OwnedEdit(family, nodes, elem, owner, l, ns);
      hide Owned;
      InsertInto(family, l, elem[t], HigherElem(prio, owner));
    }

    /** list_pop_front of a thread's element. */
    method Pop(l: List) returns (t: Tid)
      requires Sound(family) && Indexed(family.lists, readyList, waitLists, semaOf) && Owned(family, Nodes(family), elem, owner)
      requires l in family.lists && l.nodes != []
      modifies family.lists, family.elems
      ensures Sound(family) && Owned(family, Nodes(family), elem, owner)
      ensures Nodes(family) == old(Nodes(family))[l := old(l.nodes)[1..]]
      ensures t == TidOf(owner, old(l.nodes)[0]) && t in elem
      ensures OffLists(t, Tids(owner, Nodes(family)[readyList]), WaitMap(waitLists, Nodes(family), owner))
    {
      hide Sound, Tids, OffLists, WaitMap, Owned, Indexed;
      ghost var nodes := Nodes(family);
      SoundFacts(family, l);
      OwnedEdit(family, nodes, elem, owner, l, l.nodes[1..]);
      OwnedAt(family, nodes, elem, owner, l, l.nodes[0]);
      var e := PopFrom(family, l);
      t := TidOf(owner, e);
      OffListsTid(family, Nodes(family), elem, owner, readyList, waitLists, semaOf, e);
    }

    /** list_sort of threads' elements, by priority. */
    method SortList(l: List, prio: map<Tid, int>)
      requires Sound(family) && Owned(family, Nodes(family), elem, owner) && l in family.lists
      modifies family.lists, family.elems
      ensures Sound(family) && Owned(family, Nodes(family), elem, owner)
      ensures Nodes(family) == old(Nodes(family))[l := InsertionSort(HigherElem(prio, owner), old(l.nodes))]
    {
      hide Sound, InsertionSort, StrictWeak;
      ghost var nodes := Nodes(family);
      SoundFacts(family, l);
      HigherElemIsOrder(prio, owner, Elements(l.nodes));
      SortIn(family, l, HigherElem(prio, owner));
      OwnedEdit(family, nodes, elem, owner, l, l.nodes);
    }

    /** list_insert_ordered on the ready list. */
    method MakeReady(t: Tid, prio: map<Tid, int>)
      requires Valid() && t in elem && OffLists(t, ready, waiting)
      modifies this`ready, family.lists, family.elems
      ensures Valid() && ready == Order.InsertOrdered(Higher(prio), old(ready), t)
    {
      hide Sound, Owned, OffLists, Tids, Order.InsertOrdered, WaitMap;
      ghost var nodes := Nodes(family);
      ghost var ns := Insert(readyList, t, prio);
      ReadyEdit(family.lists, readyList, waitLists, semaOf, nodes, owner, ns);
      ready := Tids(owner, ns);
    }

    /** The thread at the front of the ready list, if there is one. */
    method FirstReady() returns (empty: bool, t: Tid)
      requires Valid()
      ensures empty <==> ready == []
      ensures !empty ==> t == ready[0]
    {
      hide Owned;
      SoundFacts(family, readyList);
      t := 0;
      empty := readyList.IsEmpty();
      if !empty {
        var e := readyList.Front();
        t := TidOf(owner, e);
      }
    }

    /** list_pop_front on the ready list. */
    method PopReady() returns (t: Tid)
      requires Valid() && ready != []
      modifies this`ready, family.lists, family.elems
      ensures Valid() && t in elem && t == old(ready)[0] && ready == old(ready)[1..]
    {
      hide Sound, Owned, OffLists, WaitMap;
      ghost var nodes := Nodes(family);
      t := Pop(readyList);
      ReadyEdit(family.lists, readyList, waitLists, semaOf, nodes, owner, nodes[readyList][1..]);
      ready := ready[1..];
    }

    /** list_insert_ordered on a wait list. */
    method Await(s: Sid, t: Tid, prio: map<Tid, int>)
      requires Valid() && s in waiting && t in elem && OffLists(t, ready, waiting)
      modifies this`waiting, family.lists, family.elems
      ensures Valid() && waiting == old(waiting)[s := Order.InsertOrdered(Higher(prio), old(waiting)[s], t)]
    {
      hide Sound, Owned, OffLists, Tids, Order.InsertOrdered, Indexed;
      WaitList(family.lists, readyList, waitLists, semaOf, s);
      ghost var nodes := Nodes(family);
      ghost var ns := Insert(waitLists[s], t, prio);
      hide WaitMap;
      WaitEdit(family.lists, readyList, waitLists, semaOf, nodes, owner, s, ns);
      waiting := waiting[s := Tids(owner, ns)];
    }

    /** list_empty on a wait list. */
    method NobodyWaits(s: Sid) returns (b: bool)
      requires Valid() && s in waiting
      ensures b <==> waiting[s] == []
    {
      hide Owned;
      SoundFacts(family, waitLists[s]);
      b := waitLists[s].IsEmpty();
    }

    /** list_sort by priority on a wait list. */
    method SortWaiters(s: Sid, prio: map<Tid, int>)
      requires Valid() && s in waiting
      modifies this`waiting, family.lists, family.elems
      ensures Valid() && waiting == old(waiting)[s := InsertionSort(Higher(prio), old(waiting)[s])]
    {
      hide Sound, Owned, OffLists, InsertionSort, Tids, Indexed;
      WaitList(family.lists, readyList, waitLists, semaOf, s);
      ghost var nodes, l := Nodes(family), waitLists[s];
      TidsSort(prio, owner, nodes[l]);
      SortList(waitLists[s], prio);
      hide WaitMap;
      WaitEdit(family.lists, readyList, waitLists, semaOf, nodes, owner, s, InsertionSort(HigherElem(prio, owner), nodes[l]));
      waiting := waiting[s := InsertionSort(Higher(prio), waiting[s])];
    }

    /** list_pop_front on a wait list. */
    method PopWaiter(s: Sid) returns (t: Tid)
      requires Valid() && s in waiting && waiting[s] != []
      modifies this`waiting, family.lists, family.elems
      ensures Valid() && t in elem && OffLists(t, ready, waiting)
      ensures t == old(waiting)[s][0] && waiting == old(waiting)[s := old(waiting)[s][1..]]
    {
      hide Sound, Owned, OffLists, Tids, Indexed;
      WaitList(family.lists, readyList, waitLists, semaOf, s);
      ghost var nodes, l := Nodes(family), waitLists[s];
      TidsFront(owner, nodes[l]);
      t := Pop(waitLists[s]);
      hide WaitMap;
      WaitEdit(family.lists, readyList, waitLists, semaOf, nodes, owner, s, nodes[l][1..]);
      waiting := waiting[s := waiting[s][1..]];
    }

    /** A new thread, with an element of its own. */
    method AddThread(t: Tid)
      requires Valid() && t !in elem
      modifies this`elem, this`owner, this`family
      ensures Valid() && family.lists == old(family.lists) && fresh(family.elems - old(family.elems))
      ensures elem.Keys == old(elem.Keys) + {t} && OffLists(t, ready, waiting)
    {
      hide Sound, Tids, OffLists, WaitMap, Owned, Indexed;
      ghost var f, nodes := family, Nodes(family);
      SoundElems(f);
      var e := new Elem();
      assert e !in f.elems;
      ThreadEdit(f, nodes, elem, owner, readyList, waitLists, semaOf, t, e);
      MoreElems(f, {e});
      elem, owner := elem[t := e], owner[e := t];
      family := family.(elems := family.elems + {e});
      assert Nodes(family) == nodes;
    }

    /** An empty list becomes the wait list of a new semaphore. */
    method LinkSema(s: Sid, l: List)
      requires Valid() && s !in waiting && l.Valid() && l.nodes == []
      requires l.head !in family.elems && l.tail !in family.elems && l.head !in owner && l.tail !in owner
      modifies this`waitLists, this`semaOf, this`family, this`waiting
      ensures Valid() && family == Family(old(family.lists) + {l}, old(family.elems) + {l.head, l.tail})
      ensures waiting == old(waiting)[s := []]
    {
      hide Sound, Tids, WaitMap, Owned, Indexed, Linked, List.Valid, Nodes;
      NewList(family, l);
      SemaEdit(family, Nodes(family), elem, owner, readyList, waitLists, semaOf, s, l);
      waitLists, semaOf := waitLists[s := l], semaOf[l := s];
      family := Family(family.lists + {l}, family.elems + {l.head, l.tail});
      waiting := waiting[s := []];
    }

    /** list_init of a new semaphore's wait list. */
    method AddSema(s: Sid)
      requires Valid() && s !in waiting
      modifies this`waitLists, this`semaOf, this`family, this`waiting
      ensures Valid() && fresh(Repr() - old(Repr())) && waiting == old(waiting)[s := []]
    {
      hide Sound, Tids, WaitMap, Owned, Indexed, Linked, List.Valid, Nodes;
      var l := new List();
      LinkSema(s, l);
    }
  }
}
