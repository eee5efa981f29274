/**
  priority_donation (threads/synch.c): the walk along the chain of threads that
  wait for each other's locks.
 */
module Donation {

  class Lock {
    var holder: Thread?
  }

  class Thread {
    var priority: int
    var tryLock: Lock?

    /** The thread that holds the lock this one waits for. */
    ghost function WaitsFor(): (t: Thread?)
      reads this`tryLock, (if tryLock == null then {} else {tryLock})`holder
    {
      if tryLock == null then null else tryLock.holder
    }
  }

  type Graph = map<Thread, Thread?>

  /** The wait-for graph of a set of threads; it may have cycles. */
  ghost function WaitGraph(ts: set<Thread>): (g: Graph)
    reads ts`tryLock, (set t | t in ts && t.tryLock != null :: t.tryLock)`holder
  {
    map t | t in ts :: t.WaitsFor()
  }

  ghost predicate Closed(g: Graph) {
    forall t :: t in g && g[t] != null ==> g[t] in g
  }

  /** The thread n steps ahead of t in the wait-for graph. */
  ghost function Ahead(g: Graph, t: Thread, n: nat): (r: Thread?)
    requires Closed(g) && t in g
    ensures r != null ==> r in g
  {
    if n == 0 then t else
    var u := Ahead(g, t, n - 1);
    if u == null then null else g[u]
  }

  /** u is one that t waits for, directly or not. */
  ghost predicate Awaited(g: Graph, t: Thread, u: Thread)
    requires Closed(g) && t in g
  {
    exists n: nat :: n > 0 && Ahead(g, t, n) == u
  }

  /** The holder of the lock that t waits for has at least t's priority. */
  ghost predicate EdgeOk(g: Graph, p: map<Thread, int>, t: Thread)
    requires Closed(g) && t in g && g.Keys <= p.Keys
  {
    g[t] == null || p[g[t]] >= p[t]
  }

  ghost function Priorities(ts: set<Thread>): (p: map<Thread, int>)
    reads ts`priority
  {
    map t | t in ts :: t.priority
  }

  /** The walk has reached t within its first n steps. */
  ghost predicate Passed(g: Graph, start: Thread, t: Thread, n: nat)
    requires Closed(g) && start in g
  {
    exists i: nat :: 0 < i <= n && Ahead(g, start, i) == t
  }

  /** Where the walk has got to after n steps from `start`: every thread on the way
      now has the donated priority, which was more than it had, and no other
      priority has changed. */
  ghost predicate Walked(g: Graph, start: Thread, p0: map<Thread, int>, p: map<Thread, int>, n: nat) {
    && Closed(g) && start in g && g.Keys == p0.Keys == p.Keys
    && (forall i: nat :: i <= n ==> Ahead(g, start, i) != null && p[Ahead(g, start, i)] == p0[start])
    && (forall t :: t in g ==> p[t] == p0[t] || (p0[t] < p[t] && Passed(g, start, t, n)))
  }

  /** The walk stops: nobody is ahead, or whoever is needs no donation. */
  ghost predicate Stopped(g: Graph, start: Thread, p0: map<Thread, int>, p: map<Thread, int>, n: nat)
    requires Walked(g, start, p0, p, n)
  {
    var next := Ahead(g, start, n + 1);
    next == null || p[next] >= p0[start]
  }

  lemma WalkBegins(g: Graph, start: Thread, p0: map<Thread, int>)
    requires Closed(g) && start in g && g.Keys == p0.Keys
    ensures Walked(g, start, p0, p0, 0)
  {}

  lemma WalkStep(g: Graph, start: Thread, p0: map<Thread, int>, p: map<Thread, int>, n: nat, next: Thread)
    requires Walked(g, start, p0, p, n) && Ahead(g, start, n + 1) == next && p[next] < p0[start]
    ensures Walked(g, start, p0, p[next := p0[start]], n + 1)
  {
    var p' := p[next := p0[start]];
    forall i: nat | i <= n + 1 ensures Ahead(g, start, i) != null && p'[Ahead(g, start, i)] == p0[start] {}
    forall t | t in g ensures p'[t] == p0[t] || (p0[t] < p'[t] && Passed(g, start, t, n + 1)) {
      if t == next {
        assert Ahead(g, start, n + 1) == t;
      }
    }
  }

  ghost function Below(p: map<Thread, int>, x: int): (s: set<Thread>) {
    set t | t in p && p[t] < x
  }

  lemma BelowShrinks(p: map<Thread, int>, t: Thread, x: int)
    requires t in p && p[t] < x
    ensures Below(p[t := x], x) < Below(p, x)
  {
    assert t in Below(p, x) && t !in Below(p[t := x], x);
  }

  /** Raising one thread. */
  method Raise(t: Thread, x: int, ghost ts: set<Thread>)
    requires t in ts
    modifies t`priority
    ensures t.priority == x && Priorities(ts) == old(Priorities(ts))[t := x]
    ensures WaitGraph(ts) == old(WaitGraph(ts))
  {
    t.priority := x;
  }

  /** priority_donation. It ends on every wait-for graph, cyclic ones too, because
      each step takes a thread out of those below the donated priority. */
  method PriorityDonation(current: Thread, ghost ts: set<Thread>) returns (ghost n: nat)
    requires current in ts && Closed(WaitGraph(ts))
    modifies ts`priority
    ensures WaitGraph(ts) == old(WaitGraph(ts))
    ensures Walked(WaitGraph(ts), current, old(Priorities(ts)), Priorities(ts), n)
    ensures Stopped(WaitGraph(ts), current, old(Priorities(ts)), Priorities(ts), n)
  {
    var cur, lock := current, current.tryLock;
    n := 0;
    ghost var g, p0, donated := WaitGraph(ts), Priorities(ts), current.priority;
    WalkBegins(g, current, p0);
    hide Walked, Below, WaitGraph, Priorities, Ahead, Closed;
    WaitStep(ts, current, current, 0);
    while lock != null
      invariant cur in ts && lock == cur.tryLock && cur.priority == donated == p0[current]
      invariant WaitGraph(ts) == g && cur == Ahead(g, current, n)
      invariant Walked(g, current, p0, Priorities(ts), n)
      decreases Below(Priorities(ts), donated)
    {
      if lock.holder == null {
        break;
      }
      WaitStep(ts, current, cur, n);
      if lock.holder.priority < cur.priority {
        WalkStep(g, current, p0, Priorities(ts), n, lock.holder);
        BelowShrinks(Priorities(ts), lock.holder, donated);
        var priority := cur.priority;
        cur := lock.holder;
        Raise(cur, priority, ts);
        lock := cur.tryLock;
        n := n + 1;
      } else {
        break;
      }
    }
    WaitStep(ts, current, cur, n);
  }

  /** One edge of the wait-for graph, read off the heap. */
  lemma WaitStep(ts: set<Thread>, start: Thread, cur: Thread, n: nat)
    requires start in ts && cur in ts && Closed(WaitGraph(ts))
    ensures start in WaitGraph(ts) && Ahead(WaitGraph(ts), start, 0) == start
    ensures Ahead(WaitGraph(ts), start, n) == cur ==> Ahead(WaitGraph(ts), start, n + 1) == cur.WaitsFor()
    ensures cur in Priorities(ts) && Priorities(ts)[cur] == cur.priority
    ensures cur.WaitsFor() != null ==>
              cur.WaitsFor() in ts && cur.WaitsFor() in Priorities(ts) && Priorities(ts)[cur.WaitsFor()] == cur.WaitsFor().priority
  {}

  // ---- What the walk achieves ----------------------------------------------

  /** Past the point where the walk stops, nobody on the chain is below the donated
      priority, provided only the edge of `start` could be violated before. */
  lemma {:induction false} NobodyBelowAhead(g: Graph, start: Thread, p0: map<Thread, int>, p: map<Thread, int>, n: nat, i: nat)
    requires Walked(g, start, p0, p, n) && Stopped(g, start, p0, p, n)
    requires forall t :: t in g && t != start ==> EdgeOk(g, p0, t)
    requires Ahead(g, start, i) != null
    ensures p[Ahead(g, start, i)] >= p0[start]
    decreases i
  {
    if i > n + 1 {
      NobodyBelowAhead(g, start, p0, p, n, i - 1);
      var t := Ahead(g, start, i - 1);
      if p[t] == p0[t] {
        if t == start {
          assert Ahead(g, start, 1) == g[t] == Ahead(g, start, i);
          NobodyBelowAhead(g, start, p0, p, n, 1);
        } else {
          assert EdgeOk(g, p0, t);
        }
      } else {
        var k: nat :| 0 < k <= n && Ahead(g, start, k) == t;
        assert Ahead(g, start, k + 1) == g[t] == Ahead(g, start, i);
        NobodyBelowAhead(g, start, p0, p, n, k + 1);
      }
    }
  }

  /** The donation reaches exactly the threads that the current one waits for,
      directly or not, and that are below its priority. */
  lemma DonationReaches(g: Graph, start: Thread, p0: map<Thread, int>, p: map<Thread, int>, n: nat, t: Thread)
    requires Walked(g, start, p0, p, n) && Stopped(g, start, p0, p, n)
    requires forall u :: u in g && u != start ==> EdgeOk(g, p0, u)
    requires t in g
    ensures p[t] == if Awaited(g, start, t) && p0[t] < p0[start] then p0[start] else p0[t]
  {
    if Awaited(g, start, t) {
      var i: nat :| i > 0 && Ahead(g, start, i) == t;
      NobodyBelowAhead(g, start, p0, p, n, i);
    }
  }

  /** If only the current thread's edge could be violated, no edge is afterwards:
      that is why the walk may stop at the first holder that needs no donation. */
  lemma DonationRestores(g: Graph, start: Thread, p0: map<Thread, int>, p: map<Thread, int>, n: nat, t: Thread)
    requires Walked(g, start, p0, p, n) && Stopped(g, start, p0, p, n)
    requires forall u :: u in g && u != start ==> EdgeOk(g, p0, u)
    requires t in g
    ensures EdgeOk(g, p, t)
  {
    if g[t] != null {
      if p[t] == p0[t] && t != start {
        assert EdgeOk(g, p0, t);
      } else {
        var k: nat :| k <= n && Ahead(g, start, k) == t;
        assert Ahead(g, start, k + 1) == g[t];
        NobodyBelowAhead(g, start, p0, p, n, k + 1);
      }
    }
  }

  /** Without that proviso: an edge is sound afterwards exactly when it is the edge of
      a thread on the walk, or was sound, or leads to a thread that was raised high
      enough. */
  lemma DonationEdges(g: Graph, start: Thread, p0: map<Thread, int>, p: map<Thread, int>, n: nat, t: Thread)
    requires Walked(g, start, p0, p, n) && Stopped(g, start, p0, p, n) && t in g
    ensures EdgeOk(g, p, t) <==>
              || t == start || Passed(g, start, t, n)
              || EdgeOk(g, p0, t)
              || (Passed(g, start, g[t], n) && p0[t] <= p0[start])
  {
    if t == start || Passed(g, start, t, n) {
      var k: nat :| k <= n && Ahead(g, start, k) == t;
      assert Ahead(g, start, k + 1) == g[t];
      assert k < n ==> g[t] != null && p[g[t]] == p0[start];
    }
  }
}
