/**
  What holds over every run of the scheduler and of semaphores: accounting of
  semaphore values, who is woken, who runs next.
 */
module SchedulerRuns {
  import opened Order
  import opened Scheduler

  // ---- Runs ----------------------------------------------------------------

  ghost predicate IsRun(ks: seq<Kernel>, es: seq<Event>) {
    && |ks| == |es| + 1
    && forall i :: 0 <= i < |es| ==> Enabled(ks[i], es[i]) && ks[i+1] == Step(ks[i], es[i])
  }

  /** The invariant holds in every state of every run. */
  lemma {:induction false} RunInv(ks: seq<Kernel>, es: seq<Event>, n: nat)
    requires IsRun(ks, es) && Inv(ks[0]) && n <= |es|
    ensures Inv(ks[n])
  {
    hide Inv, Step, Enabled;
    if n > 0 {
      RunInv(ks, es, n - 1);
      StepInv(ks[n-1], es[n-1]);
    }
  }

  // ---- Semaphore accounting ------------------------------------------------

  ghost function Ups(es: seq<Event>, s: Sid): (n: nat) {
    if es == [] then 0 else Ups(es[..|es|-1], s) + if es[|es|-1] == Up(s) then 1 else 0
  }

  /** This step completes a sema_down or a sema_try_down of s. */
  ghost predicate Completes(k: Kernel, e: Event, s: Sid) {
    (e == Down(s) || e == TryDown(s)) && s in k.value && k.value[s] > 0
  }

  ghost function Downs(ks: seq<Kernel>, es: seq<Event>, s: Sid): (n: nat)
    requires |ks| >= |es|
  {
    if es == [] then 0
    else
      var m := |es| - 1;
      Downs(ks, es[..m], s) + if Completes(ks[m], es[m], s) then 1 else 0
  }

  lemma StepValue(k: Kernel, e: Event, s: Sid)
    requires Enabled(k, e) && s in k.value
    ensures s in Step(k, e).value
    ensures Step(k, e).value[s] + (if Completes(k, e, s) then 1 else 0) == k.value[s] + if e == Up(s) then 1 else 0
  {
    hide InsertOrdered, InsertionSort, Higher, PriorityOf;
    match e
    case Down(u) =>
    case Up(u) =>
    case _ =>
  }

  /** In every run, and after any number n of its steps, a semaphore's value is what
      it was, plus the ups, minus the completed downs. */
  lemma {:induction false} RunValue(ks: seq<Kernel>, es: seq<Event>, s: Sid, n: nat)
    requires IsRun(ks, es) && s in ks[0].value && n <= |es|
    ensures s in ks[n].value
    ensures ks[n].value[s] + Downs(ks, es[..n], s) == ks[0].value[s] + Ups(es[..n], s)
  {
    hide Step, Enabled, Completes;
    if n > 0 {
      RunValue(ks, es, s, n - 1);
      assert es[..n][..n-1] == es[..n-1];
      StepValue(ks[n-1], es[n-1], s);
    }
  }

  lemma RunTail(ks: seq<Kernel>, es: seq<Event>, i: nat)
    requires IsRun(ks, es) && i <= |es|
    ensures IsRun(ks[i..], es[i..])
  {
    hide Step, Enabled;
  }

  lemma InitValue(k: Kernel, s: Sid, v: nat)
    requires Enabled(k, Init(s, v))
    ensures s in Step(k, Init(s, v)).value && Step(k, Init(s, v)).value[s] == v
  {}

  /** Once a semaphore has been initialized with v, at step i, its value is always v, plus
      the ups since, minus the downs completed since. */
  lemma RunFromInit(ks: seq<Kernel>, es: seq<Event>, i: nat, n: nat, s: Sid, v: nat)
    requires IsRun(ks, es) && i < n <= |es| && es[i] == Init(s, v)
    ensures s in ks[n].value
    ensures ks[n].value[s] + Downs(ks[i+1..], es[i+1..n], s) == v + Ups(es[i+1..n], s)
  {
    hide Step, Enabled, Completes;
    InitValue(ks[i], s, v);
    RunTail(ks, es, i + 1);
    RunValue(ks[i+1..], es[i+1..], s, n - i - 1);
    assert es[i+1..][..n-i-1] == es[i+1..n];
  }

  // ---- Priorities ----------------------------------------------------------

  /** The step gives t a priority, e.p. */
  ghost predicate Gives(k: Kernel, e: Event, t: Tid) {
    (e.SetPriority? && t == k.cur) || ((e.Donate? || e.Create?) && t == e.t)
  }

  lemma StepPriority(k: Kernel, e: Event, t: Tid)
    requires Enabled(k, e) && (Gives(k, e, t) || t in k.prio)
    ensures t in Step(k, e).prio && Step(k, e).prio[t] == if Gives(k, e, t) then e.p else k.prio[t]
  {
    hide InsertOrdered, InsertionSort;
  }

  /** A thread has the priority that it was given last, whoever gave it. */
  lemma {:induction false} RunPriority(ks: seq<Kernel>, es: seq<Event>, i: nat, n: nat, t: Tid)
    requires IsRun(ks, es) && i < n <= |es| && Gives(ks[i], es[i], t)
    requires forall j :: i < j < n ==> !Gives(ks[j], es[j], t)
    ensures t in ks[n].prio && ks[n].prio[t] == es[i].p
    decreases n
  {
    hide Step, Enabled, Gives;
    if n > i + 1 {
      RunPriority(ks, es, i, n - 1, t);
    }
    StepPriority(ks[n-1], es[n-1], t);
  }

  // ---- Who is woken --------------------------------------------------------

  /** sema_up wakes a waiter of the highest current priority, whatever donations have
      done to the order of the wait list, and of several such the one that stands
      first. */
  lemma UpWakesHighest(k: Kernel, s: Sid)
    requires Inv(k) && s in k.value && k.waiters[s] != []
    ensures var t := InsertionSort(Higher(k.prio), k.waiters[s])[0];
            && t in k.waiters[s] && UpStep(k, s).status[t] == Ready
            && (forall u :: u in k.waiters[s] ==> PriorityOf(k.prio, u) <= PriorityOf(k.prio, t))
            && (forall u :: u in k.waiters[s] && u != t && PriorityOf(k.prio, u) == PriorityOf(k.prio, t) ==>
                  Precedes(k.waiters[s], t, u))
  {
    var less, l := Higher(k.prio), k.waiters[s];
    var w := InsertionSort(less, l);
    HigherIsOrder(k.prio, Elements(l));
    assert Within(l, 0, |l|, Elements(l));
    InsertionSortIsStableSort(less, Elements(l), l);
    SameMembers(l, w);
    assert Distinct(l) by { InvParts(k); }
    SortedMembers(less, l);
    forall u | u in l ensures PriorityOf(k.prio, u) <= PriorityOf(k.prio, w[0]) {
      var i :| 0 <= i < |w| && w[i] == u;
    }
    forall u | u in l && u != w[0] && PriorityOf(k.prio, u) == PriorityOf(k.prio, w[0]) ensures Precedes(l, w[0], u) {
      FirstOfEquals(less, l, w, u);
    }
  }

  lemma FirstOfEquals(less: (Tid, Tid) -> bool, l: seq<Tid>, w: seq<Tid>, u: Tid)
    requires StableRearrangement(less, l, w) && Distinct(w) && w != [] && u in l && w[0] in l && u != w[0]
    requires !less(u, w[0]) && !less(w[0], u)
    ensures Precedes(l, w[0], u)
  {
    var i, j :| 0 <= i < |l| && 0 <= j < |l| && l[i] == w[0] && l[j] == u;
    assert !Precedes(w, u, w[0]);
  }

  // ---- Who runs next -------------------------------------------------------

  ghost predicate SortedReady(k: Kernel) {
    Sorted(Higher(k.prio), k.ready, 0, |k.ready|)
  }

  lemma SortedAgain(prio: map<Tid, int>, prio': map<Tid, int>, s: seq<Tid>)
    requires Sorted(Higher(prio), s, 0, |s|) && forall t :: t in s ==> PriorityOf(prio, t) == PriorityOf(prio', t)
    ensures Sorted(Higher(prio'), s, 0, |s|)
  {}

  lemma InsertedReady(prio: map<Tid, int>, s: seq<Tid>, t: Tid)
    requires Sorted(Higher(prio), s, 0, |s|)
    ensures var r := InsertOrdered(Higher(prio), s, t); Sorted(Higher(prio), r, 0, |r|)
    ensures forall i :: InsertPoint(Higher(prio), s, t) <= i < |s| ==> PriorityOf(prio, s[i]) < PriorityOf(prio, t)
  {
    var dom := Elements(s) + {t};
    HigherIsOrder(prio, dom);
    assert Within(s, 0, |s|, dom);
    InsertOrderedSorted(Higher(prio), dom, s, t);
  }

  /** The step does not raise, by donation, a thread that is on the ready list. */
  ghost predicate Orderly(k: Kernel, e: Event) {
    e.Donate? ==> e.t !in k.ready
  }

  /** The ready list stays sorted by priority as long as no donation raises a thread
      on it. */
  lemma StepSorted(k: Kernel, e: Event)
    requires Inv(k) && SortedReady(k) && Enabled(k, e) && Orderly(k, e)
    ensures SortedReady(Step(k, e))
  {
    InvParts(k);
    hide Inv, InsertOrdered, InsertionSort, Higher;
    if Switches(k, e) {
      SwitchIs(k, e);
      RequeuedFacts(k, e);
      hide Step, Requeued;
    } else {
      StaySorted(k, e);
    }
  }

  lemma StaySorted(k: Kernel, e: Event)
    requires ReadyOk(k) && CurrentOk(k) && SortedReady(k) && Enabled(k, e) && Orderly(k, e) && !Switches(k, e)
    ensures SortedReady(Step(k, e))
  {
    hide InsertOrdered, InsertionSort, Higher, Sorted, Distinct;
    match e
    case Up(s) => StepSortedUp(k, s);
    case SetPriority(p) => SortedAgain(k.prio, k.prio[k.cur := p], k.ready);
    case Donate(t, p) => SortedAgain(k.prio, k.prio[t := p], k.ready);
    case Create(t, p) =>
      SortedAgain(k.prio, k.prio[t := p], k.ready);
      InsertedReady(k.prio[t := p], k.ready, t);
    case _ =>
  }

  lemma StepSortedUp(k: Kernel, s: Sid)
    requires SortedReady(k) && s in k.value && s in k.waiters
    ensures SortedReady(UpStep(k, s))
  {
    if k.waiters[s] != [] {
      InsertedReady(k.prio, k.ready, InsertionSort(Higher(k.prio), k.waiters[s])[0]);
    }
  }

  /** What a donation to a thread at position i of the ready list does to its order:
      it stays sorted exactly when nobody ahead now has a lower priority. */
  lemma DonateSorted(k: Kernel, i: nat, p: int)
    requires Inv(k) && SortedReady(k) && i < |k.ready| && k.ready[i] in k.prio && k.prio[k.ready[i]] < p
    ensures SortedReady(k.(prio := k.prio[k.ready[i] := p])) <==>
              forall j :: 0 <= j < i ==> p <= PriorityOf(k.prio, k.ready[j])
  {
    InvParts(k);
    var prio := k.prio[k.ready[i] := p];
    assert forall j :: 0 <= j < |k.ready| && j != i ==> PriorityOf(prio, k.ready[j]) == PriorityOf(k.prio, k.ready[j]);
  }

  ghost predicate OrderlyRun(ks: seq<Kernel>, es: seq<Event>) {
    IsRun(ks, es) && forall i :: 0 <= i < |es| ==> Orderly(ks[i], es[i])
  }

  lemma {:induction false} RunSorted(ks: seq<Kernel>, es: seq<Event>, n: nat)
    requires OrderlyRun(ks, es) && Inv(ks[0]) && SortedReady(ks[0]) && n <= |es|
    ensures SortedReady(ks[n])
  {
    hide Inv, Step, Enabled, SortedReady, Orderly;
    if n > 0 {
      RunSorted(ks, es, n - 1);
      RunInv(ks, es, n - 1);
      StepSorted(ks[n-1], es[n-1]);
    }
  }

  /** The step switches threads: the running one gave up the processor. */
  ghost predicate Switches(k: Kernel, e: Event) {
    match e
    case Down(s) => s in k.value && k.value[s] == 0
    case Check => k.ready != [] && PriorityOf(k.prio, k.cur) < PriorityOf(k.prio, k.ready[0])
    case Preempt => true
    case Exit => true
    case IdleBlock => true
    case _ => false
  }

  /** From k to k' the processor went to a thread of the highest priority of all that
      are ready, counting the one that yielded, and of its equals on the ready list to the
      first; to the idle thread only if none is ready. */
  ghost predicate PicksHighest(k: Kernel, k': Kernel) {
    && (k'.cur == k.idle ==> k.ready == [])
    && (k'.cur != k.idle ==>
          forall t :: t in k'.ready || t in k.ready ==> PriorityOf(k'.prio, t) <= PriorityOf(k'.prio, k'.cur))
    && (k'.cur != k.idle ==>
          forall t :: t in k.ready && t != k'.cur && PriorityOf(k'.prio, t) == PriorityOf(k'.prio, k'.cur) ==>
            Precedes(k.ready, k'.cur, t))
  }

  /** At every switch of an orderly run. */
  lemma SwitchPicksHighest(ks: seq<Kernel>, es: seq<Event>, n: nat)
    requires OrderlyRun(ks, es) && Inv(ks[0]) && SortedReady(ks[0]) && n < |es| && Switches(ks[n], es[n])
    ensures PicksHighest(ks[n], ks[n+1])
  {
    RunInv(ks, es, n);
    RunSorted(ks, es, n);
    hide PicksHighest, Inv, SortedReady, Step;
    SwitchHighest(ks[n], es[n]);
  }

  /** What the running thread leaves of the ready list when it gives up the processor. */
  ghost function Requeued(k: Kernel, e: Event): (r: seq<Tid>) {
    if (e.Check? || e.Preempt?) && k.cur != k.idle then InsertOrdered(Higher(k.prio), k.ready, k.cur) else k.ready
  }

  lemma SwitchIs(k: Kernel, e: Event)
    requires Enabled(k, e) && Switches(k, e)
    ensures var k', r := Step(k, e), Requeued(k, e);
            && k'.prio == k.prio && k'.cur == (if r == [] then k.idle else r[0])
            && k'.ready == if r == [] then [] else r[1..]
  {
    hide InsertOrdered, UpStep, Unblock, Higher, PriorityOf;
    match e
    case Down(s) =>
    case Check =>
    case _ =>
  }

  lemma RequeuedFacts(k: Kernel, e: Event)
    requires Inv(k) && SortedReady(k)
    ensures var r := Requeued(k, e);
            && Sorted(Higher(k.prio), r, 0, |r|) && k.idle !in r && (r == [] ==> k.ready == [])
            && (forall t :: t in k.ready ==> t in r)
            && (r != [] && r[0] !in k.ready ==> forall t :: t in k.ready ==> PriorityOf(k.prio, t) < PriorityOf(k.prio, r[0]))
            && (r != [] && r[0] in k.ready ==> r[0] == k.ready[0])
  {
    hide InsertPoint;
    InvParts(k);
    InsertedReady(k.prio, k.ready, k.cur);
    InsertedMembers(Higher(k.prio), k.ready, k.cur);
  }

  lemma SwitchHighest(k: Kernel, e: Event)
    requires Inv(k) && SortedReady(k) && Enabled(k, e) && Switches(k, e)
    ensures PicksHighest(k, Step(k, e))
  {
    SwitchIs(k, e);
    RequeuedFacts(k, e);
    hide Step, Inv, Requeued, SortedReady;
    var r := Requeued(k, e);
    if r != [] {
      forall t | t in r ensures PriorityOf(k.prio, t) <= PriorityOf(k.prio, r[0]) {
        var i :| 0 <= i < |r| && r[i] == t;
      }
      forall t | t in k.ready && t != r[0] && PriorityOf(k.prio, t) == PriorityOf(k.prio, r[0]) ensures Precedes(k.ready, r[0], t) {
        var i :| 0 <= i < |k.ready| && k.ready[i] == t;
        assert k.ready[0] == r[0];
      }
    }
  }

  // ---- First in, first out -------------------------------------------------

  /** From s to r no two threads that stay change places, and a newcomer goes behind
      everyone of at least its priority. */
  ghost predicate Fifo(prio: map<Tid, int>, s: seq<Tid>, r: seq<Tid>) {
    forall t, u :: t in s && t in r && u in r ==>
      && (Precedes(s, t, u) ==> Precedes(r, t, u))
      && (u !in s && PriorityOf(prio, u) <= PriorityOf(prio, t) ==> Precedes(r, t, u))
  }

  lemma FifoSame(prio: map<Tid, int>, s: seq<Tid>)
    ensures Fifo(prio, s, s)
  {}

  lemma FifoInsert(prio: map<Tid, int>, s: seq<Tid>, e: Tid)
    requires Sorted(Higher(prio), s, 0, |s|) && Distinct(s) && e !in s
    ensures Fifo(prio, s, InsertOrdered(Higher(prio), s, e))
  {
    var less := Higher(prio);
    var r := InsertOrdered(less, s, e);
    InsertedReady(prio, s, e);
    InsertedMembers(less, s, e);
    forall t, u | t in s && t in r && u in r
      ensures Precedes(s, t, u) ==> Precedes(r, t, u)
      ensures u !in s && PriorityOf(prio, u) <= PriorityOf(prio, t) ==> Precedes(r, t, u)
    {
      if Precedes(s, t, u) {
        InsertOrderedPrecedes(less, s, e, t, u);
      }
      if u !in s && PriorityOf(prio, u) <= PriorityOf(prio, t) {
        var i :| 0 <= i < |s| && s[i] == t;
        InsertOrderedBehind(less, s, e, i);
      }
    }
  }

  lemma PrecedesInTail(r: seq<Tid>, t: Tid, u: Tid)
    requires Distinct(r) && Precedes(r, t, u) && t in r[1..]
    ensures Precedes(r[1..], t, u)
  {
    var i, j :| 0 <= i < j < |r| && r[i] == t && r[j] == u;
    var m :| 0 <= m < |r[1..]| && r[1..][m] == t;
    assert r[m+1] == t;
    assert r[1..][i-1] == t && r[1..][j-1] == u;
  }

  lemma FifoTail(prio: map<Tid, int>, s: seq<Tid>, r: seq<Tid>)
    requires Fifo(prio, s, r) && Distinct(r) && r != []
    ensures Fifo(prio, s, r[1..])
  {
    forall t, u | t in s && t in r[1..] && u in r[1..]
      ensures Precedes(s, t, u) ==> Precedes(r[1..], t, u)
      ensures u !in s && PriorityOf(prio, u) <= PriorityOf(prio, t) ==> Precedes(r[1..], t, u)
    {
      assert t in r && u in r;
      if Precedes(r, t, u) {
        PrecedesInTail(r, t, u);
      }
    }
  }

  lemma ScheduleFifo(k: Kernel, s: seq<Tid>)
    requires Fifo(k.prio, s, k.ready) && Distinct(k.ready)
    ensures Fifo(k.prio, s, Schedule(k).ready)
  {
    if k.ready != [] {
      FifoTail(k.prio, s, k.ready);
    }
  }

  lemma YieldFifo(k: Kernel)
    requires Inv(k) && SortedReady(k)
    ensures Fifo(k.prio, k.ready, Yield(k).ready)
  {
    InvParts(k);
    FifoSame(k.prio, k.ready);
    FifoInsert(k.prio, k.ready, k.cur);
    InsertedMembers(Higher(k.prio), k.ready, k.cur);
    hide Fifo, InsertOrdered;
    var ready := if k.cur != k.idle then InsertOrdered(Higher(k.prio), k.ready, k.cur) else k.ready;
    ScheduleFifo(k.(ready := ready, status := k.status[k.cur := Ready]), k.ready);
  }

  lemma UpFifo(k: Kernel, s: Sid)
    requires Inv(k) && SortedReady(k) && s in k.value && s in k.waiters
    ensures Fifo(k.prio, k.ready, UpStep(k, s).ready)
  {
    InvParts(k);
    FifoSame(k.prio, k.ready);
    if k.waiters[s] != [] {
      SortedWaiters(k, s);
      FifoInsert(k.prio, k.ready, InsertionSort(Higher(k.prio), k.waiters[s])[0]);
    }
  }

  /** The ready list is first in, first out among equals, at every step of every
      orderly run. */
  lemma StepFifo(k: Kernel, e: Event)
    requires Inv(k) && SortedReady(k) && Enabled(k, e)
    ensures Fifo(Step(k, e).prio, k.ready, Step(k, e).ready)
  {
    InvParts(k);
    var k' := Step(k, e);
    FifoSame(k'.prio, k.ready);
    hide Fifo, InsertOrdered, InsertionSort, Sorted, Distinct;
    match e
    case Down(s) =>
      if k.value[s] == 0 {
        var w := k.waiters[s := InsertOrdered(Higher(k.prio), k.waiters[s], k.cur)];
        ScheduleFifo(k.(waiters := w, at := k.at[k.cur := InDown(s)], status := k.status[k.cur := Blocked]), k.ready);
      }
    case Up(s) => UpFifo(k, s);
    case Check => YieldFifo(k);
    case Preempt => YieldFifo(k);
    case Create(t, p) =>
      SortedAgain(k.prio, k.prio[t := p], k.ready);
      FifoInsert(k.prio[t := p], k.ready, t);
    case Exit => ScheduleFifo(k.(status := k.status[k.cur := Dying]), k.ready);
    case IdleBlock => ScheduleFifo(k.(status := k.status[k.cur := Blocked]), k.ready);
    case _ =>
  }

  /** A thread behind another on the ready list cannot leave it first. */
  lemma StepBehind(k: Kernel, e: Event, t: Tid, u: Tid)
    requires Inv(k) && Enabled(k, e) && Precedes(k.ready, t, u) && t in Step(k, e).ready
    ensures u in Step(k, e).ready
  {
    InvParts(k);
    var i, j :| 0 <= i < j < |k.ready| && k.ready[i] == t && k.ready[j] == u;
    InsertedMembers(Higher(k.prio), k.ready, k.cur);
    hide Inv, InsertOrdered, Sorted;
    if Switches(k, e) {
      SwitchIs(k, e);
      hide Step;
      LastOut(k, e, t, u);
    } else {
      StaysReady(k, e, u);
    }
  }

  lemma LastOut(k: Kernel, e: Event, t: Tid, u: Tid)
    requires Inv(k) && Precedes(k.ready, t, u)
    requires var r := Requeued(k, e); r != [] && t in r[1..]
    ensures u in Requeued(k, e)[1..]
  {
    InvParts(k);
    InsertedMembers(Higher(k.prio), k.ready, k.cur);
    var r := Requeued(k, e);
    if (e.Check? || e.Preempt?) && k.cur != k.idle {
      InsertOrderedPrecedes(Higher(k.prio), k.ready, k.cur, t, u);
    }
    hide Requeued;
    PrecedesInTail(r, t, u);
  }

  lemma StaysReady(k: Kernel, e: Event, u: Tid)
    requires Inv(k) && Enabled(k, e) && !Switches(k, e) && u in k.ready
    ensures u in Step(k, e).ready
  {
    InvParts(k);
    hide InsertOrdered, InsertionSort;
    match e
    case Up(s) =>
      if k.waiters[s] != [] {
        SortedWaiters(k, s);
        InsertedMembers(Higher(k.prio), k.ready, InsertionSort(Higher(k.prio), k.waiters[s])[0]);
      }
    case Create(t, p) => InsertedMembers(Higher(k.prio[t := p]), k.ready, t);
    case _ =>
  }

  /** In every orderly run, while a thread t is on the ready list, whoever stands behind it
      stays behind it and does not run. */
  lemma {:induction false} RunFifo(ks: seq<Kernel>, es: seq<Event>, i: nat, n: nat, t: Tid, u: Tid)
    requires OrderlyRun(ks, es) && Inv(ks[0]) && SortedReady(ks[0]) && i <= n <= |es|
    requires Precedes(ks[i].ready, t, u) && forall j :: i <= j <= n ==> t in ks[j].ready
    ensures Precedes(ks[n].ready, t, u) && ks[n].cur != u
    decreases n
  {
    hide Step, Enabled, SortedReady, Orderly, Fifo, Inv;
    RunInv(ks, es, n);
    if i < n {
      RunFifo(ks, es, i, n - 1, t, u);
      RunInv(ks, es, n - 1);
      RunSorted(ks, es, n - 1);
      StepFifo(ks[n-1], es[n-1]);
      StepBehind(ks[n-1], es[n-1], t, u);
      FifoPair(ks[n].prio, ks[n-1].ready, ks[n].ready, t, u);
    }
    ReadyNotRunning(ks[n], t, u);
  }

  lemma FifoPair(prio: map<Tid, int>, s: seq<Tid>, r: seq<Tid>, t: Tid, u: Tid)
    requires Fifo(prio, s, r) && t in r && u in r && t in s
    ensures Precedes(s, t, u) ==> Precedes(r, t, u)
    ensures u !in s && PriorityOf(prio, u) <= PriorityOf(prio, t) ==> Precedes(r, t, u)
  {}

  lemma ReadyNotRunning(k: Kernel, t: Tid, u: Tid)
    requires Inv(k) && Precedes(k.ready, t, u)
    ensures k.cur != u && u in k.ready
  {
    InvParts(k);
  }

  /** So no thread that becomes ready after t, with a priority no higher than t's, runs
      before t does. */
  lemma RunArrival(ks: seq<Kernel>, es: seq<Event>, i: nat, n: nat, t: Tid, u: Tid)
    requires OrderlyRun(ks, es) && Inv(ks[0]) && SortedReady(ks[0]) && i < n <= |es|
    requires forall j :: i <= j <= n ==> t in ks[j].ready
    requires u !in ks[i].ready && u in ks[i+1].ready && PriorityOf(ks[i+1].prio, u) <= PriorityOf(ks[i+1].prio, t)
    ensures Precedes(ks[n].ready, t, u) && ks[n].cur != u
  {
    hide Step, Enabled, SortedReady, Orderly, Fifo, Inv;
    RunInv(ks, es, i);
    RunSorted(ks, es, i);
    StepFifo(ks[i], es[i]);
    assert t in ks[i].ready && t in ks[i+1].ready;
    FifoPair(ks[i+1].prio, ks[i].ready, ks[i+1].ready, t, u);
    RunFifo(ks, es, i + 1, n, t, u);
  }

  /** Two threads of priority 1 on the ready list. */
  function TwoReady(): (k: Kernel) {
    Kernel(map[0 := Running, 1 := Ready, 2 := Ready, 3 := Blocked], map[0 := 1, 1 := 1, 2 := 1, 3 := 0],
           map[0 := Free, 1 := Free, 2 := Free, 3 := Free], [1, 2], 0, 3, map[], map[])
  }

  lemma TwoReadyInv()
    ensures Inv(TwoReady())
  {}

  /** A donation that disturbs the order: raised to 2, the second of two equals stays
      behind the first. */
  lemma DonateSortedExample()
    ensures var k := TwoReady();
            Inv(k) && SortedReady(k) && Enabled(k, Donate(2, 2)) && !SortedReady(Step(k, Donate(2, 2)))
  {
    TwoReadyInv();
    hide Inv;
    var prio := Step(TwoReady(), Donate(2, 2)).prio;
    assert prio[1] == 1 && prio[2] == 2;
    assert Higher(prio)([1, 2][1], [1, 2][0]);
  }
}
