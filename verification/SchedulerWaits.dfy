/**
  More that holds over every run of the scheduler: who waits behind whom for a
  semaphore, how a thread gets out of sema_down, what check_priority leaves running,
  and that a thread that has exited stays so (threads/thread.c, threads/synch.c).
 */
module SchedulerWaits {
  import opened Order
  import opened Scheduler
  import opened SchedulerRuns

  // ---- check_priority ------------------------------------------------------

  lemma CheckStep(k: Kernel)
    requires Inv(k) && SortedReady(k) && Enabled(k, Check)
    ensures Step(k, Check).cur != k.cur <==> exists t :: t in k.ready && PriorityOf(k.prio, t) > PriorityOf(k.prio, k.cur)
    ensures forall t :: t in Step(k, Check).ready ==> PriorityOf(k.prio, t) <= PriorityOf(k.prio, Step(k, Check).cur)
  {
    if Switches(k, Check) {
      SwitchIs(k, Check);
      SwitchHighest(k, Check);
      hide Step, Inv, SortedReady;
      assert k.ready[0] in k.ready;
    } else {
      forall t | t in k.ready ensures PriorityOf(k.prio, t) <= PriorityOf(k.prio, k.cur) {
        var i :| 0 <= i < |k.ready| && k.ready[i] == t;
        assert !Higher(k.prio)(k.ready[i], k.ready[0]) || i == 0;
      }
    }
  }

  /** After check_priority nobody ready has a higher priority than the thread that runs, and it
      took the processor away only from a lower one. */
  lemma RunCheck(ks: seq<Kernel>, es: seq<Event>, n: nat)
    requires OrderlyRun(ks, es) && Inv(ks[0]) && SortedReady(ks[0]) && n < |es| && es[n] == Check
    ensures ks[n+1].cur != ks[n].cur <==> exists t :: t in ks[n].ready && PriorityOf(ks[n].prio, t) > PriorityOf(ks[n].prio, ks[n].cur)
    ensures forall t :: t in ks[n+1].ready ==> PriorityOf(ks[n].prio, t) <= PriorityOf(ks[n].prio, ks[n+1].cur)
  {
    hide Step, Enabled, Inv, SortedReady, Orderly;
    RunInv(ks, es, n);
    RunSorted(ks, es, n);
    CheckStep(ks[n]);
  }

  // ---- Into sema_down and out of it ----------------------------------------

  /** A thread gets out of sema_down by taking a unit, and at once. */
  lemma StepAt(k: Kernel, e: Event, t: Tid)
    requires Inv(k) && Enabled(k, e) && t in k.at
    ensures t in Step(k, e).at
    ensures e.Down? && t == k.cur ==> Step(k, e).at[t] == if Completes(k, e, e.s) then Free else InDown(e.s)
    ensures !(e.Down? && t == k.cur) ==> Step(k, e).at[t] == k.at[t]
  {
    hide Inv, ReadyOk, CurrentOk, WaitersOk, NoLostWakeup, InsertOrdered, InsertionSort, Higher, PriorityOf;
    InvParts(k);
    match e
    case Down(u) =>
    case _ =>
  }

  lemma {:induction false} RunKnown(ks: seq<Kernel>, es: seq<Event>, i: nat, n: nat, t: Tid)
    requires IsRun(ks, es) && Inv(ks[0]) && i <= n <= |es| && t in ks[i].at
    ensures t in ks[n].at
    decreases n
  {
    hide Step, Enabled, Inv, Completes;
    if i < n {
      RunKnown(ks, es, i, n - 1, t);
      RunInv(ks, es, n - 1);
      StepAt(ks[n-1], es[n-1], t);
    }
  }

  /** A thread that is in sema_down at step i and out of it at step n has taken a unit in
      between. */
  lemma {:induction false} RunLeavesDown(ks: seq<Kernel>, es: seq<Event>, i: nat, n: nat, t: Tid, s: Sid) returns (j: nat)
    requires IsRun(ks, es) && Inv(ks[0]) && i <= n <= |es|
    requires t in ks[i].at && ks[i].at[t] == InDown(s) && t in ks[n].at && ks[n].at[t] != InDown(s)
    ensures i <= j < n && es[j] == Down(s) && ks[j].cur == t && Completes(ks[j], es[j], s)
    decreases n
  {
    hide Step, Inv, Completes;
    RunKnown(ks, es, i, n - 1, t);
    RunInv(ks, es, n - 1);
    StepAt(ks[n-1], es[n-1], t);
    if ks[n-1].at[t] == InDown(s) {
      j := n - 1;
    } else {
      j := RunLeavesDown(ks, es, i, n - 1, t, s);
    }
  }

  // ---- Exit ----------------------------------------------------------------

  lemma DeadOff(k: Kernel, t: Tid)
    requires Inv(k) && t in k.status && k.status[t] == Dying
    ensures k.cur != t && k.cur !in k.ready && t !in k.ready && forall s :: s in k.waiters ==> t !in k.waiters[s]
  {
    InvParts(k);
    hide Inv, NoLostWakeup, Distinct;
  }

  lemma YieldDead(k: Kernel, t: Tid)
    requires ReadyOk(k) && k.cur !in k.ready && t in k.status && k.status[t] == Dying && t != k.cur && t != k.idle
    ensures var k' := Yield(k); k'.idle == k.idle && t in k'.status && k'.status[t] == Dying
  {
    hide InsertOrdered, Higher, Distinct;
    InsertedMembers(Higher(k.prio), k.ready, k.cur);
  }

  lemma ExitDead(k: Kernel)
    requires Inv(k) && Enabled(k, Exit)
    ensures var k' := Step(k, Exit); k'.idle == k.idle && k.cur in k'.status && k'.status[k.cur] == Dying
  {
    InvParts(k);
    hide Inv, NoLostWakeup, WaitersOk, Distinct;
  }

  lemma StepDead(k: Kernel, e: Event, t: Tid)
    requires Inv(k) && Enabled(k, e) && t in k.status && t != k.idle
    requires k.status[t] == Dying || (e == Exit && t == k.cur)
    ensures var k' := Step(k, e); k'.idle == k.idle && t in k'.status && k'.status[t] == Dying
  {
    hide Inv, ReadyOk, CurrentOk, WaitersOk, NoLostWakeup, InsertOrdered, InsertionSort, Distinct, Higher, PriorityOf, Yield;
    InvParts(k);
    if k.status[t] == Dying {
      DeadOff(k, t);
      match e
      case Up(s) => if k.waiters[s] != [] { SortedWaiters(k, s); }
      case Check => YieldDead(k, t);
      case Preempt => YieldDead(k, t);
      case _ =>
    } else {
      ExitDead(k);
    }
  }

  lemma ExitsRunning(k: Kernel)
    requires Inv(k) && Enabled(k, Exit)
    ensures k.cur in k.status && k.cur != k.idle
  {}

  /** A thread that has exited never runs again and is on no list. */
  lemma {:induction false} RunDead(ks: seq<Kernel>, es: seq<Event>, i: nat, n: nat)
    requires IsRun(ks, es) && Inv(ks[0]) && i < n <= |es| && es[i] == Exit
    ensures var t := ks[i].cur;
            && t in ks[n].status && ks[n].status[t] == Dying && ks[n].idle == ks[i].idle
            && ks[n].cur != t && t !in ks[n].ready && forall s :: s in ks[n].waiters ==> t !in ks[n].waiters[s]
    decreases n
  {
    hide Step, Inv, Enabled;
    RunInv(ks, es, i);
    ExitsRunning(ks[i]);
    if n > i + 1 {
      RunDead(ks, es, i, n - 1);
    }
    RunInv(ks, es, n - 1);
    StepDead(ks[n-1], es[n-1], ks[i].cur);
    RunInv(ks, es, n);
    DeadOff(ks[n], ks[i].cur);
  }

  // ---- Waiting for a semaphore ---------------------------------------------

  ghost predicate SortedWaits(k: Kernel, s: Sid) {
    s in k.waiters && Sorted(Higher(k.prio), k.waiters[s], 0, |k.waiters[s]|)
  }

  /** The step does not raise, by donation, a thread that waits for s. */
  ghost predicate WaitOrderly(k: Kernel, e: Event, s: Sid) {
    e.Donate? && s in k.waiters ==> e.t !in k.waiters[s]
  }

  ghost predicate WaitOrderlyRun(ks: seq<Kernel>, es: seq<Event>, s: Sid) {
    IsRun(ks, es) && forall i :: 0 <= i < |es| ==> WaitOrderly(ks[i], es[i], s)
  }

  /** Sorting does nothing to a wait list that is in order. */
  lemma SortedAlready(prio: map<Tid, int>, w: seq<Tid>)
    requires Distinct(w) && Sorted(Higher(prio), w, 0, |w|)
    ensures InsertionSort(Higher(prio), w) == w
  {
    var less := Higher(prio);
    HigherIsOrder(prio, Elements(w));
    assert Within(w, 0, |w|, Elements(w));
    InsertionSortIsStableSort(less, Elements(w), w);
    SortedMembers(less, w);
    assert IsStableSort(less, w, w);
    StableSortUnique(less, w, InsertionSort(less, w), w);
  }

  lemma WaitersDistinct(k: Kernel, s: Sid)
    requires WaitersOk(k) && s in k.waiters
    ensures Distinct(k.waiters[s])
  {}

  /** What a step does to the wait list of s, if it is in order: a sleeper is inserted in it,
      the first is woken, or nothing. */
  lemma StepWaiters(k: Kernel, e: Event, s: Sid)
    requires Inv(k) && SortedWaits(k, s) && Enabled(k, e)
    ensures var k' := Step(k, e);
            s in k'.waiters &&
            k'.waiters[s] == if e == Down(s) && !Completes(k, e, s) then InsertOrdered(Higher(k.prio), k.waiters[s], k.cur)
                             else if e == Up(s) && k.waiters[s] != [] then k.waiters[s][1..]
                             else k.waiters[s]
  {
    hide Inv, ReadyOk, CurrentOk, NoLostWakeup, WaitersOk, Sorted, Distinct, InsertOrdered, InsertionSort, Higher, PriorityOf;
    InvParts(k);
    WaitersDistinct(k, s);
    SortedAlready(k.prio, k.waiters[s]);
    match e
    case Down(u) =>
    case Up(u) =>
    case _ =>
  }

  lemma NotWaiting(k: Kernel, s: Sid)
    requires Inv(k) && s in k.waiters
    ensures k.cur !in k.waiters[s] && Distinct(k.waiters[s]) && forall t :: t in k.waiters[s] ==> t in k.status
  {
    InvParts(k);
    hide Inv, NoLostWakeup, ReadyOk, Distinct;
  }

  /** Only priorities of threads that do not wait for s change. */
  lemma StepWaitPriority(k: Kernel, e: Event, s: Sid, t: Tid)
    requires Inv(k) && Enabled(k, e) && s in k.waiters && WaitOrderly(k, e, s) && t in k.waiters[s]
    ensures PriorityOf(Step(k, e).prio, t) == PriorityOf(k.prio, t)
  {
    hide Step, Inv;
    NotWaiting(k, s);
    InvDomains(k);
    StepPriority(k, e, t);
  }

  lemma InvDomains(k: Kernel)
    requires Inv(k)
    ensures k.prio.Keys == k.status.Keys == k.at.Keys && k.value.Keys == k.waiters.Keys
  {}

  lemma TailSorted(prio: map<Tid, int>, w: seq<Tid>)
    requires Sorted(Higher(prio), w, 0, |w|) && w != []
    ensures Sorted(Higher(prio), w[1..], 0, |w[1..]|)
  {}

  /** The wait list of s stays sorted by priority, first in first out among equals, as long
      as no donation raises a thread that waits for s. */
  lemma StepWaitFifo(k: Kernel, e: Event, s: Sid)
    requires Inv(k) && SortedWaits(k, s) && Enabled(k, e) && WaitOrderly(k, e, s)
    ensures SortedWaits(Step(k, e), s) && Fifo(k.prio, k.waiters[s], Step(k, e).waiters[s])
  {
    hide Step, Inv, Enabled, InsertOrdered, Higher, PriorityOf, Fifo, Completes;
    StepWaiters(k, e, s);
    NotWaiting(k, s);
    var w, k' := k.waiters[s], Step(k, e);
    FifoSame(k.prio, w);
    if e == Down(s) && !Completes(k, e, s) {
      InsertedReady(k.prio, w, k.cur);
      FifoInsert(k.prio, w, k.cur);
      DownKeepsPriorities(k, s);
    } else {
      if e == Up(s) && w != [] {
        TailSorted(k.prio, w);
        FifoTail(k.prio, w, w);
      }
      forall t | t in k'.waiters[s] ensures PriorityOf(k'.prio, t) == PriorityOf(k.prio, t) {
        StepWaitPriority(k, e, s, t);
      }
      SortedAgain(k.prio, k'.prio, k'.waiters[s]);
    }
  }

  lemma DownKeepsPriorities(k: Kernel, s: Sid)
    requires Enabled(k, Down(s))
    ensures Step(k, Down(s)).prio == k.prio
  {
    hide InsertOrdered;
  }

  lemma {:induction false} RunWaitSorted(ks: seq<Kernel>, es: seq<Event>, s: Sid, n: nat)
    requires WaitOrderlyRun(ks, es, s) && Inv(ks[0]) && SortedWaits(ks[0], s) && n <= |es|
    ensures SortedWaits(ks[n], s)
  {
    hide Step, Enabled, Inv, SortedWaits, WaitOrderly;
    if n > 0 {
      RunWaitSorted(ks, es, s, n - 1);
      RunInv(ks, es, n - 1);
      StepWaitFifo(ks[n-1], es[n-1], s);
    }
  }

  /** A thread that stands behind another that keeps waiting keeps waiting too. */
  lemma StepWaitsBehind(k: Kernel, e: Event, s: Sid, t: Tid, u: Tid)
    requires Inv(k) && SortedWaits(k, s) && Enabled(k, e) && Precedes(k.waiters[s], t, u)
    requires s in Step(k, e).waiters && t in Step(k, e).waiters[s]
    ensures u in Step(k, e).waiters[s]
  {
    hide Step, Inv, Enabled, InsertOrdered, Completes;
    StepWaiters(k, e, s);
    NotWaiting(k, s);
    InsertedMembers(Higher(k.prio), k.waiters[s], k.cur);
    var w := k.waiters[s];
    if w != [] && t in w[1..] {
      PrecedesInTail(w, t, u);
    }
  }

  /** While t waits for s, whoever stands behind it waits too, behind it: so sema_up wakes t
      first. */
  lemma {:induction false} RunWaitFifo(ks: seq<Kernel>, es: seq<Event>, s: Sid, i: nat, n: nat, t: Tid, u: Tid)
    requires WaitOrderlyRun(ks, es, s) && Inv(ks[0]) && SortedWaits(ks[0], s) && i <= n <= |es|
    requires forall j :: i <= j <= n ==> s in ks[j].waiters && t in ks[j].waiters[s]
    requires Precedes(ks[i].waiters[s], t, u)
    ensures Precedes(ks[n].waiters[s], t, u)
    decreases n
  {
    hide Step, Enabled, Inv, SortedWaits, WaitOrderly, Fifo, Precedes;
    if i < n {
      RunWaitFifo(ks, es, s, i, n - 1, t, u);
      RunInv(ks, es, n - 1);
      RunWaitSorted(ks, es, s, n - 1);
      StepWaitFifo(ks[n-1], es[n-1], s);
      assert t in ks[n-1].waiters[s] && t in ks[n].waiters[s];
      StepWaitsBehind(ks[n-1], es[n-1], s, t, u);
      FifoPair(ks[n-1].prio, ks[n-1].waiters[s], ks[n].waiters[s], t, u);
    }
  }

  /** Of threads that wait for a semaphore, one that came later with a priority no higher
      stays behind, and so is not woken first. */
  lemma RunWaitArrival(ks: seq<Kernel>, es: seq<Event>, s: Sid, i: nat, n: nat, t: Tid, u: Tid)
    requires WaitOrderlyRun(ks, es, s) && Inv(ks[0]) && SortedWaits(ks[0], s) && i < n <= |es|
    requires forall j :: i <= j <= n ==> s in ks[j].waiters && t in ks[j].waiters[s]
    requires u !in ks[i].waiters[s] && u in ks[i+1].waiters[s] && PriorityOf(ks[i].prio, u) <= PriorityOf(ks[i].prio, t)
    ensures Precedes(ks[n].waiters[s], t, u)
  {
    hide Step, Enabled, Inv, SortedWaits, WaitOrderly, Fifo, Precedes;
    RunInv(ks, es, i);
    RunWaitSorted(ks, es, s, i);
    StepWaitFifo(ks[i], es[i], s);
    assert t in ks[i].waiters[s] && t in ks[i+1].waiters[s];
    FifoPair(ks[i].prio, ks[i].waiters[s], ks[i+1].waiters[s], t, u);
    RunWaitFifo(ks, es, s, i + 1, n, t, u);
  }

  /** What a donation to a thread at position i of a wait list does to its order: it stays
      sorted exactly when nobody ahead now has a lower priority. */
  lemma DonateSortedWaits(k: Kernel, s: Sid, i: nat, p: int)
    requires Inv(k) && SortedWaits(k, s) && i < |k.waiters[s]| && k.waiters[s][i] in k.prio && k.prio[k.waiters[s][i]] < p
    ensures SortedWaits(k.(prio := k.prio[k.waiters[s][i] := p]), s) <==>
              forall j :: 0 <= j < i ==> p <= PriorityOf(k.prio, k.waiters[s][j])
  {
    hide Inv;
    NotWaiting(k, s);
    var prio := k.prio[k.waiters[s][i] := p];
    assert forall j :: 0 <= j < |k.waiters[s]| && j != i ==> PriorityOf(prio, k.waiters[s][j]) == PriorityOf(k.prio, k.waiters[s][j]);
  }

  /** Threads 1 and 2, of priority 1, wait for semaphore 7; thread 0, of priority 5, runs. */
  function TwoWait(): (k: Kernel) {
    Kernel(map[0 := Running, 1 := Blocked, 2 := Blocked, 3 := Blocked], map[0 := 5, 1 := 1, 2 := 1, 3 := 0],
           map[0 := Free, 1 := InDown(7), 2 := InDown(7), 3 := Free], [], 0, 3, map[7 := 0], map[7 := [1, 2]])
  }

  lemma TwoWaitLists()
    ensures Domains(TwoWait()) && CurrentOk(TwoWait()) && ReadyOk(TwoWait()) && NoLostWakeup(TwoWait())
  {}

  lemma TwoWaitInv()
    ensures Inv(TwoWait())
  {
    hide Domains, CurrentOk, ReadyOk, NoLostWakeup;
    TwoWaitLists();
  }

  lemma TwoWaitSorted()
    ensures SortedWaits(TwoWait(), 7) && Enabled(TwoWait(), Donate(2, 5))
  {}

  lemma DonateIs(k: Kernel, t: Tid, p: int)
    requires Enabled(k, Donate(t, p))
    ensures Step(k, Donate(t, p)) == k.(prio := k.prio[t := p])
  {}

  lemma SleepsIn(k: Kernel, s: Sid)
    requires Enabled(k, Down(s)) && k.value[s] == 0
    ensures s in Step(k, Down(s)).waiters
    ensures Step(k, Down(s)).waiters[s] == InsertOrdered(Higher(k.prio), k.waiters[s], k.cur)
  {
    hide InsertOrdered, Higher, PriorityOf;
  }

  lemma RaisedBehind(k: Kernel)
    requires k == TwoWait().(prio := TwoWait().prio[2 := 5])
    ensures Enabled(k, Down(7)) && PriorityOf(k.prio, 0) == PriorityOf(k.prio, 2)
    ensures InsertOrdered(Higher(k.prio), k.waiters[7], 0) == [0, 1, 2]
  {
    assert InsertPoint(Higher(k.prio), [1, 2], 0) == 0;
  }

  /** Such a donation lets a newcomer overtake: raised to 5 where it waits, thread 2 stays behind
      thread 1, so thread 0, which comes later with the same priority, goes in front of it. */
  lemma DonateOvertakes(k: Kernel, k1: Kernel)
    requires k == TwoWait() && k1 == k.(prio := k.prio[2 := 5])
    ensures Inv(k) && SortedWaits(k, 7) && Enabled(k, Donate(2, 5)) && Step(k, Donate(2, 5)) == k1
    ensures Enabled(k1, Down(7)) && PriorityOf(k1.prio, 0) == PriorityOf(k1.prio, 2)
    ensures Precedes(Step(k1, Down(7)).waiters[7], 0, 2)
  {
    hide Inv, InsertOrdered, Step, Enabled, SortedWaits, Higher;
    TwoWaitInv();
    TwoWaitSorted();
    DonateIs(k, 2, 5);
    RaisedBehind(k1);
    SleepsIn(k1, 7);
    var w := [0, 1, 2];
    assert w[0] == 0 && w[2] == 2;
  }
}
