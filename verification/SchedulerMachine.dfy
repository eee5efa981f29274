/**
  The scheduler's and semaphores' global variables, updated in place
  (threads/thread.c, threads/synch.c). Each method is one atomic region, edits the
  kernel lists that the threads are on, and is proved to take the step that the run
  theorems are about.
 */
module SchedulerMachine {
  import opened Order
  import opened Scheduler
  import opened ThreadQueues

  /** The state that thread_init and thread_start leave: the main thread runs, the idle
      thread has blocked, no semaphore exists. */
  ghost function FirstState(main: Tid, idle: Tid, priority: int): (k: Kernel) {
    Kernel(map[main := Running, idle := Blocked], map[main := priority, idle := 0], map[main := Free, idle := Free],
           [], main, idle, map[], map[])
  }

  lemma FirstInv(main: Tid, idle: Tid, priority: int)
    requires main != idle
    ensures Inv(FirstState(main, idle, priority))
  {}

  /** A running thread is on no list. */
  lemma RunningOffLists(k: Kernel)
    requires Inv(k)
    ensures OffLists(k.cur, k.ready, k.waiters) && k.cur in k.status && k.idle in k.status && k.cur in k.prio
  {
    hide NoLostWakeup;
  }

  class Machine {
    var status: map<Tid, Status>
    var prio: map<Tid, int>
    var at: map<Tid, Pc>
    var cur: Tid
    const idle: Tid
    var value: map<Sid, nat>
    const queues: Queues

    ghost predicate Valid()
      reads this`status, queues, queues.family.lists, queues.family.elems
    {
      queues.Valid() && queues.elem.Keys == status.Keys
    }

    /** The machine as the state of a run. */
    ghost function State(): (k: Kernel)
      reads this, queues
    {
      Kernel(status, prio, at, queues.ready, cur, idle, value, queues.waiting)
    }

    /** thread_init, over an empty ready list. */
    constructor (main: Tid, idleThread: Tid, q: Queues)
      requires q.Valid() && q.elem == map[] && q.ready == [] && q.waiting == map[]
      ensures Valid() && queues == q && State() == Kernel(map[], map[], map[], [], main, idleThread, map[], map[])
    {
      status, prio, at := map[], map[], map[];
      cur, idle, value, queues := main, idleThread, map[], q;
      new;
      hide Queues.Valid;
    }

    /** thread_start: the main and the idle thread. */
    method Start(priority: int)
      requires Valid() && cur != idle && State() == Kernel(map[], map[], map[], [], cur, idle, map[], map[])
      modifies this`prio, this`at, this`status, queues`elem, queues`owner, queues`family
      ensures Valid() && queues.family.lists == old(queues.family.lists) && fresh(queues.family.elems - old(queues.family.elems))
      ensures Inv(State()) && State() == FirstState(cur, idle, priority)
    {
      hide Valid, Inv, OffLists;
      Adopt(cur, priority);
      Adopt(idle, 0);
      SetStatus(cur, Running);
      FirstInv(cur, idle, priority);
      assert State() == FirstState(cur, idle, priority);
    }

    method SetStatus(t: Tid, st: Status)
      requires Valid() && t in status
      modifies this`status
      ensures Valid() && status == old(status)[t := st]
    {
      status := status[t := st];
    }

    method Enqueue(t: Tid)
      requires Valid() && t in status && OffLists(t, queues.ready, queues.waiting)
      modifies queues`ready, queues.family.lists, queues.family.elems
      ensures Valid() && queues.ready == Order.InsertOrdered(Higher(prio), old(queues.ready), t)
    {
      hide Queues.Valid, OffLists, Order.InsertOrdered;
      queues.MakeReady(t, prio);
    }

    method FrontReady() returns (empty: bool, t: Tid)
      requires Valid()
      ensures empty <==> queues.ready == []
      ensures !empty ==> t == queues.ready[0]
    {
      hide Queues.Valid;
      empty, t := queues.FirstReady();
    }

    method Dequeue() returns (t: Tid)
      requires Valid() && queues.ready != []
      modifies queues`ready, queues.family.lists, queues.family.elems
      ensures Valid() && t in status && t == old(queues.ready)[0] && queues.ready == old(queues.ready)[1..]
    {
      hide Queues.Valid;
      t := queues.PopReady();
    }

    method JoinWaiters(s: Sid)
      requires Valid() && s in queues.waiting && cur in status && OffLists(cur, queues.ready, queues.waiting)
      modifies queues`waiting, queues.family.lists, queues.family.elems
      ensures Valid() && queues.waiting == old(queues.waiting)[s := Order.InsertOrdered(Higher(prio), old(queues.waiting)[s], cur)]
    {
      hide Queues.Valid, OffLists, Order.InsertOrdered;
      queues.Await(s, cur, prio);
    }

    method NobodyWaits(s: Sid) returns (b: bool)
      requires Valid() && s in queues.waiting
      ensures b <==> queues.waiting[s] == []
    {
      hide Queues.Valid;
      b := queues.NobodyWaits(s);
    }

    /** The waiter that sema_up wakes: the wait list is sorted and its front removed. */
    method FirstWaiter(s: Sid) returns (t: Tid)
      requires Valid() && s in queues.waiting && queues.waiting[s] != []
      modifies queues`waiting, queues.family.lists, queues.family.elems
      ensures Valid() && t in status && OffLists(t, queues.ready, queues.waiting)
      ensures var w := InsertionSort(Higher(prio), old(queues.waiting)[s]);
              t == w[0] && queues.waiting == old(queues.waiting)[s := w[1..]]
    {
      hide Queues.Valid, OffLists, InsertionSort;
      queues.SortWaiters(s, prio);
      t := queues.PopWaiter(s);
    }

    /** thread_unblock; its assertion is the precondition. */
    method ThreadUnblock(t: Tid)
      requires Valid() && t in status && status[t] == Blocked && OffLists(t, queues.ready, queues.waiting)
      modifies this`status, queues`ready, queues`waiting, queues.family.lists, queues.family.elems
      ensures Valid() && State() == Unblock(old(State()), t)
    {
      hide Valid, OffLists, Order.InsertOrdered;
      Enqueue(t);
      SetStatus(t, Ready);
    }

    /** next_thread_to_run and schedule; whoever called it has stopped being the running
        thread. */
    method RunNext()
      requires Valid() && idle in status && cur in status && status[cur] != Running
      modifies this`status, this`cur, queues`ready, queues`waiting, queues.family.lists, queues.family.elems
      ensures Valid() && State() == Schedule(old(State()))
    {
      hide Valid;
      var empty, next := FrontReady();
      if empty {
        next := idle;
      } else {
        next := Dequeue();
      }
      cur := next;
      SetStatus(next, Running);
    }

    /** The running thread stops, and another runs. */
    method Leave(st: Status)
      requires Valid() && idle in status && cur in status && st != Running
      modifies this`status, this`cur, queues`ready, queues`waiting, queues.family.lists, queues.family.elems
      ensures Valid() && State() == Schedule(old(State()).(status := old(status[cur := st])))
    {
      hide Valid, Schedule;
      SetStatus(cur, st);
      RunNext();
    }

    /** thread_block */
    method ThreadBlock()
      requires Valid() && idle in status && cur in status
      modifies this`status, this`cur, queues`ready, queues`waiting, queues.family.lists, queues.family.elems
      ensures Valid() && State() == Block(old(State()))
    {
      hide Valid, Schedule;
      Leave(Blocked);
    }

    method BackOfQueue()
      requires Valid() && idle in status && cur in status && OffLists(cur, queues.ready, queues.waiting)
      modifies this`status, this`cur, queues`ready, queues`waiting, queues.family.lists, queues.family.elems
      ensures Valid() && State() == Yield(old(State()))
    {
      hide Valid, Order.InsertOrdered, OffLists, Schedule;
      if cur != idle {
        Enqueue(cur);
      }
      SetStatus(cur, Ready);
      RunNext();
    }

    /** thread_yield */
    method ThreadYield()
      requires Valid() && Inv(State()) && Enabled(State(), Preempt)
      modifies this`status, this`cur, queues`ready, queues`waiting, queues.family.lists, queues.family.elems
      ensures Valid() && State() == Step(old(State()), Preempt) && Inv(State())
    {
      hide Valid, Inv, OffLists, Yield;
      RunningOffLists(State());
      StepInv(State(), Preempt);
      BackOfQueue();
    }

    /** check_priority */
    method YieldIfOutranked()
      requires Valid() && Inv(State()) && Enabled(State(), Check)
      modifies this`status, this`cur, queues`ready, queues`waiting, queues.family.lists, queues.family.elems
      ensures Valid() && State() == Step(old(State()), Check) && Inv(State())
    {
      hide Valid, Inv, Yield;
      var empty, first := FrontReady();
      if !empty && PriorityOf(prio, cur) < PriorityOf(prio, first) {
        ThreadYield();
      }
    }

    /** One pass of sema_down's loop: `taken` says whether it ends. */
    method SemaDownPass(s: Sid) returns (taken: bool)
      requires Valid() && Inv(State()) && Enabled(State(), Down(s))
      modifies this, queues`ready, queues`waiting, queues.family.lists, queues.family.elems
      ensures Valid() && State() == Step(old(State()), Down(s)) && Inv(State())
      ensures taken == (old(value)[s] > 0)
    {
      hide Valid, Inv, Order.InsertOrdered, OffLists, Schedule;
      RunningOffLists(State());
      StepInv(State(), Down(s));
      taken := value[s] != 0;
      if !taken {
        JoinWaiters(s);
        at := at[cur := InDown(s)];
        ThreadBlock();
      } else {
        value := value[s := value[s] - 1];
        at := at[cur := Free];
      }
    }

    /** sema_try_down */
    method SemaTryDown(s: Sid) returns (success: bool)
      requires Valid() && Inv(State()) && Enabled(State(), TryDown(s))
      modifies this`value
      ensures Valid() && State() == Step(old(State()), TryDown(s)) && Inv(State())
      ensures success == (old(value)[s] > 0)
    {
      hide Inv;
      StepInv(State(), TryDown(s));
      success := value[s] > 0;
      if success {
        value := value[s := value[s] - 1];
      }
    }

    /** sema_up, up to the point where interrupts come back on. */
    method SemaUp(s: Sid)
      requires Valid() && Inv(State()) && Enabled(State(), Up(s))
      modifies this`value, this`status, queues`ready, queues`waiting, queues.family.lists, queues.family.elems
      ensures Valid() && State() == Step(old(State()), Up(s)) && Inv(State())
    {
      hide Valid, Inv, InsertionSort, Order.InsertOrdered, OffLists;
      StepInv(State(), Up(s));
      ghost var k := State();
      var nobody := NobodyWaits(s);
      if !nobody {
        WokenFirst(k, s);
        var t := FirstWaiter(s);
        ThreadUnblock(t);
      }
      value := value[s := value[s] + 1];
    }

    method AddWaitList(s: Sid)
      requires Valid() && s !in queues.waiting
      modifies queues`waitLists, queues`semaOf, queues`family, queues`waiting
      ensures Valid() && fresh(queues.Repr() - old(queues.Repr())) && queues.waiting == old(queues.waiting)[s := []]
    {
      hide Queues.Valid;
      queues.AddSema(s);
    }

    /** sema_init */
    method SemaInit(s: Sid, v: nat)
      requires Valid() && Inv(State()) && Enabled(State(), Init(s, v))
      modifies this`value, queues
      ensures Valid() && fresh(queues.Repr() - old(queues.Repr()))
      ensures State() == Step(old(State()), Init(s, v)) && Inv(State())
      ensures s in value && value[s] == v
    {
      hide Valid, Inv;
      NoWaiters(State(), s);
      StepInv(State(), Init(s, v));
      AddWaitList(s);
      value := value[s := v];
    }

    /** init_thread: a new thread, blocked. */
    method Adopt(t: Tid, p: int)
      requires Valid() && t !in status
      modifies this`prio, this`at, this`status, queues`elem, queues`owner, queues`family
      ensures Valid() && queues.family.lists == old(queues.family.lists) && fresh(queues.family.elems - old(queues.family.elems))
      ensures OffLists(t, queues.ready, queues.waiting)
      ensures prio == old(prio)[t := p] && at == old(at)[t := Free] && status == old(status)[t := Blocked]
    {
      hide Queues.Valid, OffLists;
      queues.AddThread(t);
      prio, at, status := prio[t := p], at[t := Free], status[t := Blocked];
    }

    /** thread_create */
    method ThreadCreate(t: Tid, p: int)
      requires Valid() && Inv(State()) && Enabled(State(), Create(t, p))
      modifies this, queues, queues.family.lists, queues.family.elems
      ensures Valid() && queues.family.lists == old(queues.family.lists) && fresh(queues.family.elems - old(queues.family.elems))
      ensures State() == Step(old(State()), Create(t, p)) && Inv(State())
      ensures t in prio && prio[t] == p
    {
      hide Valid, Inv, Unblock, OffLists;
      StepInv(State(), Create(t, p));
      ghost var k := State();
      Adopt(t, p);
      assert State() == k.(prio := k.prio[t := p], at := k.at[t := Free], status := k.status[t := Blocked]);
      ThreadUnblock(t);
    }

    /** thread_exit */
    method ThreadExit()
      requires Valid() && Inv(State()) && Enabled(State(), Exit)
      modifies this`status, this`cur, queues`ready, queues`waiting, queues.family.lists, queues.family.elems
      ensures Valid() && State() == Step(old(State()), Exit) && Inv(State())
    {
      hide Valid, Inv, OffLists, Schedule;
      RunningOffLists(State());
      StepInv(State(), Exit);
      Leave(Dying);
    }

    /** The idle thread blocks. */
    method IdleBlocks()
      requires Valid() && Inv(State()) && Enabled(State(), IdleBlock)
      modifies this`status, this`cur, queues`ready, queues`waiting, queues.family.lists, queues.family.elems
      ensures Valid() && State() == Step(old(State()), IdleBlock) && Inv(State())
    {
      hide Valid, Inv, OffLists, Block;
      RunningOffLists(State());
      StepInv(State(), IdleBlock);
      ThreadBlock();
    }

    /** One assignment to a thread's priority: thread_set_priority, or a donation. */
    method AssignPriority(t: Tid, p: int)
      requires Valid() && Inv(State()) && t in prio
      modifies this`prio
      ensures Valid() && State() == old(State()).(prio := old(prio)[t := p]) && Inv(State())
    {
      hide Inv;
      PrioInv(State(), t, p);
      prio := prio[t := p];
    }

    /** Any step of a run. */
    method Take(e: Event)
      requires Valid() && Inv(State()) && Enabled(State(), e)
      modifies this, queues.Repr()
      ensures Valid() && fresh(queues.Repr() - old(queues.Repr()))
      ensures State() == Step(old(State()), e) && Inv(State())
    {
      hide Valid, Inv, Yield, Schedule, Unblock, DownPass, UpStep, Block, CheckPriority;
      RunningOffLists(State());
      match e {
        case Down(s) => var _ := SemaDownPass(s);
        case TryDown(s) => var _ := SemaTryDown(s);
        case Up(s) => SemaUp(s);
        case Check => YieldIfOutranked();
        case Preempt => ThreadYield();
        case SetPriority(p) => AssignPriority(cur, p);
        case Donate(t, p) => AssignPriority(t, p);
        case Create(t, p) => ThreadCreate(t, p);
        case Exit => ThreadExit();
        case IdleBlock => IdleBlocks();
        case Init(s, v) => SemaInit(s, v);
      }
    }
  }

  lemma NoWaiters(k: Kernel, s: Sid)
    requires Inv(k) && s !in k.value
    ensures s !in k.waiters
  {}

  lemma WokenFirst(k: Kernel, s: Sid)
    requires Inv(k) && s in k.value && k.waiters[s] != []
    ensures var t := InsertionSort(Higher(k.prio), k.waiters[s])[0]; t in k.status && k.status[t] == Blocked
  {
    hide NoLostWakeup, InsertionSort;
    InvParts(k);
    SortedWaiters(k, s);
  }
}
