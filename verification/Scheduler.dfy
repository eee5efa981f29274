/**
  Threads, the ready list and semaphores (threads/thread.c, threads/synch.c). Each
  region that runs with interrupts off is one atomic step; a run is any
  interleaving of them.
 */
module Scheduler {
  import opened Order

  type Tid = int
  type Sid = int

  datatype Status = Running | Ready | Blocked | Dying

  /** Where a thread's program is: inside sema_down's loop, or anywhere else. */
  datatype Pc = Free | InDown(sema: Sid)

  datatype Kernel = Kernel(
    status: map<Tid, Status>, prio: map<Tid, int>, at: map<Tid, Pc>,
    ready: seq<Tid>, cur: Tid, idle: Tid,
    value: map<Sid, nat>, waiters: map<Sid, seq<Tid>>)

  function PriorityOf(prio: map<Tid, int>, t: Tid): (p: int) { if t in prio then prio[t] else 0 }

  /** comparePriority */
  function Higher(prio: map<Tid, int>): (less: (Tid, Tid) -> bool) {
    (a, b) => PriorityOf(prio, a) > PriorityOf(prio, b)
  }

  lemma HigherIsOrder(prio: map<Tid, int>, dom: set<Tid>)
    ensures StrictWeak(Higher(prio), dom)
  {}

  // ---- The primitives of thread.c ------------------------------------------

  /** thread_unblock */
  function Unblock(k: Kernel, t: Tid): (k': Kernel) {
    k.(ready := InsertOrdered(Higher(k.prio), k.ready, t), status := k.status[t := Ready])
  }

  /** next_thread_to_run and schedule */
  function Schedule(k: Kernel): (k': Kernel) {
    if k.ready == [] then k.(cur := k.idle, status := k.status[k.idle := Running])
    else k.(cur := k.ready[0], status := k.status[k.ready[0] := Running], ready := k.ready[1..])
  }

  /** thread_block */
  function Block(k: Kernel): (k': Kernel) {
    Schedule(k.(status := k.status[k.cur := Blocked]))
  }

  /** thread_yield */
  function Yield(k: Kernel): (k': Kernel) {
    var ready := if k.cur != k.idle then InsertOrdered(Higher(k.prio), k.ready, k.cur) else k.ready;
    Schedule(k.(ready := ready, status := k.status[k.cur := Ready]))
  }

  /** check_priority */
  function CheckPriority(k: Kernel): (k': Kernel) {
    if k.ready != [] && PriorityOf(k.prio, k.cur) < PriorityOf(k.prio, k.ready[0]) then Yield(k) else k
  }

  // ---- The steps of a run --------------------------------------------------

  datatype Event =
    | Down(s: Sid)              // one pass of sema_down's loop
    | TryDown(s: Sid)           // sema_try_down
    | Up(s: Sid)                // sema_up, up to the point where interrupts come back on
    | Check                     // check_priority
    | Preempt                   // thread_yield, from the thread or from the timer
    | SetPriority(p: int)       // thread_set_priority, priority_recheck
    | Donate(t: Tid, p: int)    // one assignment of priority_donation
    | Create(t: Tid, p: int)    // thread_create
    | Exit                      // thread_exit
    | IdleBlock                 // the idle thread's loop
    | Init(s: Sid, v: nat)      // sema_init

  predicate Enabled(k: Kernel, e: Event) {
    && k.cur in k.at
    && match e
       case Down(s) => s in k.value && s in k.waiters && k.cur != k.idle && (k.at[k.cur] == Free || k.at[k.cur] == InDown(s))
       case TryDown(s) => k.at[k.cur] == Free && s in k.value
       case Up(s) => k.at[k.cur] == Free && s in k.value && s in k.waiters
       case Check => k.at[k.cur] == Free
       case Preempt => k.at[k.cur] == Free
       case SetPriority(p) => k.at[k.cur] == Free
       case Donate(t, p) => k.at[k.cur] == Free && t in k.prio && k.prio[t] < p
       case Create(t, p) => k.at[k.cur] == Free && t !in k.status
       case Exit => k.at[k.cur] == Free && k.cur != k.idle
       case IdleBlock => k.cur == k.idle
       case Init(s, v) => k.at[k.cur] == Free && s !in k.value
  }

  /** One pass of sema_down's loop: take the semaphore, or join its waiters and let
      another thread run. */
  function DownPass(k: Kernel, s: Sid): (k': Kernel)
    requires s in k.value && s in k.waiters
  {
    if k.value[s] > 0 then k.(value := k.value[s := k.value[s] - 1], at := k.at[k.cur := Free])
    else Block(k.(waiters := k.waiters[s := InsertOrdered(Higher(k.prio), k.waiters[s], k.cur)],
                  at := k.at[k.cur := InDown(s)]))
  }

  /** sema_up's wake-up: sort the waiters by priority and unblock the first. */
  function WakeFirst(k: Kernel, s: Sid): (k': Kernel)
    requires s in k.waiters && k.waiters[s] != []
  {
    var w := InsertionSort(Higher(k.prio), k.waiters[s]);
    Unblock(k.(waiters := k.waiters[s := w[1..]]), w[0])
  }

  /** sema_up */
  function UpStep(k: Kernel, s: Sid): (k': Kernel)
    requires s in k.value && s in k.waiters
  {
    var woken := if k.waiters[s] == [] then k else WakeFirst(k, s);
    woken.(value := k.value[s := k.value[s] + 1])
  }

  function Step(k: Kernel, e: Event): (k': Kernel)
    requires Enabled(k, e)
  {
    match e
    case Down(s) => DownPass(k, s)
    case TryDown(s) => if k.value[s] > 0 then k.(value := k.value[s := k.value[s] - 1]) else k
    case Up(s) => UpStep(k, s)
    case Check => CheckPriority(k)
    case Preempt => Yield(k)
    case SetPriority(p) => k.(prio := k.prio[k.cur := p])
    case Donate(t, p) => k.(prio := k.prio[t := p])
    case Create(t, p) =>
      Unblock(k.(prio := k.prio[t := p], at := k.at[t := Free], status := k.status[t := Blocked]), t)
    case Exit => Schedule(k.(status := k.status[k.cur := Dying]))
    case IdleBlock => Block(k)
    case Init(s, v) => k.(value := k.value[s := v], waiters := k.waiters[s := []])
  }

  // ---- The invariant -------------------------------------------------------

  ghost predicate Domains(k: Kernel) {
    k.status.Keys == k.prio.Keys == k.at.Keys && k.value.Keys == k.waiters.Keys && k.idle in k.status && k.cur in k.status
  }

  /** The ready list holds each ready thread once, and nobody else; the idle thread
      is never on it. */
  ghost predicate ReadyOk(k: Kernel) {
    && Distinct(k.ready)
    && (forall t :: t in k.ready <==> t in k.status && k.status[t] == Ready && t != k.idle)
  }

  ghost predicate CurrentOk(k: Kernel) {
    k.cur in k.status && forall t :: t in k.status ==> (k.status[t] == Running <==> t == k.cur)
  }

  /** A semaphore's waiters are its blocked threads, each once; every blocked thread
      but the idle one waits for the semaphore it is inside sema_down for. */
  ghost predicate WaitersOk(k: Kernel) {
    && k.idle in k.at && k.at[k.idle] == Free
    && (forall s :: s in k.waiters ==> Distinct(k.waiters[s]))
    && (forall s, t :: s in k.waiters && t in k.waiters[s] ==>
          t in k.status && t in k.at && k.status[t] == Blocked && k.at[t] == InDown(s))
    && (forall t :: t in k.status && k.status[t] == Blocked && t != k.idle ==>
          t in k.at && k.at[t].InDown? && k.at[t].sema in k.waiters && t in k.waiters[k.at[t].sema])
  }

  /** The threads that sema_up has woken for s and that have not run yet. */
  ghost function Awake(k: Kernel, s: Sid): (r: set<Tid>)
    requires s in k.waiters
  {
    set t | t in k.at && k.at[t] == InDown(s) && t !in k.waiters[s]
  }

  /** No wake-up is lost: while somebody sleeps on a semaphore, there are at least as
      many woken threads about to take it as it has units. */
  ghost predicate NoLostWakeup(k: Kernel) {
    forall s :: s in k.value && s in k.waiters && k.waiters[s] != [] ==> k.value[s] <= |Awake(k, s)|
  }

  ghost predicate Inv(k: Kernel) {
    Domains(k) && CurrentOk(k) && ReadyOk(k) && WaitersOk(k) && NoLostWakeup(k)
  }

  /** A thread's list element is on at most one list. */
  lemma OneList(k: Kernel, t: Tid, s: Sid, s': Sid)
    requires Inv(k) && s in k.waiters && s' in k.waiters && t in k.waiters[s]
    ensures t !in k.ready && t != k.cur && (t in k.waiters[s'] ==> s == s')
  {}

  // ---- Every step keeps it -------------------------------------------------

  lemma InsertedMembers<T>(less: (T, T) -> bool, s: seq<T>, e: T)
    requires Distinct(s) && e !in s
    ensures var r := InsertOrdered(less, s, e); Distinct(r) && forall t :: t in r <==> t in s || t == e
  {
    hide InsertPoint;
    var k := InsertPoint(less, s, e);
    InsertedAt(s, k, e);
  }

  lemma InsertedAt<T>(s: seq<T>, k: nat, e: T)
    requires Distinct(s) && e !in s && k <= |s|
    ensures var r := s[..k] + [e] + s[k..]; Distinct(r) && forall t :: t in r <==> t in s || t == e
  {
    var r := s[..k] + [e] + s[k..];
    assert forall i :: 0 <= i < |r| ==> r[i] == if i < k then s[i] else if i == k then e else s[i-1];
    forall t | t in s ensures t in r {
      var i :| 0 <= i < |s| && s[i] == t;
      assert r[if i < k then i else i + 1] == t;
    }
    assert r[k] == e;
  }

  lemma {:induction false} SortedMembers<T>(less: (T, T) -> bool, s: seq<T>)
    requires Distinct(s)
    ensures var r := InsertionSort(less, s); Distinct(r) && forall t :: t in r <==> t in s
  {
    if s != [] {
      var n := |s| - 1;
      SortedMembers(less, s[..n]);
      assert s == s[..n] + [s[n]];
      InsertedMembers(less, InsertionSort(less, s[..n]), s[n]);
    }
  }

  ghost predicate NobodyRuns(k: Kernel) {
    forall t :: t in k.status ==> k.status[t] != Running
  }

  lemma WakeupFrame(k: Kernel, k': Kernel)
    requires NoLostWakeup(k) && k'.at == k.at && k'.waiters == k.waiters && k'.value == k.value
    ensures NoLostWakeup(k')
  {
    assert forall s :: s in k.waiters ==> Awake(k', s) == Awake(k, s);
  }

  /** What the lists of the scheduler proper depend on. */
  lemma ThreadFrame(k: Kernel, k': Kernel)
    requires CurrentOk(k) && ReadyOk(k)
    requires k'.status == k.status && k'.ready == k.ready && k'.cur == k.cur && k'.idle == k.idle
    ensures CurrentOk(k') && ReadyOk(k')
  {}

  lemma ScheduleReady(k: Kernel)
    requires ReadyOk(k) && NobodyRuns(k)
    ensures ReadyOk(Schedule(k))
  {
    if k.ready != [] {
      assert k.ready == [k.ready[0]] + k.ready[1..];
    }
  }

  lemma ScheduleInv(k: Kernel)
    requires Domains(k) && NobodyRuns(k) && ReadyOk(k) && WaitersOk(k) && NoLostWakeup(k)
    ensures Inv(Schedule(k))
  {
    hide NoLostWakeup, Distinct;
    ScheduleReady(k);
    WakeupFrame(k, Schedule(k));
    assert k.ready != [] ==> k.ready[0] in k.ready;
  }

  lemma UnblockReady(k: Kernel, t: Tid)
    requires ReadyOk(k) && t in k.status && k.status[t] == Blocked && t != k.idle
    ensures ReadyOk(Unblock(k, t))
  {
    InsertedMembers(Higher(k.prio), k.ready, t);
  }

  lemma UnblockInv(k: Kernel, t: Tid)
    requires Domains(k) && CurrentOk(k) && ReadyOk(k) && NoLostWakeup(k)
    requires t in k.status && k.status[t] == Blocked && t != k.idle
    requires WaitersOk(k.(status := k.status[t := Ready]))
    ensures Inv(Unblock(k, t))
  {
    hide NoLostWakeup, ReadyOk, InsertOrdered;
    UnblockReady(k, t);
    WakeupFrame(k, Unblock(k, t));
  }

  lemma YieldInv(k: Kernel)
    requires Inv(k)
    ensures Inv(Yield(k))
  {
    hide NoLostWakeup, Distinct, InsertOrdered;
    InsertedMembers(Higher(k.prio), k.ready, k.cur);
    var ready := if k.cur != k.idle then InsertOrdered(Higher(k.prio), k.ready, k.cur) else k.ready;
    var k1 := k.(ready := ready, status := k.status[k.cur := Ready]);
    WakeupFrame(k, k1);
    ScheduleInv(k1);
  }

  lemma LeaveInv(k: Kernel, st: Status)
    requires Inv(k) && (st == Dying || (st == Blocked && k.cur == k.idle))
    ensures Inv(Schedule(k.(status := k.status[k.cur := st])))
  {
    hide NoLostWakeup, Distinct;
    var k1 := k.(status := k.status[k.cur := st]);
    WakeupFrame(k, k1);
    ScheduleInv(k1);
  }

  // sema_down

  lemma TakeWakeup(k: Kernel, s: Sid)
    requires Inv(k) && s in k.value && k.value[s] > 0 && (k.at[k.cur] == Free || k.at[k.cur] == InDown(s))
    ensures NoLostWakeup(k.(value := k.value[s := k.value[s] - 1], at := k.at[k.cur := Free]))
  {
    var k' := k.(value := k.value[s := k.value[s] - 1], at := k.at[k.cur := Free]);
    assert k.at[k.cur] == InDown(s) ==> k.cur in Awake(k, s);
    forall u | u in k'.value && k'.waiters[u] != [] ensures k'.value[u] <= |Awake(k', u)| {
      assert Awake(k', u) == if u == s then Awake(k, u) - {k.cur} else Awake(k, u);
    }
  }

  lemma TakeInv(k: Kernel, s: Sid)
    requires Inv(k) && s in k.value && k.value[s] > 0 && (k.at[k.cur] == Free || k.at[k.cur] == InDown(s))
    ensures Inv(k.(value := k.value[s := k.value[s] - 1], at := k.at[k.cur := Free]))
  {
    TakeWakeup(k, s);
    hide NoLostWakeup, ReadyOk;
  }

  lemma SleepWakeup(k: Kernel, s: Sid, w: seq<Tid>)
    requires Inv(k) && s in k.value && k.value[s] == 0 && (k.at[k.cur] == Free || k.at[k.cur] == InDown(s))
    ensures NoLostWakeup(k.(waiters := k.waiters[s := w], at := k.at[k.cur := InDown(s)]))
  {
    var k' := k.(waiters := k.waiters[s := w], at := k.at[k.cur := InDown(s)]);
    forall u | u in k'.value && u != s ensures Awake(k', u) == Awake(k, u) {
    }
  }

  lemma SleepWaiters(k: Kernel, s: Sid, w: seq<Tid>)
    requires Inv(k) && s in k.value && k.cur != k.idle
    requires Distinct(w) && forall t :: t in w <==> t in k.waiters[s] || t == k.cur
    ensures WaitersOk(k.(waiters := k.waiters[s := w], at := k.at[k.cur := InDown(s)], status := k.status[k.cur := Blocked]))
  {
    hide NoLostWakeup, ReadyOk;
  }

  lemma SleepInv(k: Kernel, s: Sid)
    requires Inv(k) && s in k.value && k.value[s] == 0 && k.cur != k.idle
    requires k.at[k.cur] == Free || k.at[k.cur] == InDown(s)
    ensures Inv(DownPass(k, s))
  {
    InvParts(k);
    assert k.cur !in k.waiters[s];
    hide NoLostWakeup, InsertOrdered, Distinct, WaitersOk;
    var w := InsertOrdered(Higher(k.prio), k.waiters[s], k.cur);
    var k1 := k.(waiters := k.waiters[s := w], at := k.at[k.cur := InDown(s)]);
    var k2 := k1.(status := k1.status[k.cur := Blocked]);
    SleepWakeup(k, s, w);
    WakeupFrame(k1, k2);
    InsertedMembers(Higher(k.prio), k.waiters[s], k.cur);
    SleepWaiters(k, s, w);
    ScheduleInv(k2);
  }

  // sema_up

  lemma WokenWakeup(k: Kernel, s: Sid, t: Tid, w: seq<Tid>)
    requires Inv(k) && s in k.value && t in k.waiters[s]
    requires forall u :: u in w <==> u in k.waiters[s] && u != t
    ensures NoLostWakeup(k.(waiters := k.waiters[s := w], value := k.value[s := k.value[s] + 1]))
  {
    var k' := k.(waiters := k.waiters[s := w], value := k.value[s := k.value[s] + 1]);
    assert t !in Awake(k, s) && k.at[t] == InDown(s);
    forall u ensures u in Awake(k', s) <==> u in Awake(k, s) || u == t {
      assert k'.waiters[s] == w;
    }
    assert Awake(k', s) == Awake(k, s) + {t};
    forall u | u in k'.value && u != s ensures Awake(k', u) == Awake(k, u) {
    }
  }

  lemma WokenWaiters(k: Kernel, s: Sid, t: Tid, w: seq<Tid>)
    requires Inv(k) && s in k.value && t in k.waiters[s] && Distinct(w)
    requires forall u :: u in w <==> u in k.waiters[s] && u != t
    ensures WaitersOk(k.(waiters := k.waiters[s := w], value := k.value[s := k.value[s] + 1], status := k.status[t := Ready]))
  {
    hide NoLostWakeup, ReadyOk;
  }

  lemma SortedWaiters(k: Kernel, s: Sid)
    requires WaitersOk(k) && s in k.waiters && k.waiters[s] != []
    ensures var w := InsertionSort(Higher(k.prio), k.waiters[s]);
            w[0] in k.waiters[s] && Distinct(w[1..]) && forall u :: u in w[1..] <==> u in k.waiters[s] && u != w[0]
  {
    var w := InsertionSort(Higher(k.prio), k.waiters[s]);
    SortedMembers(Higher(k.prio), k.waiters[s]);
    assert w == [w[0]] + w[1..];
  }

  lemma UpNobody(k: Kernel, s: Sid)
    requires Inv(k) && s in k.value && k.waiters[s] == []
    ensures Inv(k.(value := k.value[s := k.value[s] + 1]))
  {
    var k' := k.(value := k.value[s := k.value[s] + 1]);
    assert forall u :: u in k.waiters ==> Awake(k', u) == Awake(k, u);
    ThreadFrame(k, k');
    hide ReadyOk;
  }

  lemma WokenIs(k: Kernel, s: Sid, t: Tid)
    requires Inv(k) && s in k.value && t in k.waiters[s]
    ensures t in k.status && k.status[t] == Blocked && t != k.idle && k.waiters.Keys == k.value.Keys
  {
    hide NoLostWakeup, ReadyOk;
  }

  lemma WokenInv(k: Kernel, s: Sid, t: Tid, w: seq<Tid>)
    requires Inv(k) && s in k.value && t in k.waiters[s] && Distinct(w)
    requires forall u :: u in w <==> u in k.waiters[s] && u != t
    ensures Inv(Unblock(k.(waiters := k.waiters[s := w], value := k.value[s := k.value[s] + 1]), t))
  {
    hide NoLostWakeup, Distinct, ReadyOk, CurrentOk, WaitersOk, Unblock;
    var k1 := k.(waiters := k.waiters[s := w], value := k.value[s := k.value[s] + 1]);
    WokenWakeup(k, s, t, w);
    WokenWaiters(k, s, t, w);
    WokenIs(k, s, t);
    ThreadFrame(k, k1);
    UnblockInv(k1, t);
  }

  lemma UpInv(k: Kernel, s: Sid)
    requires Inv(k) && s in k.value
    ensures Inv(UpStep(k, s))
  {
    hide Inv, InsertionSort, InsertOrdered, Distinct;
    assert WaitersOk(k) && s in k.waiters by { InvParts(k); }
    if k.waiters[s] == [] {
      UpNobody(k, s);
    } else {
      SortedWaiters(k, s);
      var w := InsertionSort(Higher(k.prio), k.waiters[s]);
      WokenInv(k, s, w[0], w[1..]);
    }
  }

  lemma CreateParts(k: Kernel, t: Tid, p: int)
    requires Inv(k) && t !in k.status
    ensures var k1 := k.(prio := k.prio[t := p], at := k.at[t := Free], status := k.status[t := Blocked]);
            CurrentOk(k1) && ReadyOk(k1) && WaitersOk(k1.(status := k1.status[t := Ready]))
  {
    hide NoLostWakeup, Distinct;
  }

  lemma CreateInv(k: Kernel, t: Tid, p: int)
    requires Inv(k) && t !in k.status
    ensures Inv(Unblock(k.(prio := k.prio[t := p], at := k.at[t := Free], status := k.status[t := Blocked]), t))
  {
    var k1 := k.(prio := k.prio[t := p], at := k.at[t := Free], status := k.status[t := Blocked]);
    assert NoLostWakeup(k1) by { assert forall u :: u in k.waiters ==> Awake(k1, u) == Awake(k, u); }
    CreateParts(k, t, p);
    hide NoLostWakeup, Distinct, ReadyOk, WaitersOk, CurrentOk;
    UnblockInv(k1, t);
  }

  lemma InitInv(k: Kernel, s: Sid, v: nat)
    requires Inv(k) && s !in k.value
    ensures Inv(k.(value := k.value[s := v], waiters := k.waiters[s := []]))
  {
    var k' := k.(value := k.value[s := v], waiters := k.waiters[s := []]);
    assert forall u :: u in k.waiters ==> Awake(k', u) == Awake(k, u);
    hide ReadyOk;
  }

  lemma PrioInv(k: Kernel, t: Tid, p: int)
    requires Inv(k) && t in k.prio
    ensures Inv(k.(prio := k.prio[t := p]))
  {
    WakeupFrame(k, k.(prio := k.prio[t := p]));
    hide NoLostWakeup;
  }

  /** Every step keeps the invariant. */
  lemma StepInv(k: Kernel, e: Event)
    requires Inv(k) && Enabled(k, e)
    ensures Inv(Step(k, e))
  {
    hide Inv, Yield, UpStep, Schedule, Unblock;
    assert Domains(k) by { InvParts(k); }
    match e
    case Down(s) => if k.value[s] > 0 { TakeInv(k, s); } else { SleepInv(k, s); }
    case TryDown(s) => if k.value[s] > 0 { TakeInv(k, s); assert k.at[k.cur := Free] == k.at; }
    case Up(s) => UpInv(k, s);
    case Check => YieldInv(k);
    case Preempt => YieldInv(k);
    case SetPriority(p) => PrioInv(k, k.cur, p);
    case Donate(t, p) => PrioInv(k, t, p);
    case Create(t, p) => CreateInv(k, t, p);
    case Exit => LeaveInv(k, Dying);
    case IdleBlock => LeaveInv(k, Blocked);
    case Init(s, v) => InitInv(k, s, v);
  }

  lemma InvParts(k: Kernel)
    requires Inv(k)
    ensures Domains(k) && WaitersOk(k) && CurrentOk(k) && ReadyOk(k)
  {}
}
