/**
  Locks (threads/synch.c): a semaphore of value 1 and a holder field that is written
  outside its atomic regions. `inside` records, for each lock, the threads between a
  completed sema_down and the matching sema_up.
 */
module Locks {
  import opened Bits
  import opened Scheduler
  import opened SchedulerRuns

  /** Where a thread's program is in lock_acquire or lock_release. */
  datatype Stage = Elsewhere | Got(l: Sid) | Cleared(l: Sid)

  datatype System = System(k: Kernel, locks: set<Sid>, holder: map<Sid, Option<Tid>>,
                           inside: map<Sid, set<Tid>>, stage: map<Tid, Stage>)

  datatype LockEvent =
    | LockInit(l: Sid)        // lock_init
    | Acquire(l: Sid)         // one pass of the sema_down in lock_acquire
    | TryAcquire(l: Sid)      // the sema_try_down in lock_try_acquire
    | SetHolder(l: Sid)       // the assignment after it
    | ClearHolder(l: Sid)     // lock_release, up to the assignment
    | Release(l: Sid)         // the sema_up in lock_release
    | Other(e: Event)         // anything that is not done to a lock's semaphore

  function StageOf(y: System, t: Tid): (g: Stage) { if t in y.stage then y.stage[t] else Elsewhere }

  /** The semaphore that an event works on, if any. */
  predicate Uses(e: Event, l: Sid) {
    e == Down(l) || e == TryDown(l) || e == Up(l) || (e.Init? && e.s == l)
  }

  predicate MayHappen(y: System, e: LockEvent) {
    match e
    case LockInit(l) => Enabled(y.k, Init(l, 1)) && l !in y.locks
    case Acquire(l) => l in y.locks && Enabled(y.k, Down(l)) && StageOf(y, y.k.cur) == Elsewhere
                       && l in y.holder && y.holder[l] != Some(y.k.cur) && l in y.inside
    case TryAcquire(l) => l in y.locks && Enabled(y.k, TryDown(l)) && StageOf(y, y.k.cur) == Elsewhere
                          && l in y.holder && y.holder[l] != Some(y.k.cur) && l in y.inside
    case SetHolder(l) => StageOf(y, y.k.cur) == Got(l)
    case ClearHolder(l) => l in y.locks && StageOf(y, y.k.cur) == Elsewhere && l in y.holder && y.holder[l] == Some(y.k.cur)
    case Release(l) => StageOf(y, y.k.cur) == Cleared(l) && Enabled(y.k, Up(l)) && l in y.inside
    case Other(e) => Enabled(y.k, e) && forall l :: l in y.locks ==> !Uses(e, l)
  }

  /** A sema_down or sema_try_down on a lock's semaphore that may complete. */
  function Entered(y: System, l: Sid, k': Kernel): (y': System)
    requires l in y.k.value && l in y.inside
  {
    if y.k.value[l] > 0 then y.(k := k', inside := y.inside[l := y.inside[l] + {y.k.cur}], stage := y.stage[y.k.cur := Got(l)])
    else y.(k := k')
  }

  function LockStep(y: System, e: LockEvent): (y': System)
    requires MayHappen(y, e)
  {
    match e
    case LockInit(l) => y.(k := Step(y.k, Init(l, 1)), locks := y.locks + {l}, holder := y.holder[l := None], inside := y.inside[l := {}])
    case Acquire(l) => Entered(y, l, Step(y.k, Down(l)))
    case TryAcquire(l) => Entered(y, l, Step(y.k, TryDown(l)))
    case SetHolder(l) => y.(holder := y.holder[l := Some(y.k.cur)], stage := y.stage[y.k.cur := Elsewhere])
    case ClearHolder(l) => y.(holder := y.holder[l := None], stage := y.stage[y.k.cur := Cleared(l)])
    case Release(l) =>
      y.(k := Step(y.k, Up(l)), inside := y.inside[l := y.inside[l] - {y.k.cur}], stage := y.stage[y.k.cur := Elsewhere])
    case Other(e) => y.(k := Step(y.k, e))
  }

  /** A lock is free or one thread is inside it. The holder is the thread that is inside
      and has both set the field and not cleared it yet. */
  ghost predicate LockOk(y: System, l: Sid) {
    && l in y.k.value && l in y.inside && l in y.holder
    && y.k.value[l] + |y.inside[l]| == 1
    && (forall t :: StageOf(y, t) == Got(l) || StageOf(y, t) == Cleared(l) ==> t in y.inside[l])
    && (forall t :: y.holder[l] == Some(t) <==> t in y.inside[l] && StageOf(y, t) != Got(l) && StageOf(y, t) != Cleared(l))
  }

  ghost predicate LocksOk(y: System) {
    && (forall l :: l in y.locks ==> LockOk(y, l))
    && (forall t :: StageOf(y, t).Got? || StageOf(y, t).Cleared? ==> StageOf(y, t).l in y.locks)
  }

  /** Locks exclude each other's threads, in any state that satisfies the invariant. */
  lemma MutualExclusion(y: System, l: Sid, t: Tid, u: Tid)
    requires LocksOk(y) && l in y.locks && t in y.inside[l] && u in y.inside[l]
    ensures t == u
  {
    OneMember(y.inside[l], t, u);
  }

  lemma OneMember(s: set<Tid>, t: Tid, u: Tid)
    requires |s| <= 1 && t in s && u in s
    ensures t == u
  {
    assert |s - {t}| == 0;
    assert u in s - {t} || u == t;
  }

  lemma OnlyInside(y: System, l: Sid, t: Tid)
    requires LocksOk(y) && l in y.locks && t in y.inside[l]
    ensures y.inside[l] == {t}
  {
    forall u | u in y.inside[l] ensures u == t {
      MutualExclusion(y, l, u, t);
    }
  }

  lemma StageSet(y: System, y': System, g: Stage)
    requires y'.stage == y.stage[y.k.cur := g]
    ensures forall t :: StageOf(y', t) == if t == y.k.cur then g else StageOf(y, t)
  {}

  lemma StageKept(y: System, y': System)
    requires y'.stage == y.stage
    ensures forall t :: StageOf(y', t) == StageOf(y, t)
  {}

  lemma EnteredOk(y: System, l: Sid, e: Event)
    requires LocksOk(y) && l in y.locks && Enabled(y.k, e) && (e == Down(l) || e == TryDown(l))
    requires StageOf(y, y.k.cur) == Elsewhere
    ensures LocksOk(Entered(y, l, Step(y.k, e)))
  {
    assert l in y.k.value;
    hide Step, Enabled, StageOf;
    var y' := Entered(y, l, Step(y.k, e));
    if y.k.value[l] > 0 { StageSet(y, y', Got(l)); } else { StageKept(y, y'); }
    forall m | m in y.locks ensures LockOk(y', m) {
      StepValue(y.k, e, m);
      EnteredLock(y, y', l, e, m);
    }
    hide LockOk;
  }

  lemma EnteredLock(y: System, y': System, l: Sid, e: Event, m: Sid)
    requires LockOk(y, l) && LockOk(y, m) && (e == Down(l) || e == TryDown(l)) && Enabled(y.k, e)
    requires StageOf(y, y.k.cur) == Elsewhere && y' == Entered(y, l, Step(y.k, e))
    requires forall t :: StageOf(y', t) == if t == y.k.cur && y.k.value[l] > 0 then Got(l) else StageOf(y, t)
    requires m in y'.k.value && y'.k.value[m] + (if Completes(y.k, e, m) then 1 else 0) == y.k.value[m]
    ensures LockOk(y', m)
  {
    hide Step, Enabled, StageOf;
    if m == l && y.k.value[l] > 0 {
      assert y.inside[l] == {};
    }
  }

  lemma ReleaseOk(y: System, l: Sid)
    requires LocksOk(y) && MayHappen(y, Release(l))
    ensures LocksOk(LockStep(y, Release(l)))
  {
    var y' := LockStep(y, Release(l));
    StageSet(y, y', Elsewhere);
    hide Step, Enabled, StageOf;
    forall m | m in y.locks ensures LockOk(y', m) {
      assert LockOk(y, m);
      StepValue(y.k, Up(l), m);
      if m == l {
        OnlyInside(y, l, y.k.cur);
        assert y'.inside[l] == {};
      }
    }
  }

  /** Every step keeps locks sound, whichever threads it interleaves. */
  lemma LockStepOk(y: System, e: LockEvent)
    requires LocksOk(y) && MayHappen(y, e)
    ensures LocksOk(LockStep(y, e))
  {
    var y' := LockStep(y, e);
    match e
    case LockInit(l) => LockInitOk(y, l);
    case Acquire(l) => EnteredOk(y, l, Down(l));
    case TryAcquire(l) => EnteredOk(y, l, TryDown(l));
    case SetHolder(l) => SetHolderOk(y, l);
    case ClearHolder(l) => ClearHolderOk(y, l);
    case Release(l) => ReleaseOk(y, l);
    case Other(e) => OtherOk(y, e);
  }

  lemma LockInitOk(y: System, l: Sid)
    requires LocksOk(y) && MayHappen(y, LockInit(l))
    ensures LocksOk(LockStep(y, LockInit(l)))
  {
    var y' := LockStep(y, LockInit(l));
    StageKept(y, y');
    forall m | m in y'.locks ensures LockOk(y', m) {
      assert m != l ==> LockOk(y, m);
    }
  }

  lemma SetHolderOk(y: System, l: Sid)
    requires LocksOk(y) && MayHappen(y, SetHolder(l))
    ensures LocksOk(LockStep(y, SetHolder(l)))
  {
    var y' := LockStep(y, SetHolder(l));
    StageSet(y, y', Elsewhere);
    forall m | m in y.locks ensures LockOk(y', m) {
      assert LockOk(y, m);
      if m == l {
        OnlyInside(y, l, y.k.cur);
      }
    }
  }

  lemma ClearHolderOk(y: System, l: Sid)
    requires LocksOk(y) && MayHappen(y, ClearHolder(l))
    ensures LocksOk(LockStep(y, ClearHolder(l)))
  {
    var y' := LockStep(y, ClearHolder(l));
    StageSet(y, y', Cleared(l));
    forall m | m in y.locks ensures LockOk(y', m) {
      assert LockOk(y, m);
    }
  }

  lemma OtherOk(y: System, e: Event)
    requires LocksOk(y) && MayHappen(y, Other(e))
    ensures LocksOk(LockStep(y, Other(e)))
  {
    var y' := LockStep(y, Other(e));
    StageKept(y, y');
    hide Step, Enabled;
    forall m | m in y.locks ensures LockOk(y', m) {
      assert LockOk(y, m);
      StepValue(y.k, e, m);
    }
  }

  ghost predicate IsLockRun(ys: seq<System>, es: seq<LockEvent>) {
    && |ys| == |es| + 1
    && forall i :: 0 <= i < |es| ==> MayHappen(ys[i], es[i]) && ys[i+1] == LockStep(ys[i], es[i])
  }

  /** In every state of every run at most one thread is between a completed sema_down
      of a lock's semaphore and the matching sema_up, and only that thread can pass
      for the holder. */
  lemma {:induction false} RunExcludes(ys: seq<System>, es: seq<LockEvent>, n: nat)
    requires IsLockRun(ys, es) && LocksOk(ys[0]) && n <= |es|
    ensures LocksOk(ys[n])
  {
    hide LocksOk, LockStep, MayHappen;
    if n > 0 {
      RunExcludes(ys, es, n - 1);
      LockStepOk(ys[n-1], es[n-1]);
    }
  }

  // ---- Who holds a lock ----------------------------------------------------

  /** While a thread is between the two halves of lock_acquire or of lock_release, the
      lock has no holder. */
  lemma NoHolderAt(y: System, l: Sid, t: Tid)
    requires LocksOk(y) && l in y.locks && (StageOf(y, t) == Got(l) || StageOf(y, t) == Cleared(l))
    ensures y.holder[l] == None
  {
    if y.holder[l].Some? {
      assert y.holder[l] == Some(y.holder[l].value);
      MutualExclusion(y, l, t, y.holder[l].value);
    }
  }

  /** In every state of every run, lock_release's and lock_acquire's assertions about the
      holder say the same as: the running thread is inside the lock, and it is not. */
  lemma RunHolder(ys: seq<System>, es: seq<LockEvent>, n: nat, l: Sid)
    requires IsLockRun(ys, es) && LocksOk(ys[0]) && n <= |es| && l in ys[n].locks
    ensures l in ys[n].inside && l in ys[n].holder
    ensures forall t :: t in ys[n].inside[l] && StageOf(ys[n], t) != Got(l) && StageOf(ys[n], t) != Cleared(l) ==>
                          ys[n].holder[l] == Some(t)
    ensures StageOf(ys[n], ys[n].k.cur) == Elsewhere ==>
              && (MayHappen(ys[n], ClearHolder(l)) <==> ys[n].k.cur in ys[n].inside[l])
              && (MayHappen(ys[n], Acquire(l)) <==> Enabled(ys[n].k, Down(l)) && ys[n].k.cur !in ys[n].inside[l])
              && (MayHappen(ys[n], TryAcquire(l)) <==> Enabled(ys[n].k, TryDown(l)) && ys[n].k.cur !in ys[n].inside[l])
  {
    RunExcludes(ys, es, n);
    hide Enabled, StageOf, LockStep, IsLockRun;
    assert LockOk(ys[n], l);
  }

  /** t completed an acquire of l at step i and no release of l has begun since. */
  ghost predicate Acquired(ys: seq<System>, es: seq<LockEvent>, l: Sid, t: Tid, i: nat, n: nat)
    requires n <= |es| <= |ys|
  {
    i < n && es[i] == SetHolder(l) && ys[i].k.cur == t && forall j :: i < j < n ==> es[j] != ClearHolder(l)
  }

  /** What one step does to the holder of a lock. */
  lemma StepHolder(y: System, e: LockEvent, l: Sid)
    requires LocksOk(y) && MayHappen(y, e)
    ensures l in y.locks ==> l in LockStep(y, e).locks
    ensures l in LockStep(y, e).locks ==>
              && l in LockStep(y, e).holder
              && LockStep(y, e).holder[l] ==
                 if e == SetHolder(l) then Some(y.k.cur)
                 else if e == ClearHolder(l) || l !in y.locks then None
                 else y.holder[l]
  {
    hide Step, Enabled;
    LockStepOk(y, e);
    if l in y.locks {
      assert LockOk(y, l);
    }
  }

  lemma SetsOnce(y: System, e: LockEvent, l: Sid)
    requires LocksOk(y) && MayHappen(y, e) && e == SetHolder(l)
    ensures l in y.locks && y.holder[l] == None
  {
    NoHolderAt(y, l, y.k.cur);
  }

  lemma {:induction false} LocksStay(ys: seq<System>, es: seq<LockEvent>, l: Sid, i: nat, n: nat)
    requires IsLockRun(ys, es) && LocksOk(ys[0]) && i <= n <= |es| && l in ys[i].locks
    ensures l in ys[n].locks
    decreases n
  {
    hide LocksOk, LockStep, MayHappen;
    if i < n {
      LocksStay(ys, es, l, i, n - 1);
      RunExcludes(ys, es, n - 1);
      StepHolder(ys[n-1], es[n-1], l);
    }
  }

  lemma AcquiredNext(ys: seq<System>, es: seq<LockEvent>, l: Sid, t: Tid, m: nat, n: nat)
    requires m + 1 == n <= |es| <= |ys|
    ensures (exists i: nat :: Acquired(ys, es, l, t, i, n)) <==>
              if es[m] == SetHolder(l) && ys[m].k.cur == t then true
              else es[m] != ClearHolder(l) && exists i: nat :: Acquired(ys, es, l, t, i, m)
  {
    if es[m] == SetHolder(l) && ys[m].k.cur == t {
      assert Acquired(ys, es, l, t, m, n);
    } else if i: nat :| Acquired(ys, es, l, t, i, n) {
      assert Acquired(ys, es, l, t, i, m);
    } else if i: nat :| Acquired(ys, es, l, t, i, m) {
      assert es[m] != ClearHolder(l) ==> Acquired(ys, es, l, t, i, n);
    }
  }

  lemma NeverAcquired(ys: seq<System>, es: seq<LockEvent>, l: Sid, t: Tid, n: nat)
    requires IsLockRun(ys, es) && LocksOk(ys[0]) && n <= |es| && l !in ys[n].locks
    ensures !exists i: nat :: Acquired(ys, es, l, t, i, n)
  {
    hide LocksOk, LockStep, MayHappen;
    if i: nat :| Acquired(ys, es, l, t, i, n) {
      RunExcludes(ys, es, i);
      SetsOnce(ys[i], es[i], l);
      LocksStay(ys, es, l, i, n);
    }
  }

  lemma HolderKnown(y: System, l: Sid)
    requires LocksOk(y) && l in y.locks
    ensures l in y.holder
  {}

  /** The holder of a lock is exactly the thread that completed an acquire of it and has
      not begun to release it since, in every state of every run. */
  lemma {:induction false} HolderIffAcquired(ys: seq<System>, es: seq<LockEvent>, n: nat, l: Sid, t: Tid)
    requires IsLockRun(ys, es) && LocksOk(ys[0]) && n <= |es| && l in ys[n].locks
    requires l in ys[0].locks ==> ys[0].holder[l] == None
    ensures l in ys[n].holder
    ensures ys[n].holder[l] == Some(t) <==> exists i: nat :: Acquired(ys, es, l, t, i, n)
  {
    RunExcludes(ys, es, n);
    HolderKnown(ys[n], l);
    hide LocksOk, LockStep, MayHappen, Acquired;
    if n > 0 {
      RunExcludes(ys, es, n - 1);
      StepHolder(ys[n-1], es[n-1], l);
      AcquiredNext(ys, es, l, t, n - 1, n);
      if es[n-1] == SetHolder(l) { SetsOnce(ys[n-1], es[n-1], l); }
      if l in ys[n-1].locks {
        HolderIffAcquired(ys, es, n - 1, l, t);
      } else {
        NeverAcquired(ys, es, l, t, n - 1);
      }
    } else {
      NothingYet(ys, es, l, t);
    }
  }

  lemma NothingYet(ys: seq<System>, es: seq<LockEvent>, l: Sid, t: Tid)
    requires |es| <= |ys|
    ensures !exists i: nat :: Acquired(ys, es, l, t, i, 0)
  {}
}
