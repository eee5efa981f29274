/**
  The alarm clock (devices/timer.c, compare_timer of threads/thread.c): a list of
  sleeping threads sorted by deadline, and an interrupt handler that wakes from its
  front and stops at the first deadline still ahead.
 */
module Timer {
  import opened Order

  datatype Sleeper = Sleeper(thread: int, deadline: int)

  /** compare_timer */
  function Earlier(a: Sleeper, b: Sleeper): (r: bool) { a.deadline < b.deadline }

  ghost predicate ByDeadline(s: seq<Sleeper>) { Sorted(Earlier, s, 0, |s|) }

  /** What timer_wakeup leaves of the list: it drops the front while it is due. */
  function Remaining(s: seq<Sleeper>, ticks: int): (r: seq<Sleeper>) {
    if s != [] && ticks >= s[0].deadline then Remaining(s[1..], ticks) else s
  }

  lemma {:induction false} RemainingIsTail(s: seq<Sleeper>, ticks: int)
    ensures var r := Remaining(s, ticks);
            && |r| <= |s| && r == s[|s| - |r|..] && (r != [] ==> r[0].deadline > ticks)
            && (forall i :: 0 <= i < |s| - |r| ==> s[i].deadline <= ticks)
  {
    if s != [] && ticks >= s[0].deadline {
      RemainingIsTail(s[1..], ticks);
      var n := |s| - |Remaining(s, ticks)|;
      forall i | 0 <= i < n ensures s[i].deadline <= ticks {
        assert i > 0 ==> s[i] == s[1..][i-1];
      }
    }
  }

  /** The early break misses nobody: on a sorted list exactly the sleepers with a
      deadline ahead remain, in the order they were in. */
  lemma RemainingIsExact(s: seq<Sleeper>, ticks: int)
    requires ByDeadline(s)
    ensures var r := Remaining(s, ticks);
            && ByDeadline(r) && |r| <= |s| && r == s[|s| - |r|..]
            && (forall x :: x in r <==> x in s && x.deadline > ticks)
            && (forall i :: 0 <= i < |s| - |r| ==> s[i].deadline <= ticks)
  {
    RemainingIsTail(s, ticks);
    hide Remaining;
    var r := Remaining(s, ticks);
    var n := |s| - |r|;
    assert forall i :: 0 <= i < |r| ==> r[i] == s[n + i];
    forall i | 0 <= i < |r| ensures r[i].deadline > ticks {
      assert i > 0 ==> !Earlier(s[n + i], s[n]);
    }
    forall x | x in s && x.deadline > ticks ensures x in r {
      var i :| 0 <= i < |s| && s[i] == x;
      assert r[i - n] == x;
    }
  }

  lemma EarlierIsOrder(dom: set<Sleeper>)
    ensures StrictWeak(Earlier, dom)
  {}

  lemma InsertSleeper(s: seq<Sleeper>, x: Sleeper)
    requires ByDeadline(s)
    ensures ByDeadline(InsertOrdered(Earlier, s, x))
    ensures forall y :: y in InsertOrdered(Earlier, s, x) <==> y in s || y == x
    ensures forall y :: y in s[InsertPoint(Earlier, s, x)..] ==> y.deadline > x.deadline
  {
    hide InsertPoint;
    var dom, k := Elements(s) + {x}, InsertPoint(Earlier, s, x);
    EarlierIsOrder(dom);
    InsertOrderedSorted(Earlier, dom, s, x);
    PutAmong(s, k, x);
    forall y | y in s[k..] ensures y.deadline > x.deadline {
      var i :| 0 <= i < |s[k..]| && s[k..][i] == y;
      assert y == s[k + i];
    }
  }

  lemma PutAmong(s: seq<Sleeper>, k: nat, x: Sleeper)
    requires k <= |s|
    ensures forall y :: y in s[..k] + [x] + s[k..] <==> y in s || y == x
  {
    assert s == s[..k] + s[k..];
  }

  class Clock {
    var ticks: int
    var sleepers: seq<Sleeper>

    constructor ()
      ensures ticks == 0 && sleepers == []
    {
      ticks, sleepers := 0, [];
    }

    ghost function State(): (k: ClockState)
      reads this
    {
      ClockState(ticks, sleepers)
    }

    /** timer_sleep, up to the point where the thread blocks; `start` is the tick count
        it read before interrupts went off. The list gets this sleeper and no other, at
        position k: behind everyone due no later, and, on a sorted list, ahead of
        everyone due later. */
    method TimerSleep(thread: int, start: int, n: int) returns (ghost k: nat)
      requires start <= ticks
      modifies this`sleepers
      ensures State() == Next(old(State()), Sleep(thread, start, n)) && k <= |old(sleepers)|
      ensures sleepers == old(sleepers)[..k] + [Sleeper(thread, start + n)] + old(sleepers)[k..]
      ensures forall i :: 0 <= i < k ==> old(sleepers)[i].deadline <= start + n
      ensures old(ByDeadline(sleepers)) ==> ByDeadline(sleepers) && forall y :: y in old(sleepers)[k..] ==> y.deadline > start + n
    {
      ghost var s := sleepers;
      var x := Sleeper(thread, start + n);
      sleepers := InsertOrdered(Earlier, sleepers, x);
      k := InsertPoint(Earlier, s, x);
      if ByDeadline(s) {
        InsertSleeper(s, x);
      }
    }

    /** timer_interrupt: `woken` are the threads whose semaphores timer_wakeup ups, in
        that order. */
    method TimerInterrupt() returns (woken: seq<int>)
      modifies this
      ensures State() == Next(old(State()), Tick)
      ensures |sleepers| <= |old(sleepers)|
      ensures woken == Threads(old(sleepers)[..|old(sleepers)| - |sleepers|])
      ensures |woken| == |old(sleepers)| - |sleepers| && sleepers == old(sleepers)[|woken|..]
      ensures forall i :: 0 <= i < |woken| ==> woken[i] == old(sleepers)[i].thread && old(sleepers)[i].deadline <= ticks
      ensures sleepers != [] ==> ticks < sleepers[0].deadline
    {
      ticks := ticks + 1;
      ghost var s := sleepers;
      woken := [];
      assert s[..0] == [];
      while sleepers != []
        invariant |sleepers| <= |s| && sleepers == s[|s| - |sleepers|..]
        invariant Remaining(sleepers, ticks) == Remaining(s, ticks)
        invariant woken == Threads(s[..|s| - |sleepers|])
        invariant ticks == old(ticks) + 1
        decreases |sleepers|
      {
        if ticks >= sleepers[0].deadline {
          ghost var i := |s| - |sleepers|;
          assert s[..i+1] == s[..i] + [sleepers[0]];
          woken := woken + [sleepers[0].thread];
          sleepers := sleepers[1..];
        } else {
          break;
        }
      }
      RemainingIsTail(s, ticks);
    }
  }

  function Threads(s: seq<Sleeper>): (r: seq<int>) {
    seq(|s|, i requires 0 <= i < |s| => s[i].thread)
  }

  // ---- Runs ----------------------------------------------------------------

  datatype ClockState = ClockState(ticks: int, sleepers: seq<Sleeper>)
  datatype Event = Sleep(thread: int, start: int, n: int) | Tick

  function Next(k: ClockState, e: Event): (k': ClockState) {
    match e
    case Sleep(t, start, n) => k.(sleepers := InsertOrdered(Earlier, k.sleepers, Sleeper(t, start + n)))
    case Tick => ClockState(k.ticks + 1, Remaining(k.sleepers, k.ticks + 1))
  }

  ghost predicate IsRun(ks: seq<ClockState>, es: seq<Event>) {
    |ks| == |es| + 1 && forall i :: 0 <= i < |es| ==> ks[i+1] == Next(ks[i], es[i])
  }

  lemma StepSorted(k: ClockState, e: Event)
    requires ByDeadline(k.sleepers)
    ensures ByDeadline(Next(k, e).sleepers)
    ensures e == Tick ==> forall x :: x in Next(k, e).sleepers <==> x in k.sleepers && x.deadline > Next(k, e).ticks
    ensures e.Sleep? ==>
      forall x :: x in Next(k, e).sleepers <==> x in k.sleepers || x == Sleeper(e.thread, e.start + e.n)
  {
    hide InsertOrdered, Remaining, ByDeadline;
    match e
    case Sleep(t, start, n) => InsertSleeper(k.sleepers, Sleeper(t, start + n));
    case Tick => RemainingIsExact(k.sleepers, k.ticks + 1);
  }

  lemma {:induction false} RunSorted(ks: seq<ClockState>, es: seq<Event>, n: nat)
    requires IsRun(ks, es) && ByDeadline(ks[0].sleepers) && n <= |es|
    ensures ByDeadline(ks[n].sleepers) && ks[n].ticks >= ks[0].ticks
  {
    hide Next, ByDeadline;
    if n > 0 {
      RunSorted(ks, es, n - 1);
      StepSorted(ks[n-1], es[n-1]);
      TicksForward(ks[n-1], es[n-1]);
    }
  }

  lemma TicksForward(k: ClockState, e: Event)
    ensures Next(k, e).ticks == if e == Tick then k.ticks + 1 else k.ticks
  {}

  /** The tick at which a sleeper put on the list at tick `now` is due off it. */
  function WakeTick(x: Sleeper, now: int): (w: int) {
    if x.deadline > now then x.deadline else now + 1
  }

  /** A sleeper put on the list at step i is still on it at step n exactly while the
      tick count is below its wake tick: it is never woken before its deadline, and
      the very interrupt that reaches it wakes it, or the next interrupt if the
      deadline had passed already. */
  lemma {:induction false} WokenOnTime(ks: seq<ClockState>, es: seq<Event>, i: nat, n: nat, x: Sleeper)
    requires IsRun(ks, es) && ByDeadline(ks[0].sleepers) && i < n <= |es|
    requires es[i].Sleep? && x == Sleeper(es[i].thread, es[i].start + es[i].n)
    requires forall j :: i < j < n && es[j].Sleep? ==> es[j].thread != x.thread
    ensures x in ks[n].sleepers <==> ks[n].ticks < WakeTick(x, ks[i].ticks)
    ensures ks[n].ticks >= ks[i].ticks
    decreases n
  {
    hide Next, ByDeadline;
    RunSorted(ks, es, n - 1);
    StepSorted(ks[n-1], es[n-1]);
    TicksForward(ks[n-1], es[n-1]);
    if n > i + 1 {
      WokenOnTime(ks, es, i, n - 1, x);
    }
  }
}
