/**
 The wait is not a busy wait: a thread that finds the disk busy or the lock taken gives the processor
 away, but for one more look after every interrupt. So the other threads run while the disk works.
 */
module DiskWaits {
  import opened Bytes
  import opened DiskDevice
  import opened DiskProtocol
  import opened DiskScheduler
  import opened DiskTheorems
  import opened ReadyQueue

  /** The running thread looks whether it can go on, and cannot: the disk is busy, or another has the lock. */
  predicate Waits(s: Sys, e: Event) {
    e.Continue? &&
    match PcOf(s)
    case Locking(_) => s.lock && s.safe
    case Issuing(_) => Busy(s.dev)
    case Polling(_) => Busy(s.dev)
    case Draining(_) => Busy(s.dev)
    case _ => false
  }

  /** It waits and keeps the processor, with another thread ready. */
  predicate Hogs(s: Sys, e: Event) {
    Waits(s, e) && s.sched.queue != [] && Step(s, e).sched == s.sched
  }

  function Waited(s: Sys, es: seq<Event>): nat
    decreases |es|
  {
    if es == [] then 0 else (if Waits(s, es[0]) then 1 else 0) + Waited(Step(s, es[0]), es[1..])
  }

  function Hogged(s: Sys, es: seq<Event>): nat
    decreases |es|
  {
    if es == [] then 0 else (if Hogs(s, es[0]) then 1 else 0) + Hogged(Step(s, es[0]), es[1..])
  }

  function Interrupts(es: seq<Event>): nat {
    if es == [] then 0 else (if es[0].Irq? then 1 else 0) + Interrupts(es[1..])
  }

  /** An interrupt that no wait has noticed yet. */
  function Pending(s: Sys): nat {
    if s.irq then 1 else 0
  }

  /** One look hands the processor to the next thread or uses up a pending interrupt, and changes nothing else. */
  lemma WaitMoves(s: Sys, e: Event)
    requires Waits(s, e)
    ensures Step(s, e) == s.(sched := Yielded(s.sched)) || (s.irq && Step(s, e) == s.(irq := false))
    ensures PcOf(s).Locking? || !s.irq ==> Step(s, e).sched == Yielded(s.sched)
  {
  }

  /** A thread outside a disk call can give the processor away at any time: it goes last and the next one runs. */
  lemma PassMoves(s: Sys)
    requires PcOf(s).Idle?
    ensures Step(s, Pass).sched ==
      if s.sched.queue == [] then s.sched else Sched(s.sched.queue[0], s.sched.queue[1..] + [s.sched.cur])
    ensures Step(s, Pass) == s.(sched := Step(s, Pass).sched)
  {
  }

  lemma OtherMoves(s: Sys, e: Event)
    requires !Waits(s, e)
    ensures Pending(Step(s, e)) <= Pending(s) + if e.Irq? then 1 else 0
  {
    hide PortIn, PortOut, Finish, ReadCommand, WriteCommand, FlushCommand;
  }

  /** With another thread ready a yield always puts another thread on the processor. */
  lemma YieldChanges(s: Sys, init: Blocks, holder: Option<ThreadId>)
    requires Inv(s, init, holder) && s.sched.queue != []
    ensures Yielded(s.sched).cur != s.sched.cur
  {
    hide Matches, Faithful, Replay, Sized, Critical;
    assert Runnable(s.sched)[0] == s.sched.cur && Runnable(s.sched)[1] == s.sched.queue[0];
  }

  lemma HogUsesInterrupt(s: Sys, init: Blocks, holder: Option<ThreadId>, e: Event)
    requires Inv(s, init, holder)
    ensures Pending(Step(s, e)) + (if Hogs(s, e) then 1 else 0) <= Pending(s) + if e.Irq? then 1 else 0
  {
    hide Inv, Step, Yielded;
    if Waits(s, e) {
      WaitMoves(s, e);
      if s.sched.queue != [] {
        YieldChanges(s, init, holder);
      }
    } else {
      OtherMoves(s, e);
    }
  }

  /**
   In any run the looks that keep the processor from a ready thread are no more than the interrupts, and
   one that was pending at the start.
   */
  lemma {:induction false} HoggedIsBounded(s: Sys, init: Blocks, holder: Option<ThreadId>, es: seq<Event>)
    requires Inv(s, init, holder)
    ensures Hogged(s, es) + Pending(Run(s, es)) <= Interrupts(es) + Pending(s)
    decreases |es|
  {
    hide Inv, Step, Hogs;
    if es != [] {
      HogUsesInterrupt(s, init, holder, es[0]);
      var next := StepInv(s, init, holder, es[0]);
      HoggedIsBounded(Step(s, es[0]), init, next, es[1..]);
    }
  }

  /** Of two looks with no interrupt between them at least one gives the processor to a ready thread. */
  lemma OneOfTwoYields(s: Sys, init: Blocks, holder: Option<ThreadId>, e: Event, es: seq<Event>, f: Event)
    requires Inv(s, init, holder) && Interrupts([e] + (es + [f])) == 0
    ensures !Hogs(s, e) || !Hogs(Run(Step(s, e), es), f)
  {
    hide Inv, Step, Hogs;
    HoggedIsBounded(s, init, holder, [e] + (es + [f]));
    assert ([e] + (es + [f]))[1..] == es + [f];
    HoggedConcat(Step(s, e), es, [f]);
    assert [f][1..] == [];
  }

  lemma {:induction false} HoggedConcat(s: Sys, a: seq<Event>, b: seq<Event>)
    ensures Hogged(s, a + b) == Hogged(s, a) + Hogged(Run(s, a), b)
    decreases |a|
  {
    hide Step, Hogs;
    if a == [] {
      assert a + b == b;
    } else {
      assert (a + b)[0] == a[0] && (a + b)[1..] == a[1..] + b;
      HoggedConcat(Step(s, a[0]), a[1..], b);
    }
  }

  // ----- the other threads run -----

  lemma LookYields(s: Sys, e: Event)
    ensures Pending(Step(s, e)) + (if Waits(s, e) then 1 else 0) <=
      Yields(Scheduling(s, e)) + Pending(s) + if e.Irq? then 1 else 0
  {
    if Waits(s, e) {
      WaitMoves(s, e);
      WaitIsYield(s, e);
    } else {
      hide Step, Scheduling;
      OtherMoves(s, e);
    }
  }

  lemma WaitIsYield(s: Sys, e: Event)
    requires Waits(s, e)
    ensures Yields(Scheduling(s, e)) == if PcOf(s).Locking? || !s.irq then 1 else 0
    ensures s.irq && !PcOf(s).Locking? ==> !Step(s, e).irq
    ensures Pending(Step(s, e)) <= Pending(s)
  {
    assert Yields([YieldEvent][1..]) == 0;
  }

  /** Every look beyond the interrupts is a yield. */
  lemma {:induction false} LooksAreYields(s: Sys, es: seq<Event>)
    ensures Waited(s, es) + Pending(Run(s, es)) <= Yields(SchedulingOf(s, es)) + Interrupts(es) + Pending(s)
    decreases |es|
  {
    hide Step, Waits, Scheduling;
    if es != [] {
      LookYields(s, es[0]);
      LooksAreYields(Step(s, es[0]), es[1..]);
      YieldsConcat(Scheduling(s, es[0]), SchedulingOf(Step(s, es[0]), es[1..]));
    }
  }

  lemma OneAtMost(s: Sys, e: Event)
    ensures Yields(Scheduling(s, e)) <= 1
  {
    assert Yields([YieldEvent][1..]) == 0;
    if e.Create? {
      assert Yields([AddEvent(e.t)][1..]) == 0;
    }
  }

  /** The run up to its m-th yield. */
  lemma {:induction false} UpToYield(s: Sys, es: seq<Event>, m: nat) returns (n: nat)
    requires m <= Yields(SchedulingOf(s, es))
    ensures n <= |es| && Yields(SchedulingOf(s, es[..n])) == m
    decreases |es|
  {
    hide Step, Scheduling;
    n := 0;
    if m > 0 {
      var rest := SchedulingOf(Step(s, es[0]), es[1..]);
      YieldsConcat(Scheduling(s, es[0]), rest);
      OneAtMost(s, es[0]);
      var k := UpToYield(Step(s, es[0]), es[1..], m - Yields(Scheduling(s, es[0])));
      n := k + 1;
      assert es[..n][0] == es[0] && es[..n][1..] == es[1..][..k];
      YieldsConcat(Scheduling(s, es[0]), SchedulingOf(Step(s, es[0]), es[1..][..k]));
    }
  }

  /**
   A thread at position k of the ready queue has run by the time that more looks at a busy disk or a
   taken lock have been made, by whichever threads, than k and the interrupts.
   */
  lemma QueuedThreadRuns(s: Sys, es: seq<Event>, k: nat) returns (n: nat)
    requires k < |s.sched.queue| && Waited(s, es) > k + Interrupts(es) + Pending(s)
    ensures n <= |es| && Run(s, es[..n]).sched.cur == s.sched.queue[k]
  {
    hide Step, Waits, Scheduling;
    LooksAreYields(s, es);
    n := UpToYield(s, es, k + 1);
    HolderTurnComes(s, es[..n], k);
  }
}
