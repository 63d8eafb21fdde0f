/**
 A held lock is given up: how many steps of its own the holder still takes, and how many yields
 can pass before it has taken them, whatever the other threads and the device do meanwhile.
 */
module DiskProgress {
  import opened Bytes
  import opened DiskDevice
  import opened DiskProtocol
  import opened DiskScheduler
  import opened DiskTheorems
  import opened ReadyQueue

  /** How many yields away from running a thread is: 0 for the running one. */
  function Position(q: seq<ThreadId>, t: ThreadId): (k: nat)
    ensures k <= |q| && (k < |q| <==> t in q)
  {
    if q == [] || q[0] == t then 0 else 1 + Position(q[1..], t)
  }

  lemma {:induction false} PositionOfLonger(q: seq<ThreadId>, t: ThreadId, more: seq<ThreadId>)
    requires t in q
    ensures Position(q + more, t) == Position(q, t)
  {
    assert (q + more)[0] == q[0];
    if q[0] != t {
      assert (q + more)[1..] == q[1..] + more;
      PositionOfLonger(q[1..], t, more);
    }
  }

  /** A yield brings a waiting thread one place forward, and sends the running one to the end. */
  lemma PositionAfterYield(s: Sched, t: ThreadId)
    requires t in Runnable(s)
    ensures t in Runnable(Yielded(s))
    ensures Position(Runnable(Yielded(s)), t) ==
      if t != s.cur then Position(Runnable(s), t) - 1 else Position(s.queue + [t], t)
    ensures Position(Runnable(Yielded(s)), t) <= |s.queue|
  {
    YieldRotates(s);
    var r := Runnable(s);
    assert r[0] == s.cur && r[1..] == s.queue;
    if t != s.cur {
      PositionOfLonger(s.queue, t, [s.cur]);
    }
  }

  /** The holder's own steps while the disk is not busy. */
  function HolderSteps(s: Sys, es: seq<Event>, h: ThreadId): nat
    decreases |es|
  {
    if es == [] then 0
    else (if s.sched.cur == h && es[0].Continue? && !Busy(s.dev) then 1 else 0)
         + HolderSteps(Step(s, es[0]), es[1..], h)
  }

  /** Its polls that find the disk busy and yield. */
  function BusyYields(s: Sys, es: seq<Event>, h: ThreadId): nat
    decreases |es|
  {
    if es == [] then 0
    else (if s.sched.cur == h && GivesWay(s, es[0]) then 1 else 0) + BusyYields(Step(s, es[0]), es[1..], h)
  }

  predicate HeldThroughout(s: Sys, es: seq<Event>)
    decreases |es|
  {
    s.lock && (es != [] ==> HeldThroughout(Step(s, es[0]), es[1..]))
  }

  lemma YieldsOfStep(s: Sys, e: Event)
    ensures Yields(Scheduling(s, e)) == if GivesWay(s, e) then 1 else 0
    ensures Scheduling(s, e) == []
      || (exists t :: Scheduling(s, e) == [AddEvent(t)]) || Scheduling(s, e) == [YieldEvent]
  {
    assert Yields([YieldEvent][1..]) == 0;
    if e.Create? && e.t !in s.pc {
      assert Scheduling(s, e) == [AddEvent(e.t)];
      assert Yields([AddEvent(e.t)][1..]) == 0;
    }
  }

  /** What one step does to the holder's place: its yield costs at most a round, any other yield is one place gained. */
  lemma StepMovesHolder(s: Sys, e: Event, h: ThreadId)
    requires h in Runnable(s.sched)
    ensures h in Runnable(Step(s, e).sched) && |s.sched.queue| <= |Step(s, e).sched.queue|
    ensures Position(Runnable(Step(s, e).sched), h) + Yields(Scheduling(s, e)) <=
      Position(Runnable(s.sched), h)
      + if s.sched.cur == h && GivesWay(s, e) then |s.sched.queue| + 1 else 0
  {
    hide Step, GivesWay, Scheduling, Position;
    StepSchedules(s, e);
    YieldsOfStep(s, e);
    RunOne(s.sched, YieldEvent);
    if GivesWay(s, e) {
      OnlyYield(s, e);
      PositionAfterYield(s.sched, h);
    } else if Scheduling(s, e) != [] {
      OnlyAdd(s, e);
      var t :| Scheduling(s, e) == [AddEvent(t)];
      RunOne(s.sched, AddEvent(t));
      assert Runnable(Added(s.sched, t)) == Runnable(s.sched) + [t];
      PositionOfLonger(Runnable(s.sched), h, [t]);
    }
  }

  lemma OnlyYield(s: Sys, e: Event)
    requires GivesWay(s, e)
    ensures Scheduling(s, e) == [YieldEvent]
  {
  }

  lemma OnlyAdd(s: Sys, e: Event)
    requires !GivesWay(s, e) && Scheduling(s, e) != []
    ensures exists t :: Scheduling(s, e) == [AddEvent(t)]
  {
    assert Scheduling(s, e) == [AddEvent(e.t)];
  }

  /** While the lock stays taken its holder stays the same, and every step of its own brings it nearer to its unlock. */
  lemma HolderStays(s: Sys, init: Blocks, h: ThreadId, e: Event)
    requires Inv(s, init, Some(h)) && Step(s, e).lock
    ensures h in s.pc && h in Step(s, e).pc
    ensures Inv(Step(s, e), init, Some(h))
    ensures Work(Step(s, e).pc[h]) <= Work(s.pc[h])
      - if s.sched.cur == h && e.Continue? && !Busy(s.dev) then 1 else 0
  {
    hide Faithful, Replay, Sized, Distinct, Runnable, Matches, Step;
    LockHasHolder(s, init, Some(h)) by { LockOf(s, init, h); }
    var after := StepInv(s, init, Some(h), e);
    if s.sched.cur != h || !e.Continue? {
      OthersLeaveTheHolder(s, init, h, e);
    } else if !Busy(s.dev) {
      HolderProgresses(s, init, h);
      WorkIsCritical(Step(s, e).pc[h]);
    } else {
      BusyHolderWaits(s, init, h);
    }
    StillHolder(Step(s, e), init, after, h);
  }

  lemma LockOf(s: Sys, init: Blocks, h: ThreadId)
    requires Inv(s, init, Some(h))
    ensures s.lock
  {
  }

  lemma WorkIsCritical(pc: Pc)
    ensures Work(pc) > 0 <==> Critical(pc)
  {
  }

  lemma BusyHolderWaits(s: Sys, init: Blocks, h: ThreadId)
    requires Inv(s, init, Some(h)) && s.sched.cur == h && Busy(s.dev)
    ensures h in s.pc && Step(s, Continue).pc == s.pc && Critical(s.pc[h])
  {
    hide Faithful, Replay, Sized, Distinct, Runnable, PortIn, PortOut;
    CurrentIsKnown(s, init, Some(h));
  }

  lemma StillHolder(s: Sys, init: Blocks, holder: Option<ThreadId>, h: ThreadId)
    requires Inv(s, init, holder) && h in s.pc && Critical(s.pc[h])
    ensures holder == Some(h)
  {
    hide Faithful, Replay, Sized, Distinct, Runnable, Matches;
  }

  /**
   As long as the lock is not given up: the holder has taken no more steps than its work, and the
   yields are at most those until its turn and one round of the queue for each of its busy polls.
   */
  lemma {:induction false} HeldBounds(s: Sys, init: Blocks, h: ThreadId, es: seq<Event>, most: nat)
    requires Inv(s, init, Some(h)) && HeldThroughout(s, es) && |Run(s, es).sched.queue| <= most
    ensures Inv(Run(s, es), init, Some(h)) && h in s.pc && h in Run(s, es).pc
    ensures |s.sched.queue| <= most
    ensures HolderSteps(s, es, h) + Work(Run(s, es).pc[h]) <= Work(s.pc[h])
    ensures Yields(SchedulingOf(s, es)) + Position(Runnable(Run(s, es).sched), h) <=
      Position(Runnable(s.sched), h) + BusyYields(s, es, h) * (most + 1)
    decreases |es|
  {
    hide Inv, Step, GivesWay, Position, Scheduling, Work, Runnable;
    HolderKnown(s, init, h);
    if es != [] {
      var u := Step(s, es[0]);
      assert u.lock;
      HolderStays(s, init, h, es[0]);
      HeldBounds(u, init, h, es[1..], most);
      StepMovesHolder(s, es[0], h);
      YieldsConcat(Scheduling(s, es[0]), SchedulingOf(u, es[1..]));
      Rounds(BusyYields(u, es[1..], h), most);
    }
  }

  lemma Rounds(n: nat, most: nat)
    ensures (1 + n) * (most + 1) == (most + 1) + n * (most + 1)
  {
  }

  lemma HolderKnown(s: Sys, init: Blocks, h: ThreadId)
    requires Inv(s, init, Some(h))
    ensures h in s.pc && h in Runnable(s.sched)
  {
    hide Faithful, Replay, Sized, Distinct, Runnable, Matches;
  }

  lemma {:induction false} NotHeldThroughout(s: Sys, es: seq<Event>) returns (n: nat)
    requires !HeldThroughout(s, es)
    ensures n <= |es| && !Run(s, es[..n]).lock
    decreases |es|
  {
    hide Step;
    n := 0;
    if s.lock {
      var k := NotHeldThroughout(Step(s, es[0]), es[1..]);
      n := k + 1;
      assert es[..n][0] == es[0] && es[..n][1..] == es[1..][..k];
    }
  }

  /**
   A held lock is given up within a bounded number of steps: by the time its holder has taken as many
   steps of its own, with the disk not busy, as it had left to do, or more yields have passed than
   those until its turn and one round for each of its busy polls, the lock has been free.
   */
  lemma LockIsReleased(s: Sys, init: Blocks, h: ThreadId, es: seq<Event>) returns (n: nat)
    requires Inv(s, init, Some(h)) && h in s.pc
    requires
      || HolderSteps(s, es, h) >= Work(s.pc[h])
      || Yields(SchedulingOf(s, es)) >
           Position(Runnable(s.sched), h) + BusyYields(s, es, h) * (|Run(s, es).sched.queue| + 1)
    ensures n <= |es| && !Run(s, es[..n]).lock
  {
    hide Inv, Step, GivesWay, Position, Scheduling, Runnable;
    if HeldThroughout(s, es) {
      HeldBounds(s, init, h, es, |Run(s, es).sched.queue|);
      HolderCritical(Run(s, es), init, h);
      WorkIsCritical(Run(s, es).pc[h]);
      assert false;
    } else {
      n := NotHeldThroughout(s, es);
    }
  }

  lemma HolderCritical(s: Sys, init: Blocks, h: ThreadId)
    requires Inv(s, init, Some(h))
    ensures h in s.pc && Critical(s.pc[h])
  {
    hide Faithful, Replay, Sized, Distinct, Runnable, Matches;
  }

  /** From boot: whoever holds the lock, it is free again within WORDS + 5 steps of the holder's own. */
  lemma LockIsReleasedFromBoot(first: ThreadId, blocks: Blocks, before: seq<Event>, es: seq<Event>)
      returns (h: ThreadId, n: nat)
    requires Sized(blocks) && Run(Boot(first, blocks, true), before).lock
    ensures var s := Run(Boot(first, blocks, true), before);
      && h in s.pc && Critical(s.pc[h])
      && (HolderSteps(s, es, h) >= WORDS + 5
          || Yields(SchedulingOf(s, es)) >
               Position(Runnable(s.sched), h) + BusyYields(s, es, h) * (|Run(s, es).sched.queue| + 1)
          ==> n <= |es| && !Run(s, es[..n]).lock)
  {
    hide Inv, Step, GivesWay, Position, Scheduling, Runnable, Boot;
    var s := Run(Boot(first, blocks, true), before);
    var holder := BootedRun(first, blocks, before);
    LockHasHolder(s, blocks, holder);
    h := holder.value;
    n := 0;
    if HolderSteps(s, es, h) >= Work(s.pc[h]) || Yields(SchedulingOf(s, es)) >
         Position(Runnable(s.sched), h) + BusyYields(s, es, h) * (|Run(s, es).sched.queue| + 1) {
      n := LockIsReleased(s, blocks, h, es);
    }
  }
}
