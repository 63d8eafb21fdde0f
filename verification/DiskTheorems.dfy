/**
 What the locked disk gives its threads: mutual exclusion, an atomic block store, a holder
 that is always runnable, and a bounded wait in the ready queue.
 */
module DiskTheorems {
  import opened Bytes
  import opened DiskDevice
  import opened DiskProtocol
  import opened DiskScheduler
  import opened ReadyQueue

  /** From boot, in every run: the invariant holds for some holder. */
  lemma BootedRun(first: ThreadId, blocks: Blocks, es: seq<Event>) returns (holder: Option<ThreadId>)
    requires Sized(blocks)
    ensures Inv(Run(Boot(first, blocks, true), es), blocks, holder)
  {
    BootInv(first, blocks);
    holder := RunInv(Boot(first, blocks, true), blocks, None, es);
  }

  /** At most one thread is between lock and unlock; while one is, it holds the lock and is running or queued. */
  lemma MutualExclusion(first: ThreadId, blocks: Blocks, es: seq<Event>, t: ThreadId, u: ThreadId)
    requires Sized(blocks)
    requires var s := Run(Boot(first, blocks, true), es);
      t in s.pc && u in s.pc && Critical(s.pc[t]) && Critical(s.pc[u])
    ensures t == u
    ensures var s := Run(Boot(first, blocks, true), es);
      s.lock && (t == s.sched.cur || t in s.sched.queue)
  {
    var s := Run(Boot(first, blocks, true), es);
    var holder := BootedRun(first, blocks, es);
    HolderIs(s, blocks, holder, t);
    HolderIs(s, blocks, holder, u);
  }

  lemma HolderIs(s: Sys, init: Blocks, holder: Option<ThreadId>, t: ThreadId)
    requires Inv(s, init, holder) && t in s.pc && Critical(s.pc[t])
    ensures holder == Some(t) && s.lock && (t == s.sched.cur || t in s.sched.queue)
  {
    hide Matches, Faithful, Replay, Sized, Critical, Distinct;
    assert t in Runnable(s.sched);
  }

  /** Whenever the lock is held, its holder is running or queued, so it gets the processor again. */
  lemma HolderIsRunnable(first: ThreadId, blocks: Blocks, es: seq<Event>) returns (h: ThreadId)
    requires Sized(blocks) && Run(Boot(first, blocks, true), es).lock
    ensures var s := Run(Boot(first, blocks, true), es);
      h in s.pc && Critical(s.pc[h]) && (h == s.sched.cur || h in s.sched.queue)
  {
    var s := Run(Boot(first, blocks, true), es);
    var holder := BootedRun(first, blocks, es);
    LockHasHolder(s, blocks, holder);
    h := holder.value;
    HolderIs(s, blocks, holder, h);
  }

  lemma LockHasHolder(s: Sys, init: Blocks, holder: Option<ThreadId>)
    requires Inv(s, init, holder) && s.lock
    ensures holder.Some? && holder.value in s.pc && Critical(s.pc[holder.value])
  {
    hide Matches, Faithful, Replay, Sized, Critical, Distinct;
  }

  /**
   The run refines an atomic block store: the completed calls, in the order of their unlocks,
   are a faithful history of the store, no polling assertion fires, the device is never
   confused, and with the lock free the disk holds exactly the store.
   */
  lemma RefinesAtomicStore(first: ThreadId, blocks: Blocks, es: seq<Event>)
    requires Sized(blocks)
    ensures var s := Run(Boot(first, blocks, true), es);
      && Faithful(blocks, s.log)
      && !s.dev.phase.Confused?
      && (forall t :: t in s.pc ==> !s.pc[t].Stopped?)
      && (!s.lock ==> s.dev == Device(Replay(blocks, s.log), Ready))
  {
    hide Faithful, Replay, Distinct, Runnable, LbaOf, Sized;
    var holder := BootedRun(first, blocks, es);
  }

  // ----- a read returns the latest completed write -----

  /** The data of the last write to a block in the log, if there is one. */
  function LastWrite(log: seq<Entry>, b: nat): Option<seq<byte>> {
    if log == [] then None
    else
      var e := log[|log| - 1];
      if e.r.WriteReq? && Lba(e.r.b) == b then Some(e.r.data) else LastWrite(log[..|log| - 1], b)
  }

  lemma {:induction false} ReplayIsLastWrite(init: Blocks, log: seq<Entry>, b: nat)
    ensures BlockOf(Replay(init, log), b) ==
      match LastWrite(log, b) case None => BlockOf(init, b) case Some(data) => data
  {
    if log != [] {
      ReplayIsLastWrite(init, log[..|log| - 1], b);
    }
  }

  lemma {:induction false} FaithfulAt(init: Blocks, log: seq<Entry>, k: nat)
    requires Faithful(init, log) && k < |log| && log[k].r.ReadReq?
    ensures log[k].buf == BlockOf(Replay(init, log[..k]), Lba(log[k].r.b))
  {
    if k < |log| - 1 {
      FaithfulAt(init, log[..|log| - 1], k);
      assert log[..|log| - 1][..k] == log[..k];
    }
  }

  /** Each completed read returned the data of the last write completed before it, or the block's original contents. */
  lemma ReadsLatestWrite(first: ThreadId, blocks: Blocks, es: seq<Event>, k: nat)
    requires Sized(blocks)
    requires var log := Run(Boot(first, blocks, true), es).log;
      k < |log| && log[k].r.ReadReq?
    ensures var log := Run(Boot(first, blocks, true), es).log;
      log[k].buf == match LastWrite(log[..k], Lba(log[k].r.b))
        case None => BlockOf(blocks, Lba(log[k].r.b))
        case Some(data) => data
  {
    var log := Run(Boot(first, blocks, true), es).log;
    RefinesAtomicStore(first, blocks, es);
    FaithfulAt(blocks, log, k);
    ReplayIsLastWrite(blocks, log[..k], Lba(log[k].r.b));
  }

  // ----- the wait for the processor -----

  /** What one step does to the ready queue. */
  function Scheduling(s: Sys, e: Event): seq<SchedEvent> {
    if e.Create? && e.t !in s.pc then [AddEvent(e.t)]
    else if GivesWay(s, e) then [YieldEvent]
    else []
  }

  /** The step is a call of yield. */
  predicate GivesWay(s: Sys, e: Event) {
    match e
    case Pass => PcOf(s).Idle?
    case Continue =>
      (match PcOf(s)
       case Locking(_) => s.lock && s.safe
       case Issuing(_) => Busy(s.dev) && !s.irq
       case Polling(_) => Busy(s.dev) && !s.irq
       case Draining(_) => Busy(s.dev) && !s.irq
       case _ => false)
    case _ => false
  }

  function SchedulingOf(s: Sys, es: seq<Event>): seq<SchedEvent>
    decreases |es|
  {
    if es == [] then [] else Scheduling(s, es[0]) + SchedulingOf(Step(s, es[0]), es[1..])
  }

  lemma StepSchedules(s: Sys, e: Event)
    ensures Step(s, e).sched == SchedRun(s.sched, Scheduling(s, e))
  {
    hide PortIn, PortOut, Finish, ReadCommand, WriteCommand, FlushCommand, Yielded;
    RunOne(s.sched, YieldEvent);
    if e.Create? {
      RunOne(s.sched, AddEvent(e.t));
    }
  }

  lemma RunOne(s: Sched, e: SchedEvent)
    ensures SchedRun(s, [e]) == SchedStep(s, e)
    ensures SchedRun(s, []) == s
  {
    assert [e][1..] == [];
  }

  lemma {:induction false} RunConcat(s: Sched, a: seq<SchedEvent>, b: seq<SchedEvent>)
    ensures SchedRun(s, a + b) == SchedRun(SchedRun(s, a), b)
    decreases |a|
  {
    if a == [] {
      assert a + b == b;
    } else {
      assert (a + b)[0] == a[0] && (a + b)[1..] == a[1..] + b;
      RunConcat(SchedStep(s, a[0]), a[1..], b);
    }
  }

  /** The protocol's runs drive the scheduler by nothing but yields and adds. */
  lemma {:induction false} RunSchedules(s: Sys, es: seq<Event>)
    ensures Run(s, es).sched == SchedRun(s.sched, SchedulingOf(s, es))
    decreases |es|
  {
    hide Step, Scheduling;
    if es != [] {
      StepSchedules(s, es[0]);
      RunSchedules(Step(s, es[0]), es[1..]);
      RunConcat(s.sched, Scheduling(s, es[0]), SchedulingOf(Step(s, es[0]), es[1..]));
    }
  }

  /** A lock holder at position k of the queue runs after exactly k + 1 yields, whatever the other threads do. */
  lemma HolderTurnComes(s: Sys, es: seq<Event>, k: nat)
    requires k < |s.sched.queue| && Yields(SchedulingOf(s, es)) == k + 1
    ensures Run(s, es).sched.cur == s.sched.queue[k]
  {
    RunSchedules(s, es);
    TurnComes(s.sched, SchedulingOf(s, es), k);
  }

  // ----- the lock is given up -----

  /** How many steps of its own a holder still takes before it has unlocked. */
  function Work(pc: Pc): nat {
    match pc
    case Issuing(_) => WORDS + 5
    case Polling(_) => WORDS + 4
    case Moving(_, i, _) => if i < WORDS then WORDS + 3 - i else 3
    case Flushing(_) => 3
    case Draining(_) => 2
    case Unlocking(_, _) => 1
    case _ => 0
  }

  /** Running while the disk is not busy, the holder comes one step nearer to unlocking; at the end the lock is free. */
  lemma HolderProgresses(s: Sys, init: Blocks, h: ThreadId)
    requires Inv(s, init, Some(h)) && s.sched.cur == h && !Busy(s.dev)
    ensures var u := Step(s, Continue);
      h in u.pc && Work(u.pc[h]) < Work(s.pc[h]) && (Work(u.pc[h]) == 0 ==> !u.lock)
  {
    hide Faithful, Replay, Sized, Distinct, Runnable, PortIn, PortOut;
    CurrentIsKnown(s, init, Some(h));
  }

  /** No other thread's step, and no step of the device, moves the holder or takes its lock. */
  lemma OthersLeaveTheHolder(s: Sys, init: Blocks, h: ThreadId, e: Event)
    requires Inv(s, init, Some(h)) && (s.sched.cur != h || !e.Continue?)
    ensures h in s.pc && h in Step(s, e).pc && Step(s, e).pc[h] == s.pc[h] && Step(s, e).lock
  {
    hide Faithful, Replay, Sized, Distinct, Runnable, PortIn, PortOut, Finish;
    CurrentIsKnown(s, init, Some(h));
    LockHasHolder(s, init, Some(h));
  }

  // ----- the lock is needed -----

  /** A second thread waits for the first one's busy period, and sends its command after it. */
  function Collision(first: ThreadId, second: ThreadId): seq<Event> {
    FirstCall(second) + SecondCall()
  }

  function FirstCall(second: ThreadId): seq<Event> {
    [Create(second), Begin(ReadReq(0)), Continue, Continue, Continue]
  }

  function SecondCall(): seq<Event> {
    [Begin(ReadReq(1)), Continue, DeviceDone, Continue]
  }

  /**
   Without the wrappers' lock, a second thread that waited for the first one's busy period sends its
   own command when the device is about to deliver the first one's data, whatever is on the disk.
   */
  lemma UnlockedDiskIsConfused(first: ThreadId, second: ThreadId, blocks: Blocks)
    requires first != second
    ensures Run(Boot(first, blocks, false), Collision(first, second)).dev.phase.Confused?
  {
    RunConcatenates(Boot(first, blocks, false), FirstCall(second), SecondCall());
    FirstThreadWaits(first, second, blocks);
    SecondThreadCollides(first, second, blocks);
  }

  function WaitingForData(first: ThreadId, second: ThreadId, blocks: Blocks): Sys {
    Sys(false, Sched(second, [first]), map[first := Polling(ReadReq(0)), second := Idle], true, false,
        Device(blocks, Fetching(0)), [])
  }

  lemma FirstThreadWaits(first: ThreadId, second: ThreadId, blocks: Blocks)
    requires first != second
    ensures Run(Boot(first, blocks, false), FirstCall(second)) == WaitingForData(first, second, blocks)
  {
    var s0, es := Boot(first, blocks, false), FirstCall(second);
    CalledFirst(first, second, blocks);
    var s3 := Sys(false, Sched(first, [second]), map[first := Issuing(ReadReq(0)), second := Idle], true, false,
                  Device(blocks, Ready), []);
    var s4 := Step(s3, Continue);
    assert s4.pc == map[first := Polling(ReadReq(0)), second := Idle];
    assert Step(s4, Continue) == WaitingForData(first, second, blocks);
    RunUnfolds(s3, [Continue, Continue], 2);
    RunConcatenates(s0, [Create(second), Begin(ReadReq(0)), Continue], [Continue, Continue]);
    assert es == [Create(second), Begin(ReadReq(0)), Continue] + [Continue, Continue];
  }

  lemma CalledFirst(first: ThreadId, second: ThreadId, blocks: Blocks)
    requires first != second
    ensures Run(Boot(first, blocks, false), [Create(second), Begin(ReadReq(0)), Continue]) ==
      Sys(false, Sched(first, [second]), map[first := Issuing(ReadReq(0)), second := Idle], true, false,
          Device(blocks, Ready), [])
  {
    var s0 := Boot(first, blocks, false);
    var s1 := Step(s0, Create(second));
    assert s1.pc == map[first := Idle, second := Idle] && s1.sched == Sched(first, [second]);
    var s2 := Step(s1, Begin(ReadReq(0)));
    assert s2.pc == map[first := Locking(ReadReq(0)), second := Idle];
    var s3 := Step(s2, Continue);
    assert s3.pc == map[first := Issuing(ReadReq(0)), second := Idle];
    var es := [Create(second), Begin(ReadReq(0)), Continue];
    RunUnfolds(s0, es, 3);
    assert StateAt(s0, es, 0) == s0;
    assert StateAt(s0, es, 1) == s1;
    assert StateAt(s0, es, 2) == s2;
    assert StateAt(s0, es, 3) == s3;
  }

  lemma SecondThreadCollides(first: ThreadId, second: ThreadId, blocks: Blocks)
    requires first != second
    ensures Run(WaitingForData(first, second, blocks), SecondCall()).dev.phase.Confused?
  {
    var s0 := WaitingForData(first, second, blocks);
    var s1 := Step(s0, Begin(ReadReq(1)));
    var s2 := Step(s1, Continue);
    assert PcOf(s2) == Issuing(ReadReq(1));
    var s3 := Step(s2, DeviceDone);
    assert Step(s3, Continue).dev.phase.Confused?;
    RunUnfolds(s0, SecondCall(), 4);
  }

  /** On any disk, the build is the thread-safe one exactly when no run from boot ever confuses the device. */
  lemma SafeIffNeverConfused(first: ThreadId, blocks: Blocks, safe: bool)
    requires Sized(blocks)
    ensures safe <==> forall es :: !Run(Boot(first, blocks, safe), es).dev.phase.Confused?
  {
    hide Run;
    if safe {
      forall es
        ensures !Run(Boot(first, blocks, true), es).dev.phase.Confused?
      {
        RefinesAtomicStore(first, blocks, es);
      }
    } else {
      UnlockedDiskIsConfused(first, first + 1, blocks);
    }
  }

  lemma {:induction false} RunConcatenates(s: Sys, a: seq<Event>, b: seq<Event>)
    ensures Run(s, a + b) == Run(Run(s, a), b)
    decreases |a|
  {
    if a == [] {
      assert a + b == b;
    } else {
      assert (a + b)[0] == a[0] && (a + b)[1..] == a[1..] + b;
      RunConcatenates(Step(s, a[0]), a[1..], b);
    }
  }

  /** A run, one step at a time. */
  function StateAt(s: Sys, es: seq<Event>, n: nat): Sys
    requires n <= |es|
  {
    if n == 0 then s else Step(StateAt(s, es, n - 1), es[n - 1])
  }

  lemma {:induction false} RunUnfolds(s: Sys, es: seq<Event>, n: nat)
    requires n == |es|
    ensures Run(s, es) == StateAt(s, es, n)
    decreases n
  {
    if n > 0 {
      RunUnfolds(Step(s, es[0]), es[1..], n - 1);
      StateShift(s, es, n);
    }
  }

  lemma {:induction false} StateShift(s: Sys, es: seq<Event>, n: nat)
    requires 0 < n <= |es|
    ensures StateAt(s, es, n) == StateAt(Step(s, es[0]), es[1..], n - 1)
  {
    if n > 1 {
      StateShift(s, es, n - 1);
    }
  }
}
