/**
 Threads that read and write through the locked, non-blocking disk, as one transition system:
 a thread runs until it yields, and the disk and its interrupt act on their own.
 */
module DiskProtocol {
  import opened Bytes
  import opened DiskDevice
  import opened DiskScheduler
  import opened ReadyQueue

  datatype Request = ReadReq(b: nat) | WriteReq(b: nat, data: seq<byte>)

  /** Where a thread stands in NonBlockingDisk::read or write. Stopped: one of the polling assertions fired. */
  datatype Pc =
    | Idle
    | Locking(r: Request)
    | Issuing(r: Request)
    | Polling(r: Request)
    | Moving(r: Request, i: nat, buf: seq<byte>)
    | Flushing(r: Request)
    | Draining(r: Request)
    | Unlocking(r: Request, buf: seq<byte>)
    | Stopped

  /** One completed call, in the order of the unlocks; buf is what a read returned. */
  datatype Entry = Entry(t: ThreadId, r: Request, buf: seq<byte>)

  /** safe: the wrappers that take the lock are compiled in. */
  datatype Sys = Sys(
    safe: bool, sched: Sched, pc: map<ThreadId, Pc>, lock: bool, irq: bool, dev: Device, log: seq<Entry>)

  datatype Event =
    | Begin(r: Request)
    | Continue
    | Pass
    | Create(t: ThreadId)
    | DeviceDone
    | Irq

  predicate WellFormed(r: Request) {
    r.WriteReq? ==> |r.data| == BLOCK_BYTES
  }

  function PcOf(s: Sys): Pc {
    if s.sched.cur in s.pc then s.pc[s.sched.cur] else Idle
  }

  function Goto(s: Sys, pc: Pc): Sys {
    s.(pc := s.pc[s.sched.cur := pc])
  }

  function GiveWay(s: Sys): Sys {
    s.(sched := Yielded(s.sched))
  }

  /** One pass of wait_while_busy while the disk is busy: a pending interrupt means look again, otherwise yield. */
  function Wait(s: Sys): Sys {
    if s.irq then s.(irq := false) else GiveWay(s)
  }

  /** One pass of lock_disk. */
  function Acquire(s: Sys, r: Request): Sys {
    if s.lock && s.safe then GiveWay(s) else Goto(s.(lock := true), Issuing(r))
  }

  function Issue(s: Sys, r: Request): Sys {
    if Busy(s.dev) then Wait(s)
    else
      var dev := if r.ReadReq? then ReadCommand(s.dev, r.b) else WriteCommand(s.dev, r.b);
      Goto(s.(dev := dev), Polling(r))
  }

  function Poll(s: Sys, r: Request): Sys {
    if Busy(s.dev) then Wait(s)
    else if r.ReadReq? && !DataReady(s.dev) then Goto(s, Stopped)
    else Goto(s, Moving(r, 0, []))
  }

  /** One word of the transfer loop. */
  function Move(s: Sys, r: Request, i: nat, buf: seq<byte>): Sys {
    match r
    case ReadReq(b) =>
      var (dev, w) := PortIn(s.dev);
      var got := buf + [Lo(w), Hi(w)];
      Goto(s.(dev := dev), if i + 1 >= WORDS then Unlocking(r, got) else Moving(r, i + 1, got))
    case WriteReq(b, data) =>
      var w := if 2 * i + 1 < |data| then Join(data[2 * i], data[2 * i + 1]) else 0;
      Goto(s.(dev := PortOut(s.dev, w)), if i + 1 >= WORDS then Flushing(r) else Moving(r, i + 1, buf))
  }

  function Drain(s: Sys, r: Request): Sys {
    if Busy(s.dev) then Wait(s) else Goto(s, Unlocking(r, []))
  }

  function Release(s: Sys, r: Request, buf: seq<byte>): Sys {
    Goto(s.(lock := false, log := s.log + [Entry(s.sched.cur, r, buf)]), Idle)
  }

  function Proceed(s: Sys): Sys {
    match PcOf(s)
    case Idle => s
    case Locking(r) => Acquire(s, r)
    case Issuing(r) => Issue(s, r)
    case Polling(r) => Poll(s, r)
    case Moving(r, i, buf) => Move(s, r, i, buf)
    case Flushing(r) => Goto(s.(dev := FlushCommand(s.dev)), Draining(r))
    case Draining(r) => Drain(s, r)
    case Unlocking(r, buf) => Release(s, r, buf)
    case Stopped => s
  }

  function Step(s: Sys, e: Event): Sys {
    match e
    case Begin(r) => if PcOf(s).Idle? && WellFormed(r) then Goto(s, Locking(r)) else s
    case Continue => Proceed(s)
    case Pass => if PcOf(s).Idle? then GiveWay(s) else s
    case Create(t) => if t in s.pc then s else s.(sched := Added(s.sched, t), pc := s.pc[t := Idle])
    case DeviceDone => s.(dev := Finish(s.dev))
    case Irq => s.(irq := true)
  }

  function Run(s: Sys, es: seq<Event>): Sys
    decreases |es|
  {
    if es == [] then s else Run(Step(s, es[0]), es[1..])
  }

  function Boot(first: ThreadId, blocks: Blocks, safe: bool): Sys {
    Sys(safe, Sched(first, []), map[first := Idle], false, false, Device(blocks, Ready), [])
  }

  // ----- the atomic block store -----

  function Apply(store: Blocks, e: Entry): Blocks {
    match e.r
    case ReadReq(_) => store
    case WriteReq(b, data) => store[Lba(b) := data]
  }

  function Replay(init: Blocks, log: seq<Entry>): Blocks {
    if log == [] then init else Apply(Replay(init, log[..|log| - 1]), log[|log| - 1])
  }

  /** Every read in the log returned what the store held when its turn came. */
  predicate Faithful(init: Blocks, log: seq<Entry>) {
    log == [] ||
    var k := |log| - 1;
    && Faithful(init, log[..k])
    && (log[k].r.ReadReq? ==> log[k].buf == BlockOf(Replay(init, log[..k]), Lba(log[k].r.b)))
  }

  lemma LogOne(init: Blocks, log: seq<Entry>, e: Entry)
    ensures Replay(init, log + [e]) == Apply(Replay(init, log), e)
    ensures Faithful(init, log + [e]) <==>
      Faithful(init, log) && (e.r.ReadReq? ==> e.buf == BlockOf(Replay(init, log), Lba(e.r.b)))
  {
    assert (log + [e])[..|log|] == log;
  }

  // ----- the invariant -----

  /** Between lock and unlock. */
  predicate Critical(pc: Pc) {
    !pc.Idle? && !pc.Locking? && !pc.Stopped?
  }

  function LbaOf(r: Request): nat {
    Lba(r.b)
  }

  /** The device is exactly where the holder's place in the code says it is. */
  predicate Matches(pc: Pc, dev: Device, store: Blocks) {
    match pc
    case Issuing(r) => WellFormed(r) && dev == Device(store, Ready)
    case Polling(r) =>
      WellFormed(r) &&
      if r.ReadReq? then
        dev == Device(store, Fetching(LbaOf(r))) || dev == Device(store, Sending(LbaOf(r), 0))
      else
        dev == Device(store, Preparing(LbaOf(r))) || dev == Device(store, Receiving(LbaOf(r), []))
    case Moving(r, i, buf) =>
      WellFormed(r) && i < WORDS &&
      if r.ReadReq? then
        var data := BlockOf(store, LbaOf(r));
        dev == Device(store, Sending(LbaOf(r), i)) && |data| == BLOCK_BYTES && buf == data[..2 * i]
      else
        dev == Device(store, Receiving(LbaOf(r), r.data[..2 * i]))
    case Flushing(r) => WellFormed(r) && r.WriteReq? && dev == Device(store, Latched(LbaOf(r), r.data))
    case Draining(r) =>
      WellFormed(r) && r.WriteReq?
      && (dev == Device(store, Committing(LbaOf(r), r.data)) || dev == Device(store[LbaOf(r) := r.data], Ready))
    case Unlocking(r, buf) =>
      WellFormed(r) &&
      if r.ReadReq? then dev == Device(store, Ready) && buf == BlockOf(store, LbaOf(r))
      else dev == Device(store[LbaOf(r) := r.data], Ready)
    case _ => false
  }

  /** holder: the thread between lock and unlock, if there is one. */
  ghost predicate Inv(s: Sys, init: Blocks, holder: Option<ThreadId>) {
    && s.safe
    && Distinct(Runnable(s.sched))
    && (forall t :: t in s.pc <==> t in Runnable(s.sched))
    && (forall t :: t in s.pc ==> !s.pc[t].Stopped? && (s.pc[t].Locking? ==> WellFormed(s.pc[t].r)))
    && (forall t :: t in s.pc ==> (Critical(s.pc[t]) <==> holder == Some(t)))
    && s.lock == holder.Some?
    && Sized(Replay(init, s.log)) && Faithful(init, s.log)
    && match holder
      case None => s.dev == Device(Replay(init, s.log), Ready)
      case Some(h) => h in s.pc && Matches(s.pc[h], s.dev, Replay(init, s.log))
  }

  lemma BootInv(first: ThreadId, blocks: Blocks)
    requires Sized(blocks)
    ensures Inv(Boot(first, blocks, true), blocks, None)
  {
  }

  lemma GiveWayInv(s: Sys, init: Blocks, holder: Option<ThreadId>)
    requires Inv(s, init, holder)
    ensures Inv(GiveWay(s), init, holder)
  {
    hide Matches, Faithful, Replay, Sized, Critical, Distinct, Runnable;
    YieldKeepsDistinct(s.sched);
  }

  lemma CurrentIsKnown(s: Sys, init: Blocks, holder: Option<ThreadId>)
    requires Inv(s, init, holder)
    ensures s.sched.cur in s.pc && PcOf(s) == s.pc[s.sched.cur]
    ensures Critical(PcOf(s)) <==> holder == Some(s.sched.cur)
    ensures holder == Some(s.sched.cur) ==> Matches(PcOf(s), s.dev, Replay(init, s.log))
    ensures Sized(Replay(init, s.log))
  {
    hide Matches, Faithful, Replay, Sized, Critical, Distinct;
    assert Runnable(s.sched)[0] == s.sched.cur;
    assert s.sched.cur in Runnable(s.sched);
  }

  /** The holder moves on inside its critical section. */
  lemma HolderMoves(s: Sys, init: Blocks, pc: Pc, dev: Device)
    requires Inv(s, init, Some(s.sched.cur))
    requires Critical(pc) && Matches(pc, dev, Replay(init, s.log))
    ensures Inv(Goto(s.(dev := dev), pc), init, Some(s.sched.cur))
  {
    hide Matches, Faithful, Replay, Sized, Distinct, Runnable;
  }

  lemma WaitInv(s: Sys, init: Blocks, holder: Option<ThreadId>)
    requires Inv(s, init, holder)
    ensures Inv(Wait(s), init, holder)
  {
    hide Matches, Faithful, Replay, Sized, Distinct, Runnable, Critical;
    if !s.irq {
      GiveWayInv(s, init, holder);
    }
  }

  lemma AcquireInv(s: Sys, init: Blocks, holder: Option<ThreadId>, r: Request)
    requires Inv(s, init, holder) && PcOf(s) == Locking(r)
    ensures Inv(Proceed(s), init, if holder == None then Some(s.sched.cur) else holder)
  {
    hide Faithful, Replay, Sized, Distinct, Runnable;
    CurrentIsKnown(s, init, holder);
    if s.lock {
      GiveWayInv(s, init, holder);
    }
  }

  lemma MoveInv(s: Sys, init: Blocks, r: Request, i: nat, buf: seq<byte>)
    requires Inv(s, init, Some(s.sched.cur)) && PcOf(s) == Moving(r, i, buf)
    ensures Inv(Proceed(s), init, Some(s.sched.cur))
  {
    hide Inv, Replay, Join, Lo, Hi, LbaOf, Goto;
    CurrentIsKnown(s, init, Some(s.sched.cur));
    var store := Replay(init, s.log);
    match r {
      case ReadReq(b) =>
        var data := BlockOf(store, LbaOf(r));
        SplitOfJoin(data[2 * i], data[2 * i + 1]);
        assert data[..2 * i] + [data[2 * i], data[2 * i + 1]] == data[..2 * (i + 1)];
        assert data[..BLOCK_BYTES] == data;
        var (dev, w) := PortIn(s.dev);
        HolderMoves(s, init, if i + 1 >= WORDS then Unlocking(r, data) else Moving(r, i + 1, data[..2 * (i + 1)]), dev);
      case WriteReq(b, data) =>
        SplitOfJoin(data[2 * i], data[2 * i + 1]);
        assert data[..2 * i] + [data[2 * i], data[2 * i + 1]] == data[..2 * (i + 1)];
        assert data[..BLOCK_BYTES] == data;
        var dev := PortOut(s.dev, Join(data[2 * i], data[2 * i + 1]));
        HolderMoves(s, init, if i + 1 >= WORDS then Flushing(r) else Moving(r, i + 1, buf), dev);
    }
  }

  lemma SizedBlock(store: Blocks, b: nat)
    requires Sized(store)
    ensures |BlockOf(store, b)| == BLOCK_BYTES
  {
  }

  lemma ReleaseInv(s: Sys, init: Blocks, r: Request, buf: seq<byte>)
    requires Inv(s, init, Some(s.sched.cur)) && PcOf(s) == Unlocking(r, buf)
    ensures Inv(Proceed(s), init, None)
  {
    hide Faithful, Replay, Distinct, Runnable;
    CurrentIsKnown(s, init, Some(s.sched.cur));
    LogOne(init, s.log, Entry(s.sched.cur, r, buf));
  }

  /** Every step of the running thread keeps the invariant. */
  lemma ProceedInv(s: Sys, init: Blocks, holder: Option<ThreadId>) returns (after: Option<ThreadId>)
    requires Inv(s, init, holder)
    ensures Inv(Proceed(s), init, after)
  {
    hide Inv, Replay, LbaOf, Wait, Goto, Faithful;
    CurrentIsKnown(s, init, holder);
    after := holder;
    match PcOf(s) {
      case Idle =>
      case Locking(r) =>
        AcquireInv(s, init, holder, r);
        after := if holder == None then Some(s.sched.cur) else holder;
      case Issuing(r) =>
        var dev := if r.ReadReq? then ReadCommand(s.dev, r.b) else WriteCommand(s.dev, r.b);
        CommandMatches(r, s.dev, dev, Replay(init, s.log));
        HolderMoves(s, init, Polling(r), dev);
      case Polling(r) =>
        if Busy(s.dev) {
          WaitInv(s, init, holder);
        } else {
          SizedBlock(Replay(init, s.log), LbaOf(r));
          HolderMoves(s, init, Moving(r, 0, []), s.dev);
        }
      case Moving(r, i, buf) => MoveInv(s, init, r, i, buf);
      case Flushing(r) => HolderMoves(s, init, Draining(r), FlushCommand(s.dev));
      case Draining(r) =>
        if Busy(s.dev) {
          WaitInv(s, init, holder);
        } else {
          HolderMoves(s, init, Unlocking(r, []), s.dev);
        }
      case Unlocking(r, buf) =>
        ReleaseInv(s, init, r, buf);
        after := None;
      case Stopped =>
    }
  }

  lemma CommandMatches(r: Request, dev: Device, after: Device, store: Blocks)
    requires Matches(Issuing(r), dev, store)
    requires after == if r.ReadReq? then ReadCommand(dev, r.b) else WriteCommand(dev, r.b)
    ensures !Busy(dev) && Matches(Polling(r), after, store)
  {
  }

  lemma FinishInv(s: Sys, init: Blocks, holder: Option<ThreadId>)
    requires Inv(s, init, holder)
    ensures Inv(s.(dev := Finish(s.dev)), init, holder)
  {
    hide Faithful, Replay, Distinct, Runnable, Critical, LbaOf, Sized;
  }

  lemma CreateInv(s: Sys, init: Blocks, holder: Option<ThreadId>, t: ThreadId)
    requires Inv(s, init, holder)
    ensures Inv(Step(s, Create(t)), init, holder)
  {
    hide Faithful, Replay, LbaOf, Sized, Matches;
    if t !in s.pc {
      var q := Runnable(s.sched);
      assert t !in q;
      assert Runnable(Added(s.sched, t)) == q + [t];
    }
  }

  lemma StepInv(s: Sys, init: Blocks, holder: Option<ThreadId>, e: Event) returns (after: Option<ThreadId>)
    requires Inv(s, init, holder)
    ensures Inv(Step(s, e), init, after)
  {
    hide Faithful, Replay, Distinct, Runnable, LbaOf, Sized, Matches, Proceed;
    after := holder;
    match e {
      case Begin(r) => CurrentIsKnown(s, init, holder);
      case Continue => after := ProceedInv(s, init, holder);
      case Pass =>
        if PcOf(s).Idle? {
          GiveWayInv(s, init, holder);
        }
      case Create(t) => CreateInv(s, init, holder, t);
      case DeviceDone => FinishInv(s, init, holder);
      case Irq =>
    }
  }

  lemma {:induction false} RunInv(s: Sys, init: Blocks, holder: Option<ThreadId>, es: seq<Event>)
    returns (after: Option<ThreadId>)
    requires Inv(s, init, holder)
    ensures Inv(Run(s, es), init, after)
    decreases |es|
  {
    hide Inv, Step;
    after := holder;
    if es != [] {
      var next := StepInv(s, init, holder, es[0]);
      after := RunInv(Step(s, es[0]), init, next, es[1..]);
    }
  }
}
