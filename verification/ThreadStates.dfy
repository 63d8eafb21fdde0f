/**
 The scheduler with thread termination: a thread that ends becomes a zombie, and whoever
 calls the scheduler next frees it.
 */
module ThreadStates {
  import opened Bytes
  import opened ReadyQueue
  import D = DiskScheduler

  /**
   running: None is the idle thread. blocked: created or waiting, in no queue. freed: in the
   order in which the stacks were given back.
   */
  datatype Threads = Threads(
    running: Option<ThreadId>,
    ready: seq<ThreadId>,
    blocked: set<ThreadId>,
    zombies: seq<ThreadId>,
    freed: seq<ThreadId>,
    lastYielder: Option<ThreadId>)

  // ----- operations -----

  /** cleanup_zombies: the newest zombie is freed first. */
  function Cleanup(s: Threads): Threads {
    s.(zombies := [], freed := s.freed + s.zombies)
  }

  function CreateThread(s: Threads, t: ThreadId): Threads {
    s.(blocked := s.blocked + {t})
  }

  /** add and resume of a thread that waits. */
  function Enqueue(s: Threads, t: ThreadId): Threads {
    var c := Cleanup(s);
    c.(ready := c.ready + [t], blocked := c.blocked - {t})
  }

  /** pass_on_CPU: resume(self) and yield() in one. */
  function PassOn(s: Threads, me: ThreadId): Threads {
    var c := Cleanup(s);
    var q := c.ready + [me];
    c.(running := Some(q[0]), ready := q[1..], lastYielder := Some(me))
  }

  /** yield() by a thread that has not enqueued itself: it waits until someone resumes it. */
  function Wait(s: Threads, me: ThreadId): Threads {
    var c := Cleanup(s).(lastYielder := Some(me));
    if c.ready == [] then c
    else c.(running := Some(c.ready[0]), ready := c.ready[1..], blocked := c.blocked + {me})
  }

  /** The successor of a thread that ended: the head, else the last thread that yielded, else the idle thread. */
  function Successor(s: Threads): Threads {
    if s.ready != [] then s.(running := Some(s.ready[0]), ready := s.ready[1..])
    else
      match s.lastYielder
      case Some(y) => s.(running := Some(y), blocked := s.blocked - {y})
      case None => s.(running := None)
  }

  /** thread_shutdown: the running thread ends. */
  function TerminateSelf(s: Threads, me: ThreadId): Threads {
    var c := Cleanup(s);
    Successor(c.(ready := RemoveFirst(c.ready, me), zombies := [me] + c.zombies))
  }

  /** terminate(t): like the above, but without reaping first, for the running thread; at once for any other. */
  function Terminate(s: Threads, me: ThreadId, t: ThreadId): Threads {
    if t == me then
      Successor(s.(ready := RemoveFirst(s.ready, me), zombies := [me] + s.zombies))
    else
      s.(ready := RemoveFirst(s.ready, t), blocked := s.blocked - {t}, freed := s.freed + [t])
  }

  // ----- the census -----

  function In(q: seq<ThreadId>, t: ThreadId): nat {
    multiset(q)[t]
  }

  lemma InHead(q: seq<ThreadId>, t: ThreadId)
    requires q != []
    ensures In(q, t) == (if q[0] == t then 1 else 0) + In(q[1..], t)
  {
    assert q == [q[0]] + q[1..];
  }

  lemma InConcat(a: seq<ThreadId>, b: seq<ThreadId>, t: ThreadId)
    ensures In(a + b, t) == In(a, t) + In(b, t)
  {
  }

  lemma InOne(u: ThreadId, t: ThreadId)
    ensures In([u], t) == if u == t then 1 else 0
  {
  }

  lemma InIff(q: seq<ThreadId>, t: ThreadId)
    ensures In(q, t) > 0 <==> t in q
  {
  }

  /** How many statuses a thread has. */
  function Count(s: Threads, t: ThreadId): nat {
    (if s.running == Some(t) then 1 else 0) + In(s.ready, t) + (if t in s.blocked then 1 else 0)
    + In(s.zombies, t) + In(s.freed, t)
  }

  /** Every thread is in at most one of running, ready, blocked, zombie, freed, and in it once. */
  ghost predicate OneStatus(s: Threads) {
    forall t: ThreadId :: Count(s, t) <= 1
  }

  /** Statuses do not overlap, and no queue holds a thread twice. */
  lemma StatusesAreDisjoint(s: Threads, t: ThreadId)
    requires OneStatus(s)
    ensures s.running == Some(t) ==> t !in s.ready && t !in s.blocked && t !in s.zombies && t !in s.freed
    ensures t in s.ready ==> t !in s.blocked && t !in s.zombies && t !in s.freed
    ensures t in s.blocked ==> t !in s.zombies && t !in s.freed
    ensures t in s.zombies ==> t !in s.freed
    ensures In(s.ready, t) <= 1 && In(s.zombies, t) <= 1 && In(s.freed, t) <= 1
  {
    hide In;
    assert Count(s, t) <= 1;
    InIff(s.ready, t);
    InIff(s.zombies, t);
    InIff(s.freed, t);
  }

  lemma CleanupCount(s: Threads, t: ThreadId)
    ensures Count(Cleanup(s), t) == Count(s, t)
  {
    hide In;
    InConcat(s.freed, s.zombies, t);
    InIff([], t);
  }

  lemma EnqueueCount(s: Threads, u: ThreadId, t: ThreadId)
    requires u in s.blocked
    ensures Count(Enqueue(s, u), t) == Count(s, t)
  {
    hide In;
    CleanupCount(s, t);
    InConcat(s.ready, [u], t);
    InOne(u, t);
  }

  lemma PassOnCount(s: Threads, me: ThreadId, t: ThreadId)
    requires s.running == Some(me)
    ensures Count(PassOn(s, me), t) == Count(s, t)
  {
    hide In;
    CleanupCount(s, t);
    InConcat(s.ready, [me], t);
    InOne(me, t);
    InHead(s.ready + [me], t);
  }

  /**
   Passing on is one step of the same rotation that the disk kernel's scheduler makes, so its
   fairness carries over.
   */
  lemma PassOnRotates(s: Threads, me: ThreadId)
    ensures PassOn(s, me).running.Some?
    ensures D.Sched(PassOn(s, me).running.value, PassOn(s, me).ready) == D.Yielded(D.Sched(me, s.ready))
  {
    assert (s.ready + [me])[1..] == if s.ready == [] then [] else s.ready[1..] + [me];
  }

  lemma WaitCount(s: Threads, me: ThreadId, t: ThreadId)
    requires s.running == Some(me) && me !in s.blocked
    ensures Count(Wait(s, me), t) == Count(s, t)
  {
    hide In;
    CleanupCount(s, t);
    if s.ready != [] {
      InHead(s.ready, t);
    }
  }

  function IsRunning(s: Threads, t: ThreadId): nat {
    if s.running == Some(t) then 1 else 0
  }

  /**
   Dispatching the successor takes a status from no one but the thread that ran, and gives none
   but to a fallback that was not waiting.
   */
  lemma SuccessorCount(s: Threads, t: ThreadId)
    ensures Count(Successor(s), t) + IsRunning(s, t) == Count(s, t) +
      if s.ready == [] && s.lastYielder == Some(t) && t !in s.blocked then 1 else 0
  {
    hide In;
    if s.ready != [] {
      InHead(s.ready, t);
    }
  }

  /** The running thread, as a zombie at the head of the list. */
  function Buried(s: Threads, me: ThreadId): Threads {
    s.(ready := RemoveFirst(s.ready, me), zombies := [me] + s.zombies)
  }

  lemma BuriedCount(s: Threads, me: ThreadId, t: ThreadId)
    requires OneStatus(s) && s.running == Some(me)
    ensures Count(Buried(s, me), t) == Count(s, t) + if t == me then 1 else 0
    ensures Buried(s, me).ready == s.ready
  {
    hide In, OneStatus;
    StatusesAreDisjoint(s, me);
    RemoveAbsent(s.ready, me);
    InConcat([me], s.zombies, t);
    InOne(me, t);
  }

  lemma EndCount(s: Threads, me: ThreadId, t: ThreadId)
    requires OneStatus(s) && s.running == Some(me)
    ensures Count(Successor(Buried(s, me)), t) == Count(s, t) +
      if s.ready == [] && s.lastYielder == Some(t) && t !in s.blocked then 1 else 0
  {
    hide Count, OneStatus, Successor;
    BuriedCount(s, me, t);
    SuccessorCount(Buried(s, me), t);
  }

  /**
   Ending the running thread leaves every thread with one status exactly when there is a ready
   thread, or nobody has yielded yet, or the last thread that yielded is waiting. Otherwise a
   thread that has ended runs on.
   */
  lemma EndKeepsIff(s: Threads, me: ThreadId)
    requires OneStatus(s) && s.running == Some(me)
    requires s.lastYielder.Some? ==> Count(s, s.lastYielder.value) > 0
    ensures OneStatus(Successor(Buried(s, me))) <==>
      s.ready != [] || s.lastYielder == None || s.lastYielder.value in s.blocked
  {
    hide Count, Successor, Buried;
    forall t: ThreadId
      ensures Count(Successor(Buried(s, me)), t) == Count(s, t) +
        if s.ready == [] && s.lastYielder == Some(t) && t !in s.blocked then 1 else 0
    {
      EndCount(s, me, t);
    }
    if !(s.ready != [] || s.lastYielder == None || s.lastYielder.value in s.blocked) {
      assert Count(Successor(Buried(s, me)), s.lastYielder.value) > 1;
    }
  }

  lemma CleanupKeeps(s: Threads)
    requires OneStatus(s)
    ensures OneStatus(Cleanup(s))
  {
    hide Count;
    forall t: ThreadId
      ensures Count(Cleanup(s), t) <= 1
    {
      CleanupCount(s, t);
    }
  }

  /** The same for thread_shutdown, which reaps first. */
  lemma TerminateSelfKeepsIff(s: Threads, me: ThreadId)
    requires OneStatus(s) && s.running == Some(me)
    requires s.lastYielder.Some? ==> Count(s, s.lastYielder.value) > 0
    ensures OneStatus(TerminateSelf(s, me)) <==>
      s.ready != [] || s.lastYielder == None || s.lastYielder.value in s.blocked
  {
    hide Count, OneStatus, Successor;
    CleanupKeeps(s);
    if s.lastYielder.Some? {
      CleanupCount(s, s.lastYielder.value);
    }
    EndKeepsIff(Cleanup(s), me);
  }

  /** If the only thread that ever yielded ends with nobody ready, it is dispatched again after its own death. */
  lemma DeadThreadRunsOn(me: ThreadId)
    ensures var s := PassOn(Threads(Some(me), [], {}, [], [], None), me);
      TerminateSelf(s, me).running == Some(me) && me in TerminateSelf(s, me).zombies
  {
  }

  lemma KillCount(s: Threads, me: ThreadId, u: ThreadId, t: ThreadId)
    requires OneStatus(s) && u != me && (u in s.ready || u in s.blocked)
    ensures Count(Terminate(s, me, u), t) == Count(s, t)
  {
    StatusesAreDisjoint(s, u);
    RemoveCounts(s.ready, u);
    InConcat(s.freed, [u], t);
    InOne(u, t);
    InIff(s.ready, t);
    assert In(RemoveFirst(s.ready, u), t) == In(s.ready, t) - if t == u && u in s.ready then 1 else 0;
    hide In;
  }

  // ----- runs -----

  datatype Op =
    | Create(t: ThreadId)
    | Resume(t: ThreadId)
    | Pass
    | Block
    | End
    | Kill(t: ThreadId)

  /** Nothing runs any more once the idle thread does. */
  function Step(s: Threads, op: Op): Threads {
    match s.running
    case None => s
    case Some(me) =>
      match op
      case Create(t) => CreateThread(s, t)
      case Resume(t) => Enqueue(s, t)
      case Pass => PassOn(s, me)
      case Block => Wait(s, me)
      case End => TerminateSelf(s, me)
      case Kill(t) => Terminate(s, me, t)
  }

  /**
   New threads are new, waiting threads are resumed, live threads are killed, and a thread that
   ends leaves a ready one.
   */
  predicate Allowed(s: Threads, op: Op) {
    match op
    case Create(t) => Count(s, t) == 0
    case Resume(t) => t in s.blocked
    case Pass => true
    case Block => true
    case End => s.ready != []
    case Kill(t) => if s.running == Some(t) then s.ready != [] else t in s.ready || t in s.blocked
  }

  predicate AllowedRun(s: Threads, ops: seq<Op>)
    decreases |ops|
  {
    ops == [] || (Allowed(s, ops[0]) && AllowedRun(Step(s, ops[0]), ops[1..]))
  }

  function Run(s: Threads, ops: seq<Op>): Threads
    decreases |ops|
  {
    if ops == [] then s else Run(Step(s, ops[0]), ops[1..])
  }

  /** Every operation moves threads from one status to another and loses none; only creation adds one. */
  lemma StepCount(s: Threads, op: Op, t: ThreadId)
    requires OneStatus(s) && Allowed(s, op) && s.running.Some?
    ensures Count(Step(s, op), t) == Count(s, t) + if op == Create(t) then 1 else 0
  {
    hide OneStatus, In, Successor;
    var me := s.running.value;
    StatusesAreDisjoint(s, me);
    match op {
      case Create(u) =>
      case Resume(u) => EnqueueCount(s, u, t);
      case Pass => PassOnCount(s, me, t);
      case Block => WaitCount(s, me, t);
      case End =>
        CleanupKeeps(s);
        CleanupCount(s, t);
        EndCount(Cleanup(s), me, t);
      case Kill(u) =>
        if u == me {
          EndCount(s, me, t);
        } else {
          KillCount(s, me, u, t);
        }
    }
  }

  lemma StepKeepsStatus(s: Threads, op: Op)
    requires OneStatus(s) && Allowed(s, op)
    ensures OneStatus(Step(s, op))
  {
    hide Count, Step, Allowed;
    if s.running.Some? {
      forall t: ThreadId
        ensures Count(Step(s, op), t) <= 1
      {
        StepCount(s, op, t);
        NewIsNew(s, op, t);
      }
    } else {
      IdleStays(s, op);
    }
  }

  lemma NewIsNew(s: Threads, op: Op, t: ThreadId)
    requires Allowed(s, op)
    ensures op == Create(t) ==> Count(s, t) == 0
  {
  }

  lemma IdleStays(s: Threads, op: Op)
    requires s.running == None
    ensures Step(s, op) == s
  {
  }

  /** Over every allowed run each thread has exactly one status, and no thread is ever lost. */
  lemma {:induction false} RunKeepsStatus(s: Threads, ops: seq<Op>)
    requires OneStatus(s) && AllowedRun(s, ops)
    ensures OneStatus(Run(s, ops))
    ensures forall t: ThreadId :: Count(s, t) <= Count(Run(s, ops), t)
    decreases |ops|
  {
    hide Count, Allowed, Step, OneStatus;
    if ops != [] {
      StepKeepsStatus(s, ops[0]);
      RunKeepsStatus(Step(s, ops[0]), ops[1..]);
      forall t: ThreadId
        ensures Count(s, t) <= Count(Step(s, ops[0]), t)
      {
        if s.running.Some? {
          StepCount(s, ops[0], t);
        } else {
          IdleStays(s, ops[0]);
        }
      }
    }
  }

  /** A freed stack stays freed and is freed once, and its thread never runs, is ready, waits or is a zombie again. */
  lemma FreedOnce(s: Threads, ops: seq<Op>, t: ThreadId)
    requires OneStatus(s) && AllowedRun(s, ops) && t in s.freed
    ensures var u := Run(s, ops);
      In(u.freed, t) == 1 && u.running != Some(t) && t !in u.ready && t !in u.blocked && t !in u.zombies
  {
    hide OneStatus, Run;
    RunAppendsFreed(s, ops);
    RunKeepsStatus(s, ops);
    assert t in Run(s, ops).freed;
    StatusesAreDisjoint(Run(s, ops), t);
    InIff(Run(s, ops).freed, t);
  }

  lemma {:induction false} RunAppendsFreed(s: Threads, ops: seq<Op>)
    ensures s.freed <= Run(s, ops).freed
    decreases |ops|
  {
    if ops != [] {
      RunAppendsFreed(Step(s, ops[0]), ops[1..]);
    }
  }

  /**
   The stacks that a scheduler call frees belong to zombies, or to the thread it was asked to
   kill, and to no running, ready or waiting thread.
   */
  lemma ReapsOnlyTheDead(s: Threads, op: Op, t: ThreadId)
    requires OneStatus(s) && Allowed(s, op) && s.running.Some?
    requires t in Step(s, op).freed && t !in s.freed
    ensures t in s.zombies || op == Kill(t)
    ensures Step(s, op).running != Some(t) && t !in Step(s, op).ready && t !in Step(s, op).blocked
  {
    FreedFrom(s, op, t);
    hide OneStatus, Step, Allowed;
    StepKeepsStatus(s, op);
    StatusesAreDisjoint(Step(s, op), t);
  }

  lemma FreedFrom(s: Threads, op: Op, t: ThreadId)
    requires s.running.Some? && t in Step(s, op).freed && t !in s.freed
    ensures t in s.zombies || op == Kill(t)
  {
  }

  /** A zombie is reaped by the next call that passes on the processor, blocks, resumes or ends a thread. */
  lemma ZombiesAreReaped(s: Threads, op: Op, t: ThreadId)
    requires s.running.Some? && t in s.zombies && !op.Create? && !op.Kill?
    ensures t in Step(s, op).freed
  {
  }
}
