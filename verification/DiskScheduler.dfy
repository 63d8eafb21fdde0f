/**
 The disk kernel's scheduler: yielding puts the running thread at the tail and takes the head.
 */
module DiskScheduler {
  import opened Bytes
  import opened ReadyQueue

  /** The running thread and the ready queue. */
  datatype Sched = Sched(cur: ThreadId, queue: seq<ThreadId>)

  function Yielded(s: Sched): Sched {
    if s.queue == [] then s else Sched(s.queue[0], s.queue[1..] + [s.cur])
  }

  function Added(s: Sched, t: ThreadId): Sched {
    s.(queue := s.queue + [t])
  }

  /** resume ignores the running thread, because yield enqueues it. */
  function Resumed(s: Sched, t: ThreadId): Sched {
    if t == s.cur then s else Added(s, t)
  }

  /** All runnable threads, the running one first. */
  function Runnable(s: Sched): seq<ThreadId> {
    [s.cur] + s.queue
  }

  predicate Distinct(q: seq<ThreadId>) {
    forall i, j :: 0 <= i < j < |q| ==> q[i] != q[j]
  }

  class Scheduler {
    const rq: ReadyQueue
    var current: ThreadId

    ghost predicate Valid()
      reads this, rq, rq.nodes
    {
      rq.Valid()
    }

    ghost function State(): Sched
      reads this, rq
    {
      Sched(current, rq.Contents())
    }

    constructor (first: ThreadId)
      ensures Valid() && State() == Sched(first, []) && fresh(rq)
    {
      rq := new ReadyQueue();
      current := first;
    }

    /** The result is the thread that is dispatched to, if there is a switch at all. */
    method Yield() returns (next: Option<ThreadId>)
      requires Valid()
      modifies this`current, rq, rq.nodes
      ensures Valid()
      ensures State() == Yielded(old(State()))
      ensures next.Some? ==> current == next.value
      ensures Distinct(Runnable(old(State()))) ==> (next == None <==> old(State()).queue == [])
    {
      ghost var queue := rq.Contents();
      var me := current;
      next := Rotate(me);
      var alone := next == Some(me) && rq.head == null;
      if next == None || alone {
        return None;
      }
      current := next.value;
    }

    /** Enqueues the thread at the tail and takes the head. */
    method Rotate(me: ThreadId) returns (next: Option<ThreadId>)
      requires Valid()
      modifies rq, rq.nodes
      ensures Valid()
      ensures var all := old(rq.Contents()) + [me];
        next == Some(all[0]) && rq.Contents() == all[1..]
      ensures rq.head == null <==> rq.Contents() == []
    {
      rq.PushTail(me);
      next := rq.PopHead();
      assert |rq.nodes| == |rq.Contents()|;
    }

    method Resume(t: ThreadId)
      requires Valid()
      modifies rq, rq.nodes
      ensures Valid() && State() == Resumed(old(State()), t)
    {
      if t == current {
        return;
      }
      rq.PushTail(t);
    }

    method Add(t: ThreadId)
      requires Valid()
      modifies rq, rq.nodes
      ensures Valid() && State() == Added(old(State()), t)
    {
      rq.PushTail(t);
    }
  }

  /**
   Resuming a thread that waits puts it last; resuming the running one changes nothing, so no thread is
   queued twice.
   */
  lemma ResumeKeepsDistinct(s: Sched, t: ThreadId)
    requires Distinct(Runnable(s)) && t !in s.queue
    ensures Distinct(Runnable(Resumed(s, t)))
    ensures Runnable(Resumed(s, t)) == if t in Runnable(s) then Runnable(s) else Runnable(s) + [t]
  {
    assert Runnable(s)[0] == s.cur && Runnable(s)[1..] == s.queue;
    if t != s.cur {
      assert Runnable(Resumed(s, t)) == Runnable(s) + [t];
    }
  }

  // ----- fairness -----

  datatype SchedEvent = YieldEvent | AddEvent(t: ThreadId)

  function SchedStep(s: Sched, e: SchedEvent): Sched {
    match e
    case YieldEvent => Yielded(s)
    case AddEvent(t) => Added(s, t)
  }

  function SchedRun(s: Sched, es: seq<SchedEvent>): Sched
    decreases |es|
  {
    if es == [] then s else SchedRun(SchedStep(s, es[0]), es[1..])
  }

  function Yields(es: seq<SchedEvent>): nat {
    if es == [] then 0 else (if es[0] == YieldEvent then 1 else 0) + Yields(es[1..])
  }

  lemma {:induction false} YieldsConcat(a: seq<SchedEvent>, b: seq<SchedEvent>)
    ensures Yields(a + b) == Yields(a) + Yields(b)
  {
    if a == [] {
      assert a + b == b;
    } else {
      assert (a + b)[0] == a[0] && (a + b)[1..] == a[1..] + b;
      YieldsConcat(a[1..], b);
    }
  }

  /** Every yield moves a queued thread one place forward, whatever is added behind it. */
  lemma {:induction false} Advances(s: Sched, es: seq<SchedEvent>, k: nat)
    requires k < |s.queue| && Yields(es) <= k
    ensures Yields(es) <= k < |SchedRun(s, es).queue| + Yields(es)
    ensures SchedRun(s, es).queue[k - Yields(es)] == s.queue[k]
    decreases |es|
  {
    if es != [] {
      match es[0] {
        case YieldEvent => Advances(Yielded(s), es[1..], k - 1);
        case AddEvent(t) => Advances(Added(s, t), es[1..], k);
      }
    }
  }

  /** A thread at position k runs after exactly k + 1 yields, regardless of the threads added meanwhile. */
  lemma {:induction false} TurnComes(s: Sched, es: seq<SchedEvent>, k: nat)
    requires k < |s.queue| && Yields(es) == k + 1
    ensures SchedRun(s, es).cur == s.queue[k]
    decreases |es|
  {
    match es[0] {
      case YieldEvent =>
        if k == 0 {
          StaysCurrent(Yielded(s), es[1..]);
        } else {
          TurnComes(Yielded(s), es[1..], k - 1);
        }
      case AddEvent(t) =>
        TurnComes(Added(s, t), es[1..], k);
    }
  }

  lemma {:induction false} StaysCurrent(s: Sched, es: seq<SchedEvent>)
    requires Yields(es) == 0
    ensures SchedRun(s, es).cur == s.cur
    decreases |es|
  {
    if es != [] {
      StaysCurrent(SchedStep(s, es[0]), es[1..]);
    }
  }

  /** It does not run earlier, as long as it is nowhere else in the queue. */
  lemma {:induction false} NotEarlier(s: Sched, es: seq<SchedEvent>, k: nat)
    requires k < |s.queue| && Yields(es) <= k
    requires s.queue[k] != s.cur && forall i :: 0 <= i < k ==> s.queue[i] != s.queue[k]
    ensures SchedRun(s, es).cur != s.queue[k]
    decreases |es|
  {
    if es != [] {
      match es[0] {
        case YieldEvent => NotEarlier(Yielded(s), es[1..], k - 1);
        case AddEvent(t) => NotEarlier(Added(s, t), es[1..], k);
      }
    }
  }

  function YieldTimes(s: Sched, n: nat): Sched {
    if n == 0 then s else Yielded(YieldTimes(s, n - 1))
  }

  lemma {:induction false} RotatesBy(s: Sched, n: nat)
    requires n <= |Runnable(s)|
    ensures Runnable(YieldTimes(s, n)) == Runnable(s)[n..] + Runnable(s)[..n] || n == |Runnable(s)|
    ensures n == |Runnable(s)| ==> Runnable(YieldTimes(s, n)) == Runnable(s)
  {
    if n > 0 {
      RotatesBy(s, n - 1);
      YieldRotates(YieldTimes(s, n - 1));
      RotateOnce(Runnable(s), n);
    }
  }

  lemma RotateOnce(all: seq<ThreadId>, n: nat)
    requires 0 < n <= |all|
    ensures var before := all[n - 1..] + all[..n - 1];
      before != [] && before[1..] + [before[0]] == all[n..] + all[..n]
    ensures n == |all| ==> all[n..] + all[..n] == all
    ensures n == 1 ==> all[n - 1..] + all[..n - 1] == all
  {
  }

  lemma YieldRotates(s: Sched)
    ensures Runnable(Yielded(s)) == Runnable(s)[1..] + [Runnable(s)[0]]
  {
  }

  /** n yields of n threads restore the original order. */
  lemma FullTurn(s: Sched)
    ensures YieldTimes(s, |s.queue| + 1) == s
  {
    RotatesBy(s, |s.queue| + 1);
    var r := YieldTimes(s, |s.queue| + 1);
    assert Runnable(r)[0] == Runnable(s)[0] && Runnable(r)[1..] == Runnable(s)[1..];
    assert Runnable(r)[1..] == r.queue && Runnable(s)[1..] == s.queue;
  }

  /** Yielding loses and duplicates no thread. */
  lemma YieldKeepsThreads(s: Sched)
    ensures multiset(Runnable(Yielded(s))) == multiset(Runnable(s))
  {
    if s.queue != [] {
      assert s.queue == [s.queue[0]] + s.queue[1..];
    }
  }

  lemma YieldKeepsDistinct(s: Sched)
    requires Distinct(Runnable(s))
    ensures Distinct(Runnable(Yielded(s)))
    ensures forall t :: t in Runnable(Yielded(s)) <==> t in Runnable(s)
  {
    YieldRotates(s);
    RotationDistinct(Runnable(s));
  }

  lemma RotationDistinct(a: seq<ThreadId>)
    requires a != [] && Distinct(a)
    ensures Distinct(a[1..] + [a[0]])
    ensures forall t :: t in a[1..] + [a[0]] <==> t in a
  {
    var b := a[1..] + [a[0]];
    forall i, j | 0 <= i < j < |b|
      ensures b[i] != b[j]
    {
      assert b[i] == a[i + 1];
      assert b[j] == if j + 1 < |a| then a[j + 1] else a[0];
    }
    assert a == [a[0]] + a[1..];
  }
}
