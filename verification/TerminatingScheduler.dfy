/**
 The scheduler with termination as the kernel runs it: the linked ready queue, the linked
 zombie list, and the thread that yielded last.
 */
module TerminatingScheduler {
  import opened Bytes
  import opened ReadyQueue
  import opened ThreadStates

  class ZombieNode {
    const th: ThreadId
    const next: ZombieNode?

    constructor (t: ThreadId, n: ZombieNode?)
      ensures th == t && next == n
    {
      th, next := t, n;
    }
  }

  function ZombieThreads(nodes: seq<ZombieNode>): (q: seq<ThreadId>)
    ensures |q| == |nodes|
    ensures forall i :: 0 <= i < |nodes| ==> q[i] == nodes[i].th
  {
    seq<ThreadId>(|nodes|, i requires 0 <= i < |nodes| => nodes[i].th)
  }

  ghost predicate Chained(head: ZombieNode?, nodes: seq<ZombieNode>) {
    && head == (if nodes == [] then null else nodes[0])
    && (nodes != [] ==> nodes[|nodes| - 1].next == null)
    && forall i, j :: 0 <= i < j < |nodes| && j == i + 1 ==> nodes[i].next == nodes[j]
  }

  lemma ChainedFront(n: ZombieNode, head: ZombieNode?, nodes: seq<ZombieNode>)
    requires Chained(head, nodes) && n.next == head
    ensures Chained(n, [n] + nodes)
    ensures ZombieThreads([n] + nodes) == [n.th] + ZombieThreads(nodes)
  {
    var after := [n] + nodes;
    forall i, j | 0 <= i < j < |after| && j == i + 1
      ensures after[i].next == after[j]
    {
      assert after[j] == nodes[i];
      assert i > 0 ==> after[i] == nodes[i - 1];
    }
  }

  /** resume() as such: the thread goes to the tail, whoever it is. */
  function PushBack(s: Threads, t: ThreadId): Threads {
    var c := Cleanup(s);
    c.(ready := c.ready + [t])
  }

  /** yield() by a thread that is already in the queue. */
  function TakeTurn(s: Threads, me: ThreadId): Threads {
    var c := Cleanup(s).(lastYielder := Some(me));
    if c.ready == [] then c else c.(running := Some(c.ready[0]), ready := c.ready[1..])
  }

  /** resume(self) followed by yield() is the one step of the model. */
  lemma PassOnIs(s: Threads, me: ThreadId)
    ensures TakeTurn(PushBack(s, me), me) == PassOn(s, me)
  {
    assert Cleanup(PushBack(s, me)) == PushBack(s, me);
  }

  class Scheduler {
    const rq: ReadyQueue
    const idle: ThreadId
    var current: ThreadId
    var zombieHead: ZombieNode?
    var lastYielder: Option<ThreadId>
    ghost var zombieNodes: seq<ZombieNode>
    ghost var blocked: set<ThreadId>
    ghost var freed: seq<ThreadId>

    ghost predicate Valid()
      reads this, rq, rq.nodes
    {
      rq.Valid() && Chained(zombieHead, zombieNodes)
    }

    ghost function State(): Threads
      reads this, rq
    {
      Threads(if current == idle then None else Some(current), rq.Contents(), blocked,
              ZombieThreads(zombieNodes), freed, lastYielder)
    }

    constructor (first: ThreadId, idleThread: ThreadId)
      requires first != idleThread
      ensures Valid() && fresh(rq) && idle == idleThread
      ensures State() == Threads(Some(first), [], {}, [], [], None)
    {
      rq := new ReadyQueue();
      idle, current := idleThread, first;
      zombieHead, lastYielder := null, None;
      zombieNodes, blocked, freed := [], {}, [];
    }

    /** Walks the zombie list and gives back every stack on it. */
    method CleanupZombies()
      requires Valid()
      modifies this`zombieHead, this`zombieNodes, this`freed
      ensures Valid() && State() == Cleanup(old(State()))
    {
      var cur := zombieHead;
      ghost var k := 0;
      ghost var nodes := zombieNodes;
      ghost var before := freed;
      while cur != null
        invariant k <= |nodes|
        invariant cur == if k < |nodes| then nodes[k] else null
        invariant freed == before + ZombieThreads(nodes)[..k]
        invariant zombieNodes == nodes && Valid()
        decreases |nodes| - k
      {
        assert k + 1 < |nodes| ==> nodes[k].next == nodes[k + 1];
        var nxt := cur.next;
        freed := freed + [cur.th];
        cur := nxt;
        k := k + 1;
      }
      assert ZombieThreads(nodes)[..k] == ZombieThreads(nodes);
      zombieHead := null;
      zombieNodes := [];
    }

    method EnqueueZombie(t: ThreadId)
      requires Valid()
      modifies this`zombieHead, this`zombieNodes
      ensures Valid() && State() == old(State()).(zombies := [t] + old(State()).zombies)
    {
      var n := new ZombieNode(t, zombieHead);
      ChainedFront(n, zombieHead, zombieNodes);
      zombieHead := n;
      zombieNodes := [n] + zombieNodes;
    }

    /** resume and add: reap, and enqueue unless it is the idle thread. */
    method Resume(t: ThreadId)
      requires Valid()
      modifies this`zombieHead, this`zombieNodes, this`freed, this`blocked, rq, rq.nodes
      ensures Valid()
      ensures t == idle ==> State() == Cleanup(old(State()))
      ensures t != idle && t in old(blocked) ==> State() == Enqueue(old(State()), t)
      ensures t != idle && t !in old(blocked) ==> State() == PushBack(old(State()), t)
    {
      CleanupZombies();
      if t == idle {
        return;
      }
      rq.PushTail(t);
      blocked := blocked - {t};
    }

    method Yield()
      requires Valid() && current != idle && idle !in State().ready
      modifies this`current, this`zombieHead, this`zombieNodes, this`freed, this`blocked, this`lastYielder, rq
      ensures Valid()
      ensures old(current) in old(State().ready) ==> State() == TakeTurn(old(State()), old(current))
      ensures old(current) !in old(State().ready) ==> State() == ThreadStates.Wait(old(State()), old(current))
    {
      hide ReadyQueue.Valid, Chained;
      ghost var queue := rq.Contents();
      var me := current;
      lastYielder := Some(me);
      CleanupZombies();
      rq.HeadIs();
      if rq.head == null {
        return;
      }
      TakeHead();
      if me !in queue {
        blocked := blocked + {me};
      }
    }

    /** The head of the queue gets the processor. */
    method TakeHead()
      requires Valid() && State().ready != [] && idle !in State().ready
      modifies this`current, rq
      ensures Valid()
      ensures State() == old(State()).(running := Some(old(State()).ready[0]), ready := old(State()).ready[1..])
    {
      ghost var queue := rq.Contents();
      var next := rq.PopHead();
      assert queue[0] in queue;
      current := next.value;
    }

    /** The kernel's way to give up the processor. */
    method PassOnCpu()
      requires Valid() && current != idle && idle !in State().ready && current !in blocked
      modifies this`current, this`zombieHead, this`zombieNodes, this`freed, this`blocked, this`lastYielder, rq, rq.nodes
      ensures Valid() && State() == PassOn(old(State()), old(current))
    {
      ghost var s := State();
      PassOnIs(s, current);
      Resume(current);
      assert State().ready == s.ready + [current];
      Yield();
    }

    /** Hands the processor to the head of the queue, else to the last thread that yielded, else to the idle thread. */
    method DispatchSuccessor()
      requires Valid() && idle !in State().ready && lastYielder != Some(idle)
      modifies this`current, this`blocked, rq
      ensures Valid() && State() == Successor(old(State()))
    {
      rq.HeadIs();
      if rq.head != null {
        TakeHead();
        return;
      }
      if lastYielder.Some? {
        assert |rq.nodes| == |rq.Contents()| == 0;
        var removed := rq.Remove(lastYielder.value);
        current := lastYielder.value;
        blocked := blocked - {lastYielder.value};
        return;
      }
      current := idle;
    }

    method TerminateSelf()
      requires Valid() && current != idle && idle !in State().ready && lastYielder != Some(idle)
      modifies this`current, this`zombieHead, this`zombieNodes, this`freed, this`blocked, rq, rq.nodes
      ensures Valid() && State() == ThreadStates.TerminateSelf(old(State()), old(current))
    {
      CleanupZombies();
      BuryCurrent();
      DispatchSuccessor();
    }

    /** The running thread leaves the queue and becomes the newest zombie. */
    method BuryCurrent()
      requires Valid() && current != idle && idle !in State().ready
      modifies this`zombieHead, this`zombieNodes, rq, rq.nodes
      ensures Valid() && State() == Buried(old(State()), current) && idle !in State().ready
    {
      ghost var queue := rq.Contents();
      RemoveSubset(queue, current);
      var removed := rq.Remove(current);
      EnqueueZombie(current);
    }

    /** terminate() of the running thread, or of another one, whose stack is given back at once. */
    method Terminate(t: ThreadId)
      requires Valid() && current != idle && idle !in State().ready && lastYielder != Some(idle)
      modifies this`current, this`zombieHead, this`zombieNodes, this`freed, this`blocked, rq, rq.nodes
      ensures Valid()
      ensures t == idle ==> State() == old(State())
      ensures t != idle ==> State() == ThreadStates.Terminate(old(State()), old(current), t)
    {
      if t == current {
        BuryCurrent();
        DispatchSuccessor();
        return;
      }
      if t == idle {
        return;
      }
      var removed := rq.Remove(t);
      blocked := blocked - {t};
      freed := freed + [t];
    }
  }

  lemma {:induction false} RemoveSubset(q: seq<ThreadId>, t: ThreadId)
    ensures forall u :: u in RemoveFirst(q, t) ==> u in q
  {
    if q != [] {
      RemoveSubset(q[1..], t);
    }
  }
}
