/**
 The linked FIFO queue of ready threads that both schedulers keep, and the rotation that
 yielding performs on it.
 */
module ReadyQueue {
  import opened Bytes

  type ThreadId = nat

  // ----- the queue as a sequence -----

  /** Drops the first occurrence of a thread. */
  function RemoveFirst(q: seq<ThreadId>, t: ThreadId): seq<ThreadId> {
    if q == [] then [] else if q[0] == t then q[1..] else [q[0]] + RemoveFirst(q[1..], t)
  }

  lemma {:induction false} RemoveFirstAt(q: seq<ThreadId>, t: ThreadId, k: nat)
    requires k < |q| && q[k] == t && forall i :: 0 <= i < k ==> q[i] != t
    ensures RemoveFirst(q, t) == q[..k] + q[k + 1..]
  {
    if k > 0 {
      RemoveFirstAt(q[1..], t, k - 1);
      assert q[..k] == [q[0]] + q[1..][..k - 1];
    }
  }

  lemma {:induction false} RemoveAbsent(q: seq<ThreadId>, t: ThreadId)
    requires t !in q
    ensures RemoveFirst(q, t) == q
  {
    if q != [] {
      RemoveAbsent(q[1..], t);
    }
  }

  /** Removal takes out exactly one occurrence and keeps the order of the rest. */
  lemma {:induction false} RemoveCounts(q: seq<ThreadId>, t: ThreadId)
    ensures multiset(RemoveFirst(q, t)) == if t in q then multiset(q) - multiset{t} else multiset(q)
  {
    if q != [] {
      assert q == [q[0]] + q[1..];
      if q[0] != t {
        RemoveCounts(q[1..], t);
        assert RemoveFirst(q, t) == [q[0]] + RemoveFirst(q[1..], t);
      }
    }
  }

  class ReadyNode {
    const th: ThreadId
    var next: ReadyNode?

    constructor (t: ThreadId)
      ensures th == t && next == null
    {
      th := t;
      next := null;
    }
  }

  function Threads(nodes: seq<ReadyNode>): (q: seq<ThreadId>)
    ensures |q| == |nodes|
    ensures forall i :: 0 <= i < |nodes| ==> q[i] == nodes[i].th
  {
    seq<ThreadId>(|nodes|, i requires 0 <= i < |nodes| => nodes[i].th)
  }

  class ReadyQueue {
    var head: ReadyNode?
    var tail: ReadyNode?
    ghost var nodes: seq<ReadyNode>

    ghost predicate Valid()
      reads this, nodes
    {
      && (if nodes == [] then head == null && tail == null
          else head == nodes[0] && tail == nodes[|nodes| - 1] && nodes[|nodes| - 1].next == null)
      && (forall i, j :: 0 <= i < j < |nodes| && j == i + 1 ==> nodes[i].next == nodes[j])
      && (forall i, j :: 0 <= i < j < |nodes| ==> nodes[i] != nodes[j])
    }

    /** The threads in queue order. */
    ghost function Contents(): (q: seq<ThreadId>)
      reads this
      ensures |q| == |nodes|
    {
      Threads(nodes)
    }

    lemma HeadIs()
      requires Valid()
      ensures head == null <==> Contents() == []
    {
      assert |nodes| == |Contents()|;
    }

    constructor ()
      ensures Valid() && Contents() == [] && nodes == []
    {
      head, tail, nodes := null, null, [];
    }

    method PushTail(t: ThreadId)
      requires Valid()
      modifies this, nodes
      ensures Valid() && Contents() == old(Contents()) + [t]
      ensures forall n :: n in nodes ==> n in old(nodes) || fresh(n)
    {
      var n := new ReadyNode(t);
      if tail == null {
        head, tail := n, n;
      } else {
        tail.next := n;
        tail := n;
      }
      nodes := nodes + [n];
    }

    method PopHead() returns (t: Option<ThreadId>)
      requires Valid()
      modifies this
      ensures Valid()
      ensures old(Contents()) == [] ==> t == None && Contents() == []
      ensures old(Contents()) != [] ==> t == Some(old(Contents())[0]) && Contents() == old(Contents())[1..]
      ensures forall n :: n in nodes ==> n in old(nodes)
    {
      if head == null {
        return None;
      }
      var n := head;
      assert |nodes| > 1 ==> nodes[0].next == nodes[1];
      head := head.next;
      if head == null {
        tail := null;
      }
      nodes := nodes[1..];
      return Some(n.th);
    }

    /** Walks the chain to the first node of the thread, with its predecessor. */
    method Find(target: ThreadId) returns (prev: ReadyNode?, cur: ReadyNode?, ghost k: nat)
      requires Valid()
      ensures k <= |nodes|
      ensures cur == if k < |nodes| then nodes[k] else null
      ensures prev == if k > 0 then nodes[k - 1] else null
      ensures forall i :: 0 <= i < k ==> nodes[i].th != target
      ensures cur != null ==> cur.th == target
    {
      prev := null;
      cur := head;
      k := 0;
      while cur != null && cur.th != target
        invariant k <= |nodes|
        invariant cur == if k < |nodes| then nodes[k] else null
        invariant prev == if k > 0 then nodes[k - 1] else null
        invariant forall i :: 0 <= i < k ==> nodes[i].th != target
        decreases |nodes| - k
      {
        assert k + 1 < |nodes| ==> nodes[k].next == nodes[k + 1];
        prev := cur;
        cur := cur.next;
        k := k + 1;
      }
    }

    method Remove(target: ThreadId) returns (found: bool)
      requires Valid()
      modifies this, nodes
      ensures Valid() && found == (target in old(Contents()))
      ensures Contents() == RemoveFirst(old(Contents()), target)
      ensures forall n :: n in nodes ==> n in old(nodes)
    {
      hide RemoveFirst;
      var prev, cur, k := Find(target);
      if cur == null {
        RemoveAbsent(Contents(), target);
        return false;
      }
      RemoveFirstAt(Contents(), target, k);
      Unlink(prev, cur, k);
      return true;
    }

    /** Takes the k-th node out of the chain. */
    method Unlink(prev: ReadyNode?, cur: ReadyNode, ghost k: nat)
      requires Valid() && k < |nodes| && cur == nodes[k] && prev == if k > 0 then nodes[k - 1] else null
      modifies this, nodes
      ensures Valid() && nodes == old(nodes)[..k] + old(nodes)[k + 1..]
    {
      assert k + 1 < |nodes| ==> nodes[k].next == nodes[k + 1];
      ghost var was := nodes;
      if prev != null {
        prev.next := cur.next;
      } else {
        head := cur.next;
      }
      if tail == cur {
        tail := prev;
      }
      nodes := was[..k] + was[k + 1..];
      forall i, j | 0 <= i < j < |nodes| && j == i + 1
        ensures nodes[i].next == nodes[j]
      {
        if i >= k {
          assert nodes[i] == was[i + 1] && nodes[j] == was[j + 1];
        } else if j < k {
          assert nodes[i] == was[i] && nodes[j] == was[j];
        }
      }
    }
  }
}
