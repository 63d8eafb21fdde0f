/**
 First come, first served, with threads that end: when a ready thread gets the processor, who follows a
 thread that ends, and which stacks each call gives back.
 */
module ThreadQueue {
  import opened Bytes
  import opened ReadyQueue
  import opened ThreadStates

  /** The running thread gives the processor away: it passes on, blocks, or ends. */
  predicate HandsOver(s: Threads, op: Op) {
    op.Pass? || op.Block? || op.End? || (op.Kill? && s.running == Some(op.t))
  }

  /** A ready thread in front of t is killed. */
  ghost predicate KillsAhead(s: Threads, op: Op, t: ThreadId) {
    op.Kill? && exists i, j :: 0 <= i < j < |s.ready| && s.ready[i] == op.t && s.ready[j] == t
  }

  lemma InTwice(q: seq<ThreadId>, i: nat, j: nat)
    requires i < j < |q| && q[i] == q[j]
    ensures In(q, q[i]) >= 2
  {
    assert q == q[..j] + q[j..];
    InConcat(q[..j], q[j..], q[i]);
    assert q[..j][i] == q[i] && q[j..][0] == q[i];
    InIff(q[..j], q[i]);
    InIff(q[j..], q[i]);
  }

  lemma ReadyDistinct(s: Threads, i: nat, j: nat)
    requires OneStatus(s) && i < j < |s.ready|
    ensures s.ready[i] != s.ready[j]
  {
    hide OneStatus, In;
    StatusesAreDisjoint(s, s.ready[i]);
    if s.ready[i] == s.ready[j] {
      InTwice(s.ready, i, j);
    }
  }

  lemma RunningNotReady(s: Threads)
    requires OneStatus(s) && s.running.Some?
    ensures s.running.value !in s.ready
  {
    StatusesAreDisjoint(s, s.running.value);
  }

  /** Removal moves what stands behind the removed thread one place forward. */
  lemma {:induction false} RemoveShifts(q: seq<ThreadId>, u: ThreadId, k: nat)
    requires k < |q| && q[k] != u && forall i, j :: 0 <= i < j < |q| ==> q[i] != q[j]
    ensures u in q[..k] ==> k - 1 < |RemoveFirst(q, u)| && RemoveFirst(q, u)[k - 1] == q[k]
    ensures u !in q[..k] ==> k < |RemoveFirst(q, u)| && RemoveFirst(q, u)[k] == q[k]
  {
    if u in q {
      var i :| 0 <= i < |q| && q[i] == u;
      RemoveFirstAt(q, u, i);
      assert u in q[..k] <==> i < k;
    } else {
      RemoveAbsent(q, u);
    }
  }

  /**
   One operation, as a ready thread sees it: a hand-over brings it one place forward, or onto the
   processor from the front; so does the killing of a thread ahead of it; nothing else moves it.
   */
  lemma StepMoves(s: Threads, op: Op, k: nat)
    requires OneStatus(s) && Allowed(s, op) && s.running.Some? && k < |s.ready| && op != Kill(s.ready[k])
    ensures
      var t, u := s.ready[k], Step(s, op);
      if HandsOver(s, op) then
        if k == 0 then u.running == Some(t) else k - 1 < |u.ready| && u.ready[k - 1] == t && u.running.Some?
      else if KillsAhead(s, op, t) then
        k > 0 && k - 1 < |u.ready| && u.ready[k - 1] == t && u.running == s.running
      else
        k < |u.ready| && u.ready[k] == t && u.running == s.running
  {
    hide OneStatus, Count, RemoveFirst;
    RunningNotReady(s);
    RemoveAbsent(s.ready, s.running.value);
    forall i, j | 0 <= i < j < |s.ready|
      ensures s.ready[i] != s.ready[j]
    {
      ReadyDistinct(s, i, j);
    }
    if op.Kill? && s.running != Some(op.t) {
      RemoveShifts(s.ready, op.t, k);
      AheadIff(s, op, k);
    }
  }

  lemma AheadIff(s: Threads, op: Op, k: nat)
    requires op.Kill? && k < |s.ready| && forall i, j :: 0 <= i < j < |s.ready| ==> s.ready[i] != s.ready[j]
    ensures KillsAhead(s, op, s.ready[k]) <==> op.t in s.ready[..k]
  {
    if op.t in s.ready[..k] {
      var i :| 0 <= i < k && s.ready[..k][i] == op.t;
      assert s.ready[i] == op.t;
    }
    if KillsAhead(s, op, s.ready[k]) {
      var i, j :| 0 <= i < j < |s.ready| && s.ready[i] == op.t && s.ready[j] == s.ready[k];
      assert j == k && s.ready[..k][i] == op.t;
    }
  }

  /** The places that thread t gains over a run: one for each hand-over and for each kill ahead of it. */
  ghost function Gained(s: Threads, ops: seq<Op>, t: ThreadId): nat
    decreases |ops|
  {
    if ops == [] then 0
    else (if HandsOver(s, ops[0]) || KillsAhead(s, ops[0], t) then 1 else 0) + Gained(Step(s, ops[0]), ops[1..], t)
  }

  /** A ready thread moves forward by exactly the places it gains, whoever is created or resumed meanwhile. */
  lemma {:induction false} MovesForward(s: Threads, ops: seq<Op>, k: nat)
    requires OneStatus(s) && AllowedRun(s, ops) && s.running.Some? && k < |s.ready|
    requires forall i :: 0 <= i < |ops| ==> ops[i] != Kill(s.ready[k])
    requires Gained(s, ops, s.ready[k]) <= k
    ensures var n := k - Gained(s, ops, s.ready[k]);
      n < |Run(s, ops).ready| && Run(s, ops).ready[n] == s.ready[k]
    decreases |ops|
  {
    hide OneStatus, Step, Allowed, HandsOver, KillsAhead;
    if ops != [] {
      var t := s.ready[k];
      StepMoves(s, ops[0], k);
      StepKeepsStatus(s, ops[0]);
      var moves := HandsOver(s, ops[0]) || KillsAhead(s, ops[0], t);
      MovesForward(Step(s, ops[0]), ops[1..], if moves then k - 1 else k);
    }
  }

  /** The thread at position k runs after exactly k + 1 of those steps. */
  lemma {:induction false} TurnComes(s: Threads, ops: seq<Op>, k: nat)
    requires OneStatus(s) && AllowedRun(s, ops) && s.running.Some? && k < |s.ready|
    requires forall i :: 0 <= i < |ops| ==> ops[i] != Kill(s.ready[k])
    requires Gained(s, ops, s.ready[k]) == k + 1
    ensures Run(s, ops).running == Some(s.ready[k])
    decreases |ops|
  {
    hide OneStatus, Step, Allowed, HandsOver, KillsAhead;
    var t := s.ready[k];
    StepMoves(s, ops[0], k);
    StepKeepsStatus(s, ops[0]);
    var moves := HandsOver(s, ops[0]) || KillsAhead(s, ops[0], t);
    var u := Step(s, ops[0]);
    if u.running == Some(t) && (s.running != Some(t) || HandsOver(s, ops[0])) {
      FrontGains(s, ops[0], k);
      KeepsRunning(u, ops[1..], t);
    } else {
      TurnComes(u, ops[1..], if moves then k - 1 else k);
    }
  }

  lemma FrontGains(s: Threads, op: Op, k: nat)
    requires OneStatus(s) && Allowed(s, op) && s.running.Some? && k < |s.ready| && op != Kill(s.ready[k])
    requires Step(s, op).running == Some(s.ready[k])
    ensures k == 0 && HandsOver(s, op)
  {
    hide OneStatus, Step, Allowed;
    StepMoves(s, op, k);
    StepKeepsStatus(s, op);
    RunningNotReady(s);
    RunningNotReady(Step(s, op));
  }

  /** With no hand-over left in the run the thread keeps the processor. */
  lemma {:induction false} KeepsRunning(s: Threads, ops: seq<Op>, t: ThreadId)
    requires OneStatus(s) && AllowedRun(s, ops) && s.running == Some(t) && Gained(s, ops, t) == 0
    ensures Run(s, ops).running == Some(t)
    decreases |ops|
  {
    hide OneStatus, Allowed, Count;
    if ops != [] {
      StepKeepsStatus(s, ops[0]);
      hide HandsOver, KillsAhead;
      assert Step(s, ops[0]).running == Some(t) by { OnlyHandOvers(s, ops[0]); }
      hide Step;
      KeepsRunning(Step(s, ops[0]), ops[1..], t);
    }
  }

  lemma OnlyHandOvers(s: Threads, op: Op)
    requires !HandsOver(s, op)
    ensures Step(s, op).running == s.running
  {
  }

  /**
   The thread that has waited longest comes first: of two ready threads the one ahead stays ahead until
   it has run, whatever threads end, block, are created, resumed or killed meanwhile.
   */
  lemma StaysAhead(s: Threads, ops: seq<Op>, i: nat, j: nat)
    requires OneStatus(s) && AllowedRun(s, ops) && s.running.Some? && i < j < |s.ready|
    requires forall n :: 0 <= n < |ops| ==> ops[n] != Kill(s.ready[i]) && ops[n] != Kill(s.ready[j])
    requires Gained(s, ops, s.ready[i]) <= i && Gained(s, ops, s.ready[j]) <= j
    ensures
      var u := Run(s, ops);
      var a, b := i - Gained(s, ops, s.ready[i]), j - Gained(s, ops, s.ready[j]);
      a < b < |u.ready| && u.ready[a] == s.ready[i] && u.ready[b] == s.ready[j]
  {
    MovesForward(s, ops, i);
    MovesForward(s, ops, j);
    SameOrder(s, ops, i, j);
  }

  lemma {:induction false} SameOrder(s: Threads, ops: seq<Op>, i: nat, j: nat)
    requires OneStatus(s) && AllowedRun(s, ops) && s.running.Some? && i < j < |s.ready|
    requires forall n :: 0 <= n < |ops| ==> ops[n] != Kill(s.ready[i]) && ops[n] != Kill(s.ready[j])
    requires Gained(s, ops, s.ready[i]) <= i
    ensures i - Gained(s, ops, s.ready[i]) < j - Gained(s, ops, s.ready[j])
    decreases |ops|
  {
    hide OneStatus, Step, Allowed, HandsOver, KillsAhead;
    if ops != [] {
      var a, b := s.ready[i], s.ready[j];
      StepMoves(s, ops[0], i);
      StepMoves(s, ops[0], j);
      StepKeepsStatus(s, ops[0]);
      AheadOfBoth(s, ops[0], i, j);
      var i2 := if HandsOver(s, ops[0]) || KillsAhead(s, ops[0], a) then i - 1 else i;
      var j2 := if HandsOver(s, ops[0]) || KillsAhead(s, ops[0], b) then j - 1 else j;
      SameOrder(Step(s, ops[0]), ops[1..], i2, j2);
    }
  }

  lemma InPrefix(q: seq<ThreadId>, i: nat)
    requires i <= |q|
    ensures forall n :: 0 <= n < i ==> q[n] in q[..i]
  {
    assert forall n :: 0 <= n < i ==> q[..i][n] == q[n];
  }

  /** A kill between the two brings only the later one forward, and there was room for it. */
  lemma AheadOfBoth(s: Threads, op: Op, i: nat, j: nat)
    requires OneStatus(s) && i < j < |s.ready| && op != Kill(s.ready[i])
    ensures KillsAhead(s, op, s.ready[i]) ==> KillsAhead(s, op, s.ready[j])
    ensures KillsAhead(s, op, s.ready[j]) && !KillsAhead(s, op, s.ready[i]) ==> i + 1 < j
  {
    hide OneStatus;
    forall x, y | 0 <= x < y < |s.ready|
      ensures s.ready[x] != s.ready[y]
    {
      ReadyDistinct(s, x, y);
    }
    InPrefix(s.ready, i);
    if op.Kill? {
      AheadIff(s, op, i);
      AheadIff(s, op, j);
      if op.t in s.ready[..i] {
        var n :| 0 <= n < i && s.ready[..i][n] == op.t;
        assert s.ready[..j][n] == op.t;
      } else if op.t in s.ready[..j] {
        var n :| 0 <= n < j && s.ready[..j][n] == op.t;
        assert s.ready[n] == op.t;
      }
    }
  }

  // ----- blocking -----

  /** A thread that blocks while another is ready is neither running nor ready afterwards. */
  lemma BlockLeaves(s: Threads, me: ThreadId)
    requires OneStatus(s) && s.running == Some(me) && s.ready != []
    ensures var u := Step(s, Block);
      me in u.blocked && me !in u.ready && u.running != Some(me)
  {
    StepKeepsStatus(s, Block);
    StatusesAreDisjoint(Step(s, Block), me);
  }

  /** And it stays so until it is resumed or killed, whatever the others do. */
  lemma {:induction false} BlockedStays(s: Threads, ops: seq<Op>, t: ThreadId)
    requires OneStatus(s) && AllowedRun(s, ops) && t in s.blocked
    requires forall i :: 0 <= i < |ops| ==> ops[i] != Resume(t) && ops[i] != Kill(t)
    ensures var u := Run(s, ops);
      t in u.blocked && t !in u.ready && u.running != Some(t)
    decreases |ops|
  {
    StatusesAreDisjoint(s, t);
    if ops != [] {
      StepKeepsStatus(s, ops[0]);
      BlockedStep(s, ops[0], t);
      hide OneStatus, Step, Allowed;
      BlockedStays(Step(s, ops[0]), ops[1..], t);
    }
  }

  lemma BlockedStep(s: Threads, op: Op, t: ThreadId)
    requires OneStatus(s) && Allowed(s, op) && t in s.blocked && op != Resume(t) && op != Kill(t)
    ensures t in Step(s, op).blocked
  {
    hide OneStatus, Count, RemoveFirst;
    if s.running.Some? {
      RunningNotReady(s);
      RemoveAbsent(s.ready, s.running.value);
    }
  }

  /** A resumed thread is the last of the ready ones. */
  lemma ResumeQueues(s: Threads, t: ThreadId)
    requires s.running.Some?
    ensures var u := Step(s, Resume(t));
      u.ready == s.ready + [t] && u.running == s.running && t !in u.blocked
  {
  }

  /** A thread alone keeps the processor, whether it passes on or blocks. */
  lemma AloneRunsOn(s: Threads, op: Op)
    requires s.running.Some? && s.ready == [] && (op.Pass? || op.Block?)
    ensures var u := Step(s, op);
      u.running == s.running && u.ready == [] && u.blocked == s.blocked
  {
  }

  // ----- the fallback when nobody is ready -----

  /** The thread that yielded last in a run, passing on or blocking. */
  function LastToYield(s: Threads, ops: seq<Op>): Option<ThreadId>
    decreases |ops|
  {
    if ops == [] then None
    else
      var later := LastToYield(Step(s, ops[0]), ops[1..]);
      if later.Some? then later else if ops[0].Pass? || ops[0].Block? then s.running else None
  }

  lemma {:induction false} YielderRemembered(s: Threads, ops: seq<Op>)
    ensures Run(s, ops).lastYielder == if LastToYield(s, ops).Some? then LastToYield(s, ops) else s.lastYielder
    decreases |ops|
  {
    if ops != [] {
      YielderRemembered(Step(s, ops[0]), ops[1..]);
    }
  }

  /** When a thread ends and nobody is ready, the last yielder runs, and the idle thread if none ever yielded. */
  lemma FallbackIsLastYielder(s: Threads, ops: seq<Op>, me: ThreadId)
    requires s.lastYielder == None && Run(s, ops).running == Some(me) && Run(s, ops).ready == []
    ensures TerminateSelf(Run(s, ops), me).running == LastToYield(s, ops)
    ensures Terminate(Run(s, ops), me, me).running == LastToYield(s, ops)
  {
    YielderRemembered(s, ops);
  }

  // ----- what is given back -----

  /** Each call frees exactly the zombies there are, or exactly the thread it kills, or nothing. */
  lemma FreesExactly(s: Threads, op: Op, t: ThreadId)
    requires s.running.Some?
    ensures t in Step(s, op).freed <==>
      || t in s.freed
      || (t in s.zombies && (op.Pass? || op.Block? || op.Resume? || op.End?))
      || (op == Kill(t) && s.running != Some(t))
  {
  }

  /** The zombies are given back in one go, the newest first. */
  lemma ReapsNewestFirst(s: Threads, op: Op)
    requires s.running.Some? && (op.Pass? || op.Block? || op.Resume? || op.End?)
    ensures Step(s, op).freed == s.freed + s.zombies
  {
  }

  /** A thread that ends is a zombie first: its own stack is not freed by the call that ends it. */
  lemma EndsAsZombie(s: Threads, op: Op, me: ThreadId)
    requires OneStatus(s) && s.running == Some(me) && (op.End? || op == Kill(me))
    ensures Step(s, op).zombies != [] && Step(s, op).zombies[0] == me && me !in Step(s, op).freed
  {
    StatusesAreDisjoint(s, me);
  }
}
