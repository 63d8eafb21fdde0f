/**
 The order of the free regions of a pool, which decides where the next region comes from: what a first
 fit answers and leaves behind, told without the code's own steps, over whole runs.
 */
module VmRegionOrder {
  import opened Bytes
  import opened VmRegions

  // ----- one allocation and one release, as promised -----

  /** The earliest entry that is long enough. */
  predicate Earliest(free: seq<Region>, need: nat, i: nat) {
    i < |free| && free[i].length >= need && forall j :: 0 <= j < i ==> free[j].length < need
  }

  /** Entry i with need pages off its front: it keeps its place, or drops out when nothing is left of it. */
  predicate CutAt(free: seq<Region>, i: nat, need: nat, after: seq<Region>) {
    && i < |free| && free[i].length >= need
    && if free[i].length > need then
         && |after| == |free|
         && after[i] == Region(free[i].base + need, free[i].length - need)
         && forall j :: 0 <= j < |free| && j != i ==> after[j] == free[j]
       else
         && |after| == |free| - 1
         && (forall j :: 0 <= j < i ==> after[j] == free[j])
         && (forall j :: i < j < |free| ==> after[j - 1] == free[j])
  }

  /** The first allocated region that starts at the page goes from place i of the table to the end of the free one. */
  predicate MovedLast(p: Pool, i: nat, page: nat, q: Pool) {
    && i < |p.live| && p.live[i].base == page && (forall j :: 0 <= j < i ==> p.live[j].base != page)
    && q.free == p.free + [p.live[i]]
    && |q.live| == |p.live| - 1 && q.live[..i] == p.live[..i] && q.live[i..] == p.live[i + 1..]
  }

  /** What an operation promises about both tables and about its answer. */
  ghost predicate Promised(p: Pool, op: PoolOp, q: Pool, answer: nat) {
    && q.lo == p.lo && q.total == p.total
    && match op
       case AllocOp(size) =>
         if size > 0 && exists i: nat :: Earliest(p.free, BytesToPages(size), i) then
           exists i: nat :: Earliest(p.free, BytesToPages(size), i) && CutAt(p.free, i, BytesToPages(size), q.free)
             && answer == p.free[i].base * PAGE_SIZE && q.live == p.live + [Region(p.free[i].base, BytesToPages(size))]
         else q == p && answer == 0
       case ReleaseOp(address) =>
         (exists i: nat :: MovedLast(p, i, address / PAGE_SIZE, q)) && answer == 0
  }

  /** The pool and the answer after an operation, or None once an assertion has fired. */
  function Serve(p: Pool, op: PoolOp): Option<(Pool, nat)> {
    match op
    case AllocOp(size) => (match Allocate(p, size) case Done(q, at) => Some((q, at)) case Halt => None)
    case ReleaseOp(address) => (match Release(p, address) case Done(q, _) => Some((q, 0)) case Halt => None)
  }

  lemma CarveCuts(free: seq<Region>, i: nat, need: nat)
    requires i < |free| && free[i].length >= need
    ensures CutAt(free, i, need, Carve(free, i, need))
  {
  }

  lemma FitIsEarliest(free: seq<Region>, need: nat)
    ensures var i := FirstFit(free, need);
      if i < |free| then Earliest(free, need, i) else forall j: nat :: !Earliest(free, need, j)
  {
  }

  /** Every operation that goes on keeps its promise about the order of the tables. */
  lemma ServePromised(p: Pool, op: PoolOp)
    requires Serve(p, op).Some?
    ensures Promised(p, op, Serve(p, op).value.0, Serve(p, op).value.1)
  {
    hide Carve, Earliest, CutAt, FirstFit, BytesToPages;
    match op {
      case AllocOp(size) =>
        var need := BytesToPages(size);
        FitIsEarliest(p.free, need);
        var i := FirstFit(p.free, need);
        if size > 0 && i < |p.free| {
          CarveCuts(p.free, i, need);
          assert Earliest(p.free, need, i);
        }
      case ReleaseOp(address) =>
        var i := StartingAt(p.live, address / PAGE_SIZE);
        assert MovedLast(p, i, address / PAGE_SIZE, Serve(p, op).value.0);
    }
  }

  /** The promise leaves no choice. */
  lemma PromisedOnce(p: Pool, op: PoolOp, q: Pool, a: nat, r: Pool, b: nat)
    requires Promised(p, op, q, a) && Promised(p, op, r, b)
    ensures q == r && a == b
  {
    hide BytesToPages, CutAt, MovedLast;
    match op {
      case AllocOp(size) =>
        var need := BytesToPages(size);
        if size > 0 && exists i: nat :: Earliest(p.free, need, i) {
          var i: nat :| Earliest(p.free, need, i) && CutAt(p.free, i, need, q.free) && a == p.free[i].base * PAGE_SIZE
            && q.live == p.live + [Region(p.free[i].base, need)];
          var j: nat :| Earliest(p.free, need, j) && CutAt(p.free, j, need, r.free) && b == p.free[j].base * PAGE_SIZE
            && r.live == p.live + [Region(p.free[j].base, need)];
          EarliestOnce(p.free, need, i, j);
          CutOnce(p.free, i, need, q.free, r.free);
        }
      case ReleaseOp(address) =>
        var page := address / PAGE_SIZE;
        var i: nat :| MovedLast(p, i, page, q);
        var j: nat :| MovedLast(p, j, page, r);
        MovedOnce(p, page, i, q, j, r);
    }
  }

  lemma EarliestOnce(free: seq<Region>, need: nat, i: nat, j: nat)
    requires Earliest(free, need, i) && Earliest(free, need, j)
    ensures i == j
  {
  }

  lemma MovedOnce(p: Pool, page: nat, i: nat, q: Pool, j: nat, r: Pool)
    requires MovedLast(p, i, page, q) && MovedLast(p, j, page, r)
    ensures q.live == r.live && q.free == r.free
  {
    assert i == j;
    assert q.live == q.live[..i] + q.live[i..] && r.live == r.live[..i] + r.live[i..];
  }

  lemma CutOnce(free: seq<Region>, i: nat, need: nat, a: seq<Region>, b: seq<Region>)
    requires CutAt(free, i, need, a) && CutAt(free, i, need, b)
    ensures a == b
  {
    if free[i].length == need {
      forall k | 0 <= k < |a|
        ensures a[k] == b[k]
      {
        if k >= i {
          assert a[(k + 1) - 1] == free[k + 1] == b[(k + 1) - 1];
        }
      }
    }
  }

  // ----- runs -----

  /** The answers of a run, as promised at every step. */
  ghost predicate PromisedRun(p: Pool, ops: seq<PoolOp>, answers: seq<nat>, end: Pool)
    decreases |ops|
  {
    && |answers| == |ops|
    && if ops == [] then end == p
       else exists q :: Promised(p, ops[0], q, answers[0]) && PromisedRun(q, ops[1..], answers[1..], end)
  }

  function Answers(p: Pool, ops: seq<PoolOp>): seq<nat>
    decreases |ops|
  {
    if ops == [] then []
    else match Serve(p, ops[0])
      case None => []
      case Some(r) => [r.1] + Answers(r.0, ops[1..])
  }

  lemma StepIsServe(p: Pool, op: PoolOp)
    ensures PoolStep(p, op) == match Serve(p, op) case None => None case Some(r) => Some(r.0)
  {
  }

  /** In every run without a fired assertion each answer and each table is the promised one. */
  lemma {:induction false} RunPromised(p: Pool, ops: seq<PoolOp>)
    requires PoolRun(p, ops).Some?
    ensures PromisedRun(p, ops, Answers(p, ops), PoolRun(p, ops).value)
    decreases |ops|
  {
    hide Promised, Serve, PoolStep;
    if ops != [] {
      StepIsServe(p, ops[0]);
      ServePromised(p, ops[0]);
      var q := Serve(p, ops[0]).value.0;
      RunPromised(q, ops[1..]);
      assert Answers(p, ops)[1..] == Answers(q, ops[1..]);
      assert Promised(p, ops[0], q, Answers(p, ops)[0]);
    }
  }

  // ----- new and delete in a loop -----

  /** Allocate one page and release it, k times. */
  function NewDelete(lo: nat, k: nat): (ops: seq<PoolOp>)
    ensures |ops| == 2 * k
  {
    if k == 0 then [] else NewDelete(lo, k - 1) + [AllocOp(PAGE_SIZE), ReleaseOp((lo + k - 1) * PAGE_SIZE)]
  }

  /** After k rounds the first free region has moved up k pages, and the released pages follow it one by one. */
  function Walked(lo: nat, total: nat, k: nat): Pool
    requires k <= total
  {
    Pool(lo, total, [], [Region(lo + k, total - k)] + seq(k, i requires 0 <= i < k => Region(lo + i, 1)))
  }

  lemma OneRound(lo: nat, total: nat, k: nat)
    requires k + 1 < total && k + 1 < MAX_REGIONS
    ensures
      var p := Walked(lo, total, k);
      && Allocate(p, PAGE_SIZE).Done? && Allocate(p, PAGE_SIZE).result == (lo + k) * PAGE_SIZE
      && Release(Allocate(p, PAGE_SIZE).pool, (lo + k) * PAGE_SIZE) == Done(Walked(lo, total, k + 1), Region(lo + k, 1))
  {
    var p := Walked(lo, total, k);
    assert BytesToPages(PAGE_SIZE) == 1;
    assert FirstFit(p.free, 1) == 0;
    var q := Allocate(p, PAGE_SIZE).pool;
    assert q.live == [Region(lo + k, 1)];
    assert StartingAt(q.live, lo + k) == 0;
    assert q.free + [Region(lo + k, 1)] == Walked(lo, total, k + 1).free;
  }

  lemma {:induction false} RunAppend(p: Pool, a: seq<PoolOp>, b: seq<PoolOp>)
    ensures PoolRun(p, a + b) == match PoolRun(p, a) case None => None case Some(q) => PoolRun(q, b)
    decreases |a|
  {
    hide PoolStep;
    if a == [] {
      assert a + b == b;
    } else {
      assert (a + b)[0] == a[0] && (a + b)[1..] == a[1..] + b;
      if PoolStep(p, a[0]).Some? {
        RunAppend(PoolStep(p, a[0]).value, a[1..], b);
      }
    }
  }

  lemma TwoSteps(p: Pool, a: PoolOp, b: PoolOp)
    requires PoolStep(p, a).Some?
    ensures PoolRun(p, [a, b]) == PoolStep(PoolStep(p, a).value, b)
  {
    hide PoolStep;
    assert [a, b][1..] == [b] && [b][1..] == [];
    var q := PoolStep(p, a).value;
    assert PoolRun(q, [b]) == PoolStep(q, b);
  }

  /**
   On a new pool a page that is allocated and released at once is not handed out again while the
   first region lasts: each round answers the page after the one before.
   */
  lemma {:induction false} NewDeleteWalks(baseAddress: nat, size: nat, k: nat)
    requires k < BytesToPages(size) && k < MAX_REGIONS
    ensures
      var lo := baseAddress / PAGE_SIZE;
      && PoolRun(NewPool(baseAddress, size), NewDelete(lo, k)) == Some(Walked(lo, BytesToPages(size), k))
      && (k + 1 < BytesToPages(size) && k + 1 < MAX_REGIONS ==>
            Allocate(Walked(lo, BytesToPages(size), k), PAGE_SIZE).result == (lo + k) * PAGE_SIZE)
  {
    hide Allocate, Release, BytesToPages;
    var lo, total := baseAddress / PAGE_SIZE, BytesToPages(size);
    if k == 0 {
      assert NewPool(baseAddress, size).free == Walked(lo, total, 0).free;
    } else {
      NewDeleteWalks(baseAddress, size, k - 1);
      var p := Walked(lo, total, k - 1);
      OneRound(lo, total, k - 1);
      RunAppend(NewPool(baseAddress, size), NewDelete(lo, k - 1),
                [AllocOp(PAGE_SIZE), ReleaseOp((lo + k - 1) * PAGE_SIZE)]);
      TwoSteps(p, AllocOp(PAGE_SIZE), ReleaseOp((lo + k - 1) * PAGE_SIZE));
    }
    if k + 1 < total && k + 1 < MAX_REGIONS {
      OneRound(lo, total, k);
    }
  }

  lemma RoundAnswers(lo: nat, total: nat, k: nat, rest: seq<PoolOp>)
    requires k + 1 < total && k + 1 < MAX_REGIONS
    ensures
      var at := (lo + k) * PAGE_SIZE;
      Answers(Walked(lo, total, k), [AllocOp(PAGE_SIZE), ReleaseOp(at)] + rest) ==
        [at, 0] + Answers(Walked(lo, total, k + 1), rest)
  {
    hide Walked, Allocate, Release;
    OneRound(lo, total, k);
    var p, at := Walked(lo, total, k), (lo + k) * PAGE_SIZE;
    var ops := [AllocOp(PAGE_SIZE), ReleaseOp(at)] + rest;
    assert ops[1..] == [ReleaseOp(at)] + rest && ops[1..][1..] == rest;
    var q := Allocate(p, PAGE_SIZE).pool;
    assert Serve(p, ops[0]) == Some((q, at));
    assert Answers(q, ops[1..]) == [0] + Answers(Walked(lo, total, k + 1), rest);
  }

  /** For example: new and delete of one page, three times, in a pool of 256 MB at 512 MB. */
  lemma NewDeleteExample()
    ensures Answers(NewPool(0x2000_0000, 0x1000_0000),
      [AllocOp(4096), ReleaseOp(0x2000_0000), AllocOp(4096), ReleaseOp(0x2000_1000),
       AllocOp(4096), ReleaseOp(0x2000_2000)])
      == [0x2000_0000, 0, 0x2000_1000, 0, 0x2000_2000, 0]
  {
    hide Answers, Walked;
    var lo, total := 0x2_0000, 0x1_0000;
    var third := [AllocOp(4096), ReleaseOp(0x2000_2000)];
    var second := [AllocOp(4096), ReleaseOp(0x2000_1000)] + third;
    assert [AllocOp(4096), ReleaseOp(0x2000_0000), AllocOp(4096), ReleaseOp(0x2000_1000),
            AllocOp(4096), ReleaseOp(0x2000_2000)]
      == [AllocOp(4096), ReleaseOp(0x2000_0000)] + second;
    NewIsWalked(0x2000_0000, 0x1000_0000);
    RoundAnswers(lo, total, 0, second);
    RoundAnswers(lo, total, 1, third);
    RoundAnswers(lo, total, 2, []);
    assert third + [] == third;
    assert Answers(Walked(lo, total, 3), []) == [] by { NoAnswers(Walked(lo, total, 3)); }
  }

  lemma NewIsWalked(baseAddress: nat, size: nat)
    ensures NewPool(baseAddress, size) == Walked(baseAddress / PAGE_SIZE, BytesToPages(size), 0)
  {
    hide BytesToPages;
    assert NewPool(baseAddress, size).free == Walked(baseAddress / PAGE_SIZE, BytesToPages(size), 0).free;
  }

  lemma NoAnswers(p: Pool)
    ensures Answers(p, []) == []
  {
  }
}
