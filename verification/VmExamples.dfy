/**
 Inputs on which the virtual-memory stack breaks its promise, each reached from boot with the
 kernel's own numbers: 4 MB shared, the process pool from frame 1024 on, the first pool at 512 MB.
 */
module VmExamples {
  import opened Bytes
  import opened FrameModel
  import opened Paging
  import opened VmModel
  import opened VmOperations
  import opened VmMachine
  import opened VmTheorems
  import opened VmBacking
  import R = VmRegions

  const SHARED_FRAMES: nat := 1024
  const CODE_POOL: nat := 0x2000_0000
  const CODE_POOL_SIZE: nat := 0x1000_0000
  /** The first address above the shared region. */
  const FAULT_ADDR: nat := 0x40_0000

  function Unused(n: nat): (s: seq<FrameState>)
    ensures |s| == n
  {
    seq(n, _ => Free)
  }

  lemma {:induction false} UnusedCount(n: nat)
    ensures FreeCount(Unused(n)) == n
  {
    if n > 0 {
      assert Unused(n)[1..] == Unused(n - 1);
      UnusedCount(n - 1);
    }
  }

  /** The machine after the page table has been built, with n frames in the process pool. */
  function Boot(m: Ram, n: nat): Vm {
    Construct(m, SHARED_FRAMES, SHARED_FRAMES, Unused(n))
  }

  lemma BootInv(m: Ram, n: nat) returns (owner: map<nat, Slot>)
    requires Physical(m) && 2 <= n <= FRAMES - SHARED_FRAMES
    ensures CanBuild(m, Unused(n), SHARED_FRAMES, SHARED_FRAMES, {})
    ensures Inv(Boot(m, n), owner, {}) && FreeCount(Boot(m, n).frames) == n - 2 && Boot(m, n).pools == []
    ensures Boot(m, n).shared == SHARED_FRAMES
    ensures forall q: nat :: SHARED_FRAMES <= q < WINDOW_PAGE ==> Frame(Boot(m, n).mem, Boot(m, n).dir, q).None?
    ensures !HasTable(Boot(m, n), CODE_POOL / R.PAGE_SIZE)
  {
    hide Construct, Core, Frame, FreeCount, Word, Present;
    UnusedCount(n);
    assert Accounted(Unused(n), SHARED_FRAMES, map[], {});
    owner := ConstructInv(m, SHARED_FRAMES, SHARED_FRAMES, Unused(n), {});
    ConstructShape(m, SHARED_FRAMES, SHARED_FRAMES, Unused(n));
  }

  // ----- a fault without frames -----

  /** The pool's only two frames became the directory and the shared table: the first fault breaks the accounting. */
  lemma NoFrameExample(m: Ram)
    requires Physical(m)
    ensures FreeCount(Boot(m, 2).frames) == 0 && Fault(Boot(m, 2), FAULT_ADDR).Some?
    ensures forall owner :: !Core(Fault(Boot(m, 2), FAULT_ADDR).value, owner, {})
  {
    hide Boot, Core, Frame, FreeCount, MapPage;
    var v := Boot(m, 2);
    var owner := BootInv(m, 2);
    InvParts(v, owner, {});
    PageMapped(v, FAULT_ADDR / PAGE_BYTES);
    FaultKeepsIff(v, owner, {}, FAULT_ADDR / PAGE_BYTES);
  }

  // ----- a page mapped before the first pool -----

  lemma FirstAccess(m: Ram, n: nat, w: nat)
    requires Physical(m) && 4 <= n <= FRAMES - SHARED_FRAMES && w < TWO32
    ensures Allowed(Boot(m, n), Write(FAULT_ADDR, w))
  {
    hide Boot, FreeCount, Frame;
    var owner := BootInv(m, n);
  }

  /** A page that was written before the first pool is registered stays mapped, outside every region. */
  lemma EarlyAccessExample(m: Ram, n: nat, w: nat)
    requires Physical(m) && 4 <= n <= FRAMES - SHARED_FRAMES && w < TWO32
    ensures
      var ops := [Write(FAULT_ADDR, w)] + [Register(CODE_POOL, CODE_POOL_SIZE)] + [];
      && AllowedRun(Boot(m, n), ops) && Run(Boot(m, n), ops).Some?
      && Stray(Run(Boot(m, n), ops).value, FAULT_ADDR / PAGE_BYTES)
  {
    hide Boot, Inv, Step, Frame, Construct, CanBuild;
    var v, op, pool := Boot(m, n), Write(FAULT_ADDR, w), Register(CODE_POOL, CODE_POOL_SIZE);
    var owner := BootInv(m, n);
    FirstAccess(m, n, w);
    StepUnregistered(v, owner, {}, op, FAULT_ADDR / PAGE_BYTES);
    var u := Step(v, op).value.0;
    PoolFits(u);
    var ops := [op] + [pool] + [];
    assert ops[1..] == [pool];
    RegisterStep(u, CODE_POOL, CODE_POOL_SIZE);
    FirstStray(u, CODE_POOL, CODE_POOL_SIZE);
    RunFirst(u, [pool]);
    RunFirst(v, ops);
    assert [pool][1..] == [] && AllowedRun(AddPool(u, CODE_POOL, CODE_POOL_SIZE), []);
  }

  lemma RegisterStep(v: Vm, base: nat, size: nat)
    ensures Step(v, Register(base, size)) == Some((AddPool(v, base, size), 0))
  {
  }

  lemma PoolFits(v: Vm)
    requires v.pools == [] && v.shared == SHARED_FRAMES
    ensures Allowed(v, Register(CODE_POOL, CODE_POOL_SIZE))
  {
  }

  // ----- release of a region that was never touched -----

  /** Register a pool, allocate one page of it, and release it at once: the kernel stops. */
  lemma UntouchedReleaseExample(m: Ram, n: nat)
    requires Physical(m) && 2 <= n <= FRAMES - SHARED_FRAMES
    ensures
      var ops := [Register(CODE_POOL, CODE_POOL_SIZE), Alloc(0, R.PAGE_SIZE), Release(0, CODE_POOL)];
      && AllowedRun(Boot(m, n), ops)
      && Run(Boot(m, n), ops[..2]).Some? && Run(Boot(m, n), ops).None?
  {
    hide Boot, Inv, Step, HasTable;
    var v := Boot(m, n);
    var ops := [Register(CODE_POOL, CODE_POOL_SIZE), Alloc(0, R.PAGE_SIZE), Release(0, CODE_POOL)];
    var owner := BootInv(m, n);
    PoolFits(v);
    var u := AddPool(v, CODE_POOL, CODE_POOL_SIZE);
    RegisterAllowed(v, owner, {}, CODE_POOL, CODE_POOL_SIZE);
    RegisterStep(v, CODE_POOL, CODE_POOL_SIZE);
    var w := OnePage(u, R.NewPool(CODE_POOL, CODE_POOL_SIZE));
    SameTable(v, w, CODE_POOL / R.PAGE_SIZE);
    NoTableNoRelease(w);
    RunFirst(w, [ops[2]]);
    assert ops[1..][1..] == [ops[2]] && ops[..2][1..] == [ops[1]] && [ops[1]][1..] == [];
    RunFirst(u, ops[1..]);
    RunFirst(v, ops);
    RunFirst(u, [ops[1]]);
    RunFirst(v, ops[..2]);
    assert Run(w, []) == Some(w);
  }

  lemma SameTable(v: Vm, w: Vm, p: nat)
    requires w == v.(pools := w.pools)
    ensures HasTable(w, p) <==> HasTable(v, p)
  {
  }

  /** Allocating one page of a new pool hands out its first page. */
  lemma OnePage(v: Vm, p: R.Pool) returns (w: Vm)
    requires v.pools == [p] && p == R.NewPool(CODE_POOL, CODE_POOL_SIZE)
    ensures Step(v, Alloc(0, R.PAGE_SIZE)) == Some((w, CODE_POOL))
    ensures w == v.(pools := w.pools) && |w.pools| == 1 && |w.pools[0].free| == 1
    ensures w.pools[0].live == [R.Region(CODE_POOL / R.PAGE_SIZE, 1)]
  {
    assert R.FirstFit(p.free, 1) == 0;
    w := AllocRegion(v, 0, R.PAGE_SIZE).value.0;
  }

  lemma NoTableNoRelease(v: Vm)
    requires |v.pools| == 1 && |v.pools[0].free| == 1 && v.pools[0].live == [R.Region(CODE_POOL / R.PAGE_SIZE, 1)]
    requires !HasTable(v, CODE_POOL / R.PAGE_SIZE)
    ensures Step(v, Release(0, CODE_POOL)).None?
  {
    hide HasTable;
    var p := v.pools[0];
    assert R.StartingAt(p.live, CODE_POOL / R.PAGE_SIZE) == 0;
    assert FreePages(v, CODE_POOL / R.PAGE_SIZE, 0) == Some(v);
  }

  lemma RunFirst(v: Vm, ops: seq<VmOp>)
    requires ops != [] && Allowed(v, ops[0])
    ensures Step(v, ops[0]).None? ==> AllowedRun(v, ops) && Run(v, ops).None?
    ensures Step(v, ops[0]).Some? ==>
      var u := Step(v, ops[0]).value.0;
      (AllowedRun(u, ops[1..]) ==> AllowedRun(v, ops)) && Run(v, ops) == Run(u, ops[1..])
  {
    hide Step, Allowed;
  }

  // ----- a size that wraps -----

  /** A new pool answers a request for 2^32 - 1 bytes with its base address, and not one page of it is legitimate. */
  lemma HugeAllocateExample() returns (after: R.Pool)
    ensures R.Allocate(R.NewPool(CODE_POOL, CODE_POOL_SIZE), TWO32 - 1) == R.Done(after, CODE_POOL)
    ensures forall page: nat :: !R.Legitimate(after, page)
  {
    var p := R.NewPool(CODE_POOL, CODE_POOL_SIZE);
    assert R.BytesToPages(TWO32 - 1) == 0;
    assert R.FirstFit(p.free, 0) == 0;
    after := R.Allocate(p, TWO32 - 1).pool;
    assert after.live == [R.Region(CODE_POOL / R.PAGE_SIZE, 0)];
  }

  // ----- a range that starts below the pool -----

  /** Frames 9 and 10 marked in a pool that starts at frame 10: frame 10 is Used, and no extent has it. */
  lemma MarkBelowExample()
    ensures WellFormed([Free]) && Marked([Free], 10, 9, 2) == [Used] && !WellFormed(Marked([Free], 10, 9, 2))
  {
    MarkedKeepsIff([Free], 10, 9, 2);
    assert Marked([Free], 10, 9, 2)[0] == Used;
  }
}
