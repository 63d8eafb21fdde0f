/**
 The virtual-memory stack as a machine: loads, stores, pool registration, region allocation
 and region release, in any order. Every run keeps the whole invariant, and the pages behave as private memory.
 */
module VmMachine {
  import opened Bytes
  import opened FrameModel
  import opened Paging
  import opened VmModel
  import opened VmOperations
  import R = VmRegions

  // ----- regions across pools -----

  lemma PoolBounds(pools: seq<R.Pool>, shared: nat, k: nat)
    requires Pools(pools, shared) && k < |pools|
    ensures R.Partition(pools[k]) && shared <= pools[k].lo && pools[k].lo + pools[k].total <= WINDOW_PAGE
  {
  }

  lemma LegitimateInPool(p: R.Pool, q: nat)
    requires R.Partition(p) && R.Legitimate(p, q)
    ensures p.lo <= q < p.lo + p.total
  {
    R.CoveredIff(p.live, q);
  }

  lemma LiveRegion(p: R.Pool, i: nat)
    requires R.Partition(p) && i < |p.live|
    ensures p.live[i].length > 0
    ensures p.lo <= p.live[i].base && p.live[i].base + p.live[i].length <= p.lo + p.total
    ensures forall q: nat :: p.live[i].Has(q) ==> R.Legitimate(p, q)
  {
    var r := p.live[i];
    assert r.Has(r.base) && r.Has(r.base + r.length - 1);
    LegitimateInPool(p, r.base);
    LegitimateInPool(p, r.base + r.length - 1);
  }

  /** Replacing one pool by another over the same pages keeps the layout. */
  lemma ReplacePool(pools: seq<R.Pool>, shared: nat, k: nat, q: R.Pool)
    requires Pools(pools, shared) && k < |pools|
    requires R.Partition(q) && q.lo == pools[k].lo && q.total == pools[k].total
    ensures Pools(pools[k := q], shared)
  {
    hide R.Partition;
  }

  lemma LegitimateElsewhere(pools: seq<R.Pool>, shared: nat, k: nat, q: R.Pool, page: nat)
    requires Pools(pools, shared) && k < |pools|
    ensures Legitimate(pools[k := q], page) <==>
      R.Legitimate(q, page) || exists j :: 0 <= j < |pools| && j != k && R.Legitimate(pools[j], page)
    ensures Legitimate(pools, page) <==>
      R.Legitimate(pools[k], page) || exists j :: 0 <= j < |pools| && j != k && R.Legitimate(pools[j], page)
    ensures R.Legitimate(pools[k], page) ==>
      !exists j :: 0 <= j < |pools| && j != k && R.Legitimate(pools[j], page)
  {
    hide R.Legitimate, R.Partition;
    var after := pools[k := q];
    if Legitimate(after, page) {
      var j :| 0 <= j < |after| && R.Legitimate(after[j], page);
      assert j != k ==> after[j] == pools[j];
    }
    if exists j :: 0 <= j < |pools| && j != k && R.Legitimate(pools[j], page) {
      var j :| 0 <= j < |pools| && j != k && R.Legitimate(pools[j], page);
      assert after[j] == pools[j];
      if R.Legitimate(pools[k], page) {
        LegitimateInPool(pools[k], page);
        LegitimateInPool(pools[j], page);
        assert false;
      }
    }
    assert R.Legitimate(q, page) ==> R.Legitimate(after[k], page);
  }

  /** Allocation adds pages of the pool that no pool had handed out, and touches no memory. */
  lemma AllocMeaning(v: Vm, owner: map<nat, Slot>, reserved: set<nat>, k: nat, size: nat)
    requires Inv(v, owner, reserved) && k < |v.pools| && size <= TWO32 - R.PAGE_SIZE
    ensures AllocRegion(v, k, size).None? <==>
      size > 0 && R.Fits(v.pools[k], size) && |v.pools[k].live| >= R.MAX_REGIONS
    ensures AllocRegion(v, k, size).Some? ==>
      var (u, at) := AllocRegion(v, k, size).value;
      && Inv(u, owner, reserved) && u == v.(pools := u.pools) && |u.pools| == |v.pools|
      && if size > 0 && R.Fits(v.pools[k], size) then
        var r := R.Region(at / R.PAGE_SIZE, R.BytesToPages(size));
        && (forall q: nat :: Legitimate(u.pools, q) <==> Legitimate(v.pools, q) || r.Has(q))
        && (forall q: nat :: r.Has(q) ==> !Legitimate(v.pools, q))
      else at == 0 && u == v
  {
    hide Core, R.Partition, R.Legitimate, Legitimate, R.BytesToPages, Frame, R.Carve;
    InvParts(v, owner, reserved);
    PoolBounds(v.pools, v.shared, k);
    AllocResult(v, k, size);
    if AllocRegion(v, k, size).Some? && size > 0 && R.Fits(v.pools[k], size) {
      var (u, at) := AllocRegion(v, k, size).value;
      R.AllocateMeaning(v.pools[k], size);
      ReplacePool(v.pools, v.shared, k, u.pools[k]);
      var r := R.Region(at / R.PAGE_SIZE, R.BytesToPages(size));
      forall q: nat
        ensures Legitimate(u.pools, q) <==> Legitimate(v.pools, q) || r.Has(q)
        ensures r.Has(q) ==> !Legitimate(v.pools, q)
      {
        LegitimateElsewhere(v.pools, v.shared, k, u.pools[k], q);
        LegitimateElsewhere(u.pools, v.shared, k, v.pools[k], q);
        assert u.pools[k := v.pools[k]] == v.pools;
      }
      SameCore(v, u, owner, reserved);
    }
  }

  lemma AllocResult(v: Vm, k: nat, size: nat)
    requires k < |v.pools| && size <= TWO32 - R.PAGE_SIZE
    ensures AllocRegion(v, k, size).None? <==>
      size > 0 && R.Fits(v.pools[k], size) && |v.pools[k].live| >= R.MAX_REGIONS
    ensures AllocRegion(v, k, size).Some? ==>
      var (u, at) := AllocRegion(v, k, size).value;
      && u == v.(pools := u.pools) && |u.pools| == |v.pools|
      && R.Allocate(v.pools[k], size) == R.Done(u.pools[k], at)
      && u.pools == v.pools[k := u.pools[k]]
      && u.pools[k].lo == v.pools[k].lo && u.pools[k].total == v.pools[k].total
      && (size == 0 || !R.Fits(v.pools[k], size) ==> at == 0 && u == v)
  {
    var p := v.pools[k];
    var i := R.FirstFit(p.free, R.BytesToPages(size));
    assert R.Fits(p, size) <==> i < |p.free|;
    assert v.pools[k := p] == v.pools;
  }

  /**
   Release is possible exactly when a region starts there, the free table has room, and every page
   of it has a page table.
   */
  ghost predicate Releasable(v: Vm, k: nat, address: nat)
    requires k < |v.pools|
  {
    |v.pools[k].free| < R.MAX_REGIONS && exists r :: r in v.pools[k].live && StartsAt(v, r, address)
  }

  ghost predicate StartsAt(v: Vm, r: R.Region, address: nat) {
    r.base == address / R.PAGE_SIZE && forall p :: r.Has(p) ==> HasTable(v, p)
  }

  /** The region that a release of this address gives back. */
  function Target(p: R.Pool, address: nat): R.Region {
    var i := R.StartingAt(p.live, address / R.PAGE_SIZE);
    if i < |p.live| then p.live[i] else R.Region(0, 0)
  }

  lemma ReleaseResult(v: Vm, k: nat, address: nat)
    requires Pools(v.pools, v.shared) && k < |v.pools|
    ensures R.Release(v.pools[k], address).Done? <==>
      |v.pools[k].free| < R.MAX_REGIONS && R.StartingAt(v.pools[k].live, address / R.PAGE_SIZE) < |v.pools[k].live|
    ensures R.Release(v.pools[k], address).Done? ==>
      var r := Target(v.pools[k], address);
      && R.Release(v.pools[k], address).result == r && r.length > 0
      && v.shared <= r.base && r.base + r.length <= WINDOW_PAGE
      && var q := R.Release(v.pools[k], address).pool;
      && R.Partition(q) && q.lo == v.pools[k].lo && q.total == v.pools[k].total
      && (forall page: nat :: R.Legitimate(q, page) <==> R.Legitimate(v.pools[k], page) && !r.Has(page))
      && (forall page: nat :: r.Has(page) ==> R.Legitimate(v.pools[k], page))
  {
    hide R.Partition, R.Legitimate;
    PoolBounds(v.pools, v.shared, k);
    var p := v.pools[k];
    var i := R.StartingAt(p.live, address / R.PAGE_SIZE);
    if |p.free| < R.MAX_REGIONS && i < |p.live| {
      R.ReleaseMeaning(p, i);
      assert p.live[i].base * R.PAGE_SIZE / R.PAGE_SIZE == address / R.PAGE_SIZE;
      LiveRegion(p, i);
    }
  }

  /**
   Release unmaps exactly the pages of its region, frees exactly the frames they held, and
   makes exactly those pages illegitimate.
   */
  lemma ReleaseMeaning(v: Vm, owner: map<nat, Slot>, reserved: set<nat>, k: nat, address: nat)
    requires Inv(v, owner, reserved) && k < |v.pools|
    ensures ReleaseRegion(v, k, address).Some? <==> Releasable(v, k, address)
    ensures ReleaseRegion(v, k, address).Some? ==>
      var u := ReleaseRegion(v, k, address).value;
      var r := Target(v.pools[k], address);
      && Inv(u, Without(owner, r.base, r.length), reserved)
      && SameShape(u, v) && |u.pools| == |v.pools|
      && v.shared <= r.base && r.base + r.length <= WINDOW_PAGE
      && FreePages(v, r.base, r.length).Some? && u == FreePages(v, r.base, r.length).value.(pools := u.pools)
      && (forall q: nat :: q < WINDOW_PAGE ==>
        Frame(u.mem, v.dir, q) == if r.Has(q) then None else Frame(v.mem, v.dir, q))
      && (forall i: nat :: i < |v.frames| ==>
        u.frames[i] ==
          if v.base + i in owner && InRange(owner[v.base + i], r.base, r.length) then Free else v.frames[i])
      && (forall q: nat :: Legitimate(u.pools, q) <==> Legitimate(v.pools, q) && !r.Has(q))
  {
    hide Core, R.Partition, R.Legitimate, Legitimate, Frame, FreePages, HasTable, Identity, Without, Target;
    InvParts(v, owner, reserved);
    ReleaseResult(v, k, address);
    ReleasableIff(v, owner, reserved, k, address);
    if ReleaseRegion(v, k, address).Some? {
      var u := ReleaseRegion(v, k, address).value;
      var r := Target(v.pools[k], address);
      FreePagesCore(v, owner, reserved, r.base, r.length);
      ReplacePool(v.pools, v.shared, k, u.pools[k]);
      ReleasedPages(v, k, u, r);
      var w := FreePages(v, r.base, r.length).value;
      forall q: nat | q < WINDOW_PAGE
        ensures Frame(u.mem, v.dir, q) == if r.Has(q) then None else Frame(v.mem, v.dir, q)
      {
        FreePagesFrame(v, owner, reserved, r.base, r.length, q);
      }
      forall i: nat | i < |v.frames|
        ensures u.frames[i] ==
          if v.base + i in owner && InRange(owner[v.base + i], r.base, r.length) then Free else v.frames[i]
      {
        FreePagesFrees(v, owner, reserved, r.base, r.length, i);
      }
      StillIdentity(v, u, r);
      SameCore(w, u, Without(owner, r.base, r.length), reserved);
    }
  }

  lemma SameCore(w: Vm, u: Vm, owner: map<nat, Slot>, reserved: set<nat>)
    requires Core(w, owner, reserved) && u == w.(pools := u.pools)
    ensures Core(u, owner, reserved)
  {
  }

  lemma ReleasedPages(v: Vm, k: nat, u: Vm, r: R.Region)
    requires Pools(v.pools, v.shared) && k < |v.pools| && |u.pools| == |v.pools| && u.pools == v.pools[k := u.pools[k]]
    requires forall page: nat :: R.Legitimate(u.pools[k], page) <==> R.Legitimate(v.pools[k], page) && !r.Has(page)
    requires forall page: nat :: r.Has(page) ==> R.Legitimate(v.pools[k], page)
    ensures forall q: nat :: Legitimate(u.pools, q) <==> Legitimate(v.pools, q) && !r.Has(q)
  {
    hide R.Partition, R.Legitimate, Legitimate, Pools;
    forall q: nat
      ensures Legitimate(u.pools, q) <==> Legitimate(v.pools, q) && !r.Has(q)
    {
      LegitimateElsewhere(v.pools, v.shared, k, u.pools[k], q);
    }
  }

  lemma StillIdentity(v: Vm, u: Vm, r: R.Region)
    requires Identity(v) && u.dir == v.dir && u.shared == v.shared <= WINDOW_PAGE && v.shared <= r.base
    requires forall q: nat :: q < WINDOW_PAGE ==>
      Frame(u.mem, v.dir, q) == if r.Has(q) then None else Frame(v.mem, v.dir, q)
    ensures Identity(u)
  {
    hide Frame;
  }

  lemma ReleasableIff(v: Vm, owner: map<nat, Slot>, reserved: set<nat>, k: nat, address: nat)
    requires Inv(v, owner, reserved) && k < |v.pools|
    ensures ReleaseRegion(v, k, address).Some? <==> Releasable(v, k, address)
  {
    hide Core, R.Partition, R.Legitimate, Legitimate, Frame, HasTable, Identity;
    InvParts(v, owner, reserved);
    ReleaseResult(v, k, address);
    PoolBounds(v.pools, v.shared, k);
    var p := v.pools[k];
    var i := R.StartingAt(p.live, address / R.PAGE_SIZE);
    if i < |p.live| && |p.free| < R.MAX_REGIONS {
      FreePagesCore(v, owner, reserved, p.live[i].base, p.live[i].length);
      forall r | r in p.live && StartsAt(v, r, address)
        ensures r == p.live[i]
      {
        var j :| 0 <= j < |p.live| && p.live[j] == r;
        if i < j {
          R.StartsDistinct(p, i, j);
        }
      }
      assert p.live[i] in p.live;
      assert StartsAt(v, p.live[i], address) <==> FreePages(v, p.live[i].base, p.live[i].length).Some?;
    }
  }

  // ----- registering a pool -----

  /** The pool goes to the front of the list that the fault handler searches. */
  function AddPool(v: Vm, base: nat, size: nat): Vm {
    v.(pools := [R.NewPool(base, size)] + v.pools)
  }

  /** The pool's pages lie between the shared region and the window, and in no other pool. */
  predicate Apart(v: Vm, base: nat, size: nat) {
    var p := R.NewPool(base, size);
    && v.shared <= p.lo && p.lo + p.total <= WINDOW_PAGE
    && forall k :: 0 <= k < |v.pools| ==>
      v.pools[k].lo + v.pools[k].total <= p.lo || p.lo + p.total <= v.pools[k].lo
  }

  /** Registering a pool keeps the invariant and hands out no page. */
  lemma RegisterMeaning(v: Vm, owner: map<nat, Slot>, reserved: set<nat>, base: nat, size: nat)
    requires Inv(v, owner, reserved) && Apart(v, base, size)
    ensures Inv(AddPool(v, base, size), owner, reserved)
    ensures forall q: nat :: Legitimate(AddPool(v, base, size).pools, q) <==> Legitimate(v.pools, q)
  {
    hide Core, R.Partition, Frame;
    InvParts(v, owner, reserved);
    R.NewPoolPartition(base, size);
    var u := AddPool(v, base, size);
    SameCore(v, u, owner, reserved);
    forall q: nat
      ensures Legitimate(u.pools, q) <==> Legitimate(v.pools, q)
    {
      if Legitimate(v.pools, q) {
        var k :| 0 <= k < |v.pools| && R.Legitimate(v.pools[k], q);
        assert u.pools[k + 1] == v.pools[k];
      }
    }
  }

  // ----- the machine -----

  /** The pools are numbered from the one registered last. */
  datatype VmOp =
    | Read(a: nat)
    | Write(a: nat, w: nat)
    | Alloc(k: nat, size: nat)
    | Release(k: nat, address: nat)
    | Register(base: nat, size: nat)

  /** What the caller sees: the word, the address, or nothing. */
  function Step(v: Vm, op: VmOp): Option<(Vm, nat)> {
    match op
    case Read(a) =>
      (match Reach(v, a)
       case None => None
       case Some(u) => if Peek(u, a).Some? then Some((u, Peek(u, a).value)) else None)
    case Write(a, w) =>
      (match Store(v, a, w)
       case None => None
       case Some(u) => Some((u, 0)))
    case Alloc(k, size) => if k < |v.pools| then AllocRegion(v, k, size) else None
    case Release(k, address) =>
      if k >= |v.pools| then None
      else (match ReleaseRegion(v, k, address)
            case None => None
            case Some(u) => Some((u, 0)))
    case Register(base, size) => Some((AddPool(v, base, size), 0))
  }

  /**
   What the kernel's own code keeps to: addresses below the window, enough free frames, sizes that
   round up, pools apart from each other.
   */
  predicate Allowed(v: Vm, op: VmOp) {
    match op
    case Read(a) => a / PAGE_BYTES < WINDOW_PAGE && Affordable(v, a / PAGE_BYTES)
    case Write(a, w) => a / PAGE_BYTES < WINDOW_PAGE && Affordable(v, a / PAGE_BYTES) && w < TWO32
    case Alloc(k, size) => k < |v.pools| && size <= TWO32 - R.PAGE_SIZE
    case Release(k, address) => k < |v.pools|
    case Register(base, size) => base < TWO32 && size < TWO32 && Apart(v, base, size)
  }

  function OwnerAfter(v: Vm, owner: map<nat, Slot>, op: VmOp): map<nat, Slot> {
    match op
    case Read(a) => ReachOwner(v, owner, a / PAGE_BYTES)
    case Write(a, w) => ReachOwner(v, owner, a / PAGE_BYTES)
    case Alloc(k, size) => owner
    case Release(k, address) =>
      if k < |v.pools| then Without(owner, Target(v.pools[k], address).base, Target(v.pools[k], address).length)
      else owner
    case Register(base, size) => owner
  }

  /** Each operation stops the kernel exactly in the cases that its assertions are for. */
  ghost predicate Goes(v: Vm, op: VmOp) {
    match op
    case Read(a) => Reachable(v, a / PAGE_BYTES)
    case Write(a, w) => Reachable(v, a / PAGE_BYTES)
    case Alloc(k, size) =>
      k < |v.pools| && (size > 0 && R.Fits(v.pools[k], size) ==> |v.pools[k].live| < R.MAX_REGIONS)
    case Release(k, address) => k < |v.pools| && Releasable(v, k, address)
    case Register(base, size) => true
  }

  predicate Reachable(v: Vm, p: nat) {
    p < v.shared || Frame(v.mem, v.dir, p).Some? || Admitted(v.pools, p)
  }

  lemma AccessStep(v: Vm, owner: map<nat, Slot>, reserved: set<nat>, a: nat)
    requires Inv(v, owner, reserved) && a / PAGE_BYTES < WINDOW_PAGE && Reach(v, a).Some?
    requires Frame(Reach(v, a).value.mem, Reach(v, a).value.dir, a / PAGE_BYTES).Some?
    ensures Step(v, Read(a)).Some? && Step(v, Read(a)).value.0 == Reach(v, a).value
    ensures forall w: nat :: Step(v, Write(a, w)).Some?
    ensures var u := Reach(v, a).value;
      forall w: nat :: Step(v, Write(a, w)).value.0 ==
        u.(mem := SetWord(u.mem, Frame(u.mem, u.dir, a / PAGE_BYTES).value, WordIndex(a), w))
  {
    hide Reach, Frame, SetWord;
  }

  /** Every operation keeps the whole invariant, and stops the kernel exactly as said. */
  lemma StepInv(v: Vm, owner: map<nat, Slot>, reserved: set<nat>, op: VmOp)
    requires Inv(v, owner, reserved) && Allowed(v, op)
    ensures Step(v, op).Some? <==> Goes(v, op)
    ensures Step(v, op).Some? ==>
      Inv(Step(v, op).value.0, OwnerAfter(v, owner, op), reserved) && SameShape(Step(v, op).value.0, v)
  {
    hide Inv, Reach, Frame, SetWord, Legitimate, Releasable, R.Fits;
    hide AllocRegion, ReleaseRegion, Peek, Affordable, ReachOwner;
    match op {
      case Read(a) =>
        ReachMeaning(v, owner, reserved, a);
        if Reach(v, a).Some? {
          AccessStep(v, owner, reserved, a);
        }
      case Write(a, w) =>
        ReachMeaning(v, owner, reserved, a);
        if Reach(v, a).Some? {
          AccessStep(v, owner, reserved, a);
          WriteDataInv(Reach(v, a).value, ReachOwner(v, owner, a / PAGE_BYTES), reserved,
                       a / PAGE_BYTES, WordIndex(a), w);
        }
      case Alloc(k, size) =>
        AllocMeaning(v, owner, reserved, k, size);
      case Release(k, address) =>
        ReleaseMeaning(v, owner, reserved, k, address);
      case Register(base, size) =>
        RegisterMeaning(v, owner, reserved, base, size);
    }
  }

  // ----- runs -----

  /** The states after a run, or None once an assertion has stopped the kernel. */
  function Run(v: Vm, ops: seq<VmOp>): Option<Vm>
    decreases |ops|
  {
    if ops == [] then Some(v)
    else match Step(v, ops[0])
      case None => None
      case Some(r) => Run(r.0, ops[1..])
  }

  predicate AllowedRun(v: Vm, ops: seq<VmOp>)
    decreases |ops|
  {
    ops == [] || (Allowed(v, ops[0]) && (Step(v, ops[0]).Some? ==> AllowedRun(Step(v, ops[0]).value.0, ops[1..])))
  }

  /**
   Over any allowed run, with pools registered at any moment of it: no frame is shared, every frame
   is accounted for, the shared pages stay mapped to themselves, the pools partition their pages.
   */
  lemma {:induction false} RunInv(v: Vm, owner: map<nat, Slot>, reserved: set<nat>, ops: seq<VmOp>)
    returns (after: map<nat, Slot>)
    requires Inv(v, owner, reserved) && AllowedRun(v, ops)
    ensures Run(v, ops).Some? ==> Inv(Run(v, ops).value, after, reserved) && SameShape(Run(v, ops).value, v)
    decreases |ops|
  {
    hide Inv, Allowed, Step, OwnerAfter;
    after := owner;
    if ops != [] {
      StepInv(v, owner, reserved, ops[0]);
      if Step(v, ops[0]).Some? {
        after := RunInv(Step(v, ops[0]).value.0, OwnerAfter(v, owner, ops[0]), reserved, ops[1..]);
      }
    }
  }

  // ----- pages are private memory -----

  /** The operation writes to page q, or gives page q back. */
  predicate Touches(v: Vm, op: VmOp, q: nat) {
    match op
    case Read(a) => false
    case Write(a, w) => a / PAGE_BYTES == q
    case Alloc(k, size) => false
    case Release(k, address) => k < |v.pools| && Target(v.pools[k], address).Has(q)
    case Register(base, size) => false
  }

  predicate TouchesInRun(v: Vm, ops: seq<VmOp>, q: nat)
    decreases |ops|
  {
    ops != [] &&
    (Touches(v, ops[0], q) || (Step(v, ops[0]).Some? && TouchesInRun(Step(v, ops[0]).value.0, ops[1..], q)))
  }

  /** An operation that does not write to a mapped page or give it back leaves its contents alone. */
  lemma StepKeepsRow(v: Vm, owner: map<nat, Slot>, reserved: set<nat>, op: VmOp, q: nat)
    requires Inv(v, owner, reserved) && Allowed(v, op) && Step(v, op).Some?
    requires q < WINDOW_PAGE && Row(v, q).Some? && !Touches(v, op, q)
    ensures Row(Step(v, op).value.0, q) == Row(v, q)
  {
    hide Inv, Reach, Frame, SetWord, Legitimate, Releasable, R.Fits;
    hide AllocRegion, ReleaseRegion, Peek, Affordable, ReachOwner, Target;
    match op {
      case Read(a) =>
        ReachMeaning(v, owner, reserved, a);
        AccessStep(v, owner, reserved, a);
        ReachKeepsRow(v, owner, reserved, a, q);
      case Write(a, w) =>
        ReachMeaning(v, owner, reserved, a);
        AccessStep(v, owner, reserved, a);
        ReachKeepsRow(v, owner, reserved, a, q);
        var u := Reach(v, a).value;
        InvParts(u, ReachOwner(v, owner, a / PAGE_BYTES), reserved);
        WriteDataRow(u, ReachOwner(v, owner, a / PAGE_BYTES), reserved, a / PAGE_BYTES, WordIndex(a), w, q);
      case Alloc(k, size) =>
        AllocMeaning(v, owner, reserved, k, size);
      case Release(k, address) =>
        ReleaseMeaning(v, owner, reserved, k, address);
        ReleaseKeepsRow(v, owner, reserved, k, address, q);
      case Register(base, size) =>
    }
  }

  lemma ReleaseKeepsRow(v: Vm, owner: map<nat, Slot>, reserved: set<nat>, k: nat, address: nat, q: nat)
    requires Inv(v, owner, reserved) && k < |v.pools| && ReleaseRegion(v, k, address).Some?
    requires q < WINDOW_PAGE && Row(v, q).Some? && !Target(v.pools[k], address).Has(q)
    ensures Row(ReleaseRegion(v, k, address).value, q) == Row(v, q)
  {
    hide Inv, Frame, Legitimate, Releasable, ReleaseRegion, Target, FreePages;
    InvParts(v, owner, reserved);
    ReleaseMeaning(v, owner, reserved, k, address);
    var r := Target(v.pools[k], address);
    FrameOf(v, owner, reserved, q);
    RowOf(v, owner, reserved, q);
    FreePagesFrame(v, owner, reserved, r.base, r.length, q);
    FreePagesRow(v, owner, reserved, r.base, r.length, Frame(v.mem, v.dir, q).value);
  }

  /** A mapped page keeps its contents over any run that neither writes to it nor gives it back. */
  lemma {:induction false} RunKeepsRow(v: Vm, owner: map<nat, Slot>, reserved: set<nat>, ops: seq<VmOp>, q: nat)
    requires Inv(v, owner, reserved) && AllowedRun(v, ops) && Run(v, ops).Some?
    requires q < WINDOW_PAGE && Row(v, q).Some? && !TouchesInRun(v, ops, q)
    ensures Row(Run(v, ops).value, q) == Row(v, q)
    decreases |ops|
  {
    hide Inv, Allowed, Step, OwnerAfter, Row, Touches;
    if ops != [] {
      StepInv(v, owner, reserved, ops[0]);
      StepKeepsRow(v, owner, reserved, ops[0], q);
      RunKeepsRow(Step(v, ops[0]).value.0, OwnerAfter(v, owner, ops[0]), reserved, ops[1..], q);
    }
  }

  /** The operation writes to the word at address a, or gives its page back. */
  predicate Overwrites(v: Vm, op: VmOp, a: nat) {
    match op
    case Write(b, w) => b / PAGE_BYTES == a / PAGE_BYTES && WordIndex(b) == WordIndex(a)
    case Release(k, address) => k < |v.pools| && Target(v.pools[k], address).Has(a / PAGE_BYTES)
    case _ => false
  }

  predicate OverwritesInRun(v: Vm, ops: seq<VmOp>, a: nat)
    decreases |ops|
  {
    ops != [] &&
    (Overwrites(v, ops[0], a) || (Step(v, ops[0]).Some? && OverwritesInRun(Step(v, ops[0]).value.0, ops[1..], a)))
  }

  /** The word at address a is w, on a mapped page. */
  predicate Holds(v: Vm, a: nat, w: nat) {
    var r := Row(v, a / PAGE_BYTES);
    r.Some? && |r.value| == ENTRIES && r.value[WordIndex(a)] == w
  }

  lemma StepKeepsWord(v: Vm, owner: map<nat, Slot>, reserved: set<nat>, op: VmOp, a: nat, w: nat)
    requires Inv(v, owner, reserved) && Allowed(v, op) && Step(v, op).Some?
    requires a / PAGE_BYTES < WINDOW_PAGE && Holds(v, a, w) && !Overwrites(v, op, a)
    ensures Holds(Step(v, op).value.0, a, w)
  {
    hide Inv, Step, Row, Affordable, R.Fits, Target;
    if op.Write? && op.a / PAGE_BYTES == a / PAGE_BYTES {
      OtherWordStored(v, owner, reserved, op.a, op.w, a);
    } else {
      StepKeepsRow(v, owner, reserved, op, a / PAGE_BYTES);
    }
  }

  /** A store to another word of the page leaves this one. */
  lemma OtherWordStored(v: Vm, owner: map<nat, Slot>, reserved: set<nat>, b: nat, x: nat, a: nat)
    requires Inv(v, owner, reserved) && Allowed(v, Write(b, x)) && Step(v, Write(b, x)).Some?
    requires b / PAGE_BYTES == a / PAGE_BYTES && WordIndex(b) != WordIndex(a)
    requires Row(v, a / PAGE_BYTES).Some? && |Row(v, a / PAGE_BYTES).value| == ENTRIES
    ensures Holds(Step(v, Write(b, x)).value.0, a, Row(v, a / PAGE_BYTES).value[WordIndex(a)])
  {
    hide Inv, Reach, Frame, SetWord, Legitimate, Peek, Affordable, ReachOwner, Row, Admitted;
    var p := b / PAGE_BYTES;
    ReachMeaning(v, owner, reserved, b);
    AccessStep(v, owner, reserved, b);
    ReachKeepsRow(v, owner, reserved, b, p);
    var u := Reach(v, b).value;
    InvParts(u, ReachOwner(v, owner, p), reserved);
    WriteDataRow(u, ReachOwner(v, owner, p), reserved, p, WordIndex(b), x, p);
  }

  lemma {:induction false} RunKeepsWord(v: Vm, owner: map<nat, Slot>, reserved: set<nat>, ops: seq<VmOp>, a: nat,
          w: nat)
    requires Inv(v, owner, reserved) && AllowedRun(v, ops) && Run(v, ops).Some?
    requires a / PAGE_BYTES < WINDOW_PAGE && Holds(v, a, w) && !OverwritesInRun(v, ops, a)
    ensures Holds(Run(v, ops).value, a, w)
    decreases |ops|
  {
    hide Inv, Allowed, Step, OwnerAfter, Holds, Overwrites;
    if ops != [] {
      StepInv(v, owner, reserved, ops[0]);
      StepKeepsWord(v, owner, reserved, ops[0], a, w);
      RunKeepsWord(Step(v, ops[0]).value.0, OwnerAfter(v, owner, ops[0]), reserved, ops[1..], a, w);
    }
  }

  /**
   A stored word reads back after any run that does not store to that word or release its page:
   whatever other words, of the same page too, are stored, and whatever pages are faulted in,
   allocated or released in between.
   */
  lemma StoredWordReadsBack(v: Vm, owner: map<nat, Slot>, reserved: set<nat>, a: nat, w: nat, ops: seq<VmOp>)
    requires Inv(v, owner, reserved) && AllowedRun(v, [Write(a, w)] + ops)
    requires Step(v, Write(a, w)).Some?
    requires
      var u := Step(v, Write(a, w)).value.0;
      Run(u, ops).Some? && !OverwritesInRun(u, ops, a)
    ensures
      var u := Step(v, Write(a, w)).value.0;
      Step(Run(u, ops).value, Read(a)) == Some((Run(u, ops).value, w))
  {
    hide Inv, Reach, Frame, SetWord, Affordable, ReachOwner, Row, Peek, OverwritesInRun;
    assert ([Write(a, w)] + ops)[0] == Write(a, w) && ([Write(a, w)] + ops)[1..] == ops;
    assert Allowed(v, Write(a, w));
    var u := Step(v, Write(a, w)).value.0;
    assert AllowedRun(u, ops);
    StoredRow(v, owner, reserved, a, w);
    StepInv(v, owner, reserved, Write(a, w));
    RunKeepsWord(u, OwnerAfter(v, owner, Write(a, w)), reserved, ops, a, w);
    var after := RunInv(u, OwnerAfter(v, owner, Write(a, w)), reserved, ops);
    RowReads(Run(u, ops).value, after, reserved, a);
  }

  lemma StoredRow(v: Vm, owner: map<nat, Slot>, reserved: set<nat>, a: nat, w: nat)
    requires Inv(v, owner, reserved) && Allowed(v, Write(a, w)) && Step(v, Write(a, w)).Some?
    ensures var r := Row(Step(v, Write(a, w)).value.0, a / PAGE_BYTES);
      r.Some? && |r.value| == ENTRIES && r.value[WordIndex(a)] == w
  {
    hide Inv, Reach, Frame, SetWord, Legitimate, Peek, Affordable, ReachOwner, Row;
    ReachMeaning(v, owner, reserved, a);
    AccessStep(v, owner, reserved, a);
    var u := Reach(v, a).value;
    InvParts(u, ReachOwner(v, owner, a / PAGE_BYTES), reserved);
    WriteDataRow(u, ReachOwner(v, owner, a / PAGE_BYTES), reserved, a / PAGE_BYTES, WordIndex(a), w, a / PAGE_BYTES);
  }

  /** Reading a mapped page changes nothing and returns the word. */
  lemma RowReads(v: Vm, owner: map<nat, Slot>, reserved: set<nat>, a: nat)
    requires Inv(v, owner, reserved) && Row(v, a / PAGE_BYTES).Some? && |Row(v, a / PAGE_BYTES).value| == ENTRIES
    ensures Step(v, Read(a)) == Some((v, Row(v, a / PAGE_BYTES).value[WordIndex(a)]))
  {
    hide Frame, Accounted, Pools, Identity;
    OwnedFrames(v.mem, v.dir, v.shared, owner);
    PeekIsRow(v, a);
  }
}
