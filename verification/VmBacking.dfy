/**
 Which mapped pages lie in allocated regions. Before the first pool is registered the fault handler
 maps any page; from then on it maps only pages that a pool has handed out. So the pages accessed
 too early are the only ones that can ever be mapped outside every region.
 */
module VmBacking {
  import opened Bytes
  import opened FrameModel
  import opened Paging
  import opened VmModel
  import opened VmOperations
  import opened VmMachine
  import opened VmTheorems
  import R = VmRegions

  // ----- with a pool registered -----

  /**
   No operation maps a page that no pool has handed out: a page is stray afterwards exactly when it
   was stray before and still lies in no region.
   */
  lemma StepStray(v: Vm, owner: map<nat, Slot>, reserved: set<nat>, op: VmOp, q: nat)
    requires Inv(v, owner, reserved) && Allowed(v, op) && Step(v, op).Some? && v.pools != []
    ensures var u := Step(v, op).value.0;
      u.pools != [] && (Stray(u, q) <==> Stray(v, q) && !Legitimate(u.pools, q))
  {
    hide Inv, Reach, Frame, SetWord, Legitimate, Releasable, R.Fits, Admitted;
    hide AllocRegion, ReleaseRegion, Peek, Affordable, ReachOwner, Target;
    match op {
      case Read(a) => AccessStray(v, owner, reserved, a, 0, q);
      case Write(a, w) => AccessStray(v, owner, reserved, a, w, q);
      case Alloc(k, size) => AllocMeaning(v, owner, reserved, k, size);
      case Release(k, address) =>
        ReleaseMeaning(v, owner, reserved, k, address);
        ReleasedWasLegitimate(v, owner, reserved, k, address, q);
      case Register(base, size) => RegisterMeaning(v, owner, reserved, base, size);
    }
  }

  /** An access, read or write, maps at most the page it is for. */
  lemma AccessMaps(v: Vm, owner: map<nat, Slot>, reserved: set<nat>, a: nat, w: nat, q: nat)
    requires Inv(v, owner, reserved) && a / PAGE_BYTES < WINDOW_PAGE && Affordable(v, a / PAGE_BYTES)
    requires Reach(v, a).Some? && q < WINDOW_PAGE
    ensures Step(v, Read(a)).Some? && Step(v, Write(a, w)).Some?
    ensures var u := Step(v, Read(a)).value.0;
      && SameShape(u, v) && u.pools == v.pools
      && (Frame(u.mem, u.dir, q).Some? <==> Frame(v.mem, v.dir, q).Some? || q == a / PAGE_BYTES)
    ensures var u := Step(v, Write(a, w)).value.0;
      && SameShape(u, v) && u.pools == v.pools
      && (Frame(u.mem, u.dir, q).Some? <==> Frame(v.mem, v.dir, q).Some? || q == a / PAGE_BYTES)
  {
    hide Inv, Reach, Frame, SetWord, Legitimate, Affordable, ReachOwner, Peek, Admitted;
    var p := a / PAGE_BYTES;
    ReachMeaning(v, owner, reserved, a);
    AccessStep(v, owner, reserved, a);
    WriteDataInv(Reach(v, a).value, ReachOwner(v, owner, p), reserved, p, WordIndex(a), w);
    if q != p {
      ReachFrame(v, owner, reserved, a, q);
    }
  }

  lemma AccessStray(v: Vm, owner: map<nat, Slot>, reserved: set<nat>, a: nat, w: nat, q: nat)
    requires Inv(v, owner, reserved) && a / PAGE_BYTES < WINDOW_PAGE && Affordable(v, a / PAGE_BYTES)
    requires Reach(v, a).Some? && v.pools != []
    ensures Step(v, Read(a)).Some? && Step(v, Write(a, w)).Some?
    ensures var u := Step(v, Read(a)).value.0;
      u.pools == v.pools && (Stray(u, q) <==> Stray(v, q))
    ensures var u := Step(v, Write(a, w)).value.0;
      u.pools == v.pools && (Stray(u, q) <==> Stray(v, q))
  {
    hide Inv, Reach, Frame, SetWord, Legitimate, Affordable, ReachOwner, Peek, Step;
    ReachMeaning(v, owner, reserved, a);
    AccessMaps(v, owner, reserved, a, w, if q < WINDOW_PAGE then q else 0);
  }

  lemma ReleasedWasLegitimate(v: Vm, owner: map<nat, Slot>, reserved: set<nat>, k: nat, address: nat, q: nat)
    requires Inv(v, owner, reserved) && k < |v.pools| && ReleaseRegion(v, k, address).Some?
    ensures Target(v.pools[k], address).Has(q) ==> Legitimate(v.pools, q)
  {
    hide Core, R.Partition, R.Legitimate, Frame, FreePages, HasTable, Identity, Target;
    InvParts(v, owner, reserved);
    ReleaseResult(v, k, address);
  }

  /** After one of the operations a pool had handed the page out. */
  predicate EverLegitimate(v: Vm, ops: seq<VmOp>, q: nat)
    decreases |ops|
  {
    && ops != [] && Step(v, ops[0]).Some?
    && var u := Step(v, ops[0]).value.0;
       Legitimate(u.pools, q) || EverLegitimate(u, ops[1..], q)
  }

  /** Over a run: the stray pages are those that were stray at its start and were never handed out since. */
  lemma {:induction false} RunStray(v: Vm, owner: map<nat, Slot>, reserved: set<nat>, ops: seq<VmOp>, q: nat)
    requires Inv(v, owner, reserved) && AllowedRun(v, ops) && Run(v, ops).Some? && v.pools != []
    ensures Stray(Run(v, ops).value, q) <==> Stray(v, q) && !EverLegitimate(v, ops, q)
    decreases |ops|
  {
    hide Inv, Allowed, Step, OwnerAfter, Stray, Legitimate;
    if ops != [] {
      StepInv(v, owner, reserved, ops[0]);
      StepStray(v, owner, reserved, ops[0], q);
      RunStray(Step(v, ops[0]).value.0, OwnerAfter(v, owner, ops[0]), reserved, ops[1..], q);
    }
  }

  /** Every mapped page lies in an allocated region, at the start and after every operation. */
  ghost predicate BackedThroughout(v: Vm, ops: seq<VmOp>)
    decreases |ops|
  {
    Backed(v) && (ops != [] && Step(v, ops[0]).Some? ==> BackedThroughout(Step(v, ops[0]).value.0, ops[1..]))
  }

  lemma {:induction false} StaysBacked(v: Vm, owner: map<nat, Slot>, reserved: set<nat>, ops: seq<VmOp>)
    requires Inv(v, owner, reserved) && AllowedRun(v, ops) && v.pools != [] && Backed(v)
    ensures BackedThroughout(v, ops)
    decreases |ops|
  {
    hide Inv, Allowed, Step, OwnerAfter, Stray;
    if ops != [] && Step(v, ops[0]).Some? {
      StepInv(v, owner, reserved, ops[0]);
      var u := Step(v, ops[0]).value.0;
      forall q: nat
        ensures !Stray(u, q)
      {
        StepStray(v, owner, reserved, ops[0], q);
      }
      StepStray(v, owner, reserved, ops[0], 0);
      StaysBacked(u, OwnerAfter(v, owner, ops[0]), reserved, ops[1..]);
    }
  }

  /**
   From the first registration on every mapped page lies in an allocated region, in every state of
   every run, exactly when no page above the shared region was mapped at that moment.
   */
  lemma RegistrationBacksIff(v: Vm, owner: map<nat, Slot>, reserved: set<nat>, base: nat, size: nat, ops: seq<VmOp>)
    requires Inv(v, owner, reserved) && v.pools == [] && Allowed(v, Register(base, size))
    requires AllowedRun(AddPool(v, base, size), ops)
    ensures BackedThroughout(AddPool(v, base, size), ops) <==>
      forall q: nat :: v.shared <= q < WINDOW_PAGE ==> Frame(v.mem, v.dir, q).None?
  {
    hide Inv, Legitimate, Frame, AllowedRun, R.NewPool;
    var u := AddPool(v, base, size);
    RegisterMeaning(v, owner, reserved, base, size);
    FirstStray(v, base, size);
    if forall q: nat :: v.shared <= q < WINDOW_PAGE ==> Frame(v.mem, v.dir, q).None? {
      StaysBacked(u, owner, reserved, ops);
    } else {
      var q: nat :| v.shared <= q < WINDOW_PAGE && Frame(v.mem, v.dir, q).Some?;
      assert Stray(u, q);
    }
  }

  /** The first pool has handed nothing out, so every page mapped above the shared region is stray. */
  lemma FirstStray(v: Vm, base: nat, size: nat)
    requires v.pools == []
    ensures forall q: nat :: Stray(AddPool(v, base, size), q) <==>
      v.shared <= q < WINDOW_PAGE && Frame(v.mem, v.dir, q).Some?
  {
    hide Frame;
  }

  // ----- before any pool is registered -----

  predicate Accesses(op: VmOp, q: nat) {
    (op.Read? || op.Write?) && op.a / PAGE_BYTES == q
  }

  predicate AccessedIn(ops: seq<VmOp>, q: nat) {
    exists i :: 0 <= i < |ops| && Accesses(ops[i], q)
  }

  /** Only accesses are possible, and they map exactly the pages they are for. */
  lemma StepUnregistered(v: Vm, owner: map<nat, Slot>, reserved: set<nat>, op: VmOp, q: nat)
    requires Inv(v, owner, reserved) && Allowed(v, op) && v.pools == [] && !op.Register?
    requires q < WINDOW_PAGE
    ensures Step(v, op).Some?
    ensures var u := Step(v, op).value.0;
      && SameShape(u, v) && u.pools == []
      && (Frame(u.mem, u.dir, q).Some? <==> Frame(v.mem, v.dir, q).Some? || Accesses(op, q))
  {
    hide Inv, Reach, Frame, Step, Affordable, ReachOwner;
    match op {
      case Read(a) =>
        ReachMeaning(v, owner, reserved, a);
        AccessMaps(v, owner, reserved, a, 0, q);
      case Write(a, w) =>
        ReachMeaning(v, owner, reserved, a);
        AccessMaps(v, owner, reserved, a, w, q);
      case _ =>
    }
  }

  lemma {:induction false} RunUnregistered(v: Vm, owner: map<nat, Slot>, reserved: set<nat>, ops: seq<VmOp>, q: nat)
    requires Inv(v, owner, reserved) && AllowedRun(v, ops) && v.pools == [] && q < WINDOW_PAGE
    requires forall i :: 0 <= i < |ops| ==> !ops[i].Register?
    ensures Run(v, ops).Some?
    ensures var u := Run(v, ops).value;
      && SameShape(u, v) && u.pools == []
      && (Frame(u.mem, u.dir, q).Some? <==> Frame(v.mem, v.dir, q).Some? || AccessedIn(ops, q))
    decreases |ops|
  {
    hide Inv, Allowed, Step, OwnerAfter, Frame, Accesses;
    if ops != [] {
      StepUnregistered(v, owner, reserved, ops[0], q);
      StepInv(v, owner, reserved, ops[0]);
      RunUnregistered(Step(v, ops[0]).value.0, OwnerAfter(v, owner, ops[0]), reserved, ops[1..], q);
      AccessedFirst(ops, q);
    }
  }

  lemma AccessedFirst(ops: seq<VmOp>, q: nat)
    requires ops != []
    ensures AccessedIn(ops, q) <==> Accesses(ops[0], q) || AccessedIn(ops[1..], q)
  {
    hide Accesses;
    if AccessedIn(ops[1..], q) {
      var i :| 0 <= i < |ops[1..]| && Accesses(ops[1..][i], q);
      assert Accesses(ops[i + 1], q);
    }
    if AccessedIn(ops, q) {
      var i :| 0 <= i < |ops| && Accesses(ops[i], q);
      assert i > 0 ==> ops[1..][i - 1] == ops[i];
    }
  }

  // ----- from boot -----

  lemma {:induction false} RunConcat(v: Vm, ops: seq<VmOp>, more: seq<VmOp>)
    requires AllowedRun(v, ops + more)
    ensures AllowedRun(v, ops)
    ensures Run(v, ops).Some? ==>
      AllowedRun(Run(v, ops).value, more) && Run(v, ops + more) == Run(Run(v, ops).value, more)
    decreases |ops|
  {
    hide Allowed, Step;
    if ops == [] {
      assert ops + more == more;
    } else {
      assert (ops + more)[1..] == ops[1..] + more;
      if Step(v, ops[0]).Some? {
        RunConcat(Step(v, ops[0]).value.0, ops[1..], more);
      }
    }
  }

  /** The run before the first registration never stops, and neither does the registration itself. */
  lemma UntilRegistered(v: Vm, owner: map<nat, Slot>, reserved: set<nat>, before: seq<VmOp>, base: nat, size: nat,
                        after: seq<VmOp>) returns (owned: map<nat, Slot>)
    requires Inv(v, owner, reserved) && v.pools == [] && forall i :: 0 <= i < |before| ==> !before[i].Register?
    requires AllowedRun(v, before + [Register(base, size)] + after)
    ensures Run(v, before).Some?
    ensures var u := Run(v, before).value;
      && Inv(u, owned, reserved) && SameShape(u, v) && u.pools == [] && Allowed(u, Register(base, size))
      && AllowedRun(AddPool(u, base, size), after)
      && Run(v, before + [Register(base, size)] + after) == Run(AddPool(u, base, size), after)
  {
    hide Inv, Allowed, Frame;
    var tail := [Register(base, size)] + after;
    assert before + [Register(base, size)] + after == before + tail;
    RunConcat(v, before, tail);
    RunUnregistered(v, owner, reserved, before, 0);
    owned := RunInv(v, owner, reserved, before);
    assert tail[0] == Register(base, size) && tail[1..] == after;
  }

  /**
   From boot: at the end of any run a page is mapped outside every region exactly when it was
   accessed before the first pool was registered and has not been handed out since.
   */
  lemma StrayPages(m: Ram, shared: nat, base: nat, frames: seq<FrameState>, reserved: set<nat>,
                   before: seq<VmOp>, pool: VmOp, after: seq<VmOp>, q: nat)
    requires CanBuild(m, frames, base, shared, reserved) && shared <= q < WINDOW_PAGE
    requires pool.Register? && forall i :: 0 <= i < |before| ==> !before[i].Register?
    requires var v := Construct(m, shared, base, frames);
      AllowedRun(v, before + [pool] + after) && Run(v, before + [pool] + after).Some?
    ensures Run(Construct(m, shared, base, frames), before).Some?
    ensures
      var v := Construct(m, shared, base, frames);
      var registered := AddPool(Run(v, before).value, pool.base, pool.size);
      Stray(Run(v, before + [pool] + after).value, q) <==>
        AccessedIn(before, q) && !EverLegitimate(registered, after, q)
  {
    hide Inv, Run, AllowedRun, Construct, CanBuild, Frame, EverLegitimate, Legitimate, AccessedIn, Allowed, Stray;
    hide R.NewPool;
    var v := Construct(m, shared, base, frames);
    var owner := ConstructInv(m, shared, base, frames, reserved);
    ConstructShape(m, shared, base, frames);
    NotMapped(v, q);
    var owned := UntilRegistered(v, owner, reserved, before, pool.base, pool.size, after);
    assert before + ([pool] + after) == before + [pool] + after;
    RunConcat(v, before, [pool] + after);
    RunUnregistered(v, owner, reserved, before, q);
    var u := Run(v, before).value;
    FirstStray(u, pool.base, pool.size);
    RegisterAllowed(u, owned, reserved, pool.base, pool.size);
    RunStray(AddPool(u, pool.base, pool.size), owned, reserved, after, q);
  }

  lemma RegisterAllowed(v: Vm, owner: map<nat, Slot>, reserved: set<nat>, base: nat, size: nat)
    requires Inv(v, owner, reserved) && Allowed(v, Register(base, size))
    ensures Inv(AddPool(v, base, size), owner, reserved) && AddPool(v, base, size).pools != []
  {
    hide Inv;
    RegisterMeaning(v, owner, reserved, base, size);
  }

  lemma NotMapped(v: Vm, q: nat)
    requires Built(v, TableCount(v.shared)) && v.shared <= q < WINDOW_PAGE
    ensures Frame(v.mem, v.dir, q) == None
  {
    hide Frame;
  }

  /**
   So from boot every mapped page lies in an allocated region, in every state from the first
   registration on, exactly when no page above the shared region was accessed before it.
   */
  lemma BootedBackedIff(m: Ram, shared: nat, base: nat, frames: seq<FrameState>, reserved: set<nat>,
                        before: seq<VmOp>, pool: VmOp, after: seq<VmOp>)
    requires CanBuild(m, frames, base, shared, reserved)
    requires pool.Register? && forall i :: 0 <= i < |before| ==> !before[i].Register?
    requires AllowedRun(Construct(m, shared, base, frames), before + [pool] + after)
    ensures Run(Construct(m, shared, base, frames), before).Some?
    ensures
      var registered := AddPool(Run(Construct(m, shared, base, frames), before).value, pool.base, pool.size);
      BackedThroughout(registered, after) <==> forall q: nat :: shared <= q < WINDOW_PAGE ==> !AccessedIn(before, q)
  {
    hide Inv, Run, AllowedRun, Construct, CanBuild, Frame, AccessedIn, Allowed, BackedThroughout, Built, Pools;
    var v := Construct(m, shared, base, frames);
    var owner := ConstructInv(m, shared, base, frames, reserved);
    ConstructShape(m, shared, base, frames);
    var owned := UntilRegistered(v, owner, reserved, before, pool.base, pool.size, after);
    var u := Run(v, before).value;
    assert before + ([pool] + after) == before + [pool] + after;
    RunConcat(v, before, [pool] + after);
    forall q: nat | shared <= q < WINDOW_PAGE
      ensures Frame(u.mem, u.dir, q).None? <==> !AccessedIn(before, q)
    {
      NotMapped(v, q);
      RunUnregistered(v, owner, reserved, before, q);
    }
    RegistrationBacksIff(u, owned, reserved, pool.base, pool.size, after);
  }
}
