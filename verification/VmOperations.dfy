/**
 What each virtual-memory operation means for the pages of the address space, and that each
 keeps the whole invariant.
 */
module VmOperations {
  import opened Bytes
  import opened FrameModel
  import opened Paging
  import opened VmModel
  import R = VmRegions

  /** The contents that page q shows. */
  function Row(v: Vm, q: nat): Option<seq<nat>> {
    match Frame(v.mem, v.dir, q)
    case None => None
    case Some(f) => if f < |v.mem| then Some(v.mem[f]) else None
  }

  /** A first access to page p finds the frames it needs. */
  predicate Affordable(v: Vm, p: nat) {
    Frame(v.mem, v.dir, p).None? ==> Needed(v, p) <= FreeCount(v.frames)
  }

  predicate SameShape(u: Vm, v: Vm) {
    u.dir == v.dir && u.shared == v.shared && u.base == v.base && |u.frames| == |v.frames|
  }

  // ----- small facts -----

  lemma InvParts(v: Vm, owner: map<nat, Slot>, reserved: set<nat>)
    requires Inv(v, owner, reserved)
    ensures Core(v, owner, reserved) && Identity(v) && Pools(v.pools, v.shared) && v.shared <= WINDOW_PAGE
  {
  }

  lemma CoreBounds(v: Vm, owner: map<nat, Slot>, reserved: set<nat>)
    requires Core(v, owner, reserved)
    ensures v.shared <= v.base && 0 < v.base && v.base + |v.frames| <= FRAMES
    ensures Physical(v.mem) && v.dir in owner && owner[v.dir] == Dir
    ensures forall f :: f in owner ==> v.base <= f < v.base + |v.frames|
  {
    OwnedFrames(v.mem, v.dir, v.shared, owner);
    forall f | f in owner
      ensures v.base <= f < v.base + |v.frames|
    {
      assert Single(v.frames, f - v.base);
    }
  }

  lemma SharedFrame(v: Vm, q: nat)
    requires Identity(v) && q < v.shared
    ensures Frame(v.mem, v.dir, q) == Some(q)
  {
  }

  /** The frame that a mapped page below the window shows is a data frame of its own, or the identity frame. */
  lemma FrameOf(v: Vm, owner: map<nat, Slot>, reserved: set<nat>, q: nat)
    requires Core(v, owner, reserved) && Identity(v) && q < WINDOW_PAGE && Frame(v.mem, v.dir, q).Some?
    ensures var f := Frame(v.mem, v.dir, q).value;
      f < FRAMES && if q < v.shared then f == q && f < v.base && f !in owner else f in owner && owner[f] == Page(q)
  {
    hide Owned, Accounted, Frame;
    CoreBounds(v, owner, reserved);
    if q < v.shared {
      SharedFrame(v, q);
    } else {
      MappedIsOwned(v, owner, reserved, q);
    }
  }

  lemma RowOf(v: Vm, owner: map<nat, Slot>, reserved: set<nat>, q: nat)
    requires Core(v, owner, reserved) && Identity(v) && q < WINDOW_PAGE && Frame(v.mem, v.dir, q).Some?
    ensures |v.mem| == FRAMES && Row(v, q) == Some(v.mem[Frame(v.mem, v.dir, q).value])
    ensures |Row(v, q).value| == ENTRIES
  {
    hide Owned, Accounted, Frame;
    CoreBounds(v, owner, reserved);
    FrameOf(v, owner, reserved, q);
  }

  lemma PeekIsRow(v: Vm, a: nat)
    requires Physical(v.mem)
    ensures Peek(v, a) ==
      match Row(v, a / PAGE_BYTES) case None => None
      case Some(r) => if |r| == ENTRIES then Some(r[WordIndex(a)]) else None
  {
    if Frame(v.mem, v.dir, a / PAGE_BYTES).Some? {
      FrameBound(v.mem, v.dir, a / PAGE_BYTES);
    }
  }

  lemma FrameBound(m: Ram, d: nat, q: nat)
    requires Frame(m, d, q).Some?
    ensures Frame(m, d, q).value < FRAMES
  {
  }

  // ----- a fault -----

  lemma MapPageShape(v: Vm, p: nat)
    ensures SameShape(MapPage(v, p), v) && MapPage(v, p).pools == v.pools
  {
    hide Grab;
  }

  /** Mapping a page between the shared region and the window keeps the invariant. */
  lemma MapPageInv(v: Vm, owner: map<nat, Slot>, reserved: set<nat>, p: nat)
    requires Inv(v, owner, reserved) && v.shared <= p < WINDOW_PAGE && Needed(v, p) <= FreeCount(v.frames)
    ensures Inv(MapPage(v, p), MapOwner(v, owner, p), reserved)
  {
    hide Core, Frame, MapPage, MapOwner, Pools, Needed, FreeCount, Identity;
    InvParts(v, owner, reserved);
    MapPageShape(v, p);
    MapPageCore(v, owner, reserved, p);
    MapPageIdentity(v, owner, reserved, p);
  }

  lemma MapPageIdentity(v: Vm, owner: map<nat, Slot>, reserved: set<nat>, p: nat)
    requires Core(v, owner, reserved) && Identity(v)
    requires v.shared <= p < WINDOW_PAGE && Needed(v, p) <= FreeCount(v.frames)
    ensures Identity(MapPage(v, p))
  {
    hide Owned, Accounted, Frame, MapPage, Needed, FreeCount;
    MapPageShape(v, p);
    forall q | 0 <= q < v.shared
      ensures Frame(MapPage(v, p).mem, v.dir, q) == Some(q)
    {
      MapPageFrame(v, owner, reserved, p, q);
    }
  }

  /** A fault changes what no other page shows. */
  lemma MapPageKeepsRow(v: Vm, owner: map<nat, Slot>, reserved: set<nat>, p: nat, q: nat)
    requires Core(v, owner, reserved) && Identity(v)
    requires v.shared <= p < WINDOW_PAGE && q < WINDOW_PAGE && Needed(v, p) <= FreeCount(v.frames)
    requires q != p || Frame(v.mem, v.dir, p).Some?
    ensures Row(MapPage(v, p), q) == Row(v, q)
  {
    hide Core, Identity, Frame, MapPage, Needed, FreeCount;
    MapPageShape(v, p);
    MapPageFrame(v, owner, reserved, p, q);
    if Frame(v.mem, v.dir, q).Some? {
      FrameOf(v, owner, reserved, q);
      MapPageRow(v, owner, reserved, p, Frame(v.mem, v.dir, q).value);
    }
  }

  // ----- an access -----

  function ReachOwner(v: Vm, owner: map<nat, Slot>, p: nat): map<nat, Slot> {
    if Frame(v.mem, v.dir, p).Some? then owner else MapOwner(v, owner, p)
  }

  /** The fault handler lets the access through: no pool is registered yet, or some pool handed the page out. */
  predicate Admitted(pools: seq<R.Pool>, q: nat) {
    pools == [] || Legitimate(pools, q)
  }

  /**
   An access below the window goes through exactly when its page is shared or mapped already, or no
   pool is registered, or the page lies in an allocated region; otherwise the fault handler stops
   the kernel.
   */
  lemma ReachMeaning(v: Vm, owner: map<nat, Slot>, reserved: set<nat>, a: nat)
    requires Inv(v, owner, reserved) && a / PAGE_BYTES < WINDOW_PAGE && Affordable(v, a / PAGE_BYTES)
    ensures Reach(v, a).Some? <==>
      var p := a / PAGE_BYTES;
      p < v.shared || Frame(v.mem, v.dir, p).Some? || Admitted(v.pools, p)
    ensures Reach(v, a).Some? ==>
      var u := Reach(v, a).value;
      && Inv(u, ReachOwner(v, owner, a / PAGE_BYTES), reserved)
      && SameShape(u, v) && u.pools == v.pools
      && Frame(u.mem, u.dir, a / PAGE_BYTES).Some?
  {
    hide Core, Frame, MapPage, MapOwner, Pools, Legitimate, Needed, FreeCount, Identity;
    var p := a / PAGE_BYTES;
    InvParts(v, owner, reserved);
    if p < v.shared {
      SharedFrame(v, p);
    } else if Frame(v.mem, v.dir, p).None? && Admitted(v.pools, p) {
      MapPageInv(v, owner, reserved, p);
      MapPageShape(v, p);
      MapPageFrame(v, owner, reserved, p, p);
    }
  }

  /** It changes no other page's translation. */
  lemma ReachFrame(v: Vm, owner: map<nat, Slot>, reserved: set<nat>, a: nat, q: nat)
    requires Inv(v, owner, reserved) && a / PAGE_BYTES < WINDOW_PAGE && Affordable(v, a / PAGE_BYTES)
    requires Reach(v, a).Some? && q < WINDOW_PAGE && q != a / PAGE_BYTES
    ensures Frame(Reach(v, a).value.mem, v.dir, q) == Frame(v.mem, v.dir, q)
  {
    hide Core, Frame, MapPage, Pools, Legitimate, Needed, FreeCount, Identity;
    var p := a / PAGE_BYTES;
    InvParts(v, owner, reserved);
    if p < v.shared {
      SharedFrame(v, p);
    } else if Frame(v.mem, v.dir, p).None? {
      MapPageFrame(v, owner, reserved, p, q);
    }
  }

  /** Reaching a page changes what no other page shows, nor what the page itself shows if it was mapped. */
  lemma ReachKeepsRow(v: Vm, owner: map<nat, Slot>, reserved: set<nat>, a: nat, q: nat)
    requires Inv(v, owner, reserved) && a / PAGE_BYTES < WINDOW_PAGE && Affordable(v, a / PAGE_BYTES)
    requires Reach(v, a).Some? && q < WINDOW_PAGE
    requires q != a / PAGE_BYTES || Row(v, q).Some?
    ensures Row(Reach(v, a).value, q) == Row(v, q)
  {
    hide Core, Frame, MapPage, MapOwner, Pools, Legitimate, Needed, FreeCount, Identity;
    var p := a / PAGE_BYTES;
    InvParts(v, owner, reserved);
    if p < v.shared {
      SharedFrame(v, p);
    } else if Frame(v.mem, v.dir, p).None? {
      MapPageKeepsRow(v, owner, reserved, p, q);
    }
  }

  // ----- a store -----

  /** A store to a data frame, or to a frame below the pool, keeps the invariant and every translation. */
  lemma WriteDataInv(v: Vm, owner: map<nat, Slot>, reserved: set<nat>, p: nat, j: nat, w: nat)
    requires Inv(v, owner, reserved) && p < WINDOW_PAGE && Frame(v.mem, v.dir, p).Some? && j < ENTRIES
    ensures Inv(v.(mem := SetWord(v.mem, Frame(v.mem, v.dir, p).value, j, w)), owner, reserved)
    ensures forall q: nat :: q < WINDOW_PAGE ==>
      Frame(SetWord(v.mem, Frame(v.mem, v.dir, p).value, j, w), v.dir, q) == Frame(v.mem, v.dir, q)
  {
    hide Frame, SetWord, Pools, Legitimate, Accounted, Owned;
    InvParts(v, owner, reserved);
    FrameOf(v, owner, reserved, p);
    var f := Frame(v.mem, v.dir, p).value;
    DataOwned(v.mem, v.dir, v.shared, owner, f, j, w);
    var u := v.(mem := SetWord(v.mem, f, j, w));
    forall q: nat | q < WINDOW_PAGE
      ensures Frame(u.mem, u.dir, q) == Frame(v.mem, v.dir, q)
    {
      DataFrame(v.mem, v.dir, v.shared, owner, f, j, w, q);
    }
  }

  /** It changes one word of that page and what no other page shows. */
  lemma WriteDataRow(v: Vm, owner: map<nat, Slot>, reserved: set<nat>, p: nat, j: nat, w: nat, q: nat)
    requires Core(v, owner, reserved) && Identity(v) && p < WINDOW_PAGE && Frame(v.mem, v.dir, p).Some? && j < ENTRIES
    requires q < WINDOW_PAGE
    ensures Row(v, p).Some? && |Row(v, p).value| == ENTRIES
    ensures Row(v.(mem := SetWord(v.mem, Frame(v.mem, v.dir, p).value, j, w)), q) ==
      if q == p then Some(Row(v, p).value[j := w]) else Row(v, q)
  {
    hide Core, Frame, Identity;
    var f := Frame(v.mem, v.dir, p).value;
    CoreOwned(v, owner, reserved);
    CoreBounds(v, owner, reserved);
    FrameOf(v, owner, reserved, p);
    RowOf(v, owner, reserved, p);
    DataFrame(v.mem, v.dir, v.shared, owner, f, j, w, q);
    if q != p && Frame(v.mem, v.dir, q).Some? {
      FrameOf(v, owner, reserved, q);
    }
  }

  lemma CoreOwned(v: Vm, owner: map<nat, Slot>, reserved: set<nat>)
    requires Core(v, owner, reserved)
    ensures Owned(v.mem, v.dir, v.shared, owner)
  {
  }

  // ----- releasing a region's pages -----

  predicate InRange(slot: Slot, start: nat, n: nat) {
    slot.Page? && start <= slot.q < start + n
  }

  function Without(owner: map<nat, Slot>, start: nat, n: nat): map<nat, Slot> {
    map f | f in owner && !InRange(owner[f], start, n) :: owner[f]
  }

  /** Freeing a range of pages stops the kernel exactly when some page of it has no page table. */
  lemma {:induction false} FreePagesCore(v: Vm, owner: map<nat, Slot>, reserved: set<nat>, start: nat, n: nat)
    requires Core(v, owner, reserved) && v.shared <= start && start + n <= WINDOW_PAGE
    ensures FreePages(v, start, n).Some? <==> forall p :: start <= p < start + n ==> HasTable(v, p)
    ensures FreePages(v, start, n).Some? ==> Core(FreePages(v, start, n).value, Without(owner, start, n), reserved)
    ensures FreePages(v, start, n).Some? ==> SameShape(FreePages(v, start, n).value, v)
    ensures FreePages(v, start, n).Some? ==> FreePages(v, start, n).value.pools == v.pools
    ensures FreePages(v, start, n).Some? ==>
      forall q: nat :: q < WINDOW_PAGE ==> (HasTable(FreePages(v, start, n).value, q) <==> HasTable(v, q))
  {
    hide Core, HasTable, Frame, FreePage;
    if n == 0 {
      assert Without(owner, start, 0) == owner;
    } else {
      FreePagesCore(v, owner, reserved, start, n - 1);
      if FreePages(v, start, n - 1).Some? {
        var u := FreePages(v, start, n - 1).value;
        var p := start + n - 1;
        FreePageCore(u, Without(owner, start, n - 1), reserved, p);
        if HasTable(u, p) {
          FreePageShape(u, p);
          WithoutStep(u, owner, reserved, start, n);
          forall q: nat | q < WINDOW_PAGE
            ensures HasTable(FreePage(u, p).value, q) <==> HasTable(v, q)
          {
            FreePageFrame(u, Without(owner, start, n - 1), reserved, p, q);
          }
        }
      }
    }
  }

  lemma FreePageShape(v: Vm, p: nat)
    requires FreePage(v, p).Some?
    ensures SameShape(FreePage(v, p).value, v) && FreePage(v, p).value.pools == v.pools
  {
  }

  lemma WithoutStep(u: Vm, owner: map<nat, Slot>, reserved: set<nat>, start: nat, n: nat)
    requires n > 0 && Core(u, Without(owner, start, n - 1), reserved) && u.shared <= start && start + n <= WINDOW_PAGE
    ensures FreeOwner(u, Without(owner, start, n - 1), start + n - 1) == Without(owner, start, n)
  {
    hide Accounted, Owned, Frame, Core;
    var before := Without(owner, start, n - 1);
    var p := start + n - 1;
    forall f
      ensures f in before && before[f] == Page(p) <==> Frame(u.mem, u.dir, p) == Some(f)
    {
      PageOwner(u, before, reserved, p, f);
    }
  }

  lemma PageOwner(v: Vm, owner: map<nat, Slot>, reserved: set<nat>, p: nat, f: nat)
    requires Core(v, owner, reserved) && v.shared <= p < WINDOW_PAGE
    ensures f in owner && owner[f] == Page(p) <==> Frame(v.mem, v.dir, p) == Some(f)
  {
    hide Accounted, Frame;
    PageMapped(v, p);
  }

  /** Exactly the pages of the range become unmapped. */
  lemma {:induction false} FreePagesFrame(v: Vm, owner: map<nat, Slot>, reserved: set<nat>, start: nat, n: nat, q: nat)
    requires Core(v, owner, reserved) && v.shared <= start && start + n <= WINDOW_PAGE && q < WINDOW_PAGE
    requires FreePages(v, start, n).Some?
    ensures Frame(FreePages(v, start, n).value.mem, v.dir, q) ==
      if start <= q < start + n then None else Frame(v.mem, v.dir, q)
  {
    hide Core, HasTable, Frame, FreePage;
    if n > 0 {
      FreePagesCore(v, owner, reserved, start, n - 1);
      FreePagesFrame(v, owner, reserved, start, n - 1, q);
      var u := FreePages(v, start, n - 1).value;
      FreePageCore(u, Without(owner, start, n - 1), reserved, start + n - 1);
      FreePageFrame(u, Without(owner, start, n - 1), reserved, start + n - 1, q);
    }
  }

  /** What the other pages show does not change. */
  lemma {:induction false} FreePagesRow(v: Vm, owner: map<nat, Slot>, reserved: set<nat>, start: nat, n: nat, f: nat)
    requires Core(v, owner, reserved) && v.shared <= start && start + n <= WINDOW_PAGE && f < FRAMES
    requires FreePages(v, start, n).Some?
    requires if f in owner then owner[f].Page? else f < v.base
    ensures |FreePages(v, start, n).value.mem| == FRAMES == |v.mem|
    ensures FreePages(v, start, n).value.mem[f] == v.mem[f]
  {
    hide Core, HasTable, Frame, FreePage;
    CoreBounds(v, owner, reserved);
    if n > 0 {
      FreePagesCore(v, owner, reserved, start, n - 1);
      FreePagesRow(v, owner, reserved, start, n - 1, f);
      var u := FreePages(v, start, n - 1).value;
      var p := start + n - 1;
      FreePageCore(u, Without(owner, start, n - 1), reserved, p);
      FreedRow(u, Without(owner, start, n - 1), reserved, p, f);
    }
  }

  /** free_page writes only the page's table, so every frame that is not a table keeps its contents. */
  lemma FreedRow(v: Vm, owner: map<nat, Slot>, reserved: set<nat>, p: nat, f: nat)
    requires Core(v, owner, reserved) && v.shared <= p < WINDOW_PAGE && f < FRAMES && FreePage(v, p).Some?
    requires f in owner ==> owner[f].Page?
    ensures |FreePage(v, p).value.mem| == FRAMES == |v.mem|
    ensures FreePage(v, p).value.mem[f] == v.mem[f]
  {
    hide Accounted, Drop;
    OwnedFrames(v.mem, v.dir, v.shared, owner);
    PageSplits(p);
    TableIsOwned(v.mem, v.dir, v.shared, owner, p / 1024);
  }

  /** The frames that become free are exactly those that pages of the range held. */
  lemma {:induction false} FreePagesFrees(v: Vm, owner: map<nat, Slot>, reserved: set<nat>, start: nat, n: nat, i: nat)
    requires Core(v, owner, reserved) && v.shared <= start && start + n <= WINDOW_PAGE && i < |v.frames|
    requires FreePages(v, start, n).Some?
    ensures |FreePages(v, start, n).value.frames| == |v.frames|
    ensures FreePages(v, start, n).value.frames[i] ==
      if v.base + i in owner && InRange(owner[v.base + i], start, n) then Free else v.frames[i]
  {
    hide Core, HasTable, Frame, FreePage;
    if n > 0 {
      FreePagesCore(v, owner, reserved, start, n - 1);
      FreePagesFrees(v, owner, reserved, start, n - 1, i);
      var u := FreePages(v, start, n - 1).value;
      var p := start + n - 1;
      FreePageCore(u, Without(owner, start, n - 1), reserved, p);
      WithoutStep(u, owner, reserved, start, n);
      if Frame(u.mem, u.dir, p).Some? {
        MappedIsOwned(u, Without(owner, start, n - 1), reserved, p);
      }
      assert v.base + i in owner && owner[v.base + i] == Page(p) ==> v.base + i in Without(owner, start, n - 1);
      if v.base + i in owner && owner[v.base + i] == Page(p) {
        OwnedPage(u, Without(owner, start, n - 1), reserved, v.base + i, p);
      }
    }
  }

  lemma OwnedPage(v: Vm, owner: map<nat, Slot>, reserved: set<nat>, f: nat, p: nat)
    requires Core(v, owner, reserved) && f in owner && owner[f] == Page(p)
    ensures Frame(v.mem, v.dir, p) == Some(f)
  {
  }
}
