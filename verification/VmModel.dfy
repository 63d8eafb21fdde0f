/**
 The virtual-memory stack as one state: physical memory, the process frame pool, the page
 tables inside that memory, and the pools' regions. The operations follow the fault handler,
 free_page and the pools step by step.
 */
module VmModel {
  import opened Bytes
  import opened FrameModel
  import opened Paging
  import R = VmRegions

  /** shared: identity-mapped pages; base: first frame of the process pool. */
  datatype Vm = Vm(mem: Ram, dir: nat, shared: nat, base: nat, frames: seq<FrameState>, pools: seq<R.Pool>)

  // ----- operations -----

  /** get_frames(1): an empty pool answers 0. */
  function Grab(base: nat, s: seq<FrameState>): (r: (nat, seq<FrameState>))
    ensures |r.1| == |s|
  {
    FindWindowMeaning(s, 1);
    match FindWindow(s, 1)
    case None => (0, s)
    case Some(i) => (base + i, s[i := HoS])
  }

  predicate HasTable(v: Vm, p: nat) {
    Present(Word(v.mem, v.dir, p / 1024))
  }

  function TableOf(v: Vm, p: nat): (t: nat)
    ensures t < FRAMES
  {
    FrameIn(Word(v.mem, v.dir, p / 1024))
  }

  function Pte(v: Vm, p: nat): nat {
    Word(v.mem, TableOf(v, p), p % 1024)
  }

  function EnsureTable(v: Vm, p: nat): Vm {
    if HasTable(v, p) then v
    else
      var (t, rest) := Grab(v.base, v.frames);
      v.(mem := LinkTable(v.mem, v.dir, p / 1024, t), frames := rest)
  }

  function EnsureEntry(v: Vm, p: nat): Vm {
    if Present(Pte(v, p)) then v
    else
      var (f, rest) := Grab(v.base, v.frames);
      v.(mem := SetWord(v.mem, TableOf(v, p), p % 1024, Entry(f)), frames := rest)
  }

  /** What handle_fault does once the address is known to be legitimate. */
  function MapPage(v: Vm, p: nat): Vm {
    EnsureEntry(EnsureTable(v, p), p)
  }

  predicate Legitimate(pools: seq<R.Pool>, page: nat) {
    exists k :: 0 <= k < |pools| && R.Legitimate(pools[k], page)
  }

  /** None: the assertion that the address is legitimate stops the kernel. */
  function Fault(v: Vm, a: nat): Option<Vm> {
    if v.pools != [] && !Legitimate(v.pools, a / PAGE_BYTES) then None else Some(MapPage(v, a / PAGE_BYTES))
  }

  /** An access faults once if the page is absent, and is then retried. */
  function Reach(v: Vm, a: nat): Option<Vm> {
    if Frame(v.mem, v.dir, a / PAGE_BYTES).Some? then Some(v) else Fault(v, a)
  }

  function WordIndex(a: nat): (j: nat)
    ensures j < ENTRIES
  {
    a % PAGE_BYTES / 4
  }

  function Store(v: Vm, a: nat, w: nat): Option<Vm> {
    match Reach(v, a)
    case None => None
    case Some(u) =>
      match Frame(u.mem, u.dir, a / PAGE_BYTES)
      case None => None
      case Some(f) => Some(u.(mem := SetWord(u.mem, f, WordIndex(a), w)))
  }

  /** The word at an address, if its page is mapped. */
  function Peek(v: Vm, a: nat): Option<nat> {
    match Frame(v.mem, v.dir, a / PAGE_BYTES)
    case None => None
    case Some(f) => Some(Word(v.mem, f, WordIndex(a)))
  }

  /** release_frames on the process pool; None when its assertion fires. */
  function Drop(base: nat, s: seq<FrameState>, f: nat): Option<seq<FrameState>> {
    if base <= f < base + |s| && s[f - base] == HoS then Some(Release(s, f - base)) else None
  }

  /**
   free_page. Reading the entry goes through the window, so without a page table the read
   itself faults on a window address, which no pool holds, and the fault handler stops the kernel.
   */
  function FreePage(v: Vm, p: nat): Option<Vm> {
    if !HasTable(v, p) then None
    else if !Present(Pte(v, p)) then Some(v)
    else
      match Drop(v.base, v.frames, FrameIn(Pte(v, p)))
      case None => None
      case Some(rest) => Some(v.(mem := SetWord(v.mem, TableOf(v, p), p % 1024, 0), frames := rest))
  }

  function FreePages(v: Vm, start: nat, n: nat): Option<Vm> {
    if n == 0 then Some(v)
    else
      match FreePages(v, start, n - 1)
      case None => None
      case Some(u) => FreePage(u, start + n - 1)
  }

  function AllocRegion(v: Vm, k: nat, size: nat): Option<(Vm, nat)>
    requires k < |v.pools|
  {
    match R.Allocate(v.pools[k], size)
    case Halt => None
    case Done(q, at) => Some((v.(pools := v.pools[k := q]), at))
  }

  function ReleaseRegion(v: Vm, k: nat, address: nat): Option<Vm>
    requires k < |v.pools|
  {
    match R.Release(v.pools[k], address)
    case Halt => None
    case Done(q, r) =>
      match FreePages(v, r.base, r.length)
      case None => None
      case Some(u) => Some(u.(pools := v.pools[k := q]))
  }

  // ----- the frame accounting -----

  predicate Single(s: seq<FrameState>, i: nat) {
    i < |s| && s[i] == HoS && (i + 1 < |s| ==> s[i + 1] != Used)
  }

  /**
   Every frame of the pool that is not free is either owned, as an extent of its own, or
   reserved (inaccessible, or taken before paging started); never both.
   */
  ghost predicate Accounted(s: seq<FrameState>, base: nat, owner: map<nat, Slot>, reserved: set<nat>) {
    && WellFormed(s)
    && (forall f :: f in owner ==> base <= f && Single(s, f - base) && f !in reserved)
    && (forall f :: f in reserved ==> base <= f < base + |s| && s[f - base] != Free)
    && (forall i: nat :: i < |s| && s[i] != Free ==> base + i in owner || base + i in reserved)
  }

  lemma GrabAccounted(s: seq<FrameState>, base: nat, owner: map<nat, Slot>, reserved: set<nat>, slot: Slot)
    requires Accounted(s, base, owner, reserved) && FreeCount(s) > 0
    ensures
      var (f, rest) := Grab(base, s);
      && base <= f < base + |s| && |rest| == |s|
      && f !in owner && f !in reserved
      && s[f - base] == Free
      && FreeCount(rest) == FreeCount(s) - 1
      && Accounted(rest, base, owner[f := slot], reserved)
  {
    hide Grab, FindWindow, FreeCount, Accounted;
    var i := GrabIs(s, base);
    FreeCountUpdate(s, i, HoS);
    TakenAccounted(s, base, owner, reserved, slot, i);
  }

  lemma GrabIs(s: seq<FrameState>, base: nat) returns (i: nat)
    requires FreeCount(s) > 0
    ensures i < |s| && s[i] == Free && Grab(base, s) == (base + i, s[i := HoS])
  {
    FindOne(s);
    FindWindowMeaning(s, 1);
    i := FindWindow(s, 1).value;
    assert AllFree(s, i, 1);
  }

  lemma TakenAccounted(s: seq<FrameState>, base: nat, owner: map<nat, Slot>, reserved: set<nat>, slot: Slot, i: nat)
    requires Accounted(s, base, owner, reserved) && i < |s| && s[i] == Free
    ensures base + i !in owner && base + i !in reserved
    ensures Accounted(s[i := HoS], base, owner[base + i := slot], reserved)
  {
    var r := s[i := HoS];
    forall g | g in owner
      ensures base <= g && Single(r, g - base)
    {
      assert Single(s, g - base);
    }
  }

  lemma DropAccounted(s: seq<FrameState>, base: nat, owner: map<nat, Slot>, reserved: set<nat>, f: nat)
    requires Accounted(s, base, owner, reserved) && f in owner
    ensures Drop(base, s, f) == Some(s[f - base := Free])
    ensures FreeCount(s[f - base := Free]) == FreeCount(s) + 1
    ensures Accounted(s[f - base := Free], base, owner - {f}, reserved)
  {
    hide Freed, RunEnd, FreeCount;
    assert Single(s, f - base);
    RunEndIs(s, f - base + 1, f - base + 1);
    FreedFirst(s, f - base);
    FreeCountUpdate(s, f - base, Free);
    FreedAccounted(s, base, owner, reserved, f);
  }

  lemma FreedAccounted(s: seq<FrameState>, base: nat, owner: map<nat, Slot>, reserved: set<nat>, f: nat)
    requires Accounted(s, base, owner, reserved) && f in owner && base <= f < base + |s|
    ensures Accounted(s[f - base := Free], base, owner - {f}, reserved)
  {
    hide WellFormed;
    var r := s[f - base := Free];
    assert Single(s, f - base);
    FreedWellFormed(s, f - base);
    forall g | g in owner && g != f
      ensures base <= g && Single(r, g - base)
    {
      assert Single(s, g - base);
    }
  }

  lemma FreedWellFormed(s: seq<FrameState>, i: nat)
    requires WellFormed(s) && Single(s, i)
    ensures WellFormed(s[i := Free])
  {
    var r := s[i := Free];
    forall j | 0 <= j < |r| && r[j] == Used
      ensures j > 0 && r[j - 1] != Free
    {
      assert s[j] == Used;
    }
  }

  lemma {:induction false} CountTaken(s: seq<FrameState>, base: nat, taken: set<nat>)
    requires forall f :: f in taken <==> base <= f < base + |s| && s[f - base] != Free
    ensures FreeCount(s) + |taken| == |s|
  {
    if s == [] {
      assert taken == {};
    } else {
      var rest := taken - {base};
      assert forall i :: 0 <= i < |s[1..]| ==> s[1..][i] == s[i + 1];
      forall f
        ensures f in rest <==> base + 1 <= f < base + 1 + |s[1..]| && s[1..][f - base - 1] != Free
      {
      }
      CountTaken(s[1..], base + 1, rest);
      assert s[0] != Free <==> base in taken;
      assert s[0] != Free ==> taken == rest + {base};
      assert s[0] == Free ==> taken == rest;
    }
  }

  /** Free frames, frames of the address space and reserved frames always add up to the pool. */
  lemma Conservation(s: seq<FrameState>, base: nat, owner: map<nat, Slot>, reserved: set<nat>)
    requires Accounted(s, base, owner, reserved)
    ensures FreeCount(s) + |owner| + |reserved| == |s|
  {
    var taken := owner.Keys + reserved;
    forall f
      ensures f in taken <==> base <= f < base + |s| && s[f - base] != Free
    {
      if base <= f < base + |s| && s[f - base] != Free {
        assert base + (f - base) in owner || base + (f - base) in reserved;
      }
    }
    CountTaken(s, base, taken);
    assert owner.Keys !! reserved;
  }

  // ----- the invariant -----

  /** The part about frames and tables. */
  ghost predicate Core(v: Vm, owner: map<nat, Slot>, reserved: set<nat>) {
    && Owned(v.mem, v.dir, v.shared, owner)
    && Accounted(v.frames, v.base, owner, reserved)
    && v.shared <= v.base && 0 < v.base && v.base + |v.frames| <= FRAMES
  }

  ghost predicate Identity(v: Vm) {
    forall q :: 0 <= q < v.shared ==> Frame(v.mem, v.dir, q) == Some(q)
  }

  /** Pools partition their pages, lie between the shared region and the window, and are disjoint. */
  ghost predicate Pools(pools: seq<R.Pool>, shared: nat) {
    && shared <= WINDOW_PAGE
    && (forall k :: 0 <= k < |pools| ==>
      && R.Partition(pools[k])
      && shared <= pools[k].lo && pools[k].lo + pools[k].total <= WINDOW_PAGE)
    && (forall j, k :: 0 <= j < k < |pools| ==>
      pools[j].lo + pools[j].total <= pools[k].lo || pools[k].lo + pools[k].total <= pools[j].lo)
  }

  ghost predicate Inv(v: Vm, owner: map<nat, Slot>, reserved: set<nat>) {
    Core(v, owner, reserved) && Identity(v) && Pools(v.pools, v.shared)
  }

  /** Page q was mapped on demand and lies in no allocated region. */
  ghost predicate Stray(v: Vm, q: nat) {
    v.shared <= q < WINDOW_PAGE && Frame(v.mem, v.dir, q).Some? && !Legitimate(v.pools, q)
  }

  /** Every demand-mapped page lies in an allocated region. */
  ghost predicate Backed(v: Vm) {
    forall q: nat :: !Stray(v, q)
  }

  lemma MappedIsOwned(v: Vm, owner: map<nat, Slot>, reserved: set<nat>, q: nat)
    requires Core(v, owner, reserved) && v.shared <= q < WINDOW_PAGE && Frame(v.mem, v.dir, q).Some?
    ensures Frame(v.mem, v.dir, q).value in owner && owner[Frame(v.mem, v.dir, q).value] == Page(q)
    ensures v.base <= Frame(v.mem, v.dir, q).value < v.base + |v.frames|
  {
    hide Frame, WellFormed, Owned;
    PageMapped(v, q);
    HeldIsOwned(v.mem, v.dir, v.shared, owner, Page(q));
    assert Single(v.frames, Frame(v.mem, v.dir, q).value - v.base);
  }

  /**
   No two pages above the shared region share a frame, and none uses the frame of a table, of the
   directory or a reserved one.
   */
  lemma NoSharing(v: Vm, owner: map<nat, Slot>, reserved: set<nat>, p: nat, q: nat)
    requires Core(v, owner, reserved) && v.shared <= p < q < WINDOW_PAGE
    requires Frame(v.mem, v.dir, p).Some?
    ensures Frame(v.mem, v.dir, p) != Frame(v.mem, v.dir, q)
    ensures Frame(v.mem, v.dir, p).value != v.dir
    ensures forall i :: 0 <= i < 1023 && Present(Word(v.mem, v.dir, i)) ==>
      Frame(v.mem, v.dir, p).value != FrameIn(Word(v.mem, v.dir, i))
    ensures Frame(v.mem, v.dir, p).value !in reserved
  {
    MappedIsOwned(v, owner, reserved, p);
    if Frame(v.mem, v.dir, q).Some? {
      MappedIsOwned(v, owner, reserved, q);
    }
    OwnedFrames(v.mem, v.dir, v.shared, owner);
    forall i | 0 <= i < 1023 && Present(Word(v.mem, v.dir, i))
      ensures Frame(v.mem, v.dir, p).value != FrameIn(Word(v.mem, v.dir, i))
    {
      TableIsOwned(v.mem, v.dir, v.shared, owner, i);
    }
  }

  // ----- mapping a page -----

  function TableOwner(v: Vm, owner: map<nat, Slot>, p: nat): map<nat, Slot> {
    if HasTable(v, p) then owner else owner[Grab(v.base, v.frames).0 := Table(p / 1024)]
  }

  function EntryOwner(v: Vm, owner: map<nat, Slot>, p: nat): map<nat, Slot> {
    if Present(Pte(v, p)) then owner else owner[Grab(v.base, v.frames).0 := Page(p)]
  }

  function MapOwner(v: Vm, owner: map<nat, Slot>, p: nat): map<nat, Slot> {
    EntryOwner(EnsureTable(v, p), TableOwner(v, owner, p), p)
  }

  /** How many frames a first access to page p takes. */
  function Needed(v: Vm, p: nat): nat {
    if !HasTable(v, p) then 2 else if !Present(Pte(v, p)) then 1 else 0
  }

  lemma EnsureTableCore(v: Vm, owner: map<nat, Slot>, reserved: set<nat>, p: nat)
    requires Core(v, owner, reserved) && p < WINDOW_PAGE
    requires !HasTable(v, p) ==> FreeCount(v.frames) > 0
    ensures Core(EnsureTable(v, p), TableOwner(v, owner, p), reserved)
    ensures HasTable(EnsureTable(v, p), p)
    ensures FreeCount(EnsureTable(v, p).frames) == FreeCount(v.frames) - (if HasTable(v, p) then 0 else 1)
  {
    if !HasTable(v, p) {
      var t := Grab(v.base, v.frames).0;
      GrabAccounted(v.frames, v.base, owner, reserved, Table(p / 1024));
      OwnedFrames(v.mem, v.dir, v.shared, owner);
      LinkTableOwned(v.mem, v.dir, v.shared, owner, p / 1024, t);
      LinkWord(v.mem, v.dir, p / 1024, t, Zeros(), v.dir, p / 1024);
      EntryIs(t);
    }
  }

  lemma EnsureTableFrame(v: Vm, owner: map<nat, Slot>, reserved: set<nat>, p: nat, q: nat)
    requires Core(v, owner, reserved) && p < WINDOW_PAGE && q < WINDOW_PAGE
    requires !HasTable(v, p) ==> FreeCount(v.frames) > 0
    ensures Frame(EnsureTable(v, p).mem, v.dir, q) == Frame(v.mem, v.dir, q)
  {
    if !HasTable(v, p) {
      GrabAccounted(v.frames, v.base, owner, reserved, Table(p / 1024));
      LinkTableFrame(v.mem, v.dir, v.shared, owner, p / 1024, Grab(v.base, v.frames).0, q);
    }
  }

  lemma EnsureTableRow(v: Vm, owner: map<nat, Slot>, reserved: set<nat>, p: nat, f: nat)
    requires Core(v, owner, reserved) && p < WINDOW_PAGE && f < FRAMES
    requires !HasTable(v, p) ==> FreeCount(v.frames) > 0
    requires if f in owner then owner[f].Page? else f < v.base
    ensures |EnsureTable(v, p).mem| == |v.mem| == FRAMES
    ensures EnsureTable(v, p).mem[f] == v.mem[f]
  {
    OwnedFrames(v.mem, v.dir, v.shared, owner);
    if !HasTable(v, p) {
      GrabAccounted(v.frames, v.base, owner, reserved, Table(p / 1024));
    }
  }

  lemma EnsureEntryCore(v: Vm, owner: map<nat, Slot>, reserved: set<nat>, p: nat)
    requires Core(v, owner, reserved) && v.shared <= p < WINDOW_PAGE && HasTable(v, p)
    requires !Present(Pte(v, p)) ==> FreeCount(v.frames) > 0
    ensures Core(EnsureEntry(v, p), EntryOwner(v, owner, p), reserved)
    ensures FreeCount(EnsureEntry(v, p).frames) == FreeCount(v.frames) - (if Present(Pte(v, p)) then 0 else 1)
  {
    hide Owned, Accounted, Grab, SetWord, FreeCount, Word, Present;
    PageMapped(v, p);
    if !Present(Pte(v, p)) {
      GrabAccounted(v.frames, v.base, owner, reserved, Page(p));
      PageSplits(p);
      MapOwned(v.mem, v.dir, v.shared, owner, p / 1024, p % 1024, Grab(v.base, v.frames).0);
    }
  }

  lemma PageMapped(v: Vm, p: nat)
    ensures Frame(v.mem, v.dir, p).Some? <==> HasTable(v, p) && Present(Pte(v, p))
    ensures Frame(v.mem, v.dir, p).Some? ==> Frame(v.mem, v.dir, p).value == FrameIn(Pte(v, p))
    ensures v.shared <= p < WINDOW_PAGE ==> Held(v.mem, v.dir, v.shared, Page(p)) == Frame(v.mem, v.dir, p)
  {
  }

  lemma PageSplits(p: nat)
    requires p < WINDOW_PAGE
    ensures 1024 * (p / 1024) + p % 1024 == p && p / 1024 < 1023
  {
  }

  lemma EnsureEntryFrame(v: Vm, owner: map<nat, Slot>, reserved: set<nat>, p: nat, q: nat)
    requires Core(v, owner, reserved) && v.shared <= p < WINDOW_PAGE && q < WINDOW_PAGE && HasTable(v, p)
    requires !Present(Pte(v, p)) ==> FreeCount(v.frames) > 0
    ensures Frame(EnsureEntry(v, p).mem, v.dir, q) ==
      if q == p && !Present(Pte(v, p)) then Some(Grab(v.base, v.frames).0) else Frame(v.mem, v.dir, q)
  {
    if !Present(Pte(v, p)) {
      var f := Grab(v.base, v.frames).0;
      GrabAccounted(v.frames, v.base, owner, reserved, Page(p));
      PageSplits(p);
      PteFrame(v.mem, v.dir, v.shared, owner, p / 1024, p % 1024, Entry(f), q);
      EntryIs(f);
    }
  }

  lemma EnsureEntryRow(v: Vm, owner: map<nat, Slot>, reserved: set<nat>, p: nat, f: nat)
    requires Core(v, owner, reserved) && v.shared <= p < WINDOW_PAGE && HasTable(v, p) && f < FRAMES
    requires if f in owner then owner[f].Page? else f < v.base
    ensures |EnsureEntry(v, p).mem| == |v.mem| == FRAMES
    ensures EnsureEntry(v, p).mem[f] == v.mem[f]
  {
    hide Accounted, FreeCount, Grab;
    TableIsNot(v, owner, reserved, p, f);
  }

  /**
   Mapping a page keeps every frame accounted for: afterwards the page translates to a frame
   that was free, and nothing else changes hands.
   */
  lemma MapPageCore(v: Vm, owner: map<nat, Slot>, reserved: set<nat>, p: nat)
    requires Core(v, owner, reserved) && v.shared <= p < WINDOW_PAGE && Needed(v, p) <= FreeCount(v.frames)
    ensures Core(MapPage(v, p), MapOwner(v, owner, p), reserved)
    ensures FreeCount(MapPage(v, p).frames) == FreeCount(v.frames) - Needed(v, p)
  {
    var u := EnsureTable(v, p);
    EnsureTableCore(v, owner, reserved, p);
    NewTableIsEmpty(v, owner, reserved, p);
    EnsureEntryCore(u, TableOwner(v, owner, p), reserved, p);
  }

  lemma NewTableIsEmpty(v: Vm, owner: map<nat, Slot>, reserved: set<nat>, p: nat)
    requires Core(v, owner, reserved) && p < WINDOW_PAGE
    requires !HasTable(v, p) ==> FreeCount(v.frames) > 0
    ensures Present(Pte(EnsureTable(v, p), p)) <==> HasTable(v, p) && Present(Pte(v, p))
  {
    EnsureTableCore(v, owner, reserved, p);
    EnsureTableFrame(v, owner, reserved, p, p);
  }

  lemma MapPageFrame(v: Vm, owner: map<nat, Slot>, reserved: set<nat>, p: nat, q: nat)
    requires Core(v, owner, reserved) && v.shared <= p < WINDOW_PAGE && Needed(v, p) <= FreeCount(v.frames)
    requires q < WINDOW_PAGE
    ensures q != p ==> Frame(MapPage(v, p).mem, v.dir, q) == Frame(v.mem, v.dir, q)
    ensures Frame(v.mem, v.dir, p).Some? ==> MapPage(v, p) == v
    ensures Frame(v.mem, v.dir, p).None? ==>
      && Frame(MapPage(v, p).mem, v.dir, p).Some?
      && var f := Frame(MapPage(v, p).mem, v.dir, p).value;
        v.base <= f < v.base + |v.frames| && v.frames[f - v.base] == Free
  {
    hide Core, Frame, Grab, Word, Present, FreeCount, Accounted, EnsureTable, EnsureEntry, HasTable, Pte, TableOwner;
    var u := EnsureTable(v, p);
    EnsureTableIs(v, p);
    PageMapped(v, p);
    EnsureTableCore(v, owner, reserved, p);
    NewTableIsEmpty(v, owner, reserved, p);
    EnsureTableFrame(v, owner, reserved, p, q);
    EnsureTableFrame(v, owner, reserved, p, p);
    EnsureEntryFrame(u, TableOwner(v, owner, p), reserved, p, q);
    EnsureEntryFrame(u, TableOwner(v, owner, p), reserved, p, p);
    if Frame(v.mem, v.dir, p).None? {
      CoreAccounted(u, TableOwner(v, owner, p), reserved);
      GrabAccounted(u.frames, u.base, TableOwner(v, owner, p), reserved, Page(p));
      EnsureTableFrees(v, owner, reserved, p, Grab(u.base, u.frames).0 - v.base);
    } else {
      EnsureEntryIs(u, p);
    }
  }

  lemma CoreAccounted(v: Vm, owner: map<nat, Slot>, reserved: set<nat>)
    requires Core(v, owner, reserved)
    ensures Accounted(v.frames, v.base, owner, reserved)
  {
  }

  lemma EnsureTableIs(v: Vm, p: nat)
    ensures HasTable(v, p) ==> EnsureTable(v, p) == v
    ensures var u := EnsureTable(v, p);
      u.dir == v.dir && u.shared == v.shared && u.base == v.base && |u.frames| == |v.frames| && u.pools == v.pools
  {
  }

  lemma EnsureEntryIs(v: Vm, p: nat)
    ensures Present(Pte(v, p)) ==> EnsureEntry(v, p) == v
    ensures var u := EnsureEntry(v, p);
      u.dir == v.dir && u.shared == v.shared && u.base == v.base && |u.frames| == |v.frames| && u.pools == v.pools
  {
  }

  /** Linking a table only takes frames. */
  lemma EnsureTableFrees(v: Vm, owner: map<nat, Slot>, reserved: set<nat>, p: nat, i: nat)
    requires Core(v, owner, reserved) && i < |v.frames|
    requires !HasTable(v, p) ==> FreeCount(v.frames) > 0
    ensures |EnsureTable(v, p).frames| == |v.frames|
    ensures EnsureTable(v, p).frames[i] == Free ==> v.frames[i] == Free
  {
    if !HasTable(v, p) {
      GrabAccounted(v.frames, v.base, owner, reserved, Table(p / 1024));
    }
  }

  /** Data frames and the frames below the pool keep their contents. */
  lemma MapPageRow(v: Vm, owner: map<nat, Slot>, reserved: set<nat>, p: nat, f: nat)
    requires Core(v, owner, reserved) && v.shared <= p < WINDOW_PAGE && Needed(v, p) <= FreeCount(v.frames)
    requires f < FRAMES && if f in owner then owner[f].Page? else f < v.base
    ensures |MapPage(v, p).mem| == |v.mem| == FRAMES
    ensures MapPage(v, p).mem[f] == v.mem[f]
  {
    hide Owned, Accounted, Grab, Word, Present, FreeCount, SetWord, LinkTable, EnsureEntry;
    EnsureTableCore(v, owner, reserved, p);
    EnsureTableRow(v, owner, reserved, p, f);
    if !HasTable(v, p) {
      GrabAccounted(v.frames, v.base, owner, reserved, Table(p / 1024));
    }
    EnsureEntryRow(EnsureTable(v, p), TableOwner(v, owner, p), reserved, p, f);
  }

  // ----- freeing a page -----

  function FreeOwner(v: Vm, owner: map<nat, Slot>, p: nat): map<nat, Slot> {
    if Frame(v.mem, v.dir, p).Some? then owner - {Frame(v.mem, v.dir, p).value} else owner
  }

  /** free_page gives back exactly the page's frame, and does not stop the kernel exactly when the page table exists. */
  lemma FreePageCore(v: Vm, owner: map<nat, Slot>, reserved: set<nat>, p: nat)
    requires Core(v, owner, reserved) && v.shared <= p < WINDOW_PAGE
    ensures FreePage(v, p).Some? <==> HasTable(v, p)
    ensures HasTable(v, p) ==> Core(FreePage(v, p).value, FreeOwner(v, owner, p), reserved)
    ensures HasTable(v, p) && Frame(v.mem, v.dir, p).None? ==> FreePage(v, p).value.frames == v.frames
    ensures HasTable(v, p) && Frame(v.mem, v.dir, p).Some? ==>
      var i := Frame(v.mem, v.dir, p).value - v.base;
      0 <= i < |v.frames| && FreePage(v, p).value.frames == v.frames[i := Free]
      && FreeCount(FreePage(v, p).value.frames) == FreeCount(v.frames) + 1
  {
    hide Owned, Accounted, SetWord, FreeCount, Word, Present, Drop;
    PageMapped(v, p);
    if HasTable(v, p) && Present(Pte(v, p)) {
      MappedIsOwned(v, owner, reserved, p);
      DropAccounted(v.frames, v.base, owner, reserved, Frame(v.mem, v.dir, p).value);
      PageSplits(p);
      UnmapOwned(v.mem, v.dir, v.shared, owner, p / 1024, p % 1024);
    }
  }

  lemma FreePageFrame(v: Vm, owner: map<nat, Slot>, reserved: set<nat>, p: nat, q: nat)
    requires Core(v, owner, reserved) && v.shared <= p < WINDOW_PAGE && HasTable(v, p) && q < WINDOW_PAGE
    ensures FreePage(v, p).Some?
    ensures Frame(FreePage(v, p).value.mem, v.dir, q) == if q == p then None else Frame(v.mem, v.dir, q)
    ensures HasTable(FreePage(v, p).value, q) <==> HasTable(v, q)
  {
    FreePageCore(v, owner, reserved, p);
    OwnedFrames(v.mem, v.dir, v.shared, owner);
    if Present(Pte(v, p)) {
      PageSplits(p);
      PteFrame(v.mem, v.dir, v.shared, owner, p / 1024, p % 1024, 0, q);
      TableIsOwned(v.mem, v.dir, v.shared, owner, p / 1024);
      SetWordAt(v.mem, TableOf(v, p), p % 1024, 0, v.dir, q / 1024);
    }
  }

  lemma TableIsNot(v: Vm, owner: map<nat, Slot>, reserved: set<nat>, p: nat, f: nat)
    requires Core(v, owner, reserved) && p < WINDOW_PAGE && HasTable(v, p)
    requires if f in owner then owner[f].Page? else f < v.base
    ensures f != TableOf(v, p)
    ensures |v.mem| == FRAMES
  {
    OwnedFrames(v.mem, v.dir, v.shared, owner);
    PageSplits(p);
    TableIsOwned(v.mem, v.dir, v.shared, owner, p / 1024);
    assert Single(v.frames, TableOf(v, p) - v.base);
  }
}
