/**
 The virtual-memory theorems: what the constructor sets up, that every run from there is
 safe and conserves frames, and how the fault handler compares with the direct-walk form.
 */
module VmTheorems {
  import opened Bytes
  import opened FrameModel
  import opened Paging
  import opened VmModel
  import opened VmOperations
  import opened VmMachine
  import R = VmRegions

  // ----- the constructor -----

  /** One frame for the page table of shared table i, identity mapped. */
  function AddTable(v: Vm, i: nat): Vm {
    var (t, rest) := Grab(v.base, v.frames);
    v.(mem := LinkRow(v.mem, v.dir, i, t, SharedRow(i, v.shared)), frames := rest)
  }

  function AddTables(v: Vm, n: nat): Vm {
    if n == 0 then v else AddTable(AddTables(v, n - 1), n - 1)
  }

  function TableCount(shared: nat): nat {
    (shared + ENTRIES - 1) / ENTRIES
  }

  /** The page directory takes the first frame, the shared region's tables the next ones. */
  function Construct(m: Ram, shared: nat, base: nat, frames: seq<FrameState>): Vm {
    var (d, rest) := Grab(base, frames);
    AddTables(Vm(NewDirectory(m, d), d, shared, base, rest, []), TableCount(shared))
  }

  lemma ConstructIs(m: Ram, shared: nat, base: nat, frames: seq<FrameState>)
    ensures Construct(m, shared, base, frames) ==
      var (d, rest) := Grab(base, frames);
      AddTables(Vm(NewDirectory(m, d), d, shared, base, rest, []), TableCount(shared))
  {
  }

  /** After n tables exactly the pages of those tables are mapped, each to itself. */
  ghost predicate Built(v: Vm, n: nat) {
    && (forall i :: n <= i < 1023 ==> !Present(Word(v.mem, v.dir, i)))
    && forall q: nat :: q < WINDOW_PAGE ==>
      Frame(v.mem, v.dir, q) == if q < v.shared && q / 1024 < n then Some(q) else None
  }

  lemma AddTableBuilt(v: Vm, owner: map<nat, Slot>, reserved: set<nat>, i: nat)
    requires Core(v, owner, reserved) && Built(v, i) && i < 1023 && FreeCount(v.frames) > 0
    ensures var t := Grab(v.base, v.frames).0;
      && Core(AddTable(v, i), owner[t := Table(i)], reserved)
      && SameShape(AddTable(v, i), v) && AddTable(v, i).pools == v.pools
      && FreeCount(AddTable(v, i).frames) == FreeCount(v.frames) - 1
      && Built(AddTable(v, i), i + 1)
  {
    hide Owned, Accounted, Grab, FreeCount, Word, Present, Frame, SharedRow, LinkRow;
    var t := Grab(v.base, v.frames).0;
    var row := SharedRow(i, v.shared);
    GrabAccounted(v.frames, v.base, owner, reserved, Table(i));
    SharedRowOnly(i, v.shared);
    OwnedFrames(v.mem, v.dir, v.shared, owner);
    LinkOwned(v.mem, v.dir, v.shared, owner, i, t, row);
    var u := AddTable(v, i);
    forall j: nat | i + 1 <= j < 1023
      ensures !Present(Word(u.mem, u.dir, j))
    {
      LinkWord(v.mem, v.dir, i, t, row, v.dir, j);
    }
    forall q: nat | q < WINDOW_PAGE
      ensures Frame(u.mem, u.dir, q) == if q < v.shared && q / 1024 < i + 1 then Some(q) else None
    {
      LinkFrame(v.mem, v.dir, v.shared, owner, i, t, row, q);
      if q / 1024 == i {
        SharedRowAt(i, v.shared, q);
      }
    }
  }

  lemma SharedRowAt(i: nat, shared: nat, q: nat)
    requires q / 1024 == i && q < WINDOW_PAGE
    ensures Present(SharedRow(i, shared)[q % 1024]) <==> q < shared
    ensures q < shared ==> FrameIn(SharedRow(i, shared)[q % 1024]) == q
  {
    assert 1024 * i + q % 1024 == q;
    assert SharedRow(i, shared)[q % 1024] == SharedEntry(q, shared);
    EntryIs(q);
  }

  lemma {:induction false} AddTablesBuilt(v: Vm, owner: map<nat, Slot>, reserved: set<nat>, n: nat)
    returns (after: map<nat, Slot>)
    requires Core(v, owner, reserved) && Built(v, 0) && n <= 1023 && n <= FreeCount(v.frames)
    ensures var u := AddTables(v, n);
      && Core(u, after, reserved) && SameShape(u, v) && u.pools == v.pools && Built(u, n)
      && FreeCount(u.frames) == FreeCount(v.frames) - n
  {
    hide Core, Built, FreeCount, AddTable;
    after := owner;
    if n > 0 {
      after := AddTablesBuilt(v, owner, reserved, n - 1);
      var u := AddTables(v, n - 1);
      AddTableBuilt(u, after, reserved, n - 1);
      after := after[Grab(u.base, u.frames).0 := Table(n - 1)];
    }
  }

  /** Frames for the directory and the shared tables, and a process pool above the shared region. */
  ghost predicate CanBuild(m: Ram, frames: seq<FrameState>, base: nat, shared: nat, reserved: set<nat>) {
    && Physical(m) && Accounted(frames, base, map[], reserved)
    && shared <= base && shared <= WINDOW_PAGE
    && 0 < base && base + |frames| <= FRAMES
    && 1 + TableCount(shared) <= FreeCount(frames)
  }

  /**
   The constructor establishes the whole invariant: one frame for the directory, one for each
   shared table, the shared pages identity mapped, no other page mapped and no pool registered.
   */
  lemma ConstructInv(m: Ram, shared: nat, base: nat, frames: seq<FrameState>, reserved: set<nat>)
      returns (owner: map<nat, Slot>)
    requires CanBuild(m, frames, base, shared, reserved)
    ensures Inv(Construct(m, shared, base, frames), owner, reserved)
    ensures FreeCount(Construct(m, shared, base, frames).frames) == FreeCount(frames) - 1 - TableCount(shared)
    ensures Built(Construct(m, shared, base, frames), TableCount(shared))
    ensures Construct(m, shared, base, frames).pools == []
  {
    hide Core, Owned, Accounted, Grab, FreeCount, Word, Present, Frame, NewDirectory, AddTables, Built;
    var (d, rest) := Grab(base, frames);
    var v := Vm(NewDirectory(m, d), d, shared, base, rest, []);
    NewDirectoryCore(m, d, shared, base, frames, [], reserved);
    owner := AddTablesBuilt(v, map[d := Dir], reserved, TableCount(shared));
    var u := AddTables(v, TableCount(shared));
    BuiltAll(u);
    assert u == Construct(m, shared, base, frames);
  }

  /** The directory alone: it maps itself, maps nothing else, and owns its frame. */
  lemma NewDirectoryCore(m: Ram, d: nat, shared: nat, base: nat, frames: seq<FrameState>, pools: seq<R.Pool>,
          reserved: set<nat>)
    requires Physical(m) && Accounted(frames, base, map[], reserved) && FreeCount(frames) > 0
    requires shared <= base && 0 < base && base + |frames| <= FRAMES && d == Grab(base, frames).0
    ensures var v := Vm(NewDirectory(m, d), d, shared, base, Grab(base, frames).1, pools);
      Core(v, map[d := Dir], reserved) && Built(v, 0) && FreeCount(v.frames) == FreeCount(frames) - 1
  {
    hide Owned, Accounted, Grab, FreeCount, Word, Present, Frame, NewDirectory;
    GrabAccounted(frames, base, map[], reserved, Dir);
    NewDirectoryOwned(m, d, shared);
    assert map[][d := Dir] == map[d := Dir];
    EmptyDirectory(Vm(NewDirectory(m, d), d, shared, base, Grab(base, frames).1, pools));
  }

  lemma EmptyDirectory(v: Vm)
    requires forall i :: 0 <= i < 1023 ==> !Present(Word(v.mem, v.dir, i))
    ensures Built(v, 0)
  {
  }

  lemma BuiltAll(v: Vm)
    requires Built(v, TableCount(v.shared)) && v.shared <= WINDOW_PAGE
    ensures Identity(v)
    ensures forall q: nat :: v.shared <= q < WINDOW_PAGE ==> Frame(v.mem, v.dir, q) == None
  {
    hide Frame;
    forall q: nat | q < v.shared
      ensures q / 1024 < TableCount(v.shared)
    {
    }
  }

  /**
   From boot, every allowed run, with pools registered at any moment of it, keeps the whole
   invariant, and no frame is ever lost or made up.
   */
  lemma BootedRunsAreSafe(m: Ram, shared: nat, base: nat, frames: seq<FrameState>, reserved: set<nat>, ops: seq<VmOp>)
      returns (owner: map<nat, Slot>)
    requires CanBuild(m, frames, base, shared, reserved)
    requires AllowedRun(Construct(m, shared, base, frames), ops)
    ensures Run(Construct(m, shared, base, frames), ops).Some? ==>
      var u := Run(Construct(m, shared, base, frames), ops).value;
      Inv(u, owner, reserved) && FreeCount(u.frames) + |owner| + |reserved| == |frames|
  {
    hide Inv, Run, AllowedRun, Construct, FreeCount, Accounted, Built;
    owner := ConstructInv(m, shared, base, frames, reserved);
    var v := Construct(m, shared, base, frames);
    ConstructShape(m, shared, base, frames);
    owner := RunInv(v, owner, reserved, ops);
    if Run(v, ops).Some? {
      var u := Run(v, ops).value;
      InvParts(u, owner, reserved);
      CoreAccounted(u, owner, reserved);
      Conservation(u.frames, u.base, owner, reserved);
    }
  }

  lemma {:induction false} AddTablesShape(v: Vm, n: nat)
    ensures SameShape(AddTables(v, n), v)
  {
    if n > 0 {
      AddTablesShape(v, n - 1);
    }
  }

  lemma ConstructShape(m: Ram, shared: nat, base: nat, frames: seq<FrameState>)
    ensures var v := Construct(m, shared, base, frames);
      |v.frames| == |frames| && v.shared == shared && v.base == base
  {
    hide AddTables;
    var (d, rest) := Grab(base, frames);
    AddTablesShape(Vm(NewDirectory(m, d), d, shared, base, rest, []), TableCount(shared));
  }

  // ----- the direct-walk form -----

  /**
   By direct physical accesses, page p comes to translate to f if it was absent, and nothing else
   below the window changes.
   */
  lemma MapDirectFrame(v: Vm, owner: map<nat, Slot>, reserved: set<nat>, p: nat, t: nat, f: nat, q: nat)
    requires Core(v, owner, reserved) && v.shared <= p < WINDOW_PAGE && q < WINDOW_PAGE
    requires t !in owner && t < FRAMES && f < FRAMES
    ensures Frame(MapDirect(v.mem, v.dir, p, t, f), v.dir, q) ==
      if q == p && Frame(v.mem, v.dir, p).None? then Some(f) else Frame(v.mem, v.dir, q)
  {
    hide Owned, Accounted, Word, Present, SetWord, LinkTable;
    PageSplits(p);
    PageMapped(v, p);
    EntryIs(f);
    if HasTable(v, p) {
      PteFrame(v.mem, v.dir, v.shared, owner, p / 1024, p % 1024, Entry(f), q);
    } else {
      LinkTableFrame(v.mem, v.dir, v.shared, owner, p / 1024, t, q);
      LinkTableFrame(v.mem, v.dir, v.shared, owner, p / 1024, t, p);
      LinkTableOwned(v.mem, v.dir, v.shared, owner, p / 1024, t);
      OwnedFrames(v.mem, v.dir, v.shared, owner);
      LinkedEntry(v.mem, v.dir, p / 1024, t);
      var u := v.(mem := LinkTable(v.mem, v.dir, p / 1024, t));
      PageMapped(u, p);
      PteFrame(u.mem, v.dir, v.shared, owner[t := Table(p / 1024)], p / 1024, p % 1024, Entry(f), q);
    }
  }

  lemma LinkedEntry(m: Ram, d: nat, i: nat, t: nat)
    requires Physical(m) && d < FRAMES && t < FRAMES && i < ENTRIES
    ensures Word(LinkTable(m, d, i, t), d, i) == Entry(t) && Present(Entry(t))
  {
    LinkWord(m, d, i, t, Zeros(), d, i);
    EntryIs(t);
  }

  /**
   The window-based handler and the direct-walk handler leave every page below the window with
   the same translation, whichever frames each of them takes, except that the faulting page
   shows the frame that its own handler took.
   */
  lemma SameTranslations(v: Vm, owner: map<nat, Slot>, reserved: set<nat>, p: nat, t: nat, f: nat, q: nat)
    requires Core(v, owner, reserved) && v.shared <= p < WINDOW_PAGE && q < WINDOW_PAGE
    requires Needed(v, p) <= FreeCount(v.frames)
    requires t !in owner && t < FRAMES && f < FRAMES
    ensures q != p || Frame(v.mem, v.dir, p).Some? ==>
      Frame(MapPage(v, p).mem, v.dir, q) == Frame(MapDirect(v.mem, v.dir, p, t, f), v.dir, q)
    ensures q == p ==>
      Frame(MapPage(v, p).mem, v.dir, q).Some? && Frame(MapDirect(v.mem, v.dir, p, t, f), v.dir, q).Some?
  {
    hide Core, Frame, MapPage, MapDirect, Needed, FreeCount;
    MapPageFrame(v, owner, reserved, p, q);
    MapDirectFrame(v, owner, reserved, p, t, f, q);
  }

  // ----- running out of frames -----

  /** An empty pool answers 0, and the handler installs it like any other frame number. */
  lemma GrabNothing(base: nat, s: seq<FrameState>)
    requires FreeCount(s) == 0
    ensures Grab(base, s) == (0, s)
  {
    FindOne(s);
  }

  lemma ZeroIsNotOwned(v: Vm, owner: map<nat, Slot>, reserved: set<nat>, slot: Slot)
    requires Core(v, owner, reserved)
    ensures Held(v.mem, v.dir, v.shared, slot) != Some(0)
  {
    CoreBounds(v, owner, reserved);
    if Held(v.mem, v.dir, v.shared, slot).Some? {
      HeldIsOwned(v.mem, v.dir, v.shared, owner, slot);
    }
  }

  /**
   The handler checks no frame number, so a fault keeps the frames accounted for exactly when the
   pool has the frames it needs.
   */
  lemma FaultKeepsIff(v: Vm, owner: map<nat, Slot>, reserved: set<nat>, p: nat)
    requires Core(v, owner, reserved) && v.shared <= p < WINDOW_PAGE && Frame(v.mem, v.dir, p).None?
    ensures Needed(v, p) <= FreeCount(v.frames) <==> exists after :: Core(MapPage(v, p), after, reserved)
  {
    hide Owned, Accounted, Grab, FreeCount, SetWord, LinkTable, Word, Present, Frame;
    PageMapped(v, p);
    if Needed(v, p) <= FreeCount(v.frames) {
      MapPageCore(v, owner, reserved, p);
    } else {
      forall after
        ensures !Core(MapPage(v, p), after, reserved)
      {
        if Core(MapPage(v, p), after, reserved) {
          var slot := ZeroSlot(v, owner, reserved, p);
          ZeroIsNotOwned(MapPage(v, p), after, reserved, slot);
        }
      }
    }
  }

  /** With too few frames, some slot ends up with frame 0. */
  lemma ZeroSlot(v: Vm, owner: map<nat, Slot>, reserved: set<nat>, p: nat) returns (slot: Slot)
    requires Core(v, owner, reserved) && v.shared <= p < WINDOW_PAGE && Needed(v, p) > FreeCount(v.frames)
    ensures Held(MapPage(v, p).mem, v.dir, v.shared, slot) == Some(0)
  {
    hide Accounted, Grab, FreeCount, LinkRow, SetWord, Owned;
    PageSplits(p);
    EntryIs(0);
    OwnedFrames(v.mem, v.dir, v.shared, owner);
    CoreBounds(v, owner, reserved);
    if FreeCount(v.frames) == 0 && !HasTable(v, p) {
      GrabNothing(v.base, v.frames);
      LinkedEntry(v.mem, v.dir, p / 1024, 0);
      LinkWord(v.mem, v.dir, p / 1024, 0, Zeros(), 0, p % 1024);
      var u := EnsureTable(v, p);
      SetWordAt(u.mem, 0, p % 1024, Entry(0), v.dir, p / 1024);
      slot := Table(p / 1024);
    } else {
      EnsureTableCore(v, owner, reserved, p);
      NewTableIsEmpty(v, owner, reserved, p);
      var u := EnsureTable(v, p);
      GrabNothing(u.base, u.frames);
      PteFrame(u.mem, u.dir, u.shared, TableOwner(v, owner, p), p / 1024, p % 1024, Entry(0), p);
      slot := Page(p);
    }
  }

  // ----- the pools ride along -----

  /** A fault edits memory and frames the same way whatever pools are registered. */
  lemma MapPageIgnoresPools(v: Vm, p: nat, pools: seq<R.Pool>)
    ensures MapPage(v.(pools := pools), p) == MapPage(v, p).(pools := pools)
  {
  }

  lemma FreePageIgnoresPools(v: Vm, p: nat, pools: seq<R.Pool>)
    ensures FreePage(v.(pools := pools), p) ==
      match FreePage(v, p) case None => None case Some(u) => Some(u.(pools := pools))
  {
  }

  /** So does freeing a range of pages. */
  lemma {:induction false} FreePagesIgnoresPools(v: Vm, start: nat, n: nat, pools: seq<R.Pool>)
    ensures FreePages(v.(pools := pools), start, n) ==
      match FreePages(v, start, n) case None => None case Some(u) => Some(u.(pools := pools))
  {
    hide FreePage;
    if n > 0 {
      FreePagesIgnoresPools(v, start, n - 1, pools);
      if FreePages(v, start, n - 1).Some? {
        FreePageIgnoresPools(FreePages(v, start, n - 1).value, start + n - 1, pools);
      }
    }
  }
}
