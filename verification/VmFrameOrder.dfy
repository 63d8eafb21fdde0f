/**
 Which frame serves which purpose: the directory comes first, then the shared tables, and a fault takes
 its page table before its data frame, always the lowest frame that is free.
 */
module VmFrameOrder {
  import opened FrameModel
  import opened Paging
  import opened VmModel
  import opened VmOperations
  import opened VmTheorems

  /** Frame i is free and no frame below it is. */
  predicate LowestFree(s: seq<FrameState>, i: int) {
    0 <= i < |s| && s[i] == Free && forall k :: 0 <= k < i ==> s[k] != Free
  }

  lemma GrabLowest(base: nat, s: seq<FrameState>)
    requires FreeCount(s) > 0
    ensures var (f, rest) := Grab(base, s);
      LowestFree(s, f - base) && rest == s[f - base := HoS]
  {
    FindOne(s);
    FindWindowMeaning(s, 1);
    var i := FindWindow(s, 1).value;
    assert AllFree(s, i, 1);
    forall k: nat | k < i
      ensures s[k] != Free
    {
      assert !AllFree(s, k, 1);
    }
  }

  lemma LowestOnce(s: seq<FrameState>, i: int, j: int)
    requires LowestFree(s, i) && LowestFree(s, j)
    ensures i == j
  {
  }

  /**
   A page that is not mapped yet: its table, when that is missing too, takes the lowest frame, and the
   page the next one.
   */
  lemma FaultTakesInOrder(v: Vm, owner: map<nat, Slot>, reserved: set<nat>, p: nat)
    requires Core(v, owner, reserved) && v.shared <= p < WINDOW_PAGE && Frame(v.mem, v.dir, p).None?
    requires Needed(v, p) <= FreeCount(v.frames)
    ensures
      var u := MapPage(v, p);
      && HasTable(u, p) && Frame(u.mem, v.dir, p).Some?
      && var t, f := TableOf(u, p) - v.base, Frame(u.mem, v.dir, p).value - v.base;
        if HasTable(v, p) then
          TableOf(u, p) == TableOf(v, p) && LowestFree(v.frames, f) && u.frames == v.frames[f := HoS]
        else
          && LowestFree(v.frames, t) && LowestFree(v.frames[t := HoS], f)
          && u.frames == v.frames[t := HoS][f := HoS]
  {
    hide Core, Owned, Accounted, Grab, FreeCount, SetWord, LinkTable, Word, Present, Frame, LowestFree;
    var w := EnsureTable(v, p);
    var after := TableOwner(v, owner, p);
    PageMapped(v, p);
    EnsureTableIs(v, p);
    EnsureTableCore(v, owner, reserved, p);
    NewTableIsEmpty(v, owner, reserved, p);
    EnsureEntryFrame(w, after, reserved, p, p);
    GrabLowest(w.base, w.frames);
    EntryTaken(w, after, reserved, p);
    if !HasTable(v, p) {
      GrabLowest(v.base, v.frames);
      TableTaken(v, owner, reserved, p);
    }
  }

  lemma TableTaken(v: Vm, owner: map<nat, Slot>, reserved: set<nat>, p: nat)
    requires Core(v, owner, reserved) && p < WINDOW_PAGE && !HasTable(v, p) && FreeCount(v.frames) > 0
    ensures TableOf(EnsureTable(v, p), p) == Grab(v.base, v.frames).0
    ensures EnsureTable(v, p).frames == Grab(v.base, v.frames).1
  {
    hide Accounted, Grab, FreeCount, LinkTable;
    var t := Grab(v.base, v.frames).0;
    GrabAccounted(v.frames, v.base, owner, reserved, Table(p / 1024));
    LinkedEntry(v.mem, v.dir, p / 1024, t);
    EntryIs(t);
  }

  lemma EntryTaken(v: Vm, owner: map<nat, Slot>, reserved: set<nat>, p: nat)
    requires Core(v, owner, reserved) && v.shared <= p < WINDOW_PAGE && HasTable(v, p) && !Present(Pte(v, p))
    requires FreeCount(v.frames) > 0
    ensures
      var u := EnsureEntry(v, p);
      HasTable(u, p) && TableOf(u, p) == TableOf(v, p) && u.frames == Grab(v.base, v.frames).1
  {
    hide Accounted, Grab, FreeCount, SetWord, Frame;
    PageSplits(p);
    CoreOwned(v, owner, reserved);
    TableIsOwned(v.mem, v.dir, v.shared, owner, p / 1024);
    SetWordAt(v.mem, TableOf(v, p), p % 1024, Entry(Grab(v.base, v.frames).0), v.dir, p / 1024);
  }

  // ----- the constructor -----

  /** The first k frames are taken, each on its own, and no other. */
  ghost predicate TakenTo(s: seq<FrameState>, k: nat) {
    k <= |s| && forall i :: 0 <= i < |s| ==> s[i] == if i < k then HoS else Free
  }

  lemma GrabNext(base: nat, s: seq<FrameState>, k: nat)
    requires TakenTo(s, k) && FreeCount(s) > 0
    ensures k < |s| && Grab(base, s).0 == base + k && TakenTo(Grab(base, s).1, k + 1)
  {
    hide Grab, FreeCount;
    GrabLowest(base, s);
    LowestFirst(s, k, Grab(base, s).0 - base);
  }

  lemma LowestFirst(s: seq<FrameState>, k: nat, i: int)
    requires TakenTo(s, k) && LowestFree(s, i)
    ensures i == k
  {
    assert s[i] == if i < k then HoS else Free;
    assert k < |s| && s[k] == Free;
  }

  /** Table i of the shared region lies in the i-th frame behind the directory. */
  ghost predicate TablesInOrder(v: Vm, n: nat) {
    forall i: nat :: i < n ==> Word(v.mem, v.dir, i) == Entry(v.base + 1 + i)
  }

  lemma AddTableInOrder(v: Vm, owner: map<nat, Slot>, reserved: set<nat>, n: nat)
    requires Core(v, owner, reserved) && n < 1023 && FreeCount(v.frames) > 0
    requires TakenTo(v.frames, n + 1) && TablesInOrder(v, n)
    ensures TakenTo(AddTable(v, n).frames, n + 2) && TablesInOrder(AddTable(v, n), n + 1)
  {
    hide Core, Owned, Accounted, Grab, FreeCount, LinkRow, SharedRow, Word, TakenTo, Entry;
    var t := Grab(v.base, v.frames).0;
    CoreOwned(v, owner, reserved);
    CoreAccounted(v, owner, reserved);
    CoreBounds(v, owner, reserved);
    GrabAccounted(v.frames, v.base, owner, reserved, Table(n));
    GrabNext(v.base, v.frames, n + 1);
    var u := AddTable(v, n);
    forall i: nat | i < n + 1
      ensures Word(u.mem, u.dir, i) == Entry(u.base + 1 + i)
    {
      LinkWord(v.mem, v.dir, n, t, SharedRow(n, v.shared), v.dir, i);
    }
  }

  lemma {:induction false} AddTablesInOrder(v: Vm, owner: map<nat, Slot>, reserved: set<nat>, n: nat)
    requires Core(v, owner, reserved) && Built(v, 0) && n <= 1023 && n <= FreeCount(v.frames) && TakenTo(v.frames, 1)
    ensures TakenTo(AddTables(v, n).frames, n + 1) && TablesInOrder(AddTables(v, n), n)
  {
    hide Core, Built, FreeCount, AddTable, TakenTo, Word, Entry;
    if n > 0 {
      AddTablesInOrder(v, owner, reserved, n - 1);
      var after := AddTablesBuilt(v, owner, reserved, n - 1);
      AddTableInOrder(AddTables(v, n - 1), after, reserved, n - 1);
    }
  }

  /**
   On a pool that is all free the directory takes the first frame and the shared tables the next ones, one
   for every 1024 shared pages begun; all frames behind them stay free.
   */
  lemma ConstructTakesInOrder(m: Ram, shared: nat, base: nat, frames: seq<FrameState>)
    requires CanBuild(m, frames, base, shared, {}) && forall i :: 0 <= i < |frames| ==> frames[i] == Free
    ensures
      var v, n := Construct(m, shared, base, frames), shared / 1024 + if shared % 1024 == 0 then 0 else 1;
      && v.dir == base && TablesInOrder(v, n) && |v.frames| == |frames|
      && forall i :: 0 <= i < |frames| ==> v.frames[i] == if i < 1 + n then HoS else Free
  {
    hide Core, Built, FreeCount, AddTables, Accounted, NewDirectory, Grab, Word, Entry;
    var (d, rest) := Grab(base, frames);
    var v := Vm(NewDirectory(m, d), d, shared, base, rest, []);
    GrabNext(base, frames, 0);
    NewDirectoryCore(m, d, shared, base, frames, [], {});
    assert TableCount(shared) == shared / 1024 + if shared % 1024 == 0 then 0 else 1;
    AddTablesInOrder(v, map[d := Dir], {}, TableCount(shared));
    AddTablesShape(v, TableCount(shared));
    ConstructShape(m, shared, base, frames);
  }

  // ----- what is written besides -----

  /** A new page table is all zeros but for the entry of the page that asked for it. */
  lemma NewTableIsZero(v: Vm, owner: map<nat, Slot>, reserved: set<nat>, p: nat, q: nat)
    requires Core(v, owner, reserved) && v.shared <= p < WINDOW_PAGE && !HasTable(v, p) && FreeCount(v.frames) >= 2
    requires q / 1024 == p / 1024 && q != p
    ensures Pte(MapPage(v, p), q) == 0
  {
    hide Core, Owned, Accounted, Grab, FreeCount, SetWord, LinkRow, Present, Frame, Word;
    assert q % 1024 != p % 1024 by {
      assert q == 1024 * (q / 1024) + q % 1024 && p == 1024 * (p / 1024) + p % 1024;
    }
    var w, t := EnsureTable(v, p), Grab(v.base, v.frames).0;
    var after := TableOwner(v, owner, p);
    EnsureTableCore(v, owner, reserved, p);
    NewTableIsEmpty(v, owner, reserved, p);
    PageMapped(v, p);
    TableTaken(v, owner, reserved, p);
    CoreOwned(v, owner, reserved);
    CoreAccounted(v, owner, reserved);
    CoreBounds(v, owner, reserved);
    CoreOwned(w, after, reserved);
    GrabAccounted(v.frames, v.base, owner, reserved, Table(p / 1024));
    OwnedFrames(v.mem, v.dir, v.shared, owner);
    LinkWord(v.mem, v.dir, p / 1024, t, Zeros(), t, q % 1024);
    PageSplits(p);
    EnsureTableIs(v, p);
    EntryTaken(w, after, reserved, p);
    SetWordAt(w.mem, t, p % 1024, Entry(Grab(w.base, w.frames).0), t, q % 1024);
  }

  /** Freeing a page writes a zero over its entry. */
  lemma FreedEntryIsZero(v: Vm, owner: map<nat, Slot>, reserved: set<nat>, p: nat)
    requires Core(v, owner, reserved) && v.shared <= p < WINDOW_PAGE && Frame(v.mem, v.dir, p).Some?
    ensures FreePage(v, p).Some? && Pte(FreePage(v, p).value, p) == 0
  {
    hide Owned, Accounted, SetWord, Word, Frame, Present, Drop;
    PageMapped(v, p);
    FreePageCore(v, owner, reserved, p);
    CoreOwned(v, owner, reserved);
    TableIsOwned(v.mem, v.dir, v.shared, owner, p / 1024);
    SetWordAt(v.mem, TableOf(v, p), p % 1024, 0, v.dir, p / 1024);
    SetWordAt(v.mem, TableOf(v, p), p % 1024, 0, TableOf(v, p), p % 1024);
  }
}
