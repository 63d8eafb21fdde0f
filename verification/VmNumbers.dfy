/**
 Virtual memory in plain numbers: entries of the tables, the shared region, the size of a pool and of its
 region tables. Nothing here names the constants of the code.
 */
module VmNumbers {
  import opened Bytes
  import opened FrameModel
  import opened Paging
  import opened VmModel
  import opened VmOperations
  import opened VmTheorems
  import opened PageTable
  import opened ContFramePool
  import R = VmRegions

  // ----- table entries -----

  /** An entry holds the frame number in its top 20 bits, is present and writable, and has no other flag. */
  lemma EntryInNumbers(f: nat)
    requires f < 0x10_0000
    ensures Entry(f) % 2 == 1 && Entry(f) / 2 % 2 == 1 && Entry(f) / 4 % 1024 == 0
    ensures Entry(f) / 4096 == f && Entry(f) < 0x1_0000_0000
  {
    assert Entry(f) == 4096 * f + 3;
  }

  /**
   The table entry of address a is word a / 4096 of the window from 0xFFC00000 on, and its directory
   entry is a word of the window's last page.
   */
  lemma WindowInNumbers(a: nat)
    requires a < 0x1_0000_0000
    ensures PteAddress(a) == 0xFFC0_0000 + 4 * (a / 4096)
    ensures PdeAddress(a) == 0xFFFF_F000 + 4 * (a / 0x40_0000)
    ensures WINDOW_PAGE * 4096 == 0xFFC0_0000
  {
    PageOfTable(a / 4096);
    TableOfAddress(a);
  }

  lemma TableOfAddress(a: nat)
    requires a < 0x1_0000_0000
    ensures a / 0x40_0000 == a / 4096 / 1024 && a / 0x40_0000 < 1024
  {
  }

  lemma PageOfTable(p: nat)
    ensures p == 1024 * (p / 1024) + p % 1024
  {
  }

  // ----- the shared region -----

  /** The shared region has the least number of pages that hold all its bytes. */
  lemma SharedInNumbers(size: nat, k: nat)
    ensures k >= SharedPages(size) <==> 4096 * k >= size
  {
  }

  /** From the constructor on a page is mapped, to itself, exactly when it holds a byte of the shared region. */
  lemma SharedMapped(m: Ram, base: nat, frames: seq<FrameState>, size: nat, reserved: set<nat>, page: nat)
    requires CanBuild(m, frames, base, SharedPages(size), reserved) && page < 1023 * 1024
    ensures
      var v := Construct(m, SharedPages(size), base, frames);
      Frame(v.mem, v.dir, page) == if 4096 * page < size then Some(page) else None
  {
    hide Construct, Frame, CanBuild;
    var owner := ConstructInv(m, SharedPages(size), base, frames, reserved);
    ConstructShape(m, SharedPages(size), base, frames);
    SharedInNumbers(size, page);
  }

  /** The entries that the constructor has written are those of present, writable frames. */
  ghost predicate Plain(v: Vm, n: nat) {
    forall q: nat :: q < v.shared && q / 1024 < n && q < WINDOW_PAGE ==>
      Word(v.mem, v.dir, q / 1024) == Entry(TableOf(v, q)) && Pte(v, q) == Entry(q)
  }

  lemma AddTablePlain(v: Vm, owner: map<nat, Slot>, reserved: set<nat>, i: nat)
    requires Core(v, owner, reserved) && Built(v, i) && Plain(v, i) && i < 1023 && FreeCount(v.frames) > 0
    ensures Plain(AddTable(v, i), i + 1)
  {
    hide Owned, Accounted, Grab, FreeCount, Frame, SharedRow, LinkRow, Built, Present, Entry;
    var t := Grab(v.base, v.frames).0;
    var row := SharedRow(i, v.shared);
    var u := AddTable(v, i);
    CoreOwned(v, owner, reserved);
    CoreAccounted(v, owner, reserved);
    CoreBounds(v, owner, reserved);
    GrabAccounted(v.frames, v.base, owner, reserved, Table(i));
    EntryIs(t);
    forall q: nat | q < v.shared && q / 1024 < i + 1 && q < WINDOW_PAGE
      ensures Word(u.mem, u.dir, q / 1024) == Entry(TableOf(u, q)) && Pte(u, q) == Entry(q)
    {
      LinkWord(v.mem, v.dir, i, t, row, v.dir, q / 1024);
      if q / 1024 == i {
        LinkWord(v.mem, v.dir, i, t, row, t, q % 1024);
        SharedRowEntry(i, v.shared, q);
      } else {
        OtherTable(v, owner, q, t);
        LinkWord(v.mem, v.dir, i, t, row, TableOf(v, q), q % 1024);
      }
    }
  }

  lemma SharedRowEntry(i: nat, shared: nat, q: nat)
    requires q / 1024 == i && q < shared
    ensures SharedRow(i, shared)[q % 1024] == Entry(q)
  {
    var j := q % 1024;
    assert 1024 * i + j == q;
    assert SharedRow(i, shared)[j] == SharedEntry(1024 * i + j, shared);
  }

  lemma OtherTable(v: Vm, owner: map<nat, Slot>, q: nat, t: nat)
    requires Owned(v.mem, v.dir, v.shared, owner) && q < WINDOW_PAGE && t !in owner
    requires Word(v.mem, v.dir, q / 1024) == Entry(TableOf(v, q))
    ensures TableOf(v, q) != t && TableOf(v, q) != v.dir
  {
    hide Owned;
    EntryIs(TableOf(v, q));
    OwnedFrames(v.mem, v.dir, v.shared, owner);
    TableIsOwned(v.mem, v.dir, v.shared, owner, q / 1024);
  }

  lemma {:induction false} AddTablesPlain(v: Vm, owner: map<nat, Slot>, reserved: set<nat>, n: nat)
    requires Core(v, owner, reserved) && Built(v, 0) && n <= 1023 && n <= FreeCount(v.frames)
    ensures Plain(AddTables(v, n), n)
  {
    hide Core, Built, FreeCount, AddTable, Plain;
    if n == 0 {
      NonePlain(v);
    } else {
      AddTablesPlain(v, owner, reserved, n - 1);
      var after := AddTablesBuilt(v, owner, reserved, n - 1);
      AddTablePlain(AddTables(v, n - 1), after, reserved, n - 1);
    }
  }

  lemma NonePlain(v: Vm)
    ensures Plain(v, 0)
  {
  }

  /** The constructor's entry for a shared page holds that page's number and the flags present and writable. */
  lemma SharedEntryInNumbers(m: Ram, base: nat, frames: seq<FrameState>, size: nat, reserved: set<nat>, page: nat)
    requires CanBuild(m, frames, base, SharedPages(size), reserved) && page < 1023 * 1024 && 4096 * page < size
    ensures
      var v := Construct(m, SharedPages(size), base, frames);
      Pte(v, page) == 4096 * page + 3 && Word(v.mem, v.dir, page / 1024) % 4096 == 3
  {
    hide AddTables, Core, Built, Frame, FreeCount, Accounted, NewDirectory, Grab, Plain;
    var shared := SharedPages(size);
    var (d, rest) := Grab(base, frames);
    var v := Vm(NewDirectory(m, d), d, shared, base, rest, []);
    NewDirectoryCore(m, d, shared, base, frames, [], reserved);
    AddTablesPlain(v, map[d := Dir], reserved, TableCount(shared));
    AddTablesShape(v, TableCount(shared));
    SharedInNumbers(size, page);
    PlainAt(AddTables(v, TableCount(shared)), TableCount(shared), page);
  }

  lemma PlainAt(v: Vm, n: nat, page: nat)
    requires Plain(v, n) && page < v.shared && page / 1024 < n && page < WINDOW_PAGE
    ensures Pte(v, page) == 4096 * page + 3 && Word(v.mem, v.dir, page / 1024) % 4096 == 3
  {
    EntryInNumbers(TableOf(v, page));
  }

  /** So do the entries that the fault handler writes. */
  lemma FaultInNumbers(v: Vm, owner: map<nat, Slot>, reserved: set<nat>, p: nat)
    requires Core(v, owner, reserved) && v.shared <= p < WINDOW_PAGE && Frame(v.mem, v.dir, p).None?
    requires Needed(v, p) <= FreeCount(v.frames)
    ensures
      var u := MapPage(v, p);
      && Frame(u.mem, u.dir, p).Some? && Pte(u, p) == 4096 * Frame(u.mem, u.dir, p).value + 3
      && (!HasTable(v, p) ==> Word(u.mem, u.dir, p / 1024) % 4096 == 3)
  {
    hide Owned, Accounted, Grab, FreeCount, SetWord, LinkTable, Word, Present, Frame, Core;
    PageMapped(v, p);
    PageSplits(p);
    var u := EnsureTable(v, p);
    EnsureTableIs(v, p);
    EnsureTableCore(v, owner, reserved, p);
    NewTableIsEmpty(v, owner, reserved, p);
    CoreAccounted(u, TableOwner(v, owner, p), reserved);
    CoreBounds(u, TableOwner(v, owner, p), reserved);
    CoreBounds(v, owner, reserved);
    CoreAccounted(v, owner, reserved);
    CoreOwned(u, TableOwner(v, owner, p), reserved);
    var f := Grab(u.base, u.frames).0;
    GrabAccounted(u.frames, u.base, TableOwner(v, owner, p), reserved, Page(p));
    TableIsOwned(u.mem, u.dir, u.shared, TableOwner(v, owner, p), p / 1024);
    SetWordAt(u.mem, TableOf(u, p), p % 1024, Entry(f), u.dir, p / 1024);
    SetWordAt(u.mem, TableOf(u, p), p % 1024, Entry(f), TableOf(u, p), p % 1024);
    EntryIs(f);
    PageMapped(MapPage(v, p), p);
    if !HasTable(v, p) {
      GrabAccounted(v.frames, v.base, owner, reserved, Table(p / 1024));
      LinkedEntry(v.mem, v.dir, p / 1024, Grab(v.base, v.frames).0);
      EntryInNumbers(Grab(v.base, v.frames).0);
    }
  }

  // ----- pools -----

  /** A new pool starts at the page of its base address: one free region of the fewest pages that hold its size. */
  lemma PoolInNumbers(baseAddress: nat, size: nat, k: nat)
    requires size <= 0xFFFF_F000
    ensures
      var p := R.NewPool(baseAddress, size);
      && 4096 * p.lo <= baseAddress < 4096 * p.lo + 4096
      && (k >= p.total <==> 4096 * k >= size)
      && p.live == [] && p.free == [R.Region(p.lo, p.total)]
  {
    assert (size + 4095) % TWO32 == size + 4095;
  }

  /** Each of the two region tables holds 256 regions: with that many a further one stops the kernel. */
  lemma TablesInNumbers(p: R.Pool, size: nat, k: nat)
    requires R.Partition(p) && 0 < size < 0x1_0000_0000 && k < |p.live|
    ensures R.Allocate(p, size).Halt? <==> R.Fits(p, size) && |p.live| >= 256
    ensures R.Release(p, p.live[k].base * 4096).Halt? <==> |p.free| >= 256
  {
    hide R.Partition;
    R.AllocateMeaning(p, size);
    if |p.free| < 256 {
      R.ReleaseMeaning(p, k);
    }
  }

  /** So 255 successful allocations never stop it. */
  lemma ManyInNumbers(baseAddress: nat, size: nat, ops: seq<R.PoolOp>)
    requires R.ProperRun(R.NewPool(baseAddress, size), ops)
    requires R.Successes(R.NewPool(baseAddress, size), ops) <= 255
    ensures R.PoolRun(R.NewPool(baseAddress, size), ops).Some?
  {
    R.NewPoolSuffices(baseAddress, size, ops);
  }

  // ----- frame pools -----

  /** One frame of 4096 bytes holds the states of 16384 frames. */
  lemma InfoInNumbers(n: nat, k: nat)
    ensures k >= NeededInfoFrames(n) <==> 16384 * k >= n
  {
    NeededIsLeast(n, k);
  }
}
