/**
 The page table and the virtual-memory pools as the kernel runs them: every access to a table
 goes through the recursive window and the translation buffer.
 */
module PageTable {
  import opened Bytes
  import opened ContFramePool
  import opened FrameModel
  import opened Mmu
  import opened Paging
  import opened VmModel
  import opened VmOperations
  import opened VmTheorems
  import VmMachine
  import R = VmRegions

  // ----- zeroing a table word by word -----

  function ZeroPrefix(m: Ram, t: nat, i: nat): Ram {
    if t < |m| && i <= |m[t]| && i <= ENTRIES then
      var row: seq<nat> := Zeros()[..i] + m[t][i..];
      m[t := row]
    else m
  }

  lemma ZeroPrefixStep(m: Ram, t: nat, i: nat)
    requires Physical(m) && t < FRAMES && i < ENTRIES
    ensures SetWord(ZeroPrefix(m, t, i), t, i, 0) == ZeroPrefix(m, t, i + 1)
  {
    var row: seq<nat> := Zeros()[..i] + m[t][i..];
    assert row[i := 0] == Zeros()[..i + 1] + m[t][i + 1..];
  }

  lemma ZeroPrefixEnds(m: Ram, t: nat)
    requires Physical(m) && t < FRAMES
    ensures ZeroPrefix(m, t, 0) == m
    ensures ZeroPrefix(m, t, ENTRIES) == SetRow(m, t, Zeros())
  {
    assert Zeros()[..0] + m[t][0..] == m[t];
    assert Zeros()[..ENTRIES] + m[t][ENTRIES..] == Zeros();
  }

  lemma ZeroPrefixWord(m: Ram, t: nat, i: nat, g: nat, j: nat)
    requires Physical(m) && t < FRAMES && i <= ENTRIES && g != t
    ensures Physical(ZeroPrefix(m, t, i))
    ensures Word(ZeroPrefix(m, t, i), g, j) == Word(m, g, j)
  {
  }

  /** Linking first and zeroing afterwards through the window is the same as zeroing first. */
  lemma LinkThenZero(m: Ram, d: nat, i: nat, t: nat)
    requires Physical(m) && d < FRAMES && t < FRAMES && i < ENTRIES && t != d
    ensures SetRow(SetWord(m, d, i, Entry(t)), t, Zeros()) == LinkTable(m, d, i, t)
  {
  }

  // ----- what the constructor needs -----

  function SharedPages(sharedSize: nat): nat {
    (sharedSize + PAGE_BYTES - 1) / PAGE_BYTES
  }

  lemma TablesFit(shared: nat)
    requires shared <= WINDOW_PAGE
    ensures TableCount(shared) <= 1023
  {
  }

  // ----- filling a shared table entry by entry -----

  function SharedPrefix(m: Ram, t: nat, i: nat, shared: nat, j: nat): Ram {
    if t < |m| && j <= ENTRIES then
      var row: seq<nat> := SharedRow(i, shared)[..j] + Zeros()[j..];
      m[t := row]
    else m
  }

  lemma SharedPrefixStep(m: Ram, t: nat, i: nat, shared: nat, j: nat)
    requires Physical(m) && t < FRAMES && j < ENTRIES
    ensures SetWord(SharedPrefix(m, t, i, shared, j), t, j, SharedEntry(1024 * i + j, shared)) ==
      SharedPrefix(m, t, i, shared, j + 1)
  {
    var e := SharedEntry(1024 * i + j, shared);
    var row: seq<nat> := SharedRow(i, shared)[..j] + Zeros()[j..];
    assert SharedRow(i, shared)[j] == e;
    assert row[j := e] == SharedRow(i, shared)[..j + 1] + Zeros()[j + 1..];
  }

  lemma SharedPrefixRest(m: Ram, t: nat, i: nat, shared: nat, j: nat)
    requires Physical(m) && t < FRAMES && j < ENTRIES && 1024 * i + j >= shared
    ensures SharedPrefix(m, t, i, shared, j) == SetRow(m, t, SharedRow(i, shared))
  {
    forall k | j <= k < ENTRIES
      ensures SharedRow(i, shared)[k] == 0
    {
      assert SharedRow(i, shared)[k] == SharedEntry(1024 * i + k, shared);
    }
    assert SharedRow(i, shared)[..j] + Zeros()[j..] == SharedRow(i, shared);
  }

  lemma SharedPrefixEnds(m: Ram, t: nat, i: nat, shared: nat)
    requires Physical(m) && t < FRAMES && m[t] == Zeros()
    ensures SharedPrefix(m, t, i, shared, 0) == m
    ensures SharedPrefix(m, t, i, shared, ENTRIES) == SetRow(m, t, SharedRow(i, shared))
  {
    assert SharedRow(i, shared)[..0] + Zeros()[0..] == Zeros();
    assert SharedRow(i, shared)[..ENTRIES] + Zeros()[ENTRIES..] == SharedRow(i, shared);
  }

  lemma ClearedRow(m: Ram, t: nat, row: seq<nat>)
    requires Physical(m) && t < FRAMES && |row| == ENTRIES
    ensures Physical(SetRow(m, t, Zeros())) && SetRow(m, t, Zeros())[t] == Zeros()
    ensures SetRow(SetRow(m, t, Zeros()), t, row) == SetRow(m, t, row)
  {
  }

  lemma NewDirectoryIs(m: Ram, d: nat)
    ensures NewDirectory(m, d) == SetWord(SetRow(m, d, Zeros()), d, 1023, Entry(d))
  {
  }

  // ----- the translation buffer after an edit -----

  lemma FrameBelow(m: Ram, d: nat, p: nat)
    requires Physical(m) && Frame(m, d, p).Some?
    ensures p < FRAMES
  {
  }

  /** A new translation leaves the buffer right, because absent pages are not cached. */
  lemma AgreesAfterMap(m: Ram, d: nat, shared: nat, owner: map<nat, Slot>, tlb: map<nat, nat>, p: nat, w: nat)
    requires Owned(m, d, shared, owner) && p < WINDOW_PAGE && Present(Word(m, d, p / 1024))
    requires Agrees(m, d, tlb) && Frame(m, d, p).None?
    ensures Agrees(SetWord(m, FrameIn(Word(m, d, p / 1024)), p % 1024, w), d, tlb)
  {
    hide Owned, SetWord, Frame, Word, Physical, SelfMapped;
    AgreesAfterEntry(m, d, shared, owner, tlb, p, w);
    assert p !in tlb;
    assert tlb - {p} == tlb;
  }

  /** So does a new directory entry, which is what mapping a page of the window writes. */
  lemma AgreesAfterLink(m: Ram, d: nat, tlb: map<nat, nat>, i: nat, w: nat)
    requires Physical(m) && SelfMapped(m, d) && i < ENTRIES && !Present(Word(m, d, i)) && Agrees(m, d, tlb)
    ensures Agrees(SetWord(m, d, i, w), d, tlb)
  {
    hide SetWord, Word, Physical;
    forall q | q in tlb
      ensures Frame(SetWord(m, d, i, w), d, q) == Some(tlb[q])
    {
      SetWordAt(m, d, i, w, d, q / 1024);
      SetWordAt(m, d, i, w, FrameIn(Word(m, d, q / 1024)), q % 1024);
    }
  }

  /** The directory serves as the page table of the window. */
  lemma WindowHasTable(v: Vm, p: nat)
    requires SelfMapped(v.mem, v.dir)
    ensures WINDOW_PAGE <= p < FRAMES ==> HasTable(v, p)
  {
    EntryIs(v.dir);
  }

  lemma NewEntryAgrees(m: Ram, d: nat, shared: nat, owner: map<nat, Slot>, tlb: map<nat, nat>, p: nat, w: nat)
    requires Owned(m, d, shared, owner) && p < FRAMES && Present(Word(m, d, p / 1024))
    requires Agrees(m, d, tlb) && Frame(m, d, p).None?
    ensures Agrees(SetWord(m, FrameIn(Word(m, d, p / 1024)), p % 1024, w), d, tlb)
  {
    hide Owned, SetWord, Physical, Agrees;
    if p < WINDOW_PAGE {
      AgreesAfterMap(m, d, shared, owner, tlb, p, w);
    } else {
      OwnedFrames(m, d, shared, owner);
      EntryIs(d);
      AgreesAfterLink(m, d, tlb, p % 1024, w);
    }
  }

  lemma AgreesWith(m: Ram, d: nat, tlb: map<nat, nat>, p: nat, f: nat)
    requires Agrees(m, d, tlb) && Frame(m, d, p) == Some(f)
    ensures Agrees(m, d, tlb[p := f])
  {
  }

  /** After any write to a page's entry only that page's cached translation can be stale. */
  lemma AgreesAfterEntry(m: Ram, d: nat, shared: nat, owner: map<nat, Slot>, tlb: map<nat, nat>, p: nat, w: nat)
    requires Owned(m, d, shared, owner) && p < WINDOW_PAGE && Present(Word(m, d, p / 1024))
    requires Agrees(m, d, tlb)
    ensures Agrees(SetWord(m, FrameIn(Word(m, d, p / 1024)), p % 1024, w), d, tlb - {p})
  {
    hide Owned, SetWord, Frame, Word, Physical, SelfMapped;
    OwnedFrames(m, d, shared, owner);
    var table := FrameIn(Word(m, d, p / 1024));
    TableIsOwned(m, d, shared, owner, p / 1024);
    forall q | q in tlb - {p}
      ensures Frame(SetWord(m, table, p % 1024, w), d, q) == Some(tlb[q])
    {
      FrameBelow(m, d, q);
      if q < WINDOW_PAGE {
        PteFrame(m, d, shared, owner, p / 1024, p % 1024, w, q);
      } else {
        WindowStays(m, d, table, p % 1024, w, q);
      }
    }
  }

  /** After a store to a data page every cached translation is still right, and every frame accounted for. */
  lemma AgreesAfterData(v: Vm, owner: map<nat, Slot>, reserved: set<nat>, tlb: map<nat, nat>, p: nat, j: nat, w: nat)
    requires Core(v, owner, reserved) && Identity(v) && p < WINDOW_PAGE && Frame(v.mem, v.dir, p).Some? && j < ENTRIES
    requires Agrees(v.mem, v.dir, tlb)
    ensures var m := SetWord(v.mem, Frame(v.mem, v.dir, p).value, j, w);
      Physical(m) && Agrees(m, v.dir, tlb) && Core(v.(mem := m), owner, reserved)
  {
    hide Owned, Accounted, SetWord, Frame, Word, Physical, SelfMapped, Identity;
    var f := Frame(v.mem, v.dir, p).value;
    CoreOwned(v, owner, reserved);
    CoreBounds(v, owner, reserved);
    OwnedFrames(v.mem, v.dir, v.shared, owner);
    FrameOf(v, owner, reserved, p);
    DataOwned(v.mem, v.dir, v.shared, owner, f, j, w);
    SetWordAt(v.mem, f, j, w, 0, 0);
    forall q | q in tlb
      ensures Frame(SetWord(v.mem, f, j, w), v.dir, q) == Some(tlb[q])
    {
      FrameBelow(v.mem, v.dir, q);
      if q < WINDOW_PAGE {
        DataFrame(v.mem, v.dir, v.shared, owner, f, j, w, q);
      } else {
        WindowStays(v.mem, v.dir, f, j, w, q);
      }
    }
  }

  /** A page that is not mapped lies above the shared region. */
  lemma AbsentIsAbove(v: Vm, p: nat)
    requires Identity(v) && Frame(v.mem, v.dir, p).None?
    ensures v.shared <= p
  {
    hide Frame;
  }

  /** The registered pools as values. */
  ghost function Values(vps: seq<VMPool>): (pools: seq<R.Pool>)
    requires forall vp :: vp in vps ==> vp.Valid()
    reads vps, set vp | vp in vps :: vp.live, set vp | vp in vps :: vp.free
    ensures |pools| == |vps| && forall k :: 0 <= k < |vps| ==> pools[k] == vps[k].Value()
  {
    if vps == [] then [] else [vps[0].Value()] + Values(vps[1..])
  }

  class PageTable {
    const mmu: Mmu
    const pool: ContFramePool
    const list: PoolList
    const sharedPages: nat
    /** The directory's frame. */
    var directory: nat
    var vmPoolsHead: VMPool?
    ghost var registered: seq<VMPool>
    ghost var owner: map<nat, Slot>
    ghost var reserved: set<nat>

    /** Memory, tables and the process pool as one value. */
    ghost function Base(): Vm
      reads this, mmu, pool, pool.bitmap
      requires pool.nframes <= 4 * pool.bitmap.Length
    {
      Vm(mmu.mem, directory, sharedPages, pool.baseFrameNo, pool.States(), [])
    }

    ghost predicate Valid()
      reads this, mmu, list, list.pools, pool, pool.bitmap, set p | p in list.pools :: p.bitmap
    {
      && FramesOk()
      && mmu.Coherent() && mmu.cr3 == directory
      && Core(Base(), owner, reserved)
    }

    /** Paging is on, and the tables below the window are those of the owned frames. */
    ghost predicate Running()
      reads this, mmu, list, list.pools, pool, pool.bitmap, set p | p in list.pools :: p.bitmap
    {
      FramesOk() && mmu.Coherent() && mmu.cr3 == directory
    }

    ghost predicate FramesOk()
      reads list, list.pools, pool, pool.bitmap, set p | p in list.pools :: p.bitmap
    {
      list.Valid() && pool in list.pools && pool.Valid()
    }

    lemma CoreHolds()
      requires Valid()
      ensures pool in list.pools && pool.nframes <= 4 * pool.bitmap.Length && Core(Base(), owner, reserved)
    {
    }

    lemma FramesFit()
      requires FramesOk()
      ensures pool.nframes <= 4 * pool.bitmap.Length
    {
    }

    // ----- set-up, before paging is enabled -----

    /** Builds the directory and the tables of the shared region by physical accesses. */
    constructor (m: Mmu, p: ContFramePool, l: PoolList, sharedSize: nat, ghost inaccessible: set<nat>)
      requires l.Valid() && p in l.pools
      requires CanBuild(m.mem, p.States(), p.baseFrameNo, SharedPages(sharedSize), inaccessible)
      modifies m`mem, p`nFreeFrames, p.bitmap
      ensures mmu == m && pool == p && list == l && sharedPages == SharedPages(sharedSize)
      ensures registered == [] && vmPoolsHead == null && reserved == inaccessible
      ensures FramesOk() && Core(Base(), owner, reserved)
      ensures Base() == Construct(old(m.mem), sharedPages, p.baseFrameNo, old(p.States()))
    {
      mmu, pool, list := m, p, l;
      sharedPages := SharedPages(sharedSize);
      directory := 0;
      vmPoolsHead, registered, reserved, owner := null, [], inaccessible, map[];
      new;
      hide CanBuild, Core, StatesOf, Construct, SharedPages, FreeCount, PoolList.Separate, PoolList.Linked;
      Build();
    }

    /** The constructor's steps 1 to 3. */
    method Build()
      requires FramesOk() && CanBuild(mmu.mem, pool.States(), pool.baseFrameNo, sharedPages, reserved)
      modifies mmu`mem, pool`nFreeFrames, pool.bitmap, this`owner, this`directory
      ensures FramesOk() && Core(Base(), owner, reserved)
      ensures Base() == Construct(old(mmu.mem), sharedPages, pool.baseFrameNo, old(pool.States()))
    {
      hide Core, Accounted, FreeCount, StatesOf, Construct, AddTables, Built, Physical, FramesOk, TableCount;
      FramesFit();
      ghost var m0 := mmu.mem;
      ghost var frames := pool.States();
      TablesFit(sharedPages);
      BuildDirectory();
      BuildSharedTables();
      ConstructIs(m0, sharedPages, pool.baseFrameNo, frames);
    }

    /** Step 1 of the constructor: the directory's frame, zeroed, with the entry that maps it to itself. */
    method BuildDirectory()
      requires FramesOk() && Physical(mmu.mem) && Accounted(pool.States(), pool.baseFrameNo, map[], reserved)
      requires FreeCount(pool.States()) > 0
      requires sharedPages <= pool.baseFrameNo && 0 < pool.baseFrameNo && pool.baseFrameNo + pool.nframes <= FRAMES
      modifies mmu`mem, pool`nFreeFrames, pool.bitmap, this`owner, this`directory
      ensures FramesOk() && Core(Base(), owner, reserved) && Built(Base(), 0)
      ensures FreeCount(pool.States()) == FreeCount(old(pool.States())) - 1
      ensures Base() == old(
        var (d, rest) := Grab(pool.baseFrameNo, pool.States());
        Vm(NewDirectory(mmu.mem, d), d, sharedPages, pool.baseFrameNo, rest, []))
    {
      hide Core, Accounted, Grab, FreeCount, StatesOf, NewDirectory, Built, SetRow, SetWord;
      ghost var m0 := mmu.mem;
      ghost var frames := pool.States();
      GrabAccounted(frames, pool.baseFrameNo, map[], reserved, Dir);
      directory := GetFrame();
      NewDirectoryCore(m0, directory, sharedPages, pool.baseFrameNo, frames, [], reserved);
      NewDirectoryIs(m0, directory);
      ClearFrame(directory);
      mmu.Poke(directory, 1023, Entry(directory));
      owner := map[directory := Dir];
    }

    /** Step 3: one table for every 1024 shared pages. */
    method BuildSharedTables()
      requires FramesOk() && Core(Base(), owner, reserved) && Built(Base(), 0)
      requires TableCount(sharedPages) <= 1023 && TableCount(sharedPages) <= FreeCount(pool.States())
      modifies mmu`mem, pool`nFreeFrames, pool.bitmap, this`owner
      ensures FramesOk() && Core(Base(), owner, reserved)
      ensures Base() == AddTables(old(Base()), TableCount(sharedPages))
    {
      hide Core, FreeCount, StatesOf, Built, AddTable;
      ghost var v := Base();
      var tables := (sharedPages + ENTRIES - 1) / ENTRIES;
      var i := 0;
      while i < tables
        invariant i <= tables && FramesOk()
        invariant Base() == AddTables(v, i)
        invariant Core(Base(), owner, reserved) && Built(Base(), i)
        invariant FreeCount(pool.States()) + i == FreeCount(v.frames)
      {
        AddSharedTable(i);
        i := i + 1;
      }
    }

    method ClearFrame(f: nat)
      requires Physical(mmu.mem) && f < FRAMES
      modifies mmu`mem
      ensures mmu.mem == SetRow(old(mmu.mem), f, Zeros())
    {
      hide ZeroPrefix, SetRow, SetWord;
      ghost var m := mmu.mem;
      ZeroPrefixEnds(m, f);
      var i := 0;
      while i < ENTRIES
        invariant i <= ENTRIES
        invariant mmu.mem == ZeroPrefix(m, f, i)
      {
        ZeroPrefixStep(m, f, i);
        mmu.Poke(f, i, 0);
        i := i + 1;
      }
    }

    /**
     Writes the identity entries of shared table i over a cleared frame; the pages past the shared
     region are left out.
     */
    method FillShared(i: nat, f: nat)
      requires Physical(mmu.mem) && f < FRAMES && mmu.mem[f] == Zeros()
      modifies mmu`mem
      ensures mmu.mem == SetRow(old(mmu.mem), f, SharedRow(i, sharedPages))
    {
      hide SharedPrefix, SetWord, SetRow;
      ghost var m := mmu.mem;
      SharedPrefixEnds(m, f, i, sharedPages);
      var basePage := i * ENTRIES;
      var j := 0;
      while j < ENTRIES
        invariant j <= ENTRIES
        invariant mmu.mem == SharedPrefix(m, f, i, sharedPages, j)
      {
        var pageNo := basePage + j;
        SharedPrefixStep(m, f, i, sharedPages, j);
        if pageNo >= sharedPages {
          SharedPrefixRest(m, f, i, sharedPages, j);
          break;
        }
        mmu.Poke(f, j, Entry(pageNo));
        j := j + 1;
      }
    }

    method AddSharedTable(i: nat)
      requires FramesOk() && Core(Base(), owner, reserved) && Built(Base(), i) && i < 1023
      requires FreeCount(pool.States()) > 0
      modifies mmu`mem, pool`nFreeFrames, pool.bitmap, this`owner
      ensures FramesOk() && Core(Base(), owner, reserved) && Built(Base(), i + 1)
      ensures Base() == AddTable(old(Base()), i)
      ensures FreeCount(pool.States()) == FreeCount(old(pool.States())) - 1
    {
      hide Core, Accounted, Grab, FreeCount, StatesOf, SetWord, SetRow, Built, SharedRow;
      ghost var v := Base();
      CoreBounds(v, owner, reserved);
      CoreAccounted(v, owner, reserved);
      AddTableBuilt(v, owner, reserved, i);
      GrabAccounted(v.frames, v.base, owner, reserved, Table(i));
      var t := GetFrame();
      ClearFrame(t);
      ClearedRow(v.mem, t, SharedRow(i, sharedPages));
      FillShared(i, t);
      mmu.Poke(directory, i, Entry(t));
      owner := owner[t := Table(i)];
    }

    /** Loading CR3 empties the translation buffer; from here on every access is translated. */
    method Load()
      requires FramesOk() && Core(Base(), owner, reserved)
      modifies mmu`cr3, mmu`tlb
      ensures Valid() && Base() == old(Base())
    {
      hide Core, StatesOf, FreeCount, Physical, PoolList.Valid;
      CoreBounds(Base(), owner, reserved);
      mmu.WriteCr3(directory);
    }

    // ----- frames -----

    /** get_frames(1) on the process pool. */
    method GetFrame() returns (f: nat)
      requires FramesOk()
      modifies pool`nFreeFrames, pool.bitmap
      ensures FramesOk()
      ensures (f, pool.States()) == Grab(pool.baseFrameNo, old(pool.States()))
    {
      hide FreeCount, FindWindow, Take, StatesOf;
      ghost var s := pool.States();
      f := pool.GetFrames(1);
      OneFrame(s, pool.baseFrameNo);
    }

    // ----- the fault handler -----

    /** Zeroes the newly linked table through its page in the window. */
    method ZeroTable(a: nat, ghost t: nat)
      requires a < TWO32 && a / PAGE_BYTES < WINDOW_PAGE && t < FRAMES && t != mmu.cr3
      requires Physical(mmu.mem) && SelfMapped(mmu.mem, mmu.cr3) && mmu.tlb == map[]
      requires Word(mmu.mem, mmu.cr3, a / PAGE_BYTES / 1024) == Entry(t)
      modifies mmu`mem, mmu`tlb
      ensures mmu.mem == SetRow(old(mmu.mem), t, Zeros())
      ensures mmu.Coherent()
    {
      hide Frame, Word, SetWord, SetRow, ZeroPrefix;
      ghost var m := mmu.mem;
      ghost var d := mmu.cr3;
      ghost var window := WINDOW_PAGE + a / PAGE_BYTES / 1024;
      ZeroPrefixEnds(m, t);
      EntryIs(t);
      var at := 0xFFC0_0000 + a / 0x40_0000 * 4096;
      var i := 0;
      while i < ENTRIES
        invariant i <= ENTRIES
        invariant mmu.mem == ZeroPrefix(m, t, i) && mmu.cr3 == d
        invariant mmu.Coherent()
        invariant forall p :: p in mmu.tlb ==> p == window
      {
        ShowsNewTable(m, d, t, i, a / PAGE_BYTES / 1024);
        ZeroPrefixStep(m, t, i);
        assert (at + 4 * i) / PAGE_BYTES == window && (at + 4 * i) % PAGE_BYTES / 4 == i;
        mmu.StoreWord(at + 4 * i, 0);
        ShowsNewTable(m, d, t, i + 1, a / PAGE_BYTES / 1024);
        i := i + 1;
      }
    }

    /**
     The first half of the handler: after it the page table exists, reached through the window. An
     empty frame pool answers 0, which is linked like any other frame.
     */
    method LinkStep(a: nat)
      requires Running() && Owned(mmu.mem, directory, sharedPages, owner) && a < TWO32
      requires Unowned(Grab(pool.baseFrameNo, pool.States()).0)
      modifies mmu`mem, mmu`tlb, mmu`cr3, pool`nFreeFrames, pool.bitmap, this`owner
      ensures Running() && Owned(mmu.mem, directory, sharedPages, owner)
      ensures Base() == EnsureTable(old(Base()), a / PAGE_BYTES) && HasTable(Base(), a / PAGE_BYTES)
      ensures owner == TableOwner(old(Base()), old(owner), a / PAGE_BYTES)
    {
      hide Frame, Word, Present, Grab, FreeCount, StatesOf, LinkTable, Physical, Owned, FramesOk;
      FramesFit();
      ghost var v := Base();
      OwnedFrames(v.mem, v.dir, v.shared, owner);
      PdeAddressParts(a);
      ShowsDirectory(v.mem, v.dir);
      var pde := mmu.Load(PdeAddress(a));
      WindowHasTable(v, a / PAGE_BYTES);
      if !Present(pde.value) {
        LinkNewTable(a);
      }
    }

    ghost predicate Unowned(f: nat)
      reads this`owner
    {
      f !in owner && f < FRAMES
    }

    method LinkNewTable(a: nat)
      requires Running() && Owned(mmu.mem, directory, sharedPages, owner)
      requires a < TWO32 && a / PAGE_BYTES < WINDOW_PAGE && !HasTable(Base(), a / PAGE_BYTES)
      requires Unowned(Grab(pool.baseFrameNo, pool.States()).0)
      modifies mmu`mem, mmu`tlb, mmu`cr3, pool`nFreeFrames, pool.bitmap, this`owner
      ensures Running() && Owned(mmu.mem, directory, sharedPages, owner)
      ensures Base() == EnsureTable(old(Base()), a / PAGE_BYTES) && HasTable(Base(), a / PAGE_BYTES)
      ensures owner == TableOwner(old(Base()), old(owner), a / PAGE_BYTES)
    {
      hide Frame, Word, Present, SetWord, SetRow, Grab, FreeCount, StatesOf, LinkTable, Physical, Owned, FramesOk;
      FramesFit();
      ghost var v := Base();
      ghost var p := a / PAGE_BYTES;
      OwnedFrames(v.mem, v.dir, v.shared, owner);
      PdeAddressParts(a);
      ShowsDirectory(v.mem, v.dir);
      var t := GetFrame();
      LinkTableOwned(v.mem, v.dir, v.shared, owner, p / 1024, t);
      LinkedEntry(v.mem, v.dir, p / 1024, t);
      mmu.StoreWord(PdeAddress(a), Entry(t));
      SetWordAt(v.mem, v.dir, p / 1024, Entry(t), v.dir, p / 1024);
      SetWordAt(v.mem, v.dir, p / 1024, Entry(t), v.dir, 1023);
      mmu.WriteCr3(mmu.cr3);
      ZeroTable(a, t);
      LinkThenZero(v.mem, v.dir, p / 1024, t);
      owner := owner[t := Table(p / 1024)];
    }

    /** The second half: map the page if it is absent, and drop its stale translation. */
    method MapStep(a: nat)
      requires Running() && Owned(mmu.mem, directory, sharedPages, owner)
      requires a < TWO32 && HasTable(Base(), a / PAGE_BYTES)
      modifies mmu`mem, mmu`tlb, pool`nFreeFrames, pool.bitmap, this`owner
      ensures Running()
      ensures Base() == EnsureEntry(old(Base()), a / PAGE_BYTES)
      ensures owner == EntryOwner(old(Base()), old(owner), a / PAGE_BYTES)
    {
      hide Frame, Word, Present, Grab, FreeCount, StatesOf, Physical, Owned, FramesOk;
      FramesFit();
      ghost var v := Base();
      OwnedFrames(v.mem, v.dir, v.shared, owner);
      PteAddressParts(a);
      WindowFrame(v.mem, v.dir, a / PAGE_BYTES / 1024);
      var pte := mmu.Load(PteAddress(a));
      if !Present(pte.value) {
        MapNewPage(a);
      }
    }

    method MapNewPage(a: nat)
      requires Running() && Owned(mmu.mem, directory, sharedPages, owner)
      requires a < TWO32 && HasTable(Base(), a / PAGE_BYTES)
      requires !Present(Pte(Base(), a / PAGE_BYTES))
      modifies mmu`mem, mmu`tlb, pool`nFreeFrames, pool.bitmap, this`owner
      ensures Running()
      ensures Base() == EnsureEntry(old(Base()), a / PAGE_BYTES)
      ensures owner == EntryOwner(old(Base()), old(owner), a / PAGE_BYTES)
    {
      hide Frame, Word, Present, SetWord, Grab, FreeCount, StatesOf, Owned, FramesOk, Agrees, Physical;
      FramesFit();
      ghost var v := Base();
      ghost var p := a / PAGE_BYTES;
      OwnedFrames(v.mem, v.dir, v.shared, owner);
      PteAddressParts(a);
      WindowFrame(v.mem, v.dir, p / 1024);
      PageMapped(v, p);
      ghost var tlb := mmu.tlb[PteAddress(a) / PAGE_BYTES := TableOf(v, p)];
      AgreesWith(v.mem, v.dir, mmu.tlb, PteAddress(a) / PAGE_BYTES, TableOf(v, p));
      NewEntryAgrees(v.mem, v.dir, v.shared, owner, tlb, p, Entry(Grab(v.base, v.frames).0));
      SetWordAt(v.mem, TableOf(v, p), p % 1024, Entry(Grab(v.base, v.frames).0), 0, 0);
      var f := GetFrame();
      mmu.StoreWord(PteAddress(a), Entry(f));
      mmu.Invlpg(a);
      FewerAgree(mmu.mem, v.dir, tlb, mmu.tlb);
      owner := owner[f := Page(p)];
    }

    /**
     An access to a page outside every pool's allocated regions stops the kernel; otherwise the page
     gets mapped. The frames stay accounted for when the pool has the ones that are needed; without
     them frame 0 is installed, and the translation buffer is right even then. With no pool registered
     even a page of the window gets mapped, which links a frame as it is as a page table.
     */
    method HandleFault(a: nat) returns (ok: bool)
      requires Valid() && RegistryOk() && a < TWO32
      modifies mmu`mem, mmu`tlb, mmu`cr3, pool`nFreeFrames, pool.bitmap, this`owner
      ensures Running()
      ensures ok <==> registered == [] || old(Covered(a / PAGE_BYTES))
      ensures !ok ==> Valid() && Base() == old(Base()) && owner == old(owner)
      ensures ok ==> Base() == MapPage(old(Base()), a / PAGE_BYTES)
      ensures ok ==> owner == MapOwner(old(Base()), old(owner), a / PAGE_BYTES)
      ensures sharedPages <= a / PAGE_BYTES < WINDOW_PAGE ==>
        old(Needed(Base(), a / PAGE_BYTES) <= FreeCount(pool.States())) ==> Valid()
    {
      hide Core, HasTable, Pte, EnsureTable, EnsureEntry, FreeCount, Covered, FramesOk, Needed, StatesOf, Owned, Grab;
      if vmPoolsHead != null {
        var legitimate := SearchPools(a);
        if !legitimate {
          return false;
        }
      }
      FramesFit();
      ghost var v := Base();
      ghost var was := owner;
      GrabUnowned(v, owner, reserved);
      CoreOwned(v, owner, reserved);
      LinkStep(a);
      MapStep(a);
      if sharedPages <= a / PAGE_BYTES < WINDOW_PAGE && Needed(v, a / PAGE_BYTES) <= FreeCount(v.frames) {
        MapPageCore(v, was, reserved, a / PAGE_BYTES);
      }
      return true;
    }

    // ----- the registered pools -----

    ghost predicate RegistryOk()
      reads this`vmPoolsHead, this`registered, registered
    {
      && vmPoolsHead == (if registered == [] then null else registered[0])
      && (registered != [] ==> registered[|registered| - 1].next == null)
      && (forall i, j :: 0 <= i < j < |registered| && j == i + 1 ==> registered[i].next == registered[j])
      && (forall i, j :: 0 <= i < j < |registered| ==> registered[i] != registered[j])
      && forall vp :: vp in registered ==> vp.Valid()
    }

    ghost predicate Covered(page: nat)
      requires RegistryOk()
      reads this`vmPoolsHead, this`registered, registered
      reads set vp | vp in registered :: vp.live, set vp | vp in registered :: vp.free
    {
      exists vp :: vp in registered && R.Legitimate(vp.Value(), page)
    }

    method SearchPools(a: nat) returns (legitimate: bool)
      requires RegistryOk()
      ensures legitimate == Covered(a / PAGE_BYTES)
    {
      var vp := vmPoolsHead;
      ghost var k := 0;
      legitimate := false;
      while vp != null
        invariant k <= |registered|
        invariant vp == if k < |registered| then registered[k] else null
        invariant forall i :: 0 <= i < k ==> !R.Legitimate(registered[i].Value(), a / PAGE_BYTES)
        decreases |registered| - k
      {
        assert registered[k] in registered;
        legitimate := vp.IsLegitimate(a);
        if legitimate {
          return;
        }
        assert k + 1 < |registered| ==> registered[k].next == registered[k + 1];
        vp := vp.next;
        k := k + 1;
      }
    }

    method RegisterPool(vp: VMPool)
      requires RegistryOk() && vp.Valid() && vp !in registered
      modifies this`vmPoolsHead, this`registered, vp`next
      ensures RegistryOk() && registered == [vp] + old(registered)
    {
      ghost var was := registered;
      vp.next := vmPoolsHead;
      vmPoolsHead := vp;
      registered := [vp] + registered;
      assert forall i :: 0 < i < |registered| ==> registered[i] == was[i - 1];
      assert forall q :: q in registered ==> q == vp || q in was;
    }

    // ----- an access -----

    /** The machine's state with the registered pools, the one registered last in front. */
    ghost function Whole(): Vm
      reads this, mmu, pool, pool.bitmap, registered
      reads set vp | vp in registered :: vp.live, set vp | vp in registered :: vp.free
      requires pool.nframes <= 4 * pool.bitmap.Length && RegistryOk()
    {
      Base().(pools := Values(registered))
    }

    lemma CoveredIsLegitimate(page: nat)
      requires RegistryOk()
      ensures Covered(page) <==> Legitimate(Values(registered), page)
    {
      if Covered(page) {
        var vp :| vp in registered && R.Legitimate(vp.Value(), page);
        var k :| 0 <= k < |registered| && registered[k] == vp;
        assert R.Legitimate(Values(registered)[k], page);
      }
    }

    /** The base of an access, whatever pools are registered. */
    lemma ReachBase(a: nat)
      requires Valid() && RegistryOk() && pool.nframes <= 4 * pool.bitmap.Length
      ensures Frame(mmu.mem, mmu.cr3, a / PAGE_BYTES).Some? ==> Reach(Whole(), a) == Some(Whole())
      ensures Frame(mmu.mem, mmu.cr3, a / PAGE_BYTES).None? ==>
        Reach(Whole(), a) == if registered == [] || Covered(a / PAGE_BYTES)
                             then Some(MapPage(Base(), a / PAGE_BYTES).(pools := Values(registered))) else None
    {
      hide Core, Frame, FramesOk, StatesOf, MapPage;
      CoveredIsLegitimate(a / PAGE_BYTES);
      MapPageIgnoresPools(Base(), a / PAGE_BYTES, Values(registered));
    }

    /** The first half of an access: translate, and on a fault call the handler. */
    method Arrive(a: nat) returns (ok: bool)
      requires Valid() && RegistryOk() && Identity(Base()) && a < TWO32 && a / PAGE_BYTES < WINDOW_PAGE
      modifies mmu`mem, mmu`tlb, mmu`cr3, pool`nFreeFrames, pool.bitmap, this`owner
      ensures Running()
      ensures ok == old(Reach(Whole(), a)).Some?
      ensures Base() == if ok then old(Reach(Whole(), a)).value.(pools := []) else old(Base())
      ensures old(Affordable(Base(), a / PAGE_BYTES)) ==>
        Valid() && Identity(Base()) && (ok ==> Frame(mmu.mem, mmu.cr3, a / PAGE_BYTES).Some?)
    {
      hide Core, Identity, Frame, FramesOk, StatesOf, MapPage, Covered, Needed, FreeCount, Reach, RegistryOk;
      FramesFit();
      ReachBase(a);
      ghost var v := Base();
      ghost var was := owner;
      var f := mmu.Translate(a);
      if f.Some? {
        return true;
      }
      AbsentIsAbove(v, a / PAGE_BYTES);
      ok := HandleFault(a);
      if ok && Needed(v, a / PAGE_BYTES) <= FreeCount(v.frames) {
        MapPageIdentity(v, was, reserved, a / PAGE_BYTES);
        MapPageFrame(v, was, reserved, a / PAGE_BYTES, a / PAGE_BYTES);
      }
    }

    /** Access, fault, retry: what the processor does with a load. None is a stop in the fault handler. */
    method LoadWord(a: nat) returns (w: Option<nat>)
      requires Valid() && RegistryOk() && Identity(Base()) && a < TWO32 && a / PAGE_BYTES < WINDOW_PAGE
      modifies mmu`mem, mmu`tlb, mmu`cr3, pool`nFreeFrames, pool.bitmap, this`owner
      ensures Running()
      ensures old(Affordable(Base(), a / PAGE_BYTES)) ==> Valid() && Identity(Base())
      ensures old(Reach(Whole(), a)).None? ==> w == None && Base() == old(Base())
      ensures old(Reach(Whole(), a)).Some? ==>
        var u := old(Reach(Whole(), a)).value;
        w == Peek(u, a) && Base() == u.(pools := [])
    {
      hide Core, Identity, Frame, FramesOk, StatesOf, Reach, RegistryOk, Word, Needed, FreeCount;
      var ok := Arrive(a);
      w := None;
      if ok {
        w := mmu.Load(a);
      }
    }

    /** The same with a store; ok is false when the fault handler stops the kernel. */
    method StoreWord(a: nat, w: nat) returns (ok: bool)
      requires Valid() && RegistryOk() && Identity(Base()) && a < TWO32 && a / PAGE_BYTES < WINDOW_PAGE
      requires Affordable(Base(), a / PAGE_BYTES)
      modifies mmu`mem, mmu`tlb, mmu`cr3, pool`nFreeFrames, pool.bitmap, this`owner
      ensures Valid() && ok == old(Store(Whole(), a, w)).Some?
      ensures Base() == if ok then old(Store(Whole(), a, w)).value.(pools := []) else old(Base())
    {
      hide Core, Identity, Frame, FramesOk, StatesOf, Reach, RegistryOk, SetWord, Needed, FreeCount;
      FramesFit();
      ok := Arrive(a);
      if ok {
        StoreData(a, w);
      }
    }

    /** A store to a mapped page reaches no table, so every cached translation stays right. */
    method StoreData(a: nat, w: nat)
      requires Valid() && Identity(Base()) && a / PAGE_BYTES < WINDOW_PAGE
      requires Frame(mmu.mem, mmu.cr3, a / PAGE_BYTES).Some?
      modifies mmu`mem, mmu`tlb
      ensures Valid()
      ensures mmu.mem == SetWord(old(mmu.mem), old(Frame(mmu.mem, mmu.cr3, a / PAGE_BYTES)).value, WordIndex(a), w)
    {
      hide Core, Identity, Frame, FramesOk, StatesOf, SetWord, Agrees, Owned;
      FramesFit();
      ghost var v := Base();
      ghost var f := Frame(v.mem, v.dir, a / PAGE_BYTES).value;
      ghost var tlb := mmu.tlb[a / PAGE_BYTES := f];
      AgreesWith(v.mem, v.dir, mmu.tlb, a / PAGE_BYTES, f);
      AgreesAfterData(v, owner, reserved, tlb, a / PAGE_BYTES, WordIndex(a), w);
      mmu.StoreWord(a, w);
    }

    // ----- freeing a page -----

    /** Some pool is registered, and none holds a page of the window. */
    ghost predicate Guarded()
      requires RegistryOk()
      reads this`vmPoolsHead, this`registered, registered
      reads set vp | vp in registered :: vp.live, set vp | vp in registered :: vp.free
    {
      registered != [] && forall page: nat :: page >= WINDOW_PAGE ==> !Covered(page)
    }

    lemma WindowUncovered(page: nat)
      requires RegistryOk() && Guarded() && page >= WINDOW_PAGE
      ensures registered != [] && !Covered(page)
    {
    }

    /** The pools' region tables are not the frame pools' bitmaps. */
    ghost predicate TablesApart()
      reads this`registered, list
    {
      forall vp, p :: vp in registered && p in list.pools ==>
        p.bitmap as object != vp.live && p.bitmap as object != vp.free
    }

    /**
     Without a page table the read of the entry faults, on an address in the window, which no pool
     holds: the fault handler stops the kernel, with everything as it was. A frame that a page has is
     always one that can be given back.
     */
    method FreePage(page: nat) returns (ok: bool)
      requires Valid() && sharedPages <= page < WINDOW_PAGE && RegistryOk()
      requires HasTable(Base(), page) || Guarded()
      modifies mmu`mem, mmu`tlb, mmu`cr3, this`owner, list.pools, set p | p in list.pools :: p.bitmap
      ensures ok == VmModel.FreePage(old(Base()), page).Some?
      ensures Valid()
      ensures Base() == if ok then VmModel.FreePage(old(Base()), page).value else old(Base())
      ensures owner == if ok then FreeOwner(old(Base()), old(owner), page) else old(owner)
    {
      hide Core, Frame, Word, Present, SetWord, FreeCount, StatesOf, Physical, Accounted, Owned, FramesOk;
      hide PageTable.RegistryOk, PageTable.Guarded, PageTable.Covered;
      CoreHolds();
      ghost var v := Base();
      CoreBounds(v, owner, reserved);
      CoreOwned(v, owner, reserved);
      OwnedFrames(v.mem, v.dir, v.shared, owner);
      var a := page * PAGE_BYTES;
      PteAddressParts(a);
      WindowFrame(v.mem, v.dir, page / 1024);
      PageMapped(v, page);
      FreePageCore(v, owner, reserved, page);
      var pte := mmu.Load(PteAddress(a));
      if pte == None {
        WindowUncovered(PteAddress(a) / PAGE_BYTES);
        ok := HandleFault(PteAddress(a));
        return;
      }
      if !Present(pte.value) {
        return true;
      }
      UnmapPage(page, pte.value);
      return true;
    }

    /** The static release_frames on a frame of the process pool. */
    method DropFrame(f: nat)
      requires FramesOk() && Drop(pool.baseFrameNo, pool.States(), f).Some?
      modifies list.pools, set p | p in list.pools :: p.bitmap
      ensures FramesOk()
      ensures Some(pool.States()) == Drop(pool.baseFrameNo, old(pool.States()), f)
    {
      hide FreeCount, StatesOf, Release, PoolList.Linked, PoolList.Separate;
      DropIs(pool.baseFrameNo, pool.States(), f);
      var found := list.ReleaseFrames(f);
    }

    /** Gives the frame back, clears the entry through the window, and drops the cached translation. */
    method UnmapPage(page: nat, pte: nat)
      requires Valid() && sharedPages <= page < WINDOW_PAGE
      requires HasTable(Base(), page) && pte == Pte(Base(), page) && Present(pte)
      modifies mmu`mem, mmu`tlb, this`owner, list.pools, set p | p in list.pools :: p.bitmap
      ensures Valid() && reserved == old(reserved)
      ensures VmModel.FreePage(old(Base()), page) == Some(Base())
      ensures owner == FreeOwner(old(Base()), old(owner), page)
    {
      hide Core, Frame, Word, Present, SetWord, FreeCount, StatesOf, Physical;
      hide Accounted, Owned, Drop, FreeOwner, FramesOk, Agrees;
      FramesFit();
      ghost var v := Base();
      ghost var was := owner;
      CoreBounds(v, owner, reserved);
      CoreOwned(v, owner, reserved);
      CoreAccounted(v, owner, reserved);
      PageMapped(v, page);
      MappedIsOwned(v, owner, reserved, page);
      FreePageCore(v, owner, reserved, page);
      var f := FrameIn(pte);
      DropAccounted(v.frames, v.base, owner, reserved, f);
      DropIs(v.base, v.frames, f);
      DropFrame(f);
      ClearEntry(page);
      owner := FreeOwner(v, owner, page);
    }

    /** Clears the page's entry through the window, and drops the cached translation. */
    method ClearEntry(page: nat)
      requires mmu.Coherent() && Owned(mmu.mem, mmu.cr3, sharedPages, owner) && page < WINDOW_PAGE
      requires Present(Word(mmu.mem, mmu.cr3, page / 1024))
      modifies mmu`mem, mmu`tlb
      ensures mmu.Coherent()
      ensures mmu.mem == SetWord(old(mmu.mem), old(FrameIn(Word(mmu.mem, mmu.cr3, page / 1024))), page % 1024, 0)
    {
      hide Frame, Word, Present, SetWord, Physical, Owned, Agrees;
      ghost var m, d := mmu.mem, mmu.cr3;
      ghost var t := FrameIn(Word(m, d, page / 1024));
      var a := page * PAGE_BYTES;
      OwnedFrames(m, d, sharedPages, owner);
      PteAddressParts(a);
      WindowFrame(m, d, page / 1024);
      ghost var tlb := mmu.tlb[PteAddress(a) / PAGE_BYTES := t];
      AgreesWith(m, d, mmu.tlb, PteAddress(a) / PAGE_BYTES, t);
      AgreesAfterEntry(m, d, sharedPages, owner, tlb, page, 0);
      SetWordAt(m, t, page % 1024, 0, 0, 0);
      mmu.StoreWord(PteAddress(a), 0);
      mmu.Invlpg(a);
    }
  }

  /** get_frames(1) answers a frame that serves nobody, or 0, which never does. */
  lemma GrabUnowned(v: Vm, owner: map<nat, Slot>, reserved: set<nat>)
    requires Core(v, owner, reserved)
    ensures Grab(v.base, v.frames).0 !in owner && Grab(v.base, v.frames).0 < FRAMES
  {
    hide Owned, Accounted, Grab, FreeCount;
    CoreBounds(v, owner, reserved);
    CoreAccounted(v, owner, reserved);
    if FreeCount(v.frames) > 0 {
      GrabAccounted(v.frames, v.base, owner, reserved, Dir);
    } else {
      GrabNothing(v.base, v.frames);
    }
  }

  lemma DropIs(base: nat, s: seq<FrameState>, f: nat)
    requires Drop(base, s, f).Some?
    ensures base <= f < base + |s| && s[f - base] == HoS && Drop(base, s, f) == Some(Release(s, f - base))
  {
  }

  lemma OneFrame(s: seq<FrameState>, base: nat)
    ensures FindWindow(s, 1) == None ==> Grab(base, s) == (0, s)
    ensures FindWindow(s, 1).Some? ==>
      var i := FindWindow(s, 1).value;
      i < |s| && Grab(base, s) == (base + i, Take(s, i, 1))
  {
    FindWindowMeaning(s, 1);
    if FindWindow(s, 1).Some? {
      assert AllFree(s, FindWindow(s, 1).value, 1);
      TakeFirst(s, FindWindow(s, 1).value);
    }
  }

  lemma ShowsDirectory(m: Ram, d: nat)
    requires SelfMapped(m, d)
    ensures Frame(m, d, WINDOW_PAGE + 1023) == Some(d)
  {
    WindowFrame(m, d, 1023);
    EntryIs(d);
  }

  /** While the new table is being zeroed, its window page keeps showing it. */
  lemma ShowsNewTable(m: Ram, d: nat, t: nat, i: nat, k: nat)
    requires Physical(m) && SelfMapped(m, d) && t < FRAMES && t != d && i <= ENTRIES && k < ENTRIES
    requires Word(m, d, k) == Entry(t)
    ensures Physical(ZeroPrefix(m, t, i)) && Frame(ZeroPrefix(m, t, i), d, WINDOW_PAGE + k) == Some(t)
  {
    ZeroPrefixWord(m, t, i, d, k);
    ZeroPrefixWord(m, t, i, d, 1023);
    WindowFrame(ZeroPrefix(m, t, i), d, k);
    EntryIs(t);
  }

  lemma FewerAgree(m: Ram, d: nat, tlb: map<nat, nat>, less: map<nat, nat>)
    requires Agrees(m, d, tlb)
    requires forall p :: p in less ==> p in tlb && less[p] == tlb[p]
    ensures Agrees(m, d, less)
  {
  }

  // ----- region tables -----

  lemma FirstFitIs(rs: seq<R.Region>, need: nat, i: nat)
    requires i <= |rs| && (forall j :: 0 <= j < i ==> rs[j].length < need) && (i < |rs| ==> rs[i].length >= need)
    ensures R.FirstFit(rs, need) == i
  {
  }

  lemma StartingAtIs(rs: seq<R.Region>, page: nat, i: nat)
    requires i <= |rs| && (forall j :: 0 <= j < i ==> rs[j].base != page) && (i < |rs| ==> rs[i].base == page)
    ensures R.StartingAt(rs, page) == i
  {
  }

  /** Removes entry i of the first n by moving the later ones down. */
  method ShiftDown(a: array<R.Region>, n: nat, i: nat)
    requires i < n <= a.Length
    modifies a
    ensures a[..n - 1] == R.RemoveAt(old(a[..n]), i)
  {
    ghost var s := a[..n];
    var j := i;
    while j + 1 < n
      invariant i <= j < n
      invariant forall k :: 0 <= k < i ==> a[k] == s[k]
      invariant forall k :: i <= k < j ==> a[k] == s[k + 1]
      invariant forall k :: j <= k < n ==> a[k] == s[k]
    {
      a[j] := a[j + 1];
      j := j + 1;
    }
    assert a[..n - 1] == s[..i] + s[i + 1..];
  }

  class VMPool {
    const basePage: nat
    const totalPages: nat
    const table: PageTable
    const live: array<R.Region>
    var nAllocated: nat
    const free: array<R.Region>
    var nFree: nat
    var next: VMPool?

    ghost predicate Valid()
      reads this
    {
      live.Length == R.MAX_REGIONS == free.Length && live != free
      && nAllocated <= R.MAX_REGIONS && nFree <= R.MAX_REGIONS
    }

    ghost function Value(): R.Pool
      requires Valid()
      reads this, live, free
    {
      R.Pool(basePage, totalPages, live[..nAllocated], free[..nFree])
    }

    /** One free region that spans the pool; the pool registers itself with the page table. */
    constructor (baseAddress: nat, size: nat, pt: PageTable)
      requires size < TWO32 && pt.RegistryOk()
      modifies pt`vmPoolsHead, pt`registered
      ensures Valid() && fresh(live) && fresh(free) && table == pt
      ensures Value() == R.NewPool(baseAddress, size)
      ensures pt.RegistryOk() && pt.registered == [this] + old(pt.registered)
    {
      basePage := baseAddress / R.PAGE_SIZE;
      totalPages := R.BytesToPages(size);
      table := pt;
      live := new R.Region[R.MAX_REGIONS](_ => R.Region(0, 0));
      free := new R.Region[R.MAX_REGIONS](_ => R.Region(0, 0));
      nAllocated, nFree := 0, 0;
      next := null;
      new;
      free[0] := R.Region(basePage, totalPages);
      nFree := 1;
      pt.RegisterPool(this);
    }

    method IsLegitimate(address: nat) returns (found: bool)
      requires Valid()
      ensures found == R.Legitimate(Value(), address / R.PAGE_SIZE)
    {
      var page := address / R.PAGE_SIZE;
      var i := 0;
      while i < nAllocated
        invariant i <= nAllocated
        invariant forall j :: 0 <= j < i ==> !live[j].Has(page)
      {
        var start := live[i].base;
        var end := start + live[i].length;
        if page >= start && page < end {
          assert Value().live[i].Has(page);
          return true;
        }
        i := i + 1;
      }
      return false;
    }

    /** The first free region with room for need pages. */
    method FindFree(need: nat) returns (i: nat)
      requires Valid()
      ensures i == R.FirstFit(Value().free, need)
    {
      i := 0;
      while i < nFree && free[i].length < need
        invariant i <= nFree
        invariant forall j :: 0 <= j < i ==> free[j].length < need
      {
        i := i + 1;
      }
      FirstFitIs(free[..nFree], need, i);
    }

    /** The first allocated region that starts at the page. */
    method FindLive(page: nat) returns (i: nat)
      requires Valid()
      ensures i == R.StartingAt(Value().live, page)
    {
      i := 0;
      while i < nAllocated && live[i].base != page
        invariant i <= nAllocated
        invariant forall j :: 0 <= j < i ==> live[j].base != page
      {
        i := i + 1;
      }
      StartingAtIs(live[..nAllocated], page, i);
    }

    /**
     First fit; ok is false when the region-table assertion fires, which is after the pages have been
     cut off the free region.
     */
    method Allocate(size: nat) returns (ok: bool, address: nat)
      requires Valid() && size < TWO32
      modifies this`nAllocated, this`nFree, live, free
      ensures Valid()
      ensures ok == R.Allocate(old(Value()), size).Done?
      ensures ok ==> R.Allocate(old(Value()), size) == R.Done(Value(), address)
      ensures !ok ==>
        var p, need := old(Value()), R.BytesToPages(size);
        R.FirstFit(p.free, need) < |p.free| && Value() == p.(free := R.Carve(p.free, R.FirstFit(p.free, need), need))
    {
      hide R.BytesToPages, R.FirstFit, R.Carve;
      if size == 0 {
        return true, 0;
      }
      var need := R.BytesToPages(size);
      var i := FindFree(need);
      if i == nFree {
        return true, 0;
      }
      ghost var was := Value();
      var base := free[i].base;
      TakeFrom(i, need);
      if nAllocated >= R.MAX_REGIONS {
        return false, 0;
      }
      live[nAllocated] := R.Region(base, need);
      nAllocated := nAllocated + 1;
      assert live[..nAllocated] == was.live + [R.Region(base, need)];
      return true, base * R.PAGE_SIZE;
    }

    /** Cuts need pages off the front of free region i. */
    method TakeFrom(i: nat, need: nat)
      requires Valid() && i < nFree && free[i].length >= need
      modifies this`nFree, free
      ensures Valid()
      ensures free[..nFree] == R.Carve(old(free[..nFree]), i, need)
    {
      free[i] := R.Region(free[i].base + need, free[i].length - need);
      assert free[..nFree] == old(free[..nFree])[i := free[i]];
      if free[i].length == 0 {
        ShiftDown(free, nFree, i);
        nFree := nFree - 1;
      }
    }

    /**
     Frees every page of the region that starts at the address and moves the region to the free table.
     When one of the assertions on the way fires ok is false: the pages before the first one without a
     page table have been freed, and the region tables are as they were.
     */
    method Release(address: nat) returns (ok: bool)
      requires Valid() && table.Valid() && table.RegistryOk() && table.Guarded() && table.TablesApart()
      requires this in table.registered
      requires forall i :: 0 <= i < nAllocated ==>
        table.sharedPages <= live[i].base && live[i].base + live[i].length <= WINDOW_PAGE
      modifies this`nAllocated, this`nFree, live, free
      modifies table.mmu`mem, table.mmu`tlb, table.mmu`cr3, table`owner
      modifies table.list.pools, set p | p in table.list.pools :: p.bitmap
      ensures Valid() && table.Valid()
      ensures ok == (R.Release(old(Value()), address).Done?
        && FreePages(old(table.Base()), R.Release(old(Value()), address).result.base,
                     R.Release(old(Value()), address).result.length).Some?)
      ensures Value() == if ok then R.Release(old(Value()), address).pool else old(Value())
      ensures
        var r := VmMachine.Target(old(Value()), address);
        var n := FreedPages(old(table.Base()), r.base, r.length);
        && FreePages(old(table.Base()), r.base, n) == Some(table.Base())
        && table.owner == Without(old(table.owner), r.base, n)
        && (ok ==> n == r.length)
    {
      hide PageTable.Valid, PageTable.RegistryOk, PageTable.Guarded, FreePages, Without, Core, StatesOf, FreedPages;
      hide R.StartingAt, R.RemoveAt, Physical;
      ghost var was := Value();
      ghost var owner := table.owner;
      table.CoreHolds();
      var idx := FindLive(address / R.PAGE_SIZE);
      if idx == nAllocated {
        NothingFreed(table.Base(), owner);
        return false;
      }
      ok := FreeRegionPages(live[idx]);
      if !ok || nFree >= R.MAX_REGIONS {
        return false;
      }
      table.CoreHolds();
      label Freed:
      MoveRegion(idx);
      assert table.Base() == old@Freed(table.Base());
      assert table.Valid();
    }

    /** The region goes to the end of the free table, and the later allocated ones move down. */
    method MoveRegion(idx: nat)
      requires Valid() && idx < nAllocated && nFree < R.MAX_REGIONS
      modifies this`nAllocated, this`nFree, live, free
      ensures Valid()
      ensures Value() == old(Value()).(live := R.RemoveAt(old(Value()).live, idx),
                                       free := old(Value()).free + [old(Value()).live[idx]])
    {
      ghost var was := Value();
      free[nFree] := live[idx];
      nFree := nFree + 1;
      ShiftDown(live, nAllocated, idx);
      nAllocated := nAllocated - 1;
      assert free[..nFree] == was.free + [was.live[idx]];
    }

    /** The loop of release over the region's pages. */
    method FreeRegionPages(r: R.Region) returns (ok: bool)
      requires table.Valid() && table.RegistryOk() && table.Guarded() && table.TablesApart()
      requires table.sharedPages <= r.base && r.base + r.length <= WINDOW_PAGE
      modifies table.mmu`mem, table.mmu`tlb, table.mmu`cr3, table`owner
      modifies table.list.pools, set p | p in table.list.pools :: p.bitmap
      ensures table.Valid()
      ensures ok == FreePages(old(table.Base()), r.base, r.length).Some?
      ensures
        var n := FreedPages(old(table.Base()), r.base, r.length);
        && FreePages(old(table.Base()), r.base, n) == Some(table.Base())
        && table.owner == Without(old(table.owner), r.base, n)
        && (ok ==> n == r.length)
    {
      hide PageTable.Valid, Core, VmModel.FreePage, FreePages, Without, StatesOf, FreedPages;
      hide PageTable.RegistryOk, PageTable.Guarded;
      table.CoreHolds();
      FreePagesNext(table.Base(), r.base, 0);
      ghost var v := table.Base();
      ghost var owner := table.owner;
      WithoutNone(owner, r.base);
      var p := 0;
      while p < r.length
        invariant p <= r.length
        invariant table.Valid() && table.RegistryOk() && table.Guarded()
        invariant table.reserved == old(table.reserved)
        invariant FreePages(v, r.base, p) == Some(table.Base())
        invariant table.owner == Without(owner, r.base, p)
      {
        FreePagesNext(v, r.base, p);
        table.CoreHolds();
        WithoutStep(table.Base(), owner, table.reserved, r.base, p + 1);
        ok := table.FreePage(r.base + p);
        if !ok {
          FreePagesStop(v, r.base, p, r.length);
          FreedPagesIs(v, r.base, p, r.length);
          return false;
        }
        p := p + 1;
      }
      FreedPagesIs(v, r.base, p, r.length);
      return true;
    }
  }

  lemma FreePagesNext(v: Vm, start: nat, p: nat)
    ensures FreePages(v, start, 0) == Some(v)
    ensures FreePages(v, start, p).Some? ==>
      FreePages(v, start, p + 1) == VmModel.FreePage(FreePages(v, start, p).value, start + p)
  {
  }

  /** How many pages of the range are freed before the first one that stops the kernel. */
  function FreedPages(v: Vm, start: nat, n: nat): nat {
    if n == 0 || FreePages(v, start, n).Some? then n else FreedPages(v, start, n - 1)
  }

  lemma {:induction false} FreedPagesIs(v: Vm, start: nat, p: nat, n: nat)
    requires p <= n && FreePages(v, start, p).Some?
    requires p < n ==> VmModel.FreePage(FreePages(v, start, p).value, start + p).None?
    ensures FreedPages(v, start, n) == p
  {
    hide FreePages;
    if p < n {
      FreePagesStop(v, start, p, n);
      if p < n - 1 {
        FreedPagesIs(v, start, p, n - 1);
      }
    }
  }

  lemma NothingFreed(v: Vm, owner: map<nat, Slot>)
    ensures FreedPages(v, 0, 0) == 0 && FreePages(v, 0, 0) == Some(v) && Without(owner, 0, 0) == owner
  {
  }

  lemma WithoutNone(owner: map<nat, Slot>, start: nat)
    ensures Without(owner, start, 0) == owner
  {
  }

  /** Once freeing a page stops, freeing any longer range stops too. */
  lemma {:induction false} FreePagesStop(v: Vm, start: nat, p: nat, n: nat)
    requires p < n && FreePages(v, start, p).Some? && VmModel.FreePage(FreePages(v, start, p).value, start + p).None?
    ensures FreePages(v, start, n).None?
  {
    if p + 1 < n {
      FreePagesStop(v, start, p, n - 1);
    }
  }
}
