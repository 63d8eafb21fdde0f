/**
 Physical memory, the x86 two-level page walk, and the recursive window through which the
 kernel edits its own page tables.
 */
module Paging {
  import opened Bytes

  const FRAMES: nat := 0x10_0000
  const ENTRIES: nat := 1024
  const PAGE_BYTES: nat := 4096
  /** The first page of the recursive window, 0xFFC00000 / 4096. */
  const WINDOW_PAGE: nat := 1023 * 1024

  /** Frame number, then word number. */
  type Ram = seq<seq<nat>>

  predicate Physical(m: Ram) {
    |m| == FRAMES && forall f :: 0 <= f < |m| ==> |m[f]| == ENTRIES
  }

  function Word(m: Ram, f: nat, i: nat): nat {
    if f < |m| && i < |m[f]| then m[f][i] else 0
  }

  function SetWord(m: Ram, f: nat, i: nat, w: nat): Ram {
    if f < |m| && i < |m[f]| then
      var row: seq<nat> := m[f][i := w];
      m[f := row]
    else m
  }

  function Zeros(): (z: seq<nat>)
    ensures |z| == ENTRIES
  {
    seq(ENTRIES, _ => 0)
  }

  function SetRow(m: Ram, f: nat, row: seq<nat>): Ram {
    if f < |m| then m[f := row] else m
  }

  lemma SetWordAt(m: Ram, f: nat, i: nat, w: nat, g: nat, j: nat)
    requires Physical(m) && f < FRAMES && i < ENTRIES
    ensures Physical(SetWord(m, f, i, w))
    ensures Word(SetWord(m, f, i, w), g, j) == if g == f && j == i then w else Word(m, g, j)
  {
  }

  lemma SetRowAt(m: Ram, f: nat, row: seq<nat>, g: nat, j: nat)
    requires Physical(m) && f < FRAMES && |row| == ENTRIES
    ensures Physical(SetRow(m, f, row))
    ensures Word(SetRow(m, f, row), g, j) ==
      if g == f then (if j < ENTRIES then row[j] else 0) else Word(m, g, j)
  {
  }

  // ----- entries -----

  /** `(frame << 12) | P_PRESENT | P_RW` */
  function Entry(f: nat): nat {
    f * 4096 + 3
  }

  predicate Present(w: nat) {
    w % 2 == 1
  }

  /** `(entry >> 12) & 0xFFFFF` */
  function FrameIn(w: nat): (f: nat)
    ensures f < FRAMES
  {
    w / 4096 % FRAMES
  }

  lemma EntryIs(f: nat)
    requires f < FRAMES
    ensures Present(Entry(f)) && FrameIn(Entry(f)) == f && Entry(f) < TWO32
  {
    assert Entry(f) == 4096 * f + 3 && Entry(f) == 2 * (2048 * f + 1) + 1;
    assert Entry(f) / 4096 == f;
  }

  // ----- the walk -----

  /** The frame that a page translates to. */
  function Frame(m: Ram, cr3: nat, page: nat): Option<nat> {
    var pde := Word(m, cr3, page / 1024);
    if !Present(pde) then None
    else
      var pte := Word(m, FrameIn(pde), page % 1024);
      if Present(pte) then Some(FrameIn(pte)) else None
  }

  /** The physical address of a 32-bit linear address. */
  function Walk(m: Ram, cr3: nat, a: nat): Option<nat> {
    match Frame(m, cr3, a / PAGE_BYTES)
    case None => None
    case Some(f) => Some(f * PAGE_BYTES + a % PAGE_BYTES)
  }

  // ----- the window -----

  function DirIndex(a: nat): (i: nat)
    ensures i < ENTRIES
  {
    a / 0x40_0000 % 1024
  }

  function TableIndex(a: nat): (i: nat)
    ensures i < ENTRIES
  {
    a / 4096 % 1024
  }

  function PdeAddress(a: nat): nat {
    0xFFFF_F000 + DirIndex(a) * 4
  }

  function PteAddress(a: nat): nat {
    0xFFC0_0000 + DirIndex(a) * 4096 + TableIndex(a) * 4
  }

  /** The directory maps itself through its last entry. */
  predicate SelfMapped(m: Ram, d: nat) {
    d < FRAMES && Word(m, d, 1023) == Entry(d)
  }

  /** Through the window, the walk of PDE_address(a) is the physical address of a's directory entry. */
  lemma WalkOfPdeAddress(m: Ram, d: nat, a: nat)
    requires SelfMapped(m, d) && a < TWO32
    ensures Walk(m, d, PdeAddress(a)) == Some(d * PAGE_BYTES + 4 * (a / 0x40_0000))
  {
    EntryIs(d);
    assert PdeAddress(a) / PAGE_BYTES == 1023 * 1024 + 1023;
    assert PdeAddress(a) % PAGE_BYTES == 4 * DirIndex(a);
  }

  /**
   The walk of PTE_address(a) is the physical address of a's table entry, and it exists exactly
   when a's table does.
   */
  lemma WalkOfPteAddress(m: Ram, d: nat, a: nat)
    requires SelfMapped(m, d) && a < TWO32
    ensures
      var pde := Word(m, d, a / 0x40_0000);
      Walk(m, d, PteAddress(a)) ==
        if Present(pde) then Some(FrameIn(pde) * PAGE_BYTES + 4 * (a / 4096 % 1024)) else None
  {
    EntryIs(d);
    assert PteAddress(a) / PAGE_BYTES == 1023 * 1024 + DirIndex(a);
    assert PteAddress(a) % PAGE_BYTES == 4 * TableIndex(a);
  }

  /** Page 1023 * 1024 + i of the window shows page table i. */
  lemma WindowFrame(m: Ram, d: nat, i: nat)
    requires SelfMapped(m, d) && i < ENTRIES
    ensures Frame(m, d, WINDOW_PAGE + i) ==
      if Present(Word(m, d, i)) then Some(FrameIn(Word(m, d, i))) else None
  {
    EntryIs(d);
  }

  /** A store outside the directory does not change what the window shows. */
  lemma WindowStays(m: Ram, d: nat, f: nat, j: nat, w: nat, p: nat)
    requires Physical(m) && SelfMapped(m, d) && f < FRAMES && j < ENTRIES && f != d
    requires WINDOW_PAGE <= p < FRAMES
    ensures Frame(SetWord(m, f, j, w), d, p) == Frame(m, d, p)
  {
    SetWordAt(m, f, j, w, d, 1023);
    SetWordAt(m, f, j, w, d, p - WINDOW_PAGE);
    WindowFrame(m, d, p - WINDOW_PAGE);
    WindowFrame(SetWord(m, f, j, w), d, p - WINDOW_PAGE);
  }

  lemma PdeAddressParts(a: nat)
    requires a < TWO32
    ensures PdeAddress(a) < TWO32 && PdeAddress(a) / PAGE_BYTES == WINDOW_PAGE + 1023
    ensures PdeAddress(a) % PAGE_BYTES / 4 == a / PAGE_BYTES / 1024
  {
    assert PdeAddress(a) % PAGE_BYTES == 4 * DirIndex(a);
  }

  lemma PteAddressParts(a: nat)
    requires a < TWO32
    ensures PteAddress(a) < TWO32 && PteAddress(a) / PAGE_BYTES == WINDOW_PAGE + a / PAGE_BYTES / 1024
    ensures PteAddress(a) % PAGE_BYTES / 4 == a / PAGE_BYTES % 1024
  {
    assert PteAddress(a) % PAGE_BYTES == 4 * TableIndex(a);
  }

  // ----- editing the tables -----

  /** Frame t, filled with the given entries, becomes the page table of directory slot i. */
  function LinkRow(m: Ram, d: nat, i: nat, t: nat, row: seq<nat>): Ram {
    SetWord(SetRow(m, t, row), d, i, Entry(t))
  }

  function LinkTable(m: Ram, d: nat, i: nat, t: nat): Ram {
    LinkRow(m, d, i, t, Zeros())
  }

  /**
   The fault handler's edit by direct physical accesses: link table t if there is none, then map
   page to f if it is absent.
   */
  function MapDirect(m: Ram, d: nat, page: nat, t: nat, f: nat): Ram {
    var m1 := if Present(Word(m, d, page / 1024)) then m else LinkTable(m, d, page / 1024, t);
    var table := FrameIn(Word(m1, d, page / 1024));
    if Present(Word(m1, table, page % 1024)) then m1 else SetWord(m1, table, page % 1024, Entry(f))
  }

  // ----- what the frames are used for -----

  datatype Slot = Dir | Table(i: nat) | Page(q: nat)

  /** The frame that a slot of the address space holds. Pages below shared are identity mapped and hold nothing. */
  function Held(m: Ram, d: nat, shared: nat, slot: Slot): Option<nat> {
    match slot
    case Dir => Some(d)
    case Table(i) => if i < 1023 && Present(Word(m, d, i)) then Some(FrameIn(Word(m, d, i))) else None
    case Page(q) => if shared <= q < WINDOW_PAGE then Frame(m, d, q) else None
  }

  /** owner says exactly which frames the address space holds, and for what: so no two slots share a frame. */
  ghost predicate Owned(m: Ram, d: nat, shared: nat, owner: map<nat, Slot>) {
    && Physical(m) && SelfMapped(m, d)
    && (forall slot :: Held(m, d, shared, slot).Some? ==>
      Held(m, d, shared, slot).value in owner && owner[Held(m, d, shared, slot).value] == slot)
    && (forall f :: f in owner ==> Held(m, d, shared, owner[f]) == Some(f))
  }

  lemma HeldIsOwned(m: Ram, d: nat, shared: nat, owner: map<nat, Slot>, slot: Slot)
    requires Owned(m, d, shared, owner) && Held(m, d, shared, slot).Some?
    ensures Held(m, d, shared, slot).value in owner && owner[Held(m, d, shared, slot).value] == slot
  {
  }

  lemma OwnedFrames(m: Ram, d: nat, shared: nat, owner: map<nat, Slot>)
    requires Owned(m, d, shared, owner)
    ensures Physical(m) && SelfMapped(m, d)
    ensures d in owner && owner[d] == Dir
  {
    HeldIsOwned(m, d, shared, owner, Dir);
  }

  lemma TableIsOwned(m: Ram, d: nat, shared: nat, owner: map<nat, Slot>, i: nat)
    requires Owned(m, d, shared, owner) && i < 1023 && Present(Word(m, d, i))
    ensures FrameIn(Word(m, d, i)) in owner && owner[FrameIn(Word(m, d, i))] == Table(i)
  {
    HeldIsOwned(m, d, shared, owner, Table(i));
  }

  // ----- linking a table -----

  lemma LinkWord(m: Ram, d: nat, i: nat, t: nat, row: seq<nat>, g: nat, j: nat)
    requires Physical(m) && d < FRAMES && t < FRAMES && i < ENTRIES && |row| == ENTRIES
    ensures Physical(LinkRow(m, d, i, t, row))
    ensures Word(LinkRow(m, d, i, t, row), g, j) ==
      if g == d && j == i then Entry(t)
      else if g == t then (if j < ENTRIES then row[j] else 0)
      else Word(m, g, j)
  {
    SetRowAt(m, t, row, g, j);
    SetWordAt(SetRow(m, t, row), d, i, Entry(t), g, j);
  }

  /** The pages of the new table translate as its entries say, and no other translation below the window changes. */
  lemma LinkFrame(m: Ram, d: nat, shared: nat, owner: map<nat, Slot>, i: nat, t: nat, row: seq<nat>, q: nat)
    requires Owned(m, d, shared, owner) && t !in owner && t < FRAMES && |row| == ENTRIES
    requires i < 1023 && !Present(Word(m, d, i)) && q < WINDOW_PAGE
    ensures Frame(LinkRow(m, d, i, t, row), d, q) ==
      if q / 1024 != i then Frame(m, d, q)
      else if Present(row[q % 1024]) then Some(FrameIn(row[q % 1024]))
      else None
  {
    OwnedFrames(m, d, shared, owner);
    LinkWord(m, d, i, t, row, d, q / 1024);
    if q / 1024 == i {
      EntryIs(t);
      LinkWord(m, d, i, t, row, t, q % 1024);
    } else if Present(Word(m, d, q / 1024)) {
      TableIsOwned(m, d, shared, owner, q / 1024);
      LinkWord(m, d, i, t, row, FrameIn(Word(m, d, q / 1024)), q % 1024);
    }
  }

  /** Linking an empty table changes no translation below the window. */
  lemma LinkTableFrame(m: Ram, d: nat, shared: nat, owner: map<nat, Slot>, i: nat, t: nat, q: nat)
    requires Owned(m, d, shared, owner) && t !in owner && t < FRAMES
    requires i < 1023 && !Present(Word(m, d, i)) && q < WINDOW_PAGE
    ensures Frame(LinkTable(m, d, i, t), d, q) == Frame(m, d, q)
  {
    LinkFrame(m, d, shared, owner, i, t, Zeros(), q);
  }

  /** The entries of a new table that are present are for identity-mapped pages only. */
  ghost predicate OnlyShared(row: seq<nat>, i: nat, shared: nat) {
    |row| == ENTRIES && forall j :: 0 <= j < ENTRIES && shared <= 1024 * i + j ==> !Present(row[j])
  }

  /** Linking a fresh table gives that frame to the directory slot and takes nothing from anyone. */
  lemma LinkHeld(m: Ram, d: nat, shared: nat, owner: map<nat, Slot>, i: nat, t: nat, row: seq<nat>, slot: Slot)
    requires Owned(m, d, shared, owner) && t !in owner && t < FRAMES && OnlyShared(row, i, shared)
    requires i < 1023 && !Present(Word(m, d, i))
    ensures Held(LinkRow(m, d, i, t, row), d, shared, slot) ==
      if slot == Table(i) then Some(t) else Held(m, d, shared, slot)
  {
    OwnedFrames(m, d, shared, owner);
    EntryIs(t);
    match slot {
      case Dir =>
      case Table(j) => LinkWord(m, d, i, t, row, d, j);
      case Page(q) =>
        if shared <= q < WINDOW_PAGE {
          LinkFrame(m, d, shared, owner, i, t, row, q);
          assert q / 1024 == i ==> q == 1024 * i + q % 1024;
        }
    }
  }

  lemma LinkOwned(m: Ram, d: nat, shared: nat, owner: map<nat, Slot>, i: nat, t: nat, row: seq<nat>)
    requires Owned(m, d, shared, owner) && t !in owner && t < FRAMES && OnlyShared(row, i, shared)
    requires i < 1023 && !Present(Word(m, d, i))
    ensures Owned(LinkRow(m, d, i, t, row), d, shared, owner[t := Table(i)])
  {
    hide LinkRow, Held, Word, Present, Entry, Physical;
    OwnedFrames(m, d, shared, owner);
    LinkWord(m, d, i, t, row, d, 1023);
    var m1 := LinkRow(m, d, i, t, row);
    forall slot
      ensures Held(m1, d, shared, slot) == if slot == Table(i) then Some(t) else Held(m, d, shared, slot)
    {
      LinkHeld(m, d, shared, owner, i, t, row, slot);
    }
    NoTable(m, d, shared, i);
  }

  lemma LinkTableOwned(m: Ram, d: nat, shared: nat, owner: map<nat, Slot>, i: nat, t: nat)
    requires Owned(m, d, shared, owner) && t !in owner && t < FRAMES
    requires i < 1023 && !Present(Word(m, d, i))
    ensures Owned(LinkTable(m, d, i, t), d, shared, owner[t := Table(i)])
  {
    LinkOwned(m, d, shared, owner, i, t, Zeros());
  }

  lemma NoTable(m: Ram, d: nat, shared: nat, i: nat)
    requires !Present(Word(m, d, i))
    ensures Held(m, d, shared, Table(i)) == None
  {
  }

  // ----- writing a table entry -----

  /** Writing entry j of table i changes the translation of that one page. */
  lemma PteFrame(m: Ram, d: nat, shared: nat, owner: map<nat, Slot>, i: nat, j: nat, w: nat, q: nat)
    requires Owned(m, d, shared, owner) && i < 1023 && j < ENTRIES && Present(Word(m, d, i)) && q < WINDOW_PAGE
    ensures Frame(SetWord(m, FrameIn(Word(m, d, i)), j, w), d, q) ==
      if q == 1024 * i + j then (if Present(w) then Some(FrameIn(w)) else None) else Frame(m, d, q)
  {
    OwnedFrames(m, d, shared, owner);
    var table := FrameIn(Word(m, d, i));
    TableIsOwned(m, d, shared, owner, i);
    SetWordAt(m, table, j, w, d, q / 1024);
    if Present(Word(m, d, q / 1024)) {
      TableIsOwned(m, d, shared, owner, q / 1024);
      SetWordAt(m, table, j, w, FrameIn(Word(m, d, q / 1024)), q % 1024);
    }
  }

  lemma PteHeld(m: Ram, d: nat, shared: nat, owner: map<nat, Slot>, i: nat, j: nat, w: nat, slot: Slot)
    requires Owned(m, d, shared, owner) && i < 1023 && j < ENTRIES && Present(Word(m, d, i))
    requires shared <= 1024 * i + j
    ensures Held(SetWord(m, FrameIn(Word(m, d, i)), j, w), d, shared, slot) ==
      if slot == Page(1024 * i + j) then (if Present(w) then Some(FrameIn(w)) else None)
      else Held(m, d, shared, slot)
  {
    OwnedFrames(m, d, shared, owner);
    TableIsOwned(m, d, shared, owner, i);
    match slot {
      case Dir =>
      case Table(k) => SetWordAt(m, FrameIn(Word(m, d, i)), j, w, d, k);
      case Page(q) =>
        if shared <= q < WINDOW_PAGE {
          PteFrame(m, d, shared, owner, i, j, w, q);
        }
    }
  }

  /** Mapping an absent page to a fresh frame. */
  lemma MapOwned(m: Ram, d: nat, shared: nat, owner: map<nat, Slot>, i: nat, j: nat, f: nat)
    requires Owned(m, d, shared, owner) && i < 1023 && j < ENTRIES && Present(Word(m, d, i))
    requires shared <= 1024 * i + j && Held(m, d, shared, Page(1024 * i + j)) == None
    requires f !in owner && f < FRAMES
    ensures Owned(SetWord(m, FrameIn(Word(m, d, i)), j, Entry(f)), d, shared, owner[f := Page(1024 * i + j)])
  {
    hide SetWord, Held, Word, Present, Entry, FrameIn, Physical;
    OwnedFrames(m, d, shared, owner);
    TableIsOwned(m, d, shared, owner, i);
    var table := FrameIn(Word(m, d, i));
    SetWordAt(m, table, j, Entry(f), d, 1023);
    EntryIs(f);
    var m1 := SetWord(m, table, j, Entry(f));
    forall slot
      ensures Held(m1, d, shared, slot) == if slot == Page(1024 * i + j) then Some(f) else Held(m, d, shared, slot)
    {
      PteHeld(m, d, shared, owner, i, j, Entry(f), slot);
    }
  }

  /** Clearing a page's entry gives up its frame. */
  lemma UnmapOwned(m: Ram, d: nat, shared: nat, owner: map<nat, Slot>, i: nat, j: nat)
    requires Owned(m, d, shared, owner) && i < 1023 && j < ENTRIES && Present(Word(m, d, i))
    requires shared <= 1024 * i + j && Held(m, d, shared, Page(1024 * i + j)).Some?
    ensures Owned(SetWord(m, FrameIn(Word(m, d, i)), j, 0), d, shared,
                  owner - {Held(m, d, shared, Page(1024 * i + j)).value})
  {
    hide SetWord, Held, Word, Entry, FrameIn, Physical;
    OwnedFrames(m, d, shared, owner);
    TableIsOwned(m, d, shared, owner, i);
    var table := FrameIn(Word(m, d, i));
    SetWordAt(m, table, j, 0, d, 1023);
    var m1 := SetWord(m, table, j, 0);
    forall slot
      ensures Held(m1, d, shared, slot) == if slot == Page(1024 * i + j) then None else Held(m, d, shared, slot)
    {
      PteHeld(m, d, shared, owner, i, j, 0, slot);
    }
    HeldIsOwned(m, d, shared, owner, Page(1024 * i + j));
  }

  // ----- writing data -----

  /** A store to a frame that is neither the directory nor a table changes no translation at all. */
  lemma DataFrame(m: Ram, d: nat, shared: nat, owner: map<nat, Slot>, f: nat, j: nat, w: nat, q: nat)
    requires Owned(m, d, shared, owner) && f < FRAMES && j < ENTRIES
    requires f in owner ==> owner[f].Page?
    requires q < WINDOW_PAGE
    ensures Frame(SetWord(m, f, j, w), d, q) == Frame(m, d, q)
  {
    OwnedFrames(m, d, shared, owner);
    SetWordAt(m, f, j, w, d, q / 1024);
    if Present(Word(m, d, q / 1024)) {
      TableIsOwned(m, d, shared, owner, q / 1024);
      SetWordAt(m, f, j, w, FrameIn(Word(m, d, q / 1024)), q % 1024);
    }
  }

  lemma DataHeld(m: Ram, d: nat, shared: nat, owner: map<nat, Slot>, f: nat, j: nat, w: nat, slot: Slot)
    requires Owned(m, d, shared, owner) && f < FRAMES && j < ENTRIES
    requires f in owner ==> owner[f].Page?
    ensures Held(SetWord(m, f, j, w), d, shared, slot) == Held(m, d, shared, slot)
  {
    OwnedFrames(m, d, shared, owner);
    match slot {
      case Dir =>
      case Table(k) => SetWordAt(m, f, j, w, d, k);
      case Page(q) =>
        if shared <= q < WINDOW_PAGE {
          DataFrame(m, d, shared, owner, f, j, w, q);
        }
    }
  }

  lemma DataOwned(m: Ram, d: nat, shared: nat, owner: map<nat, Slot>, f: nat, j: nat, w: nat)
    requires Owned(m, d, shared, owner) && f < FRAMES && j < ENTRIES
    requires f in owner ==> owner[f].Page?
    ensures Owned(SetWord(m, f, j, w), d, shared, owner)
  {
    hide SetWord, Held, Word, Entry, Physical;
    OwnedFrames(m, d, shared, owner);
    SetWordAt(m, f, j, w, d, 1023);
    forall slot
      ensures Held(SetWord(m, f, j, w), d, shared, slot) == Held(m, d, shared, slot)
    {
      DataHeld(m, d, shared, owner, f, j, w, slot);
    }
  }

  // ----- the constructor -----

  /** An otherwise empty directory that maps itself. */
  function NewDirectory(m: Ram, d: nat): Ram {
    SetWord(SetRow(m, d, Zeros()), d, 1023, Entry(d))
  }

  function SharedEntry(q: nat, shared: nat): nat {
    if q < shared then Entry(q) else 0
  }

  /** The identity entries of the shared region's table i. */
  function SharedRow(i: nat, shared: nat): (row: seq<nat>)
    ensures |row| == ENTRIES
  {
    seq<nat>(ENTRIES, j requires 0 <= j < ENTRIES => SharedEntry(1024 * i + j, shared))
  }

  lemma SharedRowOnly(i: nat, shared: nat)
    ensures OnlyShared(SharedRow(i, shared), i, shared)
  {
    forall j | 0 <= j < ENTRIES && shared <= 1024 * i + j
      ensures !Present(SharedRow(i, shared)[j])
    {
      assert SharedRow(i, shared)[j] == SharedEntry(1024 * i + j, shared);
    }
  }

  lemma NewDirectoryOwned(m: Ram, d: nat, shared: nat)
    requires Physical(m) && d < FRAMES
    ensures Owned(NewDirectory(m, d), d, shared, map[d := Dir])
    ensures forall i :: 0 <= i < 1023 ==> !Present(Word(NewDirectory(m, d), d, i))
  {
    var m1 := NewDirectory(m, d);
    forall i: nat | i < ENTRIES
      ensures Physical(m1) && Word(m1, d, i) == if i == 1023 then Entry(d) else 0
    {
      SetRowAt(m, d, Zeros(), d, i);
      SetWordAt(SetRow(m, d, Zeros()), d, 1023, Entry(d), d, i);
    }
    assert Word(m1, d, 1023) == Entry(d);
    hide NewDirectory, Word;
    forall slot
      ensures Held(m1, d, shared, slot) == if slot == Dir then Some(d) else None
    {
    }
  }
}
