/**
 Space accounting: the free list is what the files leave over. Each file takes its index block and one
 block for every 512 bytes, begun or full, so the map from ids to byte strings says how many blocks
 are free, when a file can be created, and when a write finds room.
 */
module FsSpace {
  import opened Bytes
  import opened FsState
  import opened FsLayout
  import opened FsOps
  import opened FsMeaning
  import opened FsFiles
  import opened FsTable
  import opened FsMachine
  import opened FsRefinement
  import opened FsTheorems
  import opened FsFullDisk

  // ----- the space that the map takes -----

  function BlocksFor(n: nat): nat {
    (n + BLOCK_SIZE - 1) / BLOCK_SIZE
  }

  /** The index block and the data blocks. */
  function Cost(f: AFile): nat {
    1 + BlocksFor(|f.bytes|)
  }

  lemma NotEmpty(a: Files)
    requires a.Keys != {}
    ensures exists id :: id in a.Keys
  {
    assert (forall id :: id !in a.Keys) ==> a.Keys == {};
  }

  ghost function Space(a: Files): nat
    decreases |a|
  {
    if a.Keys == {} then 0 else Cost(a[Pick(a)]) + Space(a - {Pick(a)})
  }

  ghost function Pick(a: Files): (id: int)
    requires a.Keys != {}
    ensures id in a
  {
    NotEmpty(a);
    var id :| id in a.Keys;
    id
  }

  /** Whichever file is counted first. */
  lemma {:induction false} SpaceSplit(a: Files, id: int)
    requires id in a
    ensures Space(a) == Cost(a[id]) + Space(a - {id})
    decreases |a|
  {
    hide Cost;
    hide Pick;
    assert id in a.Keys;
    var x := Pick(a);
    if x != id {
      SpaceSplit(a - {x}, id);
      SpaceSplit(a - {id}, x);
      assert a - {x} - {id} == a - {id} - {x};
    }
  }

  lemma SpaceUpdate(a: Files, id: int, f: AFile)
    ensures Space(a[id := f]) == Cost(f) + Space(a - {id})
    ensures id in a ==> Space(a) == Cost(a[id]) + Space(a - {id})
    ensures id !in a ==> a - {id} == a
  {
    hide Cost, Space;
    SpaceSplit(a[id := f], id);
    assert a[id := f] - {id} == a - {id};
    if id in a {
      SpaceSplit(a, id);
    }
  }

  // ----- the space that one file takes -----

  /** A file has a disk block exactly for the blocks that its bytes reach into. */
  ghost predicate Tight(fs: Fs, i: nat)
    requires i < |fs.inodes|
  {
    forall l: nat :: l < MAX_FILE_BLOCKS ==> (Ref(fs, i, l) != 0 <==> l * BLOCK_SIZE < fs.inodes[i].length)
  }

  lemma {:induction false} TightMissing(fs: Fs, i: nat, k: nat, hi: nat)
    requires i < |fs.inodes| && hi <= MAX_FILE_BLOCKS && Tight(fs, i)
    ensures
      var from := if k > BlocksFor(fs.inodes[i].length) then k else BlocksFor(fs.inodes[i].length);
      Missing(fs, i, k, hi) == if hi > from then hi - from else 0
    decreases hi - k
  {
    hide Ref;
    if k < hi {
      TightMissing(fs, i, k + 1, hi);
    }
  }

  lemma TightOfSame(a: Fs, b: Fs, i: nat)
    requires i < |a.inodes| && i < |b.inodes| && b.inodes[i] == a.inodes[i] && Tight(a, i)
    requires forall l: nat :: l < MAX_FILE_BLOCKS ==> Ref(b, i, l) == Ref(a, i, l)
    ensures Tight(b, i)
  {
    hide Ref;
  }

  lemma TightUntouched(a: Fs, b: Fs, i: nat)
    requires Untouched(a, b, i) && Tight(a, i)
    ensures i < |b.inodes| && Tight(b, i)
  {
    hide Ref, BlockAt;
    TightOfSame(a, b, i);
  }

  // ----- counting free blocks and unused inodes -----

  lemma FreeCountGive(marks: seq<bool>, x: nat)
    requires METADATA_BLOCKS <= x < |marks| && marks[x]
    ensures FreeCount(marks[x := false]) == FreeCount(marks) + 1
  {
    hide FreeCount;
    FreeCountTake(marks[x := false], METADATA_BLOCKS, x);
    assert marks[x := false][x := true] == marks;
  }

  /** Releasing the entries k.. of a file's index block frees as many blocks as are not missing. */
  lemma {:induction false} ReleasedCount(fs: Fs, i: nat, marks: seq<bool>, k: nat)
    requires Inv(fs) && Live(fs, i) && k <= MAX_FILE_BLOCKS && |marks| == |fs.marks|
    requires forall l: nat :: k <= l <= MAX_FILE_BLOCKS && Ref(fs, i, l) != 0 ==>
      Ref(fs, i, l) < |marks| && marks[Ref(fs, i, l)]
    ensures
      var after := Released(marks, Get(fs.disk, fs.inodes[i].index), k);
      && FreeCount(after) + Missing(fs, i, k, MAX_FILE_BLOCKS) == FreeCount(marks) + (MAX_FILE_BLOCKS - k)
      && fs.inodes[i].index < |after| && after[fs.inodes[i].index]
    decreases MAX_FILE_BLOCKS - k
  {
    hide Ref, Inv, FreeCount, Entry, Get;
    RefBound(fs, i, MAX_FILE_BLOCKS);
    IndexIsRef(fs, i);
    if k < MAX_FILE_BLOCKS {
      EntryIsRef(fs, i, k);
      var e := Ref(fs, i, k);
      RefBound(fs, i, k);
      var next := Unmark(marks, e);
      if e != 0 {
        FreeCountGive(marks, e);
      }
      forall l: nat | k + 1 <= l <= MAX_FILE_BLOCKS && Ref(fs, i, l) != 0
        ensures Ref(fs, i, l) < |next| && next[Ref(fs, i, l)]
      {
        if Ref(fs, i, l) == e {
          RefUnique(fs, i, k, i, l);
        }
      }
      ReleasedCount(fs, i, next, k + 1);
    }
  }

  lemma EntryIsRef(fs: Fs, i: nat, k: nat)
    requires i < |fs.inodes| && k < MAX_FILE_BLOCKS
    ensures Entry(Get(fs.disk, fs.inodes[i].index), k) == Ref(fs, i, k)
  {
  }

  /** Deleting a file gives back its index block and its data blocks. */
  lemma FreeAllCount(fs: Fs, i: nat)
    requires Inv(fs) && Live(fs, i) && Tight(fs, i)
    ensures FreeCount(FreeAll(fs, i)) == FreeCount(fs.marks) + 1 + BlocksFor(fs.inodes[i].length)
  {
    hide Ref, Inv, FreeCount, Tight, Missing, Released;
    IndexOfLive(fs, i);
    forall l: nat | l <= MAX_FILE_BLOCKS && Ref(fs, i, l) != 0
      ensures Ref(fs, i, l) < |fs.marks| && fs.marks[Ref(fs, i, l)]
    {
      RefBound(fs, i, l);
    }
    ReleasedCount(fs, i, fs.marks, 0);
    TightMissing(fs, i, 0, MAX_FILE_BLOCKS);
    LiveLength(fs, i);
    FreeCountGive(Released(fs.marks, Get(fs.disk, fs.inodes[i].index)), fs.inodes[i].index);
  }

  /** Unused inodes from i on. */
  function UnusedCount(inodes: seq<Inode>, i: nat := 0): nat
    decreases |inodes| - i
  {
    if i >= |inodes| then 0 else (if inodes[i].used then 0 else 1) + UnusedCount(inodes, i + 1)
  }

  lemma {:induction false} UnusedPositive(inodes: seq<Inode>, i: nat)
    requires i <= |inodes|
    ensures UnusedCount(inodes, i) > 0 <==> FreeInode(inodes, i).Some?
    decreases |inodes| - i
  {
    if i < |inodes| {
      UnusedPositive(inodes, i + 1);
    }
  }

  lemma {:induction false} UnusedUpdate(inodes: seq<Inode>, j: nat, n: Inode, i: nat)
    requires j < |inodes|
    ensures UnusedCount(inodes[j := n], i) + (if i <= j && !inodes[j].used then 1 else 0) ==
      UnusedCount(inodes, i) + if i <= j && !n.used then 1 else 0
    decreases |inodes| - i
  {
    if i < |inodes| {
      UnusedUpdate(inodes, j, n, i + 1);
    }
  }

  lemma {:induction false} UnusedSame(a: seq<Inode>, b: seq<Inode>, i: nat)
    requires |a| == |b| && forall j :: 0 <= j < |a| ==> a[j].used == b[j].used
    ensures UnusedCount(a, i) == UnusedCount(b, i)
    decreases |a| - i
  {
    if i < |a| {
      UnusedSame(a, b, i + 1);
    }
  }

  // ----- the accounts -----

  /** Blocks and inodes that are free, and those of the files, add up. */
  ghost predicate Balanced(fs: Fs, a: Files) {
    && FreeCount(fs.marks) + Space(a) + METADATA_BLOCKS == |fs.marks|
    && UnusedCount(fs.inodes) + |a| == MAX_INODES
  }

  ghost predicate AllTight(fs: Fs) {
    forall i: nat :: Live(fs, i) ==> Tight(fs, i)
  }

  ghost predicate Accounts(sys: Sys) {
    SysInv(sys) && AllTight(sys.fs) && Balanced(sys.fs, Abs(sys))
  }

  /** A file system of n blocks can take one more file. */
  ghost predicate CanCreate(n: nat, a: Files, id: int) {
    id !in a && |a| < MAX_INODES && Space(a) + METADATA_BLOCKS < n
  }

  /** The blocks that m more bytes at the position of file id need. */
  ghost function Growth(a: Files, id: int, m: nat): nat
    requires IsOpen(a, id)
  {
    var had, hi := BlocksFor(|a[id].bytes|), BlocksFor(a[id].pos.value + m);
    if m > 0 && hi > had then hi - had else 0
  }

  /** One step of the map, on a disk of n blocks. Every reply, Create's too, is determined by the map. */
  ghost predicate ExactSpec(n: nat, a: Files, op: Op, r: Reply, a': Files) {
    Spec(a, op, r, a') && (op.Create? ==> r == Flag(CanCreate(n, a, op.id)))
  }

  // ----- the operations that move no block -----

  lemma SameAccounts(sys: Sys, sys': Sys)
    requires Accounts(sys) && SysInv(sys') && SameRefs(sys.fs, sys'.fs)
    requires sys'.fs.marks == sys.fs.marks && sys'.fs.inodes == sys.fs.inodes
    requires Space(Abs(sys')) == Space(Abs(sys)) && |Abs(sys')| == |Abs(sys)|
    ensures Accounts(sys')
  {
    hide SysInv, Ref, Abs, Space, FreeCount, UnusedCount;
    forall i: nat | Live(sys'.fs, i)
      ensures Tight(sys'.fs, i)
    {
      TightOfSame(sys.fs, sys'.fs, i);
    }
  }

  /** Opening, closing, reading, rewinding and remounting take and give back no block. */
  lemma Quiet(sys: Sys, op: Op)
    requires SysInv(sys) && SysShape(sys) && Allowed(sys, op)
    requires op.Open? || op.Close? || op.Read? || op.Rewind? || op.AtEof? || op.Remount?
    ensures var fs' := Step(sys, op).0.fs;
      SameRefs(sys.fs, fs') && fs'.marks == sys.fs.marks && fs'.inodes == sys.fs.inodes
  {
    hide SysInv, SysShape, SameRefs, ReadFile, CloseFile, OpenFile, Mounted, HeaderSize, HandleOk, Backed, Lookup;
    Reflexive(sys.fs, 0);
    match op
    case Open(id) => QuietOpen(sys, id);
    case Close(id) => QuietClose(sys, id);
    case Read(id, n) => QuietRead(sys, id, n);
    case Remount => RemountReproduces(sys);
    case _ =>
  }

  lemma QuietOpen(sys: Sys, id: int)
    requires SysInv(sys) && SysShape(sys) && Allowed(sys, Open(id))
    ensures |sys.fs.marks| <= MAX_FS_BLOCKS
    ensures var fs' := OpenFile(sys.fs, Lookup(sys.fs.inodes, id).value).0;
      SameRefs(sys.fs, fs') && fs'.marks == sys.fs.marks && fs'.inodes == sys.fs.inodes
  {
    hide SysInv, Inv, Ref, LoadBlock, OnlyFile, SameRefs, Lookup, Contents, Dense, Logical;
    ClosedEntry(sys, id);
    var i := Lookup(sys.fs.inodes, id).value;
    Reflexive(sys.fs, i);
    if sys.fs.inodes[i].length > 0 {
      LoadMeaning(sys.fs, Shut(i), 0, false);
    }
  }

  lemma QuietClose(sys: Sys, id: int)
    requires SysInv(sys) && SysShape(sys) && HasHandle(sys, id)
    ensures var h := sys.open[SlotOf(sys, id)];
      && h.slot < |sys.fs.inodes| && StorableTable(sys.fs.inodes) && |sys.fs.marks| <= MAX_FS_BLOCKS
      && var fs' := CloseFile(sys.fs, h);
         SameRefs(sys.fs, fs') && fs'.marks == sys.fs.marks && fs'.inodes == sys.fs.inodes
  {
    hide SysInv, Inv, Ref, Flush, Save, SameRefs, OnlyFile, Untouched, Lookup, Contents, Dense, Synced, StorableTable;
    OpenEntry(sys, id);
    var h := sys.open[SlotOf(sys, id)];
    InvStorable(sys.fs);
    FlushMeaning(sys.fs, h);
    SaveMeaning(Flush(sys.fs, h));
    SameRefsTrans(sys.fs, Flush(sys.fs, h), CloseFile(sys.fs, h));
  }

  lemma QuietRead(sys: Sys, id: int, n: nat)
    requires SysInv(sys) && SysShape(sys) && Allowed(sys, Read(id, n))
    ensures var h := sys.open[SlotOf(sys, id)];
      && h.slot < |sys.fs.inodes| && |sys.fs.marks| <= MAX_FS_BLOCKS
      && var fs' := ReadFile(sys.fs, h, n).0;
         SameRefs(sys.fs, fs') && fs'.marks == sys.fs.marks && fs'.inodes == sys.fs.inodes
  {
    hide SysInv, Inv, Ref, ReadLoop, SameRefs, OnlyFile, Lookup, Contents, Dense;
    OpenEntry(sys, id);
    var h := sys.open[SlotOf(sys, id)];
    IndexOfLive(sys.fs, h.slot);
    ReadCountIs(sys.fs, h, n);
    ReadKeeps(sys.fs, h, ReadCount(sys.fs, h, n));
  }

  /** What those operations do to the map changes no length. */
  lemma QuietMap(a: Files, op: Op, r: Reply, a': Files)
    requires Spec(a, op, r, a')
    requires op.Open? || op.Close? || op.Read? || op.Rewind? || op.AtEof? || op.Remount?
    ensures Space(a') == Space(a) && |a'| == |a|
  {
    hide Space;
    if !op.AtEof? && !op.Remount? {
      SpaceUpdate(a, op.id, a'[op.id]);
      assert a' == a[op.id := a'[op.id]];
      assert a'.Keys == a.Keys;
    }
  }

  // ----- creating and deleting -----

  lemma CreateAccounts(sys: Sys, id: int)
    requires Accounts(sys) && SysShape(sys) && Allowed(sys, Create(id))
    ensures Accounts(Step(sys, Create(id)).0) && |Step(sys, Create(id)).0.fs.marks| == |sys.fs.marks|
    ensures Step(sys, Create(id)).1 == Flag(CanCreate(|sys.fs.marks|, Abs(sys), id))
  {
    hide SysInv, Inv, Ref, Abs, Space, FreeCount, UnusedCount, CreateFile, Untouched, Synced, StorableTable, Shape;
    InvOfSys(sys);
    StepRefines(sys, Create(id));
    CreateMeaning(sys.fs, id);
    AbsIs(sys);
    FreeCountPositive(sys.fs.marks, METADATA_BLOCKS);
    UnusedPositive(sys.fs.inodes, 0);
    var sys' := Step(sys, Create(id)).0;
    if CreateFile(sys.fs, id).1 {
      FreeCountTake(sys.fs.marks, METADATA_BLOCKS, FreeBlock(sys.fs.marks).value);
      var i := FreeInode(sys.fs.inodes).value;
      UnusedUpdate(sys.fs.inodes, i, sys'.fs.inodes[i], 0);
      SpaceUpdate(Abs(sys), id, AFile([], None));
      assert Abs(sys').Keys == Abs(sys).Keys + {id};
      forall j: nat | Live(sys'.fs, j)
        ensures Tight(sys'.fs, j)
      {
        if j != i {
          TightUntouched(sys.fs, sys'.fs, j);
        }
      }
    }
  }

  lemma InvOfSys(sys: Sys)
    requires SysInv(sys)
    ensures Inv(sys.fs) && |sys.fs.inodes| == MAX_INODES
  {
  }

  lemma DeleteAccounts(sys: Sys, id: int)
    requires Accounts(sys) && SysShape(sys) && Allowed(sys, Delete(id))
    ensures Accounts(Step(sys, Delete(id)).0) && |Step(sys, Delete(id)).0.fs.marks| == |sys.fs.marks|
  {
    hide SysInv, Inv, Ref, Abs, Space, FreeCount, UnusedCount, DeleteFile, Untouched, Synced, StorableTable, Shape;
    hide Owns, Lookup, Tight, FreeAll, Contents;
    InvOfSys(sys);
    StepRefines(sys, Delete(id));
    DeleteMeaning(sys.fs, id);
    AbsIs(sys);
    var sys' := Step(sys, Delete(id)).0;
    if Lookup(sys.fs.inodes, id).Some? {
      var i := Lookup(sys.fs.inodes, id).value;
      ClosedEntry(sys, id);
      ContentsLength(sys.fs, Shut(i));
      FreeAllCount(sys.fs, i);
      DeletedIs(sys.fs, id);
      UnusedUpdate(sys.fs.inodes, i, FREE_INODE, 0);
      SpaceSplit(Abs(sys), id);
      assert Abs(sys') == Abs(sys) - {id} && Abs(sys').Keys == Abs(sys).Keys - {id};
      forall j: nat | Live(sys'.fs, j)
        ensures Tight(sys'.fs, j)
      {
        TightUntouched(sys.fs, sys'.fs, j);
      }
    }
  }

  lemma DeletedIs(fs: Fs, id: int)
    requires Shape(fs) && Lookup(fs.inodes, id).Some?
    ensures DeleteFile(fs, id).0.marks == FreeAll(fs, Lookup(fs.inodes, id).value)
  {
    hide Lookup, FreeAll, InodesBlock, FreelistBlock;
  }

  // ----- writing -----

  /** A write finds room exactly when the disk has the blocks that the file grows by. */
  lemma RoomIff(sys: Sys, id: int, m: nat)
    requires Accounts(sys) && SysShape(sys) && HasHandle(sys, id)
    requires sys.open[SlotOf(sys, id)].pos + m <= MAX_FILE_SIZE
    ensures SlotOf(sys, id) < |sys.fs.inodes| && sys.open[SlotOf(sys, id)].slot == SlotOf(sys, id)
    ensures IsOpen(Abs(sys), id)
    ensures Room(sys.fs, sys.open[SlotOf(sys, id)], m) <==>
      Space(Abs(sys)) + Growth(Abs(sys), id, m) + METADATA_BLOCKS <= |sys.fs.marks|
    ensures m > 0 ==>
      var h := sys.open[SlotOf(sys, id)];
      Missing(sys.fs, h.slot, h.pos / BLOCK_SIZE, LastBlock(h.pos, m)) == Growth(Abs(sys), id, m)
  {
    hide SysInv, Inv, Ref, Abs, Space, FreeCount, UnusedCount, Missing, Tight, Lookup, Contents, Dense, Shape;
    HandleInShape(sys, id);
    OpenEntry(sys, id);
    var h := sys.open[SlotOf(sys, id)];
    if m > 0 {
      TightMissing(sys.fs, h.slot, h.pos / BLOCK_SIZE, LastBlock(h.pos, m));
    }
  }

  /** A write with room leaves the file tight, and takes the missing blocks. */
  lemma WriteLeavesTight(fs: Fs, h: Handle, d: seq<byte>)
    requires Inv(fs) && HandleOk(fs, h) && Tight(fs, h.slot) && h.pos + |d| <= MAX_FILE_SIZE && Room(fs, h, |d|)
    ensures |fs.marks| <= MAX_FS_BLOCKS
    ensures
      var (fs', h') := WriteLoop(fs, h, d);
      && Inv(fs') && OnlyFile(fs, fs', h.slot) && Live(fs', h.slot) && Tight(fs', h.slot)
      && FreeCount(fs'.marks) + (if d == [] then 0 else Missing(fs, h.slot, h.pos / BLOCK_SIZE, LastBlock(h.pos, |d|)))
         == FreeCount(fs.marks)
  {
    hide Inv, Ref, WriteLoop, OnlyFile, Missing, FreeCount;
    IndexOfLive(fs, h.slot);
    if d == [] {
      WriteNothing(fs, h);
      Reflexive(fs, h.slot);
    } else {
      WriteBacksAll(fs, h, d);
      WriteTakes(fs, h, d);
      LoopLength(fs, h, d);
    }
  }

  lemma WriteAccounts(sys: Sys, id: int, data: seq<byte>)
    requires Accounts(sys) && SysShape(sys) && Allowed(sys, Write(id, data))
    ensures Accounts(Step(sys, Write(id, data)).0) && |Step(sys, Write(id, data)).0.fs.marks| == |sys.fs.marks|
  {
    hide SysInv, Inv, Ref, Abs, Space, FreeCount, UnusedCount, Missing, Tight, Lookup, Contents, Dense, Shape;
    hide WriteLoop, OnlyFile, Room, Splice, Step, HandleOk, Backed;
    StepRefines(sys, Write(id, data));
    OpenEntry(sys, id);
    HandleInShape(sys, id);
    var h := sys.open[SlotOf(sys, id)];
    var d := data[..WriteCount(h, |data|)];
    RoomIff(sys, id, |d|);
    WriteLeavesTight(sys.fs, h, d);
    WriteStepIs(sys, id, data);
    var sys' := Step(sys, Write(id, data)).0;
    WriteMap(Abs(sys), id, data, Step(sys, Write(id, data)).1, Abs(sys'));
    OthersTight(sys.fs, sys'.fs, h.slot);
    SameUse(sys.fs, sys'.fs, h.slot);
  }

  lemma OthersTight(a: Fs, b: Fs, i: nat)
    requires OnlyFile(a, b, i) && AllTight(a) && i < |b.inodes| && Tight(b, i)
    ensures AllTight(b)
  {
    hide Untouched, Tight;
    forall j: nat | Live(b, j) && j != i
      ensures Tight(b, j)
    {
      TightUntouched(a, b, j);
    }
  }

  lemma SameUse(a: Fs, b: Fs, i: nat)
    requires OnlyFile(a, b, i)
    ensures UnusedCount(b.inodes) == UnusedCount(a.inodes) && |b.marks| == |a.marks|
  {
    hide Untouched;
    UnusedSame(a.inodes, b.inodes, 0);
  }

  /** A write makes the map larger by the growth of the file. */
  lemma WriteMap(a: Files, id: int, data: seq<byte>, r: Reply, a': Files)
    requires Spec(a, Write(id, data), r, a')
    ensures IsOpen(a, id) && |a'| == |a|
    ensures Space(a') == Space(a) + Growth(a, id, Min(|data|, MAX_FILE_SIZE - a[id].pos.value))
  {
    hide Space, Splice;
    SpaceUpdate(a, id, a'[id]);
    assert a' == a[id := a'[id]];
    assert a'.Keys == a.Keys;
  }

  // ----- every run -----

  /** The accounts hold afterwards, and the operation did to the map what the map determines. */
  ghost predicate KeepsAccounts(sys: Sys, op: Op)
    requires Accounts(sys) && Callable(sys, op)
  {
    var (sys', r) := Step(sys, op);
    && Accounts(sys') && |sys'.fs.marks| == |sys.fs.marks|
    && ExactSpec(|sys.fs.marks|, Abs(sys), op, r, Abs(sys'))
  }

  /** Every allowed operation keeps the accounts, and its reply is the one that the map determines. */
  lemma StepAccounts(sys: Sys, op: Op)
    requires Accounts(sys) && Callable(sys, op) && Allowed(sys, op)
    ensures KeepsAccounts(sys, op)
  {
    hide SysInv, Abs, Space, Spec, Allowed, Balanced, AllTight, SysShape, Step;
    StepRefines(sys, op);
    var sys' := Step(sys, op).0;
    match op
    case Create(id) =>
      CreateAccounts(sys, id);
    case Delete(id) =>
      DeleteAccounts(sys, id);
    case Write(id, data) =>
      WriteAccounts(sys, id, data);
    case _ =>
      Quiet(sys, op);
      QuietMap(Abs(sys), op, Step(sys, op).1, Abs(sys'));
      SameAccounts(sys, sys');
  }

  lemma AllowedIsCallable(sys: Sys, op: Op)
    requires SysShape(sys) && Allowed(sys, op)
    ensures Callable(sys, op)
  {
  }

  /** A run of the map on a disk of n blocks. */
  ghost predicate ExactRun(n: nat, a: Files, ops: seq<Op>, replies: seq<Reply>, end: Files)
    decreases |ops|
  {
    && |replies| == |ops|
    && if ops == [] then end == a
       else exists m :: ExactSpec(n, a, ops[0], replies[0], m) && ExactRun(n, m, ops[1..], replies[1..], end)
  }

  /** Every run of the file system is a run of the map on as many blocks, reply for reply. */
  lemma {:induction false} RunAccounts(sys: Sys, ops: seq<Op>, replies: seq<Reply>, end: Sys)
    requires Accounts(sys) && Run(sys, ops, replies, end)
    ensures Accounts(end) && ExactRun(|sys.fs.marks|, Abs(sys), ops, replies, Abs(end))
    decreases |ops|
  {
    hide Abs, SysInv, SysShape, Step, ExactSpec, Balanced, AllTight, Allowed;
    if ops != [] {
      AllowedIsCallable(sys, ops[0]);
      StepAccounts(sys, ops[0]);
      var next := Step(sys, ops[0]).0;
      RunAccounts(next, ops[1..], replies[1..], end);
      assert ExactSpec(|sys.fs.marks|, Abs(sys), ops[0], replies[0], Abs(next));
    }
  }

  // ----- from a formatted disk -----

  lemma {:induction false} FormatFree(n: nat, b: nat)
    requires METADATA_BLOCKS <= b <= n
    ensures FreeCount(FormatMarks(n), b) == n - b
    decreases n - b
  {
    if b < n {
      FormatFree(n, b + 1);
    }
  }

  lemma {:induction false} AllUnused(inodes: seq<Inode>, i: nat)
    requires i <= |inodes| && forall j :: 0 <= j < |inodes| ==> !inodes[j].used
    ensures UnusedCount(inodes, i) == |inodes| - i
    decreases |inodes| - i
  {
    if i < |inodes| {
      AllUnused(inodes, i + 1);
    }
  }

  /**
   From a freshly formatted disk of n blocks every run gives the replies of the map on n blocks, from
   the empty map on: a file can be created exactly while an id, one of 25 inodes and a block are left.
   */
  lemma FormattedRunsExactly(disk: seq<Block>, n: nat, ops: seq<Op>, replies: seq<Reply>, end: Sys)
    requires METADATA_BLOCKS <= n <= MAX_FS_BLOCKS && n <= |disk|
    requires HeaderSize(Get(Formatted(disk, n), FREELIST_BLOCK)) <= MAX_FS_BLOCKS
    requires Run(Sys(Mounted(Formatted(disk, n)), map[]), ops, replies, end)
    ensures Accounts(end) && ExactRun(n, map[], ops, replies, Abs(end))
  {
    hide SysInv, Run, ExactRun, Formatted, Mounted, HeaderSize, FreeCount, EmptyTable, FormatMarks;
    hide Synced, Abs, UnusedCount;
    FormatMounts(disk, n);
    MountOfFormatted(disk, n);
    FormatFree(n, METADATA_BLOCKS);
    var start := Sys(Mounted(Formatted(disk, n)), map[]);
    EmptyUnused(start.fs);
    AllUnused(start.fs.inodes, 0);
    assert |FormatMarks(n)| == n by { FormatLength(n); }
    RunAccounts(start, ops, replies, end);
  }

  lemma EmptyUnused(fs: Fs)
    requires fs.inodes == EmptyTable()
    ensures |fs.inodes| == MAX_INODES && forall j :: 0 <= j < |fs.inodes| ==> !fs.inodes[j].used
    ensures forall i: nat :: !Live(fs, i)
  {
    assert forall j :: 0 <= j < |fs.inodes| ==> fs.inodes[j] == FREE_INODE;
  }

  lemma FormatLength(n: nat)
    ensures |FormatMarks(n)| == n
  {
  }
}
