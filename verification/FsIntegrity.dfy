/**
 No block is ever leaked or shared, whatever the calls: on a full disk, with reads that wrap around and
 rewinds over unsaved bytes. What may go wrong there with the bytes of a file never touches the free list.
 */
module FsIntegrity {
  import opened Bytes
  import opened FsState
  import opened FsLayout
  import opened FsOps
  import opened FsMeaning
  import opened FsFiles
  import opened FsTable
  import opened FsMachine
  import opened FsRefinement
  import opened FsTheorems
  import opened FsLimits

  /** All that is owed: calls on open handles, one handle per file, none on a file that is deleted. */
  predicate Legal(sys: Sys, op: Op) {
    && SysShape(sys)
    && match op
       case Create(id) => -0x8000_0000 <= id < 0x8000_0000
       case Delete(id) => !HasHandle(sys, id)
       case Open(id) => Lookup(sys.fs.inodes, id).Some? && !HasHandle(sys, id)
       case Remount => sys.open == map[] && HeaderSize(Get(sys.fs.disk, FREELIST_BLOCK)) <= MAX_FS_BLOCKS
       case _ => HasHandle(sys, op.id)
  }

  /** The invariant of the file system, and handles on files that exist. */
  ghost predicate Sound(sys: Sys) {
    && Inv(sys.fs)
    && (forall s :: s in sys.open ==> sys.open[s].slot == s && HandleOk(sys.fs, sys.open[s]))
    && SavedIfClosed(sys)
  }

  // ----- one operation -----

  lemma KeptInode(a: Fs, b: Fs, j: nat)
    requires Untouched(a, b, j)
    ensures Live(b, j) && b.inodes[j] == a.inodes[j]
  {
  }

  lemma OtherInode(a: Fs, b: Fs, i: nat, j: nat)
    requires OnlyFile(a, b, i) && j != i && Live(a, j)
    ensures Live(b, j) && b.inodes[j] == a.inodes[j]
  {
  }

  /** A step on one file that leaves a handle on it open. */
  lemma HandleSound(sys: Sys, fs': Fs, h': Handle)
    requires Sound(sys)
    requires Inv(fs') && OnlyFile(sys.fs, fs', h'.slot) && HandleOk(fs', h')
    ensures Sound(Sys(fs', sys.open[h'.slot := h']))
  {
    hide Inv, OnlyFile, Synced, StorableTable;
    assert h'.slot in sys.open[h'.slot := h'];
    forall s | s in sys.open && s != h'.slot
      ensures HandleOk(fs', sys.open[s])
    {
      OtherInode(sys.fs, fs', h'.slot, s);
    }
  }

  /** A step on the table that touches no open file. */
  lemma TableSound(sys: Sys, fs': Fs)
    requires Sound(sys) && Inv(fs') && forall s :: s in sys.open ==> Untouched(sys.fs, fs', s)
    requires StorableTable(fs'.inodes) && |fs'.marks| <= MAX_FS_BLOCKS && Synced(fs')
    ensures Sound(sys.(fs := fs'))
  {
    hide Inv, Untouched, Synced, StorableTable;
    forall s | s in sys.open
      ensures HandleOk(fs', sys.open[s])
    {
      KeptInode(sys.fs, fs', s);
    }
  }

  lemma OpenSound(sys: Sys, i: nat)
    requires Sound(sys) && Live(sys.fs, i) && i !in sys.open && |sys.fs.marks| <= MAX_FS_BLOCKS
    ensures var (fs', h) := OpenFile(sys.fs, i); Sound(Sys(fs', sys.open[i := h]))
  {
    hide Inv, LoadBlock, OnlyFile, Sound, Logical, Ref;
    assert Inv(sys.fs) by { SoundInv(sys); }
    LiveLength(sys.fs, i);
    if sys.fs.inodes[i].length > 0 {
      LoadMeaning(sys.fs, Shut(i), 0, false);
    } else {
      Reflexive(sys.fs, i);
    }
    var (fs', h) := OpenFile(sys.fs, i);
    HandleSound(sys, fs', h);
  }

  lemma SoundInv(sys: Sys)
    requires Sound(sys)
    ensures Inv(sys.fs)
  {
  }

  lemma CloseSound(sys: Sys, s: nat)
    requires Sound(sys) && s in sys.open
    ensures StorableTable(sys.fs.inodes) && |sys.fs.marks| <= MAX_FS_BLOCKS
    ensures Sound(Sys(CloseFile(sys.fs, sys.open[s]), sys.open - {s}))
  {
    hide Inv, Flush, Save, Untouched, Synced, StorableTable, SameRefs;
    var h := sys.open[s];
    InvStorable(sys.fs);
    FlushMeaning(sys.fs, h);
    SaveMeaning(Flush(sys.fs, h));
    assert CloseFile(sys.fs, h).inodes == sys.fs.inodes;
  }

  lemma WriteSound(sys: Sys, s: nat, data: seq<byte>)
    requires Sound(sys) && s in sys.open && |sys.fs.marks| <= MAX_FS_BLOCKS
    ensures var (fs', h') := WriteFile(sys.fs, sys.open[s], data); Sound(Sys(fs', sys.open[s := h']))
  {
    hide Inv, WriteLoop, OnlyFile, Sound, Ref, Missing, FreeCount, Present;
    var h := sys.open[s];
    assert Inv(sys.fs) && HandleOk(sys.fs, h) && h.slot == s by { SoundHandle(sys, s); }
    var d := data[..WriteCount(h, |data|)];
    if d == [] {
      WriteNothing(sys.fs, h);
      Reflexive(sys.fs, s);
    } else {
      WriteBacksAll(sys.fs, h, d);
    }
    var (fs', h') := WriteFile(sys.fs, h, data);
    HandleSound(sys, fs', h');
  }

  lemma SoundHandle(sys: Sys, s: nat)
    requires Sound(sys) && s in sys.open
    ensures Inv(sys.fs) && HandleOk(sys.fs, sys.open[s]) && sys.open[s].slot == s
  {
    hide Inv;
  }

  /** The read loop, whether or not the cache has a disk block to go to. */
  lemma {:induction false} ReadLoopSound(fs: Fs, h: Handle, n: nat)
    requires Inv(fs) && HandleOk(fs, h) && h.pos + n <= fs.inodes[h.slot].length
    ensures |fs.marks| <= MAX_FS_BLOCKS
    ensures
      var (fs', h', out) := ReadLoop(fs, h, n);
      Inv(fs') && HandleOk(fs', h') && OnlyFile(fs, fs', h.slot) && h'.slot == h.slot && |out| == n
    decreases n
  {
    hide Inv, Ref, LoadBlock, OnlyFile, Logical, ReadLoop, FreeBlock;
    IndexOfLive(fs, h.slot);
    ReadLoopStep(fs, h, n);
    Reflexive(fs, h.slot);
    if n > 0 {
      var c := ChunkSize(h.pos, n);
      LoadMeaning(fs, h, h.pos / BLOCK_SIZE, false);
      var (fs1, h1) := LoadBlock(fs, h, h.pos / BLOCK_SIZE, false);
      var h2 := h1.(pos := h.pos + c);
      ReadLoopSound(fs1, h2, n - c);
      OnlyFileTrans(fs, fs1, ReadLoop(fs1, h2, n - c).0, h.slot);
    }
  }

  lemma ReadSound(sys: Sys, s: nat, n: nat)
    requires Sound(sys) && s in sys.open && |sys.fs.marks| <= MAX_FS_BLOCKS
    ensures var (fs', h', out) := ReadFile(sys.fs, sys.open[s], n); Sound(Sys(fs', sys.open[s := h']))
  {
    hide Inv, ReadLoop, OnlyFile, Sound;
    var h := sys.open[s];
    SoundHandle(sys, s);
    ReadLoopSound(sys.fs, h, ReadCount(sys.fs, h, n));
    var (fs', h', out) := ReadFile(sys.fs, h, n);
    HandleSound(sys, fs', h');
  }

  lemma RewindSound(sys: Sys, s: nat)
    requires Sound(sys) && s in sys.open
    ensures Sound(sys.(open := sys.open[s := ResetFile(sys.open[s])]))
  {
    hide Inv, OnlyFile, Sound;
    SoundHandle(sys, s);
    Reflexive(sys.fs, s);
    HandleSound(sys, sys.fs, ResetFile(sys.open[s]));
  }

  lemma CreateSound(sys: Sys, id: int)
    requires Sound(sys) && Shape(sys.fs) && -0x8000_0000 <= id < 0x8000_0000
    ensures Sound(sys.(fs := CreateFile(sys.fs, id).0))
  {
    hide Inv, Untouched, Synced, StorableTable, CreateFile, Ref, Shape;
    CreateMeaning(sys.fs, id);
    if CreateFile(sys.fs, id).1 {
      TableSound(sys, CreateFile(sys.fs, id).0);
    }
  }

  lemma DeleteSound(sys: Sys, id: int)
    requires Sound(sys) && Shape(sys.fs) && !HasHandle(sys, id)
    ensures Sound(sys.(fs := DeleteFile(sys.fs, id).0))
  {
    hide Inv, Untouched, Synced, StorableTable, DeleteFile, Owns, Shape, Lookup;
    DeleteMeaning(sys.fs, id);
    if DeleteFile(sys.fs, id).1 {
      TableSound(sys, DeleteFile(sys.fs, id).0);
    }
  }

  lemma RemountSound(sys: Sys)
    requires Sound(sys) && sys.open == map[]
    requires HeaderSize(Get(sys.fs.disk, FREELIST_BLOCK)) <= MAX_FS_BLOCKS
    ensures Sound(Sys(Mounted(sys.fs.disk), map[]))
  {
    hide Inv, Synced, StorableTable, Mounted, HeaderSize;
    InvShape(sys.fs);
    MountOfSynced(sys.fs);
  }

  /** Every legal operation keeps the invariant. */
  lemma StepSound(sys: Sys, op: Op)
    requires Sound(sys) && Legal(sys, op)
    ensures Sound(Step(sys, op).0)
  {
    hide Sound, Shape, Lookup, CreateFile, DeleteFile, OpenFile, ReadFile, WriteFile, CloseFile, Mounted, HeaderSize;
    LegalShape(sys, op);
    match op
    case Create(id) => CreateSound(sys, id);
    case Delete(id) => DeleteSound(sys, id);
    case Open(id) =>
      LookupSound(sys.fs, id);
      OpenSound(sys, Lookup(sys.fs.inodes, id).value);
    case Close(id) => CloseSound(sys, SlotOf(sys, id));
    case Write(id, data) => WriteSound(sys, SlotOf(sys, id), data);
    case Read(id, n) => ReadSound(sys, SlotOf(sys, id), n);
    case Rewind(id) => RewindSound(sys, SlotOf(sys, id));
    case AtEof(id) =>
    case Remount => RemountSound(sys);
  }

  lemma LegalShape(sys: Sys, op: Op)
    requires Legal(sys, op)
    ensures SysShape(sys) && Shape(sys.fs) && |sys.fs.marks| <= MAX_FS_BLOCKS
    ensures op.Create? ==> -0x8000_0000 <= op.id < 0x8000_0000
    ensures op.Remount? ==> HeaderSize(Get(sys.fs.disk, FREELIST_BLOCK)) <= MAX_FS_BLOCKS
  {
  }

  // ----- runs -----

  ghost predicate LegalRun(sys: Sys, ops: seq<Op>, end: Sys)
    decreases |ops|
  {
    if ops == [] then end == sys
    else Legal(sys, ops[0]) && LegalRun(Step(sys, ops[0]).0, ops[1..], end)
  }

  lemma {:induction false} RunSound(sys: Sys, ops: seq<Op>, end: Sys)
    requires Sound(sys) && LegalRun(sys, ops, end)
    ensures Sound(end)
    decreases |ops|
  {
    hide Sound, Legal, Step;
    if ops != [] {
      LegalShape(sys, ops[0]);
      StepSound(sys, ops[0]);
      RunSound(Step(sys, ops[0]).0, ops[1..], end);
    }
  }

  /**
   After any legal run from a freshly formatted disk, full disk and all: a block is marked taken exactly
   when it is a metadata block or is referenced, in one place, by one used inode.
   */
  lemma NoLeakEver(disk: seq<Block>, n: nat, ops: seq<Op>, end: Sys, b: nat)
    requires METADATA_BLOCKS <= n <= MAX_FS_BLOCKS && n <= |disk|
    requires HeaderSize(Get(Formatted(disk, n), FREELIST_BLOCK)) <= MAX_FS_BLOCKS
    requires LegalRun(Sys(Mounted(Formatted(disk, n)), map[]), ops, end) && b < |end.fs.marks|
    ensures end.fs.marks[b] <==> b < METADATA_BLOCKS || exists i: nat, k: nat :: Owns(end.fs, i, k, b)
    ensures b >= METADATA_BLOCKS ==>
      forall i: nat, k: nat, j: nat, l: nat :: Owns(end.fs, i, k, b) && Owns(end.fs, j, l, b) ==> i == j && k == l
  {
    hide Inv, Mounted, Formatted, HeaderSize, LegalRun, Owns, Synced, StorableTable;
    FormatMounts(disk, n);
    var start := Sys(Mounted(Formatted(disk, n)), map[]);
    assert Sound(start);
    RunSound(start, ops, end);
    MarkedIffOwned(end.fs, b);
  }
}
