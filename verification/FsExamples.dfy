/**
 Inputs on which Read and Reset break their promise, each reached by allowed steps from a freshly
 formatted disk.
 */
module FsExamples {
  import opened Bytes
  import opened FsState
  import opened FsLayout
  import opened FsOps
  import opened FsMeaning
  import opened FsFiles
  import opened FsTable
  import opened FsMachine
  import opened FsRefinement
  import opened FsTheorems
  import opened FsSessions
  import opened FsLimits
  import opened FsSpace

  /** A run on a disk that has just been formatted with n blocks and mounted. */
  ghost predicate FreshRun(disk: seq<Block>, n: nat, ops: seq<Op>, replies: seq<Reply>, end: Sys) {
    && n <= MAX_FS_BLOCKS && HeaderSize(Get(Formatted(disk, n), FREELIST_BLOCK)) <= MAX_FS_BLOCKS
    && Run(Sys(Mounted(Formatted(disk, n)), map[]), ops, replies, end)
  }

  /** File id is open with these bytes, at this position. */
  ghost predicate Shows(sys: Sys, id: int, bytes: seq<byte>, pos: nat) {
    && SysInv(sys) && SysShape(sys) && HasHandle(sys, id)
    && var h := sys.open[SlotOf(sys, id)];
       && HandleOk(sys.fs, h) && Backed(sys.fs, h) && Dense(sys.fs, h.slot)
       && Contents(sys.fs, h) == bytes && h.pos == pos
  }

  lemma EmptyLookup(fs: Fs, id: int)
    requires fs.inodes == EmptyTable()
    ensures Lookup(fs.inodes, id).None? && FreeInode(fs.inodes).Some?
  {
    assert fs.inodes[0] == FREE_INODE;
  }

  /** A file written, closed, opened again and read up to byte k shows its bytes, at position k. */
  lemma Reopened(disk: seq<Block>, n: nat, id: int, d: seq<byte>, k: nat) returns (replies: seq<Reply>, end: Sys)
    requires -0x8000_0000 <= id < 0x8000_0000 && k <= |d| <= MAX_FILE_SIZE
    requires 3 + LastBlock(0, |d|) <= n <= MAX_FS_BLOCKS && n <= |disk|
    ensures FreshRun(disk, n, Session(id, [d], [k]), replies, end)
    ensures Shows(end, id, d, k) && |replies| > 0 && replies[0] == Flag(true)
  {
    hide SysInv, Run, Session, Formatted, Mounted, HeaderSize, FreeCount, EmptyTable, FormatMarks, Synced, Abs;
    FormatMounts(disk, n);
    MountOfFormatted(disk, n);
    FormatFree(n, METADATA_BLOCKS);
    EmptyLookup(Mounted(Formatted(disk, n)), id);
    OnePart(d, k);
    var start := Sys(Mounted(Formatted(disk, n)), map[]);
    replies, end := SessionRuns(start, id, [d], [k]);
    EntryShows(end, id, d, k);
  }

  lemma OnePart(d: seq<byte>, k: nat)
    ensures Join([d]) == d && Sum([k]) == k
  {
    assert Join([d][1..]) == [];
    assert [d][0] + [] == d;
    assert Sum([k][1..]) == 0;
  }

  lemma EntryShows(sys: Sys, id: int, d: seq<byte>, k: nat)
    requires SysInv(sys) && id in Abs(sys) && Abs(sys)[id] == AFile(d, Some(k))
    ensures Shows(sys, id, d, k)
  {
    hide SysInv, Contents, Lookup, HandleOk, HandleInv;
    ShapeOfInv(sys);
    AbsIs(sys);
    OpenEntry(sys, id);
  }

  // ----- Read -----

  /**
   For example: a two-byte file is open at position 1, and a read of 2^32 - 1 bytes returns nothing,
   although a byte is left.
   */
  lemma ReadWrapExample(disk: seq<Block>, id: int, d: seq<byte>) returns (replies: seq<Reply>, sys: Sys)
    requires |disk| >= 4 && -0x8000_0000 <= id < 0x8000_0000 && |d| == 2
    ensures FreshRun(disk, 4, Session(id, [d], [1]), replies, sys)
    ensures Shows(sys, id, d, 1)
    ensures
      var h := sys.open[SlotOf(sys, id)];
      && |sys.fs.marks| <= MAX_FS_BLOCKS
      && ReadFile(sys.fs, h, TWO32 - 1).2 == [] && ReadFile(sys.fs, h, 1).2 == d[1..]
  {
    hide SysInv, SysShape, FreshRun, Session, Contents, HandleOk, Backed, Dense, ReadFile, Inv, Ref, OnlyFile;
    replies, sys := Reopened(disk, 4, id, d, 1);
    var h := sys.open[SlotOf(sys, id)];
    InvOf(sys);
    ContentsLength(sys.fs, h);
    ReadMeaning(sys.fs, h, 1);
    NothingRead(sys.fs, h);
  }

  lemma NothingRead(fs: Fs, h: Handle)
    requires HandleOk(fs, h) && h.pos == 1 && fs.inodes[h.slot].length == 2 && |fs.marks| <= MAX_FS_BLOCKS
    ensures ReadFile(fs, h, TWO32 - 1).2 == []
  {
    ReadCountIff(fs, h, TWO32 - 1);
  }

  // ----- Reset -----

  /** Write two blocks, reopen the file, read the first, and write the second again as it is. */
  function Rewriting(id: int, a: Block, b: Block): seq<Op> {
    Session(id, [a + b], [BLOCK_SIZE]) + [Write(id, b)]
  }

  /**
   For example: after these steps the file holds a and b, every byte of it is on the disk, and Reset
   still turns it into b and b.
   */
  lemma ResetExample(disk: seq<Block>, id: int, a: Block, b: Block) returns (replies: seq<Reply>, sys: Sys)
    requires |disk| >= 5 && -0x8000_0000 <= id < 0x8000_0000
    ensures FreshRun(disk, 5, Rewriting(id, a, b), replies, sys)
    ensures Shows(sys, id, a + b, 2 * BLOCK_SIZE)
    ensures
      var h := sys.open[SlotOf(sys, id)];
      && h.dirty && h.cur == 1 && h.cache == BlockAt(sys.fs, h.slot, 1) == b
      && Contents(sys.fs, ResetFile(h)) == b + b
  {
    hide SysInv, SysShape, Run, Session, Contents, HandleOk, Backed, Dense, Step, BlockAt;
    var rs, mid := Reopened(disk, 5, id, a + b, BLOCK_SIZE);
    sys := RewriteStep(mid, id, a, b);
    replies := rs + [Step(mid, Write(id, b)).1];
    RunAppend(Sys(Mounted(Formatted(disk, 5)), map[]), Session(id, [a + b], [BLOCK_SIZE]), rs, mid,
              [Write(id, b)], [Step(mid, Write(id, b)).1], sys);
  }

  /** Writing b again over the second block. */
  lemma RewriteStep(sys: Sys, id: int, a: Block, b: Block) returns (end: Sys)
    requires Shows(sys, id, a + b, BLOCK_SIZE)
    ensures SysShape(sys) && end == Step(sys, Write(id, b)).0
    ensures Run(sys, [Write(id, b)], [Step(sys, Write(id, b)).1], end)
    ensures Shows(end, id, a + b, 2 * BLOCK_SIZE)
    ensures
      var h := end.open[SlotOf(end, id)];
      && h.dirty && h.cur == 1 && h.cache == BlockAt(end.fs, h.slot, 1) == b
      && Contents(end.fs, ResetFile(h)) == b + b
  {
    hide SysInv, SysShape, Run, Contents, HandleOk, Backed, Dense, BlockAt, WriteFile, Splice;
    hide OnlyFile, Lookup, Ref, Inv;
    hide Refines, Room;
    HandleInShape(sys, id);
    var h := sys.open[SlotOf(sys, id)];
    InvOf(sys);
    ContentsLength(sys.fs, h);
    SecondBlock(sys.fs, h, b);
    assert b[..BLOCK_SIZE] == b;
    WriteMeaning(sys.fs, h, b);
    RunOne(sys, Write(id, b));
    HandleStepIs(sys, Write(id, b));
    end := Step(sys, Write(id, b)).0;
    var (fs', h') := WriteFile(sys.fs, h, b);
    SameLookups(sys.fs, fs', h.slot);
    SpliceEnd(a, b);
    Rewritten(sys.fs, h, a, b);
  }

  lemma SpliceEnd(a: Block, b: Block)
    ensures Splice(a + b, BLOCK_SIZE, b) == a + b
  {
  }

  lemma SecondBlock(fs: Fs, h: Handle, b: Block)
    requires HandleOk(fs, h) && Dense(fs, h.slot) && h.pos == BLOCK_SIZE && fs.inodes[h.slot].length == 2 * BLOCK_SIZE
    ensures Room(fs, h, BLOCK_SIZE)
  {
    hide Ref;
    assert Ref(fs, h.slot, 1) != 0;
    assert Missing(fs, h.slot, 2, 2) == 0;
  }

  /** The cache then holds what was on the disk already. */
  lemma Rewritten(fs: Fs, h: Handle, a: Block, b: Block)
    requires Inv(fs) && HandleOk(fs, h) && Backed(fs, h) && Contents(fs, h) == a + b && h.pos == BLOCK_SIZE
    ensures |fs.marks| <= MAX_FS_BLOCKS
    ensures
      var (fs', h') := WriteFile(fs, h, b);
      && HandleOk(fs', h') && h'.dirty && h'.cur == 1 && h'.cache == BlockAt(fs', h.slot, 1) == b
      && HandleOk(fs', ResetFile(h')) && Contents(fs', ResetFile(h')) == b + b
  {
    hide Inv, Ref, Contents, BlockAt, LoadBlock, OnlyFile;
    InvStorable(fs);
    ContentsAre(fs, h);
    OneChunk(fs, h, b);
    LoadMeaning(fs, h, 1, true);
    var (fs1, h1) := LoadBlock(fs, h, 1, true);
    forall j | 0 <= j < BLOCK_SIZE
      ensures Logical(fs, h, 1)[j] == b[j]
    {
      assert (BLOCK_SIZE + j) / BLOCK_SIZE == 1 && (BLOCK_SIZE + j) % BLOCK_SIZE == j;
      assert Contents(fs, h)[BLOCK_SIZE + j] == b[j];
    }
    assert Logical(fs, h, 1) == b;
    assert Patch(h1.cache, 0, b) == b;
    GrownLength(fs1, h.slot, 2 * BLOCK_SIZE);
    var (fs', h') := WriteFile(fs, h, b);
    ResetBytes(fs', h', b);
  }

  lemma ResetBytes(fs: Fs, h: Handle, b: Block)
    requires HandleOk(fs, h) && h.dirty && fs.inodes[h.slot].length == 2 * BLOCK_SIZE && h.cache == b
    requires BlockAt(fs, h.slot, 1) == b
    ensures HandleOk(fs, ResetFile(h)) && Contents(fs, ResetFile(h)) == b + b
  {
    hide Contents, BlockAt;
    ContentsAre(fs, ResetFile(h));
    forall p: nat | p < 2 * BLOCK_SIZE
      ensures Contents(fs, ResetFile(h))[p] == (b + b)[p]
    {
      assert p / BLOCK_SIZE == 0 || p / BLOCK_SIZE == 1;
    }
  }
}
