/**
 Where the operations stop keeping their promises, and exactly when: a write on a full
 disk, a read whose end wraps around, a rewind over unsaved bytes. And what deleting a
 file gives back.
 */
module FsLimits {
  import opened Bytes
  import opened FsState
  import opened FsLayout
  import opened FsOps
  import opened FsMeaning
  import opened FsFiles
  import opened FsTable
  import opened FsMachine
  import opened FsRefinement
  import opened FsTheorems
  import opened FsSessions

  // ----- Read -----

  /** Read returns what is left of the file, up to n bytes, exactly when position + n does not wrap. */
  lemma ReadCountIff(fs: Fs, h: Handle, n: nat)
    requires HandleOk(fs, h) && n < TWO32 && 0 < n && h.pos < fs.inodes[h.slot].length
    ensures ReadCount(fs, h, n) == Min(n, fs.inodes[h.slot].length - h.pos) <==> h.pos + n < TWO32
    ensures h.pos + n >= TWO32 ==> ReadCount(fs, h, n) == 0
  {
    if h.pos + n >= TWO32 {
      assert (h.pos + n) % TWO32 == h.pos + n - TWO32;
    }
  }

  // ----- Reset -----

  /** On the bytes of the file, the cache agrees with the disk's logical block k. */
  ghost predicate CacheAgrees(fs: Fs, h: Handle, k: nat)
    requires h.slot < |fs.inodes| && k < MAX_FILE_BLOCKS
  {
    forall p: nat :: p < fs.inodes[h.slot].length && p / BLOCK_SIZE == k ==>
      h.cache[p % BLOCK_SIZE] == BlockAt(fs, h.slot, k)[p % BLOCK_SIZE]
  }

  /**
   Reset keeps the file exactly when the cache is clean, or holds block 0, or agrees both with the
   disk's block that it holds and with the disk's block 0.
   */
  lemma ResetKeepsIff(fs: Fs, h: Handle)
    requires HandleOk(fs, h)
    ensures HandleOk(fs, ResetFile(h))
    ensures Contents(fs, ResetFile(h)) == Contents(fs, h) <==>
      !h.dirty || h.cur == 0 || (CacheAgrees(fs, h, h.cur) && CacheAgrees(fs, h, 0))
  {
    hide BlockAt;
    hide Contents;
    var g := ResetFile(h);
    ContentsAre(fs, h);
    ContentsAre(fs, g);
    if !h.dirty || h.cur == 0 {
      SameBytes(fs, h, fs, g);
    } else if Contents(fs, g) == Contents(fs, h) {
      forall p: nat | p < fs.inodes[h.slot].length && (p / BLOCK_SIZE == h.cur || p / BLOCK_SIZE == 0)
        ensures h.cache[p % BLOCK_SIZE] == BlockAt(fs, h.slot, p / BLOCK_SIZE)[p % BLOCK_SIZE]
      {
        assert Contents(fs, g)[p] == Contents(fs, h)[p];
      }
    }
  }

  /** With a dirty cache the first bytes of the file become the bytes of the cached block, whichever it is. */
  lemma ResetShifts(fs: Fs, h: Handle)
    requires HandleOk(fs, h) && h.dirty && fs.inodes[h.slot].length >= BLOCK_SIZE
    ensures HandleOk(fs, ResetFile(h)) && |Contents(fs, ResetFile(h))| >= BLOCK_SIZE
    ensures Contents(fs, ResetFile(h))[..BLOCK_SIZE] == h.cache
  {
    hide BlockAt;
    hide Contents;
    ContentsAre(fs, ResetFile(h));
  }

  // ----- Write on a full disk -----

  /** No block is free and the block under the position is missing: Write still counts the bytes,
      and after the file is closed they read as zeros. */
  lemma FullDiskLoses(fs: Fs, h: Handle, data: seq<byte>)
    requires Inv(fs) && HandleOk(fs, h) && Backed(fs, h) && h.pos < MAX_FILE_SIZE
    requires data != [] && h.pos % BLOCK_SIZE + |data| <= BLOCK_SIZE
    requires FreeBlock(fs.marks).None? && Ref(fs, h.slot, h.pos / BLOCK_SIZE) == 0
    ensures WriteCount(h, |data|) == |data| && |fs.marks| <= MAX_FS_BLOCKS
    ensures
      var (fs1, h1) := WriteFile(fs, h, data);
      && Inv(fs1) && StorableTable(fs1.inodes) && |fs1.marks| <= MAX_FS_BLOCKS && h1.slot == h.slot
      && var fs2 := CloseFile(fs1, h1);
         && HandleOk(fs2, Shut(h.slot)) && h.pos + |data| <= |Contents(fs2, Shut(h.slot))|
         && Contents(fs2, Shut(h.slot))[h.pos..h.pos + |data|] == seq(|data|, _ => 0)
  {
    hide Inv;
    hide Ref;
    hide WriteChunk;
    hide FreeBlock;
    hide Flush;
    hide Save;
    hide StorableTable;
    hide Contents;
    hide Logical;
    hide Synced;
    hide SameRefs;
    IndexOfLive(fs, h.slot);
    assert h.pos + |data| <= MAX_FILE_SIZE;
    OneChunk(fs, h, data);
    ChunkMeaning(fs, h, data);
    var (fs1, h1) := WriteChunk(fs, h, data);
    InvStorable(fs1);
    FlushMeaning(fs1, h1);
    SaveMeaning(Flush(fs1, h1));
    var fs2 := CloseFile(fs1, h1);
    LiveLength(fs2, h.slot);
    StillMissing(fs1, h1, h.pos / BLOCK_SIZE);
    ZeroBytes(fs2, h.slot, h.pos, |data|);
  }

  lemma OneChunk(fs: Fs, h: Handle, data: seq<byte>)
    requires h.slot < |fs.inodes| && |fs.marks| <= MAX_FS_BLOCKS && h.pos < MAX_FILE_SIZE
    requires data != [] && h.pos % BLOCK_SIZE + |data| <= BLOCK_SIZE
    ensures WriteFile(fs, h, data) == WriteChunk(fs, h, data)
  {
    hide WriteChunk;
    assert WriteCount(h, |data|) == |data| == ChunkSize(h.pos, |data|);
    assert data[..|data|] == data && data[|data|..] == [];
    var (fs1, h1) := WriteChunk(fs, h, data);
    WriteNothing(fs1, h1);
  }

  lemma StillMissing(fs: Fs, h: Handle, k: nat)
    requires Inv(fs) && HandleOk(fs, h) && k < MAX_FILE_BLOCKS && Ref(fs, h.slot, k) == 0
    requires StorableTable(fs.inodes) && |fs.marks| <= MAX_FS_BLOCKS
    ensures h.slot < |CloseFile(fs, h).inodes| && Ref(CloseFile(fs, h), h.slot, k) == 0
  {
    hide Inv;
    hide Ref;
    hide Flush;
    hide Save;
    hide StorableTable;
    hide Synced;
    FlushMeaning(fs, h);
    SaveMeaning(Flush(fs, h));
  }

  lemma ZeroBytes(fs: Fs, i: nat, pos: nat, n: nat)
    requires HandleOk(fs, Shut(i)) && pos % BLOCK_SIZE + n <= BLOCK_SIZE && pos + n <= fs.inodes[i].length
    requires pos < MAX_FILE_SIZE && Ref(fs, i, pos / BLOCK_SIZE) == 0
    ensures pos + n <= |Contents(fs, Shut(i))|
    ensures Contents(fs, Shut(i))[pos..pos + n] == seq(n, _ => 0)
  {
    hide Ref;
    hide Contents;
    ContentsAre(fs, Shut(i));
    forall q: nat | pos <= q < pos + n
      ensures Contents(fs, Shut(i))[q] == 0
    {
      assert q / BLOCK_SIZE == pos / BLOCK_SIZE;
    }
  }

  lemma ClosedLive(fs: Fs, h: Handle)
    requires Inv(fs) && HandleOk(fs, h) && StorableTable(fs.inodes) && |fs.marks| <= MAX_FS_BLOCKS
    ensures CloseFile(fs, h).inodes == fs.inodes && HandleOk(CloseFile(fs, h), Shut(h.slot))
  {
    hide Inv;
    hide Ref;
    hide Flush;
    hide Save;
    hide StorableTable;
    hide Synced;
    FlushMeaning(fs, h);
    SaveMeaning(Flush(fs, h));
  }

  lemma SplicedByte(c: seq<byte>, at: nat, d: seq<byte>, p: nat)
    requires at <= |c| && at <= p < at + |d|
    ensures Splice(c, at, d)[p] == d[p - at]
  {
  }

  /** For example: format three blocks, create a file (its index block takes the last one), write one byte.
      Write answers 1; after closing, the byte reads as zero. */
  lemma FullDiskExample(disk: seq<Block>, id: int)
    requires |disk| >= 3 && -0x8000_0000 <= id < 0x8000_0000
    ensures HeaderSize(Get(Formatted(disk, 3), FREELIST_BLOCK)) <= MAX_FS_BLOCKS
    ensures
      var fs0 := Mounted(Formatted(disk, 3));
      && Inv(fs0)
      && var (fs1, ok) := CreateFile(fs0, id);
         && ok && Inv(fs1)
         && var (fs2, h) := WriteFile(fs1, Shut(0), [7]);
            && OpenFile(fs1, 0) == (fs1, Shut(0)) && WriteCount(Shut(0), 1) == 1
            && Inv(fs2) && StorableTable(fs2.inodes) && |fs2.marks| <= MAX_FS_BLOCKS && h.slot < |fs2.inodes|
            && var fs3 := CloseFile(fs2, h);
               && HandleOk(fs3, Shut(0)) && |Contents(fs3, Shut(0))| >= 1 && Contents(fs3, Shut(0))[0] == 0
  {
    hide HeaderSize;
    hide Mounted;
    hide Formatted;
    hide Inv;
    hide Ref;
    hide CreateFile;
    hide CloseFile;
    hide WriteFile;
    hide Contents;
    hide StorableTable;
    hide FreeBlock;
    ThreeBlocks(disk, id);
    InvShape(Mounted(Formatted(disk, 3)));
    var fs1 := CreateFile(Mounted(Formatted(disk, 3)), id).0;
    LiveLength(fs1, 0);
    FullDiskLoses(fs1, Shut(0), [7]);
  }

  lemma ThreeBlocks(disk: seq<Block>, id: int)
    requires |disk| >= 3 && -0x8000_0000 <= id < 0x8000_0000
    ensures HeaderSize(Get(Formatted(disk, 3), FREELIST_BLOCK)) <= MAX_FS_BLOCKS
    ensures
      var fs0 := Mounted(Formatted(disk, 3));
      && Inv(fs0)
      && var (fs1, ok) := CreateFile(fs0, id);
         ok && Inv(fs1) && Live(fs1, 0) && fs1.inodes[0].length == 0 && |fs1.marks| == 3
         && FreeBlock(fs1.marks).None? && Ref(fs1, 0, 0) == 0
  {
    hide HeaderSize;
    hide Mounted;
    hide Formatted;
    hide Inv;
    hide Ref;
    hide Synced;
    hide CreateFile;
    hide Untouched;
    hide StorableTable;
    MountOfFormatted(disk, 3);
    var fs0 := Mounted(Formatted(disk, 3));
    EmptyInv(fs0) by { FormattedDisk(disk, 3); }
    FirstFree(fs0.marks);
    CreateMeaning(fs0, id);
  }

  lemma FirstFree(marks: seq<bool>)
    requires marks == FormatMarks(3)
    ensures FreeBlock(marks) == Some(2)
  {
  }

  lemma InvShape(fs: Fs)
    requires Inv(fs)
    ensures Shape(fs)
  {
  }

  // ----- what deleting gives back -----

  /** The free list is a function of what the files own. */
  lemma MarksDetermined(a: Fs, b: Fs)
    requires Inv(a) && Inv(b) && |a.marks| == |b.marks| && SameRefs(a, b)
    ensures a.marks == b.marks
  {
    hide Inv;
    hide Ref;
    forall x: nat | x < |a.marks|
      ensures a.marks[x] == b.marks[x]
    {
      MarkedIffOwned(a, x);
      MarkedIffOwned(b, x);
      assert forall i: nat, k: nat :: Owns(a, i, k, x) <==> Owns(b, i, k, x);
    }
  }

  /** Create a file, do anything at all to it alone, delete it: the free list is exactly what it was,
      even if the disk ran full in between. */
  lemma DeleteRestores(fs: Fs, id: int, fs2: Fs)
    requires Inv(fs) && -0x8000_0000 <= id < 0x8000_0000 && CreateFile(fs, id).1
    requires FreeInode(fs.inodes).Some? && Inv(fs2)
    requires OnlyFile(CreateFile(fs, id).0, fs2, FreeInode(fs.inodes).value)
    ensures
      var (fs3, ok) := DeleteFile(fs2, id);
      ok && fs3.marks == fs.marks
      && fs3.inodes == fs.inodes[FreeInode(fs.inodes).value := FREE_INODE]
  {
    hide Inv;
    hide Ref;
    hide Synced;
    hide StorableTable;
    hide CreateFile;
    hide DeleteFile;
    hide BlockAt;
    hide Owns;
    hide Shape;
    var i := FreeInode(fs.inodes).value;
    InvShape(fs);
    InvShape(fs2);
    CreateMeaning(fs, id);
    var fs1 := CreateFile(fs, id).0;
    LookupLive(fs2, i);
    DeleteMeaning(fs2, id);
    var fs3 := DeleteFile(fs2, id).0;
    forall j: nat, k: nat | Live(fs, j) && k <= MAX_FILE_BLOCKS
      ensures Ref(fs3, j, k) == Ref(fs, j, k)
    {
      assert Untouched(fs, fs1, j) && Untouched(fs1, fs2, j) && Untouched(fs2, fs3, j);
    }
    MarksDetermined(fs, fs3);
  }

  /** Operations on one file's handle. */
  predicate OnFile(op: Op, id: int) {
    (op.Open? || op.Close? || op.Write? || op.Read? || op.Rewind? || op.AtEof?) && op.id == id
  }

  lemma HandleOpOnly(sys: Sys, op: Op, id: int)
    requires SysInv(sys) && SysShape(sys) && Allowed(sys, op) && OnFile(op, id)
    ensures Lookup(sys.fs.inodes, id).Some?
    ensures OnlyFile(sys.fs, Step(sys, op).0.fs, Lookup(sys.fs.inodes, id).value)
  {
    hide SysInv;
    hide Inv;
    hide Ref;
    hide Contents;
    hide Lookup;
    hide Dense;
    hide OnlyFile;
    hide HandleInv;
    hide Backed;
    hide Room;
    hide ReadFile;
    hide WriteFile;
    hide CloseFile;
    hide OpenFile;
    if op.Open? {
      ClosedEntry(sys, id);
      OpenMeaning(sys.fs, Lookup(sys.fs.inodes, id).value);
    } else {
      OpenEntry(sys, id);
      HandleStepIs(sys, op);
      var h := sys.open[SlotOf(sys, id)];
      Reflexive(sys.fs, h.slot);
      match op
      case Close(_) => CloseMeaning(sys.fs, h);
      case Write(_, data) => WriteMeaning(sys.fs, h, data);
      case Read(_, n) => ReadMeaning(sys.fs, h, n);
      case _ =>
    }
  }

  lemma {:induction false} RunOnly(sys: Sys, ops: seq<Op>, rs: seq<Reply>, end: Sys, id: int, i: nat)
    requires SysInv(sys) && Run(sys, ops, rs, end) && forall k :: 0 <= k < |ops| ==> OnFile(ops[k], id)
    requires Lookup(sys.fs.inodes, id) == Some(i)
    ensures SysInv(end) && OnlyFile(sys.fs, end.fs, i)
    decreases |ops|
  {
    hide SysInv;
    hide SysShape;
    hide Step;
    hide OnlyFile;
    hide Lookup;
    hide Allowed;
    hide Refines;
    Reflexive(sys.fs, i);
    if ops != [] {
      hide Run;
      RunTail(sys, ops, rs, end);
      HandleOpOnly(sys, ops[0], id);
      RunOne(sys, ops[0]);
      var next := Step(sys, ops[0]).0;
      SameLookups(sys.fs, next.fs, i);
      RunOnly(next, ops[1..], rs[1..], end, id, i);
      OnlyFileTrans(sys.fs, next.fs, end.fs, i);
    }
  }

  /** Create, any session on the file, delete: the free list and the other inodes are as they were. */
  lemma CreateUseDelete(sys: Sys, id: int, use: seq<Op>, rs: seq<Reply>, mid: Sys)
    requires SysInv(sys) && SysShape(sys) && Allowed(sys, Create(id)) && Step(sys, Create(id)).1 == Flag(true)
    requires Run(Step(sys, Create(id)).0, use, rs, mid) && forall k :: 0 <= k < |use| ==> OnFile(use[k], id)
    ensures SysShape(mid)
    ensures Step(mid, Delete(id)).1 == Flag(true) && Step(mid, Delete(id)).0.fs.marks == sys.fs.marks
    ensures FreeInode(sys.fs.inodes).Some?
    ensures Step(mid, Delete(id)).0.fs.inodes == sys.fs.inodes[FreeInode(sys.fs.inodes).value := FREE_INODE]
  {
    hide SysInv;
    hide Inv;
    hide Run;
    hide Ref;
    hide OnlyFile;
    hide CreateFile;
    hide DeleteFile;
    hide Synced;
    hide StorableTable;
    hide Untouched;
    hide Lookup;
    hide Shape;
    InvOf(sys);
    CreateMeaning(sys.fs, id);
    StepRefines(sys, Create(id));
    var sys1 := Step(sys, Create(id)).0;
    var i := FreeInode(sys.fs.inodes).value;
    LookupLive(sys1.fs, i);
    RunOnly(sys1, use, rs, mid, id, i);
    ShapeOfInv(mid);
    InvOf(mid);
    DeleteRestores(sys.fs, id, mid.fs);
  }
}
