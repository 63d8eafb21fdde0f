/**
 Writing on a disk that may run full: which blocks get a disk block, what each byte of the file is
 once the file is closed, and exactly when the bytes written are kept.
 */
module FsFullDisk {
  import opened Bytes
  import opened FsState
  import opened FsLayout
  import opened FsOps
  import opened FsMeaning
  import opened FsFiles
  import opened FsTable
  import opened FsLimits

  // ----- which blocks get a disk block -----

  lemma {:induction false} MissingPositive(fs: Fs, i: nat, k: nat, l: nat, hi: nat)
    requires i < |fs.inodes| && k <= l < hi <= MAX_FILE_BLOCKS && Ref(fs, i, l) == 0
    ensures Missing(fs, i, k, hi) > 0
    decreases l - k
  {
    hide Ref;
    if k < l {
      MissingPositive(fs, i, k + 1, l, hi);
    }
  }

  /** A block that a write reaches is backed afterwards exactly when it was before, or the free list had a
      block for it and for every block that the write reaches earlier and the file did not have. */
  lemma {:induction false} WriteBacksEach(fs: Fs, h: Handle, data: seq<byte>, l: nat)
    requires Inv(fs) && HandleOk(fs, h) && h.pos + |data| <= MAX_FILE_SIZE && data != []
    requires h.pos / BLOCK_SIZE <= l < LastBlock(h.pos, |data|)
    ensures |fs.marks| <= MAX_FS_BLOCKS && h.slot < |WriteLoop(fs, h, data).0.inodes|
    ensures Ref(WriteLoop(fs, h, data).0, h.slot, l) != 0 <==>
      Ref(fs, h.slot, l) != 0 || Missing(fs, h.slot, h.pos / BLOCK_SIZE, l + 1) <= FreeCount(fs.marks)
    decreases |data|
  {
    hide Ref, Inv, WriteChunk, WriteLoop, FreeBlock, OnlyFile, Logical;
    IndexOfLive(fs, h.slot);
    WriteAdvance(fs, h, data);
    var k := h.pos / BLOCK_SIZE;
    var n := ChunkSize(h.pos, |data|);
    ChunkAdvance(h.pos, |data|);
    ChunkMeaning(fs, h, data[..n]);
    var (fs1, h1) := WriteChunk(fs, h, data[..n]);
    FreeCountAfter(fs.marks, Ref(fs, h.slot, k) != 0);
    ChunkMissing(fs, h, data[..n], l + 1);
    assert Missing(fs, h.slot, k + 1, k + 1) == 0;
    if n < |data| {
      if k < l {
        WriteBacksEach(fs1, h1, data[n..], l);
        if Ref(fs, h.slot, l) == 0 {
          MissingPositive(fs, h.slot, k + 1, l, l + 1);
        }
      } else {
        WriteBacksAll(fs1, h1, data[n..]);
      }
    } else {
      assert data[n..] == [];
      WriteNothing(fs1, h1);
    }
  }

  // ----- what survives -----

  /** What logical block l holds once the cache has been written back: a dirty block without a disk block
      is lost. */
  ghost function Surviving(fs: Fs, h: Handle, l: nat): Block
    requires h.slot < |fs.inodes| && l < MAX_FILE_BLOCKS
  {
    if Ref(fs, h.slot, l) == 0 then Zeros() else Logical(fs, h, l)
  }

  lemma SurvivingIsLogical(fs: Fs, h: Handle, l: nat)
    requires HandleOk(fs, h) && Backed(fs, h) && l < MAX_FILE_BLOCKS
    ensures Surviving(fs, h, l) == Logical(fs, h, l)
  {
    hide Ref, Zeros;
  }

  lemma FlushSurvives(fs: Fs, h: Handle, l: nat)
    requires Inv(fs) && HandleOk(fs, h) && l < MAX_FILE_BLOCKS
    ensures h.slot < |Flush(fs, h).inodes| && BlockAt(Flush(fs, h), h.slot, l) == Surviving(fs, h, l)
  {
    hide Ref, Inv, DataBlock;
    FlushMeaning(fs, h);
    DataBlockIsRef(fs, h.slot, h.cur);
    if Backed(fs, h) {
      SurvivingIsLogical(fs, h, l);
    }
  }

  lemma LoadSurvives(fs: Fs, h: Handle, k: nat, l: nat)
    requires Inv(fs) && HandleOk(fs, h) && k < MAX_FILE_BLOCKS && l < MAX_FILE_BLOCKS
    ensures |fs.marks| <= MAX_FS_BLOCKS && h.slot < |LoadBlock(fs, h, k, true).0.inodes|
    ensures BlockAt(LoadBlock(fs, h, k, true).0, h.slot, l) == Surviving(fs, h, l)
  {
    hide Ref, Inv, Flush, Allocate, DataBlock, BlockAt, Surviving, FreeBlock;
    IndexOfLive(fs, h.slot);
    FlushMeaning(fs, h);
    FlushSurvives(fs, h, l);
    AllocateMeaning(Flush(fs, h), h.slot, k);
  }

  /** One pass of the write loop. */
  lemma ChunkSurvives(fs: Fs, h: Handle, data: seq<byte>, l: nat)
    requires Inv(fs) && HandleOk(fs, h) && h.pos < MAX_FILE_SIZE && l < MAX_FILE_BLOCKS
    requires h.pos % BLOCK_SIZE + |data| <= BLOCK_SIZE
    ensures |fs.marks| <= MAX_FS_BLOCKS
    ensures
      var (fs', h') := WriteChunk(fs, h, data);
      && h'.slot == h.slot && h.slot < |fs'.inodes|
      && Surviving(fs', h', l) ==
        if Ref(fs', h.slot, l) == 0 then Zeros()
        else if l == h.pos / BLOCK_SIZE then Patch(Surviving(fs, h, l), h.pos % BLOCK_SIZE, data)
        else Surviving(fs, h, l)
  {
    hide Inv, Ref, BlockAt, FreeBlock, LoadBlock, Grown, Zeros, Patch;
    var k := h.pos / BLOCK_SIZE;
    IndexOfLive(fs, h.slot);
    LoadMeaning(fs, h, k, true);
    LoadSurvives(fs, h, k, l);
    var (fs1, h1) := LoadBlock(fs, h, k, true);
    GrowMeaning(fs1, h.slot, h.pos + |data|);
    GrownLength(fs1, h.slot, h.pos + |data|);
  }

  /** One byte of the file as it is once the cache has been written back. */
  ghost function Kept(fs: Fs, h: Handle, p: nat): byte
    requires h.slot < |fs.inodes| && p < MAX_FILE_SIZE
  {
    Surviving(fs, h, p / BLOCK_SIZE)[p % BLOCK_SIZE]
  }

  lemma KeptZero(fs: Fs, h: Handle, p: nat)
    requires h.slot < |fs.inodes| && p < MAX_FILE_SIZE && Ref(fs, h.slot, p / BLOCK_SIZE) == 0
    ensures Kept(fs, h, p) == 0
  {
    hide Ref;
  }

  lemma ChunkKept(fs: Fs, h: Handle, data: seq<byte>, p: nat)
    requires Inv(fs) && HandleOk(fs, h) && h.pos < MAX_FILE_SIZE && p < MAX_FILE_SIZE
    requires h.pos % BLOCK_SIZE + |data| <= BLOCK_SIZE
    ensures |fs.marks| <= MAX_FS_BLOCKS
    ensures
      var (fs', h') := WriteChunk(fs, h, data);
      && h'.slot == h.slot && h.slot < |fs'.inodes|
      && Kept(fs', h', p) ==
        if Ref(fs', h.slot, p / BLOCK_SIZE) == 0 then 0
        else if h.pos <= p < h.pos + |data| then data[p - h.pos] else Kept(fs, h, p)
  {
    hide Inv, Ref, Surviving, WriteChunk, Patch;
    IndexOfLive(fs, h.slot);
    ChunkSurvives(fs, h, data, p / BLOCK_SIZE);
    var l := p / BLOCK_SIZE;
    var a := Surviving(fs, h, l);
    ChunkByte(a, if l == h.pos / BLOCK_SIZE then Patch(a, h.pos % BLOCK_SIZE, data) else a, data, h.pos, p);
  }

  /** The whole write: a byte in a block with a disk block is what was written, or what was there before;
      any other byte is zero. */
  lemma {:induction false} WriteKept(fs: Fs, h: Handle, data: seq<byte>, p: nat)
    requires Inv(fs) && HandleOk(fs, h) && h.pos + |data| <= MAX_FILE_SIZE && data != [] && p < MAX_FILE_SIZE
    ensures |fs.marks| <= MAX_FS_BLOCKS
    ensures
      var (fs', h') := WriteLoop(fs, h, data);
      && h'.slot == h.slot && h.slot < |fs'.inodes|
      && Kept(fs', h', p) ==
        if Ref(fs', h.slot, p / BLOCK_SIZE) == 0 then 0
        else if h.pos <= p < h.pos + |data| then data[p - h.pos] else Kept(fs, h, p)
    decreases |data|
  {
    hide Inv, Ref, Kept, WriteChunk, WriteLoop, OnlyFile, Logical, FreeBlock, Missing, FreeCount;
    IndexOfLive(fs, h.slot);
    var n := ChunkSize(h.pos, |data|);
    ChunkAdvance(h.pos, |data|);
    ChunkMeaning(fs, h, data[..n]);
    ChunkKept(fs, h, data[..n], p);
    WriteAdvance(fs, h, data);
    var (fs1, h1) := WriteChunk(fs, h, data[..n]);
    if n < |data| {
      WriteKept(fs1, h1, data[n..], p);
      if Ref(fs1, h.slot, p / BLOCK_SIZE) == 0 && p / BLOCK_SIZE != h.pos / BLOCK_SIZE {
        KeptZero(fs, h, p);
      }
      WriteBacksAll(fs1, h1, data[n..]);
    } else {
      assert data[n..] == [];
      WriteNothing(fs1, h1);
    }
  }

  // ----- after closing -----

  /** The bytes of the closed file. */
  lemma ClosedKept(fs: Fs, h: Handle, p: nat)
    requires Inv(fs) && HandleOk(fs, h) && StorableTable(fs.inodes) && |fs.marks| <= MAX_FS_BLOCKS
    requires p < fs.inodes[h.slot].length
    ensures
      var fs' := CloseFile(fs, h);
      && HandleOk(fs', Shut(h.slot)) && |Contents(fs', Shut(h.slot))| == fs.inodes[h.slot].length
      && Contents(fs', Shut(h.slot))[p] == Kept(fs, h, p)
  {
    hide Inv, Ref, Flush, Save, StorableTable, Synced, Contents, BlockAt, Surviving;
    FlushMeaning(fs, h);
    FlushSurvives(fs, h, p / BLOCK_SIZE);
    SaveMeaning(Flush(fs, h));
    ContentsAt(CloseFile(fs, h), Shut(h.slot), p);
    SameBlock(Flush(fs, h), CloseFile(fs, h), h.slot, p / BLOCK_SIZE);
  }

  lemma SameBlock(a: Fs, b: Fs, i: nat, l: nat)
    requires Untouched(a, b, i) && l < MAX_FILE_BLOCKS
    ensures BlockAt(b, i, l) == BlockAt(a, i, l)
  {
  }

  /** The free list has a block for logical block l and for every earlier block that the write reaches and
      the file lacks, or the file has block l already. */
  ghost predicate Reaches(fs: Fs, h: Handle, l: nat)
    requires h.slot < |fs.inodes| && l < MAX_FILE_BLOCKS
  {
    Ref(fs, h.slot, l) != 0 || Missing(fs, h.slot, h.pos / BLOCK_SIZE, l + 1) <= FreeCount(fs.marks)
  }

  /** Every byte of the data that is not zero goes into a block that there is room for. */
  ghost predicate RoomForNonzero(fs: Fs, h: Handle, data: seq<byte>)
    requires h.slot < |fs.inodes| && h.pos + |data| <= MAX_FILE_SIZE
  {
    forall q: nat :: q < |data| && data[q] != 0 ==> Reaches(fs, h, (h.pos + q) / BLOCK_SIZE)
  }

  /** One byte after writing and closing: what the write promises, or zero in a block that found no room. */
  lemma ClosedByte(fs: Fs, h: Handle, data: seq<byte>, p: nat)
    requires Inv(fs) && HandleOk(fs, h) && Backed(fs, h) && Dense(fs, h.slot)
    requires data != [] && h.pos + |data| <= MAX_FILE_SIZE
    requires p < fs.inodes[h.slot].length || p < h.pos + |data|
    ensures |fs.marks| <= MAX_FS_BLOCKS && h.pos <= |Contents(fs, h)| == fs.inodes[h.slot].length
    ensures
      var (fs1, h1) := WriteLoop(fs, h, data);
      && h1.slot == h.slot && h.slot < |fs1.inodes|
      && Kept(fs1, h1, p) ==
        if h.pos <= p < h.pos + |data| && !Reaches(fs, h, p / BLOCK_SIZE) then 0
        else Splice(Contents(fs, h), h.pos, data)[p]
  {
    hide Inv, Ref, Kept, WriteLoop, OnlyFile, FreeBlock, Contents, Missing, FreeCount;
    IndexOfLive(fs, h.slot);
    ContentsAt(fs, h, p);
    WriteKept(fs, h, data, p);
    WriteBacksAll(fs, h, data);
    var l := p / BLOCK_SIZE;
    if h.pos / BLOCK_SIZE <= l < LastBlock(h.pos, |data|) {
      WriteBacksEach(fs, h, data, l);
    }
    if p < fs.inodes[h.slot].length {
      KeptIsContents(fs, h, p);
      assert Ref(fs, h.slot, l) != 0;
    }
  }

  lemma KeptIsContents(fs: Fs, h: Handle, p: nat)
    requires HandleOk(fs, h) && Backed(fs, h) && p < fs.inodes[h.slot].length
    ensures |Contents(fs, h)| == fs.inodes[h.slot].length && Kept(fs, h, p) == Contents(fs, h)[p]
  {
    hide Ref, Surviving;
    SurvivingIsLogical(fs, h, p / BLOCK_SIZE);
    ContentsAt(fs, h, p);
  }

  /** The closed file after the write: its length is that of the splice, and byte p is the splice's or lost. */
  lemma ClosedFile(fs: Fs, h: Handle, data: seq<byte>, p: nat)
    requires Inv(fs) && HandleOk(fs, h) && Backed(fs, h) && Dense(fs, h.slot)
    requires data != [] && h.pos + |data| <= MAX_FILE_SIZE
    ensures |fs.marks| <= MAX_FS_BLOCKS && h.pos <= |Contents(fs, h)| == fs.inodes[h.slot].length
    ensures
      var (fs1, h1) := WriteLoop(fs, h, data);
      var want := Splice(Contents(fs, h), h.pos, data);
      && StorableTable(fs1.inodes) && |fs1.marks| <= MAX_FS_BLOCKS && h1.slot == h.slot && h1.slot < |fs1.inodes|
      && var fs2 := CloseFile(fs1, h1);
         && HandleOk(fs2, Shut(h.slot)) && |Contents(fs2, Shut(h.slot))| == |want|
         && (p < |want| ==>
              Contents(fs2, Shut(h.slot))[p] ==
                if h.pos <= p < h.pos + |data| && !Reaches(fs, h, p / BLOCK_SIZE) then 0 else want[p])
         && (h.pos <= p < h.pos + |data| ==> p < |want| && want[p] == data[p - h.pos])
  {
    hide Inv, Ref, WriteLoop, Contents, Splice, CloseFile, StorableTable, OnlyFile, Kept, Reaches, Dense, Backed;
    IndexOfLive(fs, h.slot);
    ContentsLength(fs, h);
    WrittenLength(fs, h, data);
    var (fs1, h1) := WriteLoop(fs, h, data);
    InvStorable(fs1);
    ClosedLive(fs1, h1);
    ContentsLength(CloseFile(fs1, h1), Shut(h.slot));
    if p < fs1.inodes[h.slot].length {
      ClosedKept(fs1, h1, p);
      ClosedByte(fs, h, data, p);
    }
    if h.pos <= p < h.pos + |data| {
      SplicedByte(Contents(fs, h), h.pos, data, p);
    }
  }

  /**
   Writing bytes and closing the file keeps them exactly when every nonzero one of them goes into a
   block that the file has, or that the free list has a block for after the earlier missing blocks.
   */
  lemma WriteKeepsIff(fs: Fs, h: Handle, data: seq<byte>)
    requires Inv(fs) && HandleOk(fs, h) && Backed(fs, h) && Dense(fs, h.slot)
    requires data != [] && h.pos + |data| <= MAX_FILE_SIZE
    ensures |fs.marks| <= MAX_FS_BLOCKS && WriteCount(h, |data|) == |data|
    ensures
      var (fs1, h1) := WriteFile(fs, h, data);
      && StorableTable(fs1.inodes) && |fs1.marks| <= MAX_FS_BLOCKS && h1.slot == h.slot
      && var fs2 := CloseFile(fs1, h1);
         && HandleOk(fs2, Shut(h.slot))
         && (Contents(fs2, Shut(h.slot)) == Splice(Contents(fs, h), h.pos, data) <==> RoomForNonzero(fs, h, data))
  {
    hide Inv, Ref, WriteLoop, Contents, Splice, CloseFile, StorableTable, Reaches, Dense, Backed;
    assert data[..|data|] == data;
    ClosedFile(fs, h, data, 0);
    var (fs1, h1) := WriteFile(fs, h, data);
    var got := Contents(CloseFile(fs1, h1), Shut(h.slot));
    var want := Splice(Contents(fs, h), h.pos, data);
    var lost := set p: nat | h.pos <= p < h.pos + |data| && !Reaches(fs, h, p / BLOCK_SIZE);
    forall p: nat | p < |want|
      ensures got[p] == if p in lost then 0 else want[p]
      ensures h.pos <= p < h.pos + |data| ==> want[p] == data[p - h.pos]
    {
      ClosedFile(fs, h, data, p);
    }
    SameUnlessLost(got, want, h.pos, data, lost);
    LostIsNoRoom(fs, h, data, lost);
  }

  lemma LostIsNoRoom(fs: Fs, h: Handle, data: seq<byte>, lost: set<nat>)
    requires h.slot < |fs.inodes| && h.pos + |data| <= MAX_FILE_SIZE
    requires lost == set p: nat | h.pos <= p < h.pos + |data| && !Reaches(fs, h, p / BLOCK_SIZE)
    ensures RoomForNonzero(fs, h, data) <==> forall q: nat :: q < |data| && data[q] != 0 ==> h.pos + q !in lost
  {
    hide Reaches;
  }

  /** Bytes that turn into zeros make a difference exactly where they were not zeros. */
  lemma SameUnlessLost(got: seq<byte>, want: seq<byte>, pos: nat, data: seq<byte>, lost: set<nat>)
    requires |got| == |want| && pos + |data| <= |want| && forall p :: p in lost ==> pos <= p < pos + |data|
    requires forall p: nat :: p < |want| ==> got[p] == if p in lost then 0 else want[p]
    requires forall p: nat :: pos <= p < pos + |data| ==> want[p] == data[p - pos]
    ensures got == want <==> forall q: nat :: q < |data| && data[q] != 0 ==> pos + q !in lost
  {
    if got == want {
      forall q: nat | q < |data| && data[q] != 0
        ensures pos + q !in lost
      {
        assert got[pos + q] == want[pos + q] == data[q];
      }
    } else {
      var p: nat :| p < |want| && got[p] != want[p];
      assert data[p - pos] != 0 && pos + (p - pos) == p;
    }
  }

  lemma WrittenLength(fs: Fs, h: Handle, data: seq<byte>)
    requires Inv(fs) && HandleOk(fs, h) && data != [] && h.pos + |data| <= MAX_FILE_SIZE
    ensures |fs.marks| <= MAX_FS_BLOCKS
    ensures
      var (fs1, h1) := WriteLoop(fs, h, data);
      && Inv(fs1) && HandleOk(fs1, h1) && h1.slot == h.slot
      && fs1.inodes[h.slot].length ==
        if h.pos + |data| > fs.inodes[h.slot].length then h.pos + |data| else fs.inodes[h.slot].length
  {
    hide Inv, Ref, WriteLoop, Missing, FreeCount;
    IndexOfLive(fs, h.slot);
    WriteBacksAll(fs, h, data);
    LoopLength(fs, h, data);
  }

  lemma {:induction false} LoopLength(fs: Fs, h: Handle, data: seq<byte>)
    requires Inv(fs) && HandleOk(fs, h) && h.pos + |data| <= MAX_FILE_SIZE && data != []
    ensures |fs.marks| <= MAX_FS_BLOCKS && h.slot < |WriteLoop(fs, h, data).0.inodes|
    ensures WriteLoop(fs, h, data).0.inodes[h.slot].length ==
      if h.pos + |data| > fs.inodes[h.slot].length then h.pos + |data| else fs.inodes[h.slot].length
    decreases |data|
  {
    hide Ref, Inv, WriteChunk, WriteLoop, FreeBlock, OnlyFile, Logical;
    IndexOfLive(fs, h.slot);
    var n := ChunkSize(h.pos, |data|);
    ChunkAdvance(h.pos, |data|);
    ChunkMeaning(fs, h, data[..n]);
    WriteAdvance(fs, h, data);
    var (fs1, h1) := WriteChunk(fs, h, data[..n]);
    if n < |data| {
      LoopLength(fs1, h1, data[n..]);
    } else {
      assert data[n..] == [];
      WriteNothing(fs1, h1);
    }
  }
}
