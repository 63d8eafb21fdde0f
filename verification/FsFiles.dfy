/**
 Whole reads and writes: what Write and Read do to the bytes of a file, and exactly
 when a write finds room for all of them.
 */
module FsFiles {
  import opened Bytes
  import opened FsState
  import opened FsOps
  import opened FsMeaning

  // ----- space -----

  /** Free blocks from b on. */
  function FreeCount(marks: seq<bool>, b: nat := METADATA_BLOCKS): nat
    decreases |marks| - b
  {
    if b >= |marks| then 0 else (if marks[b] then 0 else 1) + FreeCount(marks, b + 1)
  }

  lemma {:induction false} FreeCountPositive(marks: seq<bool>, b: nat)
    ensures FreeCount(marks, b) > 0 <==> FreeBlock(marks, b).Some?
    decreases |marks| - b
  {
    if b < |marks| {
      FreeCountPositive(marks, b + 1);
    }
  }

  /** Taking one free block lowers the count by one. */
  lemma {:induction false} FreeCountTake(marks: seq<bool>, b: nat, x: nat)
    requires x < |marks| && !marks[x]
    ensures FreeCount(marks[x := true], b) == FreeCount(marks, b) - if x >= b then 1 else 0
    decreases |marks| - b
  {
    if b < |marks| {
      FreeCountTake(marks, b + 1, x);
    }
  }

  lemma FreeCountAfter(marks: seq<bool>, present: bool)
    ensures FreeCount(MarksAfter(marks, present))
         == FreeCount(marks) - if !present && FreeBlock(marks).Some? then 1 else 0
    ensures FreeCount(marks) > 0 <==> FreeBlock(marks).Some?
  {
    FreeCountPositive(marks, METADATA_BLOCKS);
    if !present && FreeBlock(marks).Some? {
      FreeCountTake(marks, METADATA_BLOCKS, FreeBlock(marks).value);
    }
  }

  /** Logical blocks in [k, hi) of inode i that have no disk block yet. */
  ghost function Missing(fs: Fs, i: nat, k: nat, hi: nat): nat
    requires i < |fs.inodes| && hi <= MAX_FILE_BLOCKS
    decreases hi - k
  {
    if k >= hi then 0 else (if Ref(fs, i, k) == 0 then 1 else 0) + Missing(fs, i, k + 1, hi)
  }

  lemma {:induction false} MissingFrame(a: Fs, b: Fs, i: nat, k: nat, hi: nat)
    requires i < |a.inodes| == |b.inodes| && hi <= MAX_FILE_BLOCKS
    requires forall l: nat :: k <= l < hi ==> Ref(b, i, l) == Ref(a, i, l)
    ensures Missing(b, i, k, hi) == Missing(a, i, k, hi)
    decreases hi - k
  {
    hide Ref;
    if k < hi {
      MissingFrame(a, b, i, k + 1, hi);
    }
  }

  ghost predicate Present(fs: Fs, i: nat, k: nat, hi: nat)
    requires i < |fs.inodes| && hi <= MAX_FILE_BLOCKS
  {
    forall l: nat :: k <= l < hi ==> Ref(fs, i, l) != 0
  }

  /** One past the last logical block that n bytes at pos reach into. */
  function LastBlock(pos: nat, n: nat): nat {
    (pos + n + BLOCK_SIZE - 1) / BLOCK_SIZE
  }

  /** There is room for n bytes at the handle's position. */
  ghost predicate Room(fs: Fs, h: Handle, n: nat)
    requires h.slot < |fs.inodes| && h.pos + n <= MAX_FILE_SIZE
  {
    n > 0 ==> Missing(fs, h.slot, h.pos / BLOCK_SIZE, LastBlock(h.pos, n)) <= FreeCount(fs.marks)
  }

  // ----- Write -----

  /** After the first chunk, either nothing is left or the rest starts at the next block. */
  lemma ChunkAdvance(pos: nat, n: nat)
    requires 0 < n
    ensures
      var c := ChunkSize(pos, n);
      && 0 < c <= n && LastBlock(pos + c, n - c) == LastBlock(pos, n) > pos / BLOCK_SIZE
      && (c < n ==> (pos + c) / BLOCK_SIZE == pos / BLOCK_SIZE + 1)
      && (c == n ==> LastBlock(pos, n) == pos / BLOCK_SIZE + 1)
  {
  }

  /** The blocks a write reaches are all backed by disk blocks afterwards exactly when
      the free list had enough blocks for the missing ones; other blocks are not touched. */
  lemma {:induction false} WriteBacksAll(fs: Fs, h: Handle, data: seq<byte>)
    requires Inv(fs) && HandleOk(fs, h) && h.pos + |data| <= MAX_FILE_SIZE && data != []
    ensures
      var (fs', h') := WriteLoop(fs, h, data);
      var k, hi := h.pos / BLOCK_SIZE, LastBlock(h.pos, |data|);
      && Inv(fs') && HandleOk(fs', h') && OnlyFile(fs, fs', h.slot)
      && h'.slot == h.slot && h'.pos == h.pos + |data|
      && (forall l: nat :: l <= MAX_FILE_BLOCKS && !(k <= l < hi) ==> Ref(fs', h.slot, l) == Ref(fs, h.slot, l))
      && (Present(fs', h.slot, k, hi) <==> Missing(fs, h.slot, k, hi) <= FreeCount(fs.marks))
    decreases |data|
  {
    hide Ref, Inv, WriteChunk, WriteLoop, FreeBlock, OnlyFile, Logical;
    IndexOfLive(fs, h.slot);
    WriteAdvance(fs, h, data);
    var k, hi := h.pos / BLOCK_SIZE, LastBlock(h.pos, |data|);
    var n := ChunkSize(h.pos, |data|);
    ChunkAdvance(h.pos, |data|);
    ChunkMeaning(fs, h, data[..n]);
    var (fs1, h1) := WriteChunk(fs, h, data[..n]);
    FreeCountAfter(fs.marks, Ref(fs, h.slot, k) != 0);
    ChunkMissing(fs, h, data[..n], hi);
    if n < |data| {
      WriteBacksAll(fs1, h1, data[n..]);
      OnlyFileTrans(fs, fs1, WriteLoop(fs1, h1, data[n..]).0, h.slot);
    } else {
      assert data[n..] == [];
      WriteNothing(fs1, h1);
    }
  }

  /** A write that finds room takes exactly the missing blocks from the free list. */
  lemma {:induction false} WriteTakes(fs: Fs, h: Handle, data: seq<byte>)
    requires Inv(fs) && HandleOk(fs, h) && h.pos + |data| <= MAX_FILE_SIZE && data != []
    requires Missing(fs, h.slot, h.pos / BLOCK_SIZE, LastBlock(h.pos, |data|)) <= FreeCount(fs.marks)
    ensures |fs.marks| <= MAX_FS_BLOCKS
    ensures FreeCount(WriteLoop(fs, h, data).0.marks)
         == FreeCount(fs.marks) - Missing(fs, h.slot, h.pos / BLOCK_SIZE, LastBlock(h.pos, |data|))
    decreases |data|
  {
    hide Ref;
    hide Inv;
    hide WriteChunk;
    hide FreeBlock;
    hide OnlyFile;
    hide Logical;
    IndexOfLive(fs, h.slot);
    var k, hi := h.pos / BLOCK_SIZE, LastBlock(h.pos, |data|);
    var n := ChunkSize(h.pos, |data|);
    ChunkAdvance(h.pos, |data|);
    ChunkMeaning(fs, h, data[..n]);
    var (fs1, h1) := WriteChunk(fs, h, data[..n]);
    FreeCountAfter(fs.marks, Ref(fs, h.slot, k) != 0);
    ChunkMissing(fs, h, data[..n], hi);
    if n < |data| {
      WriteTakes(fs1, h1, data[n..]);
    }
  }

  /** The blocks after the one just written are missing as before. */
  lemma ChunkMissing(fs: Fs, h: Handle, data: seq<byte>, hi: nat)
    requires Inv(fs) && HandleOk(fs, h) && h.pos < MAX_FILE_SIZE && hi <= MAX_FILE_BLOCKS
    requires h.pos % BLOCK_SIZE + |data| <= BLOCK_SIZE
    ensures |fs.marks| <= MAX_FS_BLOCKS && h.slot < |WriteChunk(fs, h, data).0.inodes|
    ensures Missing(WriteChunk(fs, h, data).0, h.slot, h.pos / BLOCK_SIZE + 1, hi)
         == Missing(fs, h.slot, h.pos / BLOCK_SIZE + 1, hi)
  {
    hide Ref;
    hide Inv;
    hide WriteChunk;
    hide FreeBlock;
    IndexOfLive(fs, h.slot);
    ChunkMeaning(fs, h, data);
    MissingFrame(fs, WriteChunk(fs, h, data).0, h.slot, h.pos / BLOCK_SIZE + 1, hi);
  }

  lemma {:induction false} MissingSplit(fs: Fs, i: nat, k: nat, mid: nat, hi: nat)
    requires i < |fs.inodes| && k <= mid <= hi <= MAX_FILE_BLOCKS
    ensures Missing(fs, i, k, hi) == Missing(fs, i, k, mid) + Missing(fs, i, mid, hi)
    decreases mid - k
  {
    hide Ref;
    if k < mid {
      MissingSplit(fs, i, k + 1, mid, hi);
    }
  }

  lemma BlockEdges(pos: nat, a: nat, n: nat)
    requires 0 < a && 0 < n && pos + a + n <= MAX_FILE_SIZE
    ensures
      var mid := LastBlock(pos, a);
      && pos / BLOCK_SIZE < mid && mid - 1 <= (pos + a) / BLOCK_SIZE <= mid
      && mid <= LastBlock(pos + a, n) == LastBlock(pos, a + n) <= MAX_FILE_BLOCKS
  {
  }

  /** Room for two pieces in a row is room for the first, and for the second after the first. */
  lemma RoomSplit(fs: Fs, h: Handle, d: seq<byte>, n: nat)
    requires Inv(fs) && HandleOk(fs, h) && h.pos + |d| + n <= MAX_FILE_SIZE
    requires Room(fs, h, |d| + n)
    ensures Room(fs, h, |d|) && |fs.marks| <= MAX_FS_BLOCKS
    ensures
      var (fs', h') := WriteLoop(fs, h, d);
      h'.slot < |fs'.inodes| && h'.pos + n <= MAX_FILE_SIZE && Room(fs', h', n)
  {
    hide Ref;
    hide Inv;
    hide WriteLoop;
    hide OnlyFile;
    hide Missing;
    hide FreeCount;
    hide LastBlock;
    IndexOfLive(fs, h.slot);
    var i, k, mid := h.slot, h.pos / BLOCK_SIZE, LastBlock(h.pos, |d|);
    if d == [] {
      WriteNothing(fs, h);
    } else if n == 0 {
      WriteBacksAll(fs, h, d);
    } else {
      var hi := LastBlock(h.pos, |d| + n);
      BlockEdges(h.pos, |d|, n);
      MissingSplit(fs, i, k, mid, hi);
      WriteBacksAll(fs, h, d);
      WriteTakes(fs, h, d);
      var (fs', h') := WriteLoop(fs, h, d);
      MissingFrame(fs, fs', i, mid, hi);
      RestMissing(fs', i, h'.pos / BLOCK_SIZE, mid, hi);
    }
  }

  lemma RestMissing(fs: Fs, i: nat, k: nat, mid: nat, hi: nat)
    requires i < |fs.inodes| && mid <= hi <= MAX_FILE_BLOCKS && mid - 1 <= k <= mid
    requires k < mid ==> Ref(fs, i, k) != 0
    ensures Missing(fs, i, k, hi) == Missing(fs, i, mid, hi)
  {
    hide Ref;
  }

  lemma WriteNothing(fs: Fs, h: Handle)
    requires h.slot < |fs.inodes| && |fs.marks| <= MAX_FS_BLOCKS
    ensures WriteLoop(fs, h, []) == (fs, h)
  {
  }

  /** One pass of the loop, and then the rest. */
  lemma WriteAdvance(s: Fs, h: Handle, data: seq<byte>)
    requires h.slot < |s.inodes| && |s.marks| <= MAX_FS_BLOCKS && data != []
    ensures
      var c := ChunkSize(h.pos, |data|);
      var (s1, h1) := WriteChunk(s, h, data[..c]);
      WriteLoop(s1, h1, data[c..]) == WriteLoop(s, h, data)
  {
    hide WriteChunk;
  }

  /** Room for the whole write is room for its first block and for the rest after it. */
  lemma RoomAdvance(fs: Fs, h: Handle, data: seq<byte>)
    requires Inv(fs) && HandleOk(fs, h) && h.pos + |data| <= MAX_FILE_SIZE && data != []
    requires Room(fs, h, |data|)
    ensures
      var n := ChunkSize(h.pos, |data|);
      var (fs1, h1) := WriteChunk(fs, h, data[..n]);
      && n > 0 && h1.slot == h.slot && HandleOk(fs1, h1) && Backed(fs1, h1)
      && h1.pos == h.pos + n && Room(fs1, h1, |data| - n)
  {
    hide Ref;
    hide Inv;
    hide WriteChunk;
    hide FreeBlock;
    IndexOfLive(fs, h.slot);
    var k, hi := h.pos / BLOCK_SIZE, LastBlock(h.pos, |data|);
    var n := ChunkSize(h.pos, |data|);
    ChunkAdvance(h.pos, |data|);
    ChunkMeaning(fs, h, data[..n]);
    FreeCountAfter(fs.marks, Ref(fs, h.slot, k) != 0);
    MissingFrame(fs, WriteChunk(fs, h, data[..n]).0, h.slot, k + 1, hi);
  }

  lemma SpliceSplice(c: seq<byte>, p: nat, d: seq<byte>, n: nat)
    requires p <= |c| && n <= |d|
    ensures Splice(Splice(c, p, d[..n]), p + n, d[n..]) == Splice(c, p, d)
  {
    SplicedBytes(c, Splice(Splice(c, p, d[..n]), p + n, d[n..]), p, d);
  }

  /** With room on the disk, Write's loop splices its bytes into the file at the current
      position: the pieces the loop cuts them into leave no trace. */
  lemma {:induction false} WriteSplices(fs: Fs, h: Handle, data: seq<byte>)
    requires Inv(fs) && HandleOk(fs, h) && Backed(fs, h) && h.pos + |data| <= MAX_FILE_SIZE
    requires Room(fs, h, |data|)
    ensures
      var (fs', h') := WriteLoop(fs, h, data);
      && Inv(fs') && HandleOk(fs', h') && Backed(fs', h') && OnlyFile(fs, fs', h.slot)
      && h'.slot == h.slot && h'.pos == h.pos + |data|
      && Contents(fs', h') == Splice(Contents(fs, h), h.pos, data)
    decreases |data|
  {
    hide Ref;
    hide Inv;
    hide WriteChunk;
    hide FreeBlock;
    hide Contents;
    hide Splice;
    hide Room;
    IndexOfLive(fs, h.slot);
    ContentsAre(fs, h);
    if data == [] {
      SplicedBytes(Contents(fs, h), Contents(fs, h), h.pos, data);
    } else {
      var n := ChunkSize(h.pos, |data|);
      RoomAdvance(fs, h, data);
      ChunkMeaning(fs, h, data[..n]);
      ChunkSplices(fs, h, data[..n]);
      var (fs1, h1) := WriteChunk(fs, h, data[..n]);
      WriteSplices(fs1, h1, data[n..]);
      OnlyFileTrans(fs, fs1, WriteLoop(fs1, h1, data[n..]).0, h.slot);
      SpliceSplice(Contents(fs, h), h.pos, data, n);
    }
  }

  /** Every byte of the file lies in a block the file owns. */
  ghost predicate Dense(fs: Fs, i: nat)
    requires i < |fs.inodes|
  {
    forall l: nat :: l < MAX_FILE_BLOCKS && l * BLOCK_SIZE < fs.inodes[i].length ==> Ref(fs, i, l) != 0
  }

  // ----- Read -----

  lemma SameRefsTrans(a: Fs, b: Fs, c: Fs)
    requires SameRefs(a, b) && SameRefs(b, c)
    ensures SameRefs(a, c)
  {
    hide Ref;
  }

  lemma Reflexive(fs: Fs, i: nat)
    ensures SameRefs(fs, fs) && OnlyFile(fs, fs, i)
  {
  }

  /** Read's loop changes no byte of any file. */
  lemma {:induction false} ReadKeeps(fs: Fs, h: Handle, n: nat)
    requires Inv(fs) && HandleOk(fs, h) && Backed(fs, h) && h.pos + n <= fs.inodes[h.slot].length
    ensures
      var (fs', h', out) := ReadLoop(fs, h, n);
      && Inv(fs') && HandleOk(fs', h') && Backed(fs', h') && OnlyFile(fs, fs', h.slot)
      && fs'.inodes == fs.inodes && fs'.marks == fs.marks && SameRefs(fs, fs')
      && h'.slot == h.slot && h'.pos == h.pos + n
      && Contents(fs', h') == Contents(fs, h)
    decreases n
  {
    hide Ref, Inv, LoadBlock, Contents, OnlyFile, SameRefs, Backed, HandleOk, Live, ReadLoop, ReadPass;
    SlotBounds(fs, h);
    Reflexive(fs, h.slot);
    ReadLoopStep(fs, h, n);
    if n > 0 {
      var c := ChunkSize(h.pos, n);
      ReadStep(fs, h, c);
      var (fs1, h1) := LoadBlock(fs, h, h.pos / BLOCK_SIZE, false);
      var h2 := h1.(pos := h.pos + c);
      ReadKeeps(fs1, h2, n - c);
      var fs2 := ReadLoop(fs1, h2, n - c).0;
      SameRefsTrans(fs, fs1, fs2);
      OnlyFileTrans(fs, fs1, fs2, h.slot);
    }
  }

  function Slice(s: seq<byte>, a: nat, b: nat): seq<byte>
    requires a <= b <= |s|
  {
    s[a..b]
  }

  /** The bytes that one pass of the read loop copies out. */
  function ReadPass(fs: Fs, h: Handle, c: nat): seq<byte>
    requires h.slot < |fs.inodes| && |fs.marks| <= MAX_FS_BLOCKS && h.pos % BLOCK_SIZE + c <= BLOCK_SIZE
  {
    LoadBlock(fs, h, h.pos / BLOCK_SIZE, false).1.cache[h.pos % BLOCK_SIZE..h.pos % BLOCK_SIZE + c]
  }

  /** Read's loop returns the slice of the file at the current position. */
  lemma {:induction false} ReadSlices(fs: Fs, h: Handle, n: nat)
    requires Inv(fs) && HandleOk(fs, h) && Backed(fs, h) && h.pos + n <= fs.inodes[h.slot].length
    ensures |fs.marks| <= MAX_FS_BLOCKS && |Contents(fs, h)| == fs.inodes[h.slot].length
    ensures ReadLoop(fs, h, n).2 == Slice(Contents(fs, h), h.pos, h.pos + n)
    decreases n
  {
    hide Ref, Inv, LoadBlock, Contents, OnlyFile, SameRefs, Backed, ReadPass, Slice, ReadLoop, HandleOk, Live;
    SlotBounds(fs, h);
    ReadLoopStep(fs, h, n);
    if n > 0 {
      var c := ChunkSize(h.pos, n);
      var (fs1, h1) := LoadBlock(fs, h, h.pos / BLOCK_SIZE, false);
      ReadStep(fs, h, c);
      ReadSlices(fs1, h1.(pos := h.pos + c), n - c);
      SliceIsJoin(Contents(fs, h), h.pos, h.pos + c, h.pos + n);
    } else {
      SliceIsEmpty(Contents(fs, h), h.pos);
    }
  }

  lemma SlotBounds(fs: Fs, h: Handle)
    requires Inv(fs) && HandleOk(fs, h)
    ensures h.slot < |fs.inodes| && |fs.marks| <= MAX_FS_BLOCKS && |Contents(fs, h)| == fs.inodes[h.slot].length
  {
    IndexOfLive(fs, h.slot);
    hide Inv;
  }

  lemma SliceIsEmpty(s: seq<byte>, a: nat)
    requires a <= |s|
    ensures Slice(s, a, a) == []
  {
  }

  lemma SliceIsJoin(s: seq<byte>, a: nat, b: nat, c: nat)
    requires a <= b <= c <= |s|
    ensures Slice(s, a, b) + Slice(s, b, c) == Slice(s, a, c)
  {
  }

  lemma ReadLoopStep(fs: Fs, h: Handle, n: nat)
    requires h.slot < |fs.inodes| && |fs.marks| <= MAX_FS_BLOCKS
    ensures n == 0 ==> ReadLoop(fs, h, n) == (fs, h, [])
    ensures n > 0 ==>
      var c := ChunkSize(h.pos, n);
      var (fs1, h1) := LoadBlock(fs, h, h.pos / BLOCK_SIZE, false);
      && h1.pos == h.pos
      && var (fs2, h2, rest) := ReadLoop(fs1, h1.(pos := h.pos + c), n - c);
      ReadLoop(fs, h, n) == (fs2, h2, ReadPass(fs, h, c) + rest)
  {
    hide LoadBlock;
    LoadKeepsPos(fs, h, h.pos / BLOCK_SIZE, false);
  }

  lemma LoadKeepsPos(fs: Fs, h: Handle, k: nat, allocate: bool)
    requires h.slot < |fs.inodes| && |fs.marks| <= MAX_FS_BLOCKS
    ensures LoadBlock(fs, h, k, allocate).1.pos == h.pos
  {
    hide Flush;
    hide Allocate;
    hide DataBlock;
  }

  lemma ContentsLength(fs: Fs, h: Handle)
    requires HandleOk(fs, h)
    ensures |Contents(fs, h)| == fs.inodes[h.slot].length
  {
  }

  /** One pass of the read loop. */
  lemma ReadStep(fs: Fs, h: Handle, c: nat)
    requires Inv(fs) && HandleOk(fs, h) && Backed(fs, h)
    requires 0 < c && h.pos % BLOCK_SIZE + c <= BLOCK_SIZE && h.pos + c <= fs.inodes[h.slot].length
    ensures
      var (fs1, h1) := LoadBlock(fs, h, h.pos / BLOCK_SIZE, false);
      var h2 := h1.(pos := h.pos + c);
      && Inv(fs1) && HandleOk(fs1, h2) && Backed(fs1, h2) && OnlyFile(fs, fs1, h.slot)
      && fs1.inodes == fs.inodes && fs1.marks == fs.marks && SameRefs(fs, fs1)
      && h2.slot == h.slot && h2.pos == h.pos + c
      && Contents(fs1, h2) == Contents(fs, h)
      && |Contents(fs, h)| == fs.inodes[h.slot].length
      && ReadPass(fs, h, c) == Slice(Contents(fs, h), h.pos, h.pos + c)
  {
    hide Ref;
    hide Inv;
    hide LoadBlock;
    hide BlockAt;
    hide Contents;
    IndexOfLive(fs, h.slot);
    LoadMeaning(fs, h, h.pos / BLOCK_SIZE, false);
    var (fs1, h1) := LoadBlock(fs, h, h.pos / BLOCK_SIZE, false);
    var h2 := h1.(pos := h1.pos + c);
    ContentsAre(fs, h);
    ContentsAre(fs1, h2);
    assert Contents(fs1, h2) == Contents(fs, h);
    ReadBytes(Contents(fs, h), h1.cache, h.pos, c);
  }

  lemma ReadBytes(file: seq<byte>, blk: Block, pos: nat, c: nat)
    requires pos % BLOCK_SIZE + c <= BLOCK_SIZE && pos + c <= |file|
    requires forall p: nat :: p < |file| && p / BLOCK_SIZE == pos / BLOCK_SIZE ==> file[p] == blk[p % BLOCK_SIZE]
    ensures blk[pos % BLOCK_SIZE..pos % BLOCK_SIZE + c] == file[pos..pos + c]
  {
    var off := pos % BLOCK_SIZE;
    forall q: nat | pos <= q < pos + c
      ensures file[q] == blk[off + (q - pos)]
    {
      assert q / BLOCK_SIZE == pos / BLOCK_SIZE && q % BLOCK_SIZE == off + (q - pos);
    }
  }

  // ----- Read and Write as called -----

  lemma ReadCountIs(fs: Fs, h: Handle, n: nat)
    requires HandleOk(fs, h) && h.pos + n < TWO32
    ensures ReadCount(fs, h, n) == Min(n, fs.inodes[h.slot].length - h.pos)
  {
  }

  lemma DenseOfSameRefs(a: Fs, b: Fs, i: nat)
    requires Live(a, i) && SameRefs(a, b) && a.inodes == b.inodes && Dense(a, i)
    ensures Dense(b, i)
  {
    hide Ref;
  }

  /** Read returns the bytes from the current position up to n of them or the end of the file. */
  lemma ReadMeaning(fs: Fs, h: Handle, n: nat)
    requires Inv(fs) && HandleOk(fs, h) && Backed(fs, h) && Dense(fs, h.slot) && h.pos + n < TWO32
    ensures |fs.marks| <= MAX_FS_BLOCKS
    ensures
      var (fs', h', out) := ReadFile(fs, h, n);
      var c := Min(n, fs.inodes[h.slot].length - h.pos);
      && Inv(fs') && HandleOk(fs', h') && Backed(fs', h') && OnlyFile(fs, fs', h.slot) && Dense(fs', h.slot)
      && h'.slot == h.slot && h'.pos == h.pos + c
      && Contents(fs', h') == Contents(fs, h)
      && out == Contents(fs, h)[h.pos..h.pos + c]
  {
    hide Ref;
    hide Inv;
    hide Dense;
    hide ReadLoop;
    hide Contents;
    hide SameRefs;
    hide OnlyFile;
    IndexOfLive(fs, h.slot);
    ReadCountIs(fs, h, n);
    ReadKeeps(fs, h, ReadCount(fs, h, n));
    ReadSlices(fs, h, ReadCount(fs, h, n));
    DenseOfSameRefs(fs, ReadFile(fs, h, n).0, h.slot);
  }

  /** A write that finds room leaves no byte of the file without a block. */
  lemma WriteDense(fs: Fs, h: Handle, data: seq<byte>)
    requires Inv(fs) && HandleOk(fs, h) && Backed(fs, h) && Dense(fs, h.slot)
    requires h.pos + |data| <= MAX_FILE_SIZE && Room(fs, h, |data|)
    ensures |fs.marks| <= MAX_FS_BLOCKS
    ensures
      var fs' := WriteLoop(fs, h, data).0;
      h.slot < |fs'.inodes| && Dense(fs', h.slot)
  {
    hide Ref;
    hide Inv;
    hide WriteLoop;
    hide Contents;
    hide Missing;
    hide FreeCount;
    IndexOfLive(fs, h.slot);
    WriteSplices(fs, h, data);
    var (fs', h') := WriteLoop(fs, h, data);
    ContentsLength(fs, h);
    ContentsLength(fs', h');
    if data != [] {
      WriteBacksAll(fs, h, data);
    } else {
      assert fs' == fs by { WriteNothing(fs, h); }
    }
  }

  /** Write puts its bytes into the file at the current position, up to the 64 KB limit. */
  lemma WriteMeaning(fs: Fs, h: Handle, data: seq<byte>)
    requires Inv(fs) && HandleOk(fs, h) && Backed(fs, h) && Dense(fs, h.slot)
    requires Room(fs, h, Min(|data|, MAX_FILE_SIZE - h.pos))
    ensures |fs.marks| <= MAX_FS_BLOCKS
    ensures
      var (fs', h') := WriteFile(fs, h, data);
      var n := Min(|data|, MAX_FILE_SIZE - h.pos);
      && Inv(fs') && HandleOk(fs', h') && Backed(fs', h') && OnlyFile(fs, fs', h.slot) && Dense(fs', h.slot)
      && WriteCount(h, |data|) == n && h'.slot == h.slot && h'.pos == h.pos + n
      && Contents(fs', h') == Splice(Contents(fs, h), h.pos, data[..n])
  {
    hide Ref;
    hide Inv;
    hide Dense;
    hide WriteLoop;
    hide Contents;
    hide Room;
    hide OnlyFile;
    IndexOfLive(fs, h.slot);
    var n := Min(|data|, MAX_FILE_SIZE - h.pos);
    WriteDense(fs, h, data[..n]);
    WriteSplices(fs, h, data[..n]);
  }
}
