/**
 What the operations mean: the bytes a file holds, seen through the write-back cache
 of its handle, and what every operation does to the bytes and blocks of every file.
 */
module FsMeaning {
  import opened Bytes
  import opened FsState
  import opened FsOps

  // ----- the bytes of a file -----

  ghost predicate HandleOk(fs: Fs, h: Handle) {
    Live(fs, h.slot) && h.cur < MAX_FILE_BLOCKS && h.pos <= fs.inodes[h.slot].length <= MAX_FILE_SIZE
  }

  /** A dirty cache has a disk block to go to. */
  ghost predicate Backed(fs: Fs, h: Handle)
    requires HandleOk(fs, h)
  {
    h.dirty ==> Ref(fs, h.slot, h.cur) != 0
  }

  /** Logical block k of an open file: the cache, while dirty, hides the disk. */
  ghost function Logical(fs: Fs, h: Handle, k: nat): Block
    requires h.slot < |fs.inodes| && k < MAX_FILE_BLOCKS
  {
    if h.dirty && k == h.cur then h.cache else BlockAt(fs, h.slot, k)
  }

  /** The bytes of an open file. */
  ghost function Contents(fs: Fs, h: Handle): seq<byte>
    requires HandleOk(fs, h)
  {
    seq(fs.inodes[h.slot].length, p requires 0 <= p < fs.inodes[h.slot].length =>
      Logical(fs, h, p / BLOCK_SIZE)[p % BLOCK_SIZE])
  }

  /** A handle that caches nothing: what it sees is what the disk holds. */
  function Shut(i: nat): Handle {
    Handle(i, 0, 0, false, Zeros())
  }

  // ----- what stays the same -----

  ghost predicate Untouched(a: Fs, b: Fs, j: nat) {
    && Live(a, j) && Live(b, j) && a.inodes[j] == b.inodes[j]
    && (forall k: nat :: k <= MAX_FILE_BLOCKS ==> Ref(b, j, k) == Ref(a, j, k))
    && (forall k: nat :: k < MAX_FILE_BLOCKS ==> BlockAt(b, j, k) == BlockAt(a, j, k))
  }

  /** Between a and b only file i's own blocks and length may have changed. */
  ghost predicate OnlyFile(a: Fs, b: Fs, i: nat) {
    && |a.inodes| == |b.inodes| && |a.marks| == |b.marks| && |a.disk| == |b.disk|
    && (forall j: nat :: Live(a, j) <==> Live(b, j))
    && (forall j: nat :: j != i && Live(a, j) ==> Untouched(a, b, j))
    && (forall j: nat :: j < |a.inodes| && j != i ==> a.inodes[j] == b.inodes[j])
    && (i < |a.inodes| ==> b.inodes[i] == a.inodes[i].(length := b.inodes[i].length))
  }

  lemma OnlyFileTrans(a: Fs, b: Fs, c: Fs, i: nat)
    requires OnlyFile(a, b, i) && OnlyFile(b, c, i)
    ensures OnlyFile(a, c, i)
  {
    hide Ref;
    hide BlockAt;
    forall j: nat | j != i && Live(a, j)
      ensures Untouched(a, c, j)
    {
      assert Untouched(a, b, j) && Untouched(b, c, j);
    }
  }

  // ----- small steps -----

  lemma DataBlockIsRef(fs: Fs, i: nat, k: nat)
    requires Inv(fs) && Live(fs, i) && k < MAX_FILE_BLOCKS
    ensures DataBlock(fs, i, k) == Ref(fs, i, k)
  {
    RefBound(fs, i, MAX_FILE_BLOCKS);
    hide Entry;
    hide Inv;
  }

  lemma IndexOfLive(fs: Fs, i: nat)
    requires Inv(fs) && Live(fs, i)
    ensures METADATA_BLOCKS <= fs.inodes[i].index < |fs.marks| <= |fs.disk|
    ensures |fs.marks| <= MAX_FS_BLOCKS
  {
    RefBound(fs, i, MAX_FILE_BLOCKS);
  }

  /** Writing back the cache puts the bytes the handle shows onto the disk, and moves nothing else. */
  lemma FlushMeaning(fs: Fs, h: Handle)
    requires Inv(fs) && HandleOk(fs, h)
    ensures
      var fs' := Flush(fs, h);
      && Inv(fs') && OnlyFile(fs, fs', h.slot) && SameRefs(fs, fs')
      && fs'.inodes == fs.inodes && fs'.marks == fs.marks
      && (Backed(fs, h) ==> forall l: nat :: l < MAX_FILE_BLOCKS ==> BlockAt(fs', h.slot, l) == Logical(fs, h, l))
  {
    hide Ref, Inv, DataBlock, BlockAt, Put;
    DataBlockIsRef(fs, h.slot, h.cur);
    if h.dirty && Ref(fs, h.slot, h.cur) != 0 {
      PutData(fs, h.slot, h.cur, h.cache);
    }
  }

  /** Allocation never changes a byte of any file; it links at most the block asked for. */
  lemma AllocateMeaning(fs: Fs, i: nat, k: nat)
    requires Inv(fs) && Live(fs, i) && k < MAX_FILE_BLOCKS
    ensures
      var fs' := Allocate(fs, i, k);
      && Inv(fs') && OnlyFile(fs, fs', i) && fs'.inodes == fs.inodes
      && (forall l: nat :: l < MAX_FILE_BLOCKS ==> BlockAt(fs', i, l) == BlockAt(fs, i, l))
      && (forall l: nat :: l <= MAX_FILE_BLOCKS && l != k ==> Ref(fs', i, l) == Ref(fs, i, l))
      && (Ref(fs', i, k) != 0 <==> Ref(fs, i, k) != 0 || FreeBlock(fs.marks).Some?)
      && fs'.marks == (if Ref(fs, i, k) == 0 && FreeBlock(fs.marks).Some?
                       then fs.marks[FreeBlock(fs.marks).value := true] else fs.marks)
  {
    hide Ref;
    hide BlockAt;
    hide Inv;
    hide SetEntry;
    hide DataBlock;
    hide Put;
    hide Get;
    DataBlockIsRef(fs, i, k);
    IndexOfLive(fs, i);
    if Ref(fs, i, k) == 0 && FreeBlock(fs.marks).Some? {
      LinkBlock(fs, i, k, FreeBlock(fs.marks).value);
    }
  }

  /** The flags after logical block k of inode i has been asked for with allocation. */
  function MarksAfter(marks: seq<bool>, present: bool): seq<bool> {
    if present || FreeBlock(marks).None? then marks else marks[FreeBlock(marks).value := true]
  }

  /** LoadBlock brings the block the handle shows into the cache and changes no file's bytes. */
  lemma LoadMeaning(fs: Fs, h: Handle, k: nat, allocate: bool)
    requires Inv(fs) && HandleOk(fs, h) && k < MAX_FILE_BLOCKS
    ensures
      var (fs', h') := LoadBlock(fs, h, k, allocate);
      && Inv(fs') && OnlyFile(fs, fs', h.slot) && fs'.inodes == fs.inodes
      && HandleOk(fs', h') && h' == h.(cur := k, dirty := false, cache := BlockAt(fs', h.slot, k))
      && (Backed(fs, h) ==> forall l: nat :: l < MAX_FILE_BLOCKS ==> BlockAt(fs', h.slot, l) == Logical(fs, h, l))
      && (forall l: nat :: l <= MAX_FILE_BLOCKS && l != k ==> Ref(fs', h.slot, l) == Ref(fs, h.slot, l))
      && (Ref(fs', h.slot, k) != 0 <==> Ref(fs, h.slot, k) != 0 || (allocate && FreeBlock(fs.marks).Some?))
      && fs'.marks == (if allocate then MarksAfter(fs.marks, Ref(fs, h.slot, k) != 0) else fs.marks)
      && (!allocate ==> SameRefs(fs, fs'))
  {
    hide Ref;
    hide Inv;
    hide DataBlock;
    hide Flush;
    hide Allocate;
    hide FreeBlock;
    var fs1 := Flush(fs, h);
    IndexOfLive(fs, h.slot);
    FlushMeaning(fs, h);
    if allocate {
      AllocateMeaning(fs1, h.slot, k);
      OnlyFileTrans(fs, fs1, Allocate(fs1, h.slot, k), h.slot);
      DataBlockIsRef(Allocate(fs1, h.slot, k), h.slot, k);
    } else {
      DataBlockIsRef(fs1, h.slot, k);
    }
  }

  /** Raising the length of a file keeps the invariant and every block. */
  lemma GrowMeaning(fs: Fs, i: nat, pos: nat)
    requires Inv(fs) && Live(fs, i) && pos <= MAX_FILE_SIZE
    ensures
      var fs' := Grown(fs, i, pos);
      && Inv(fs') && OnlyFile(fs, fs', i) && SameRefs(fs, fs') && fs'.marks == fs.marks
      && (forall l: nat :: l < MAX_FILE_BLOCKS ==> BlockAt(fs', i, l) == BlockAt(fs, i, l))
  {
    hide Ref, OwnedBy, Grown;
    var fs' := Grown(fs, i, pos);
    GrownLength(fs, i, pos);
    forall j: nat, k: nat | Live(fs, j) && k <= MAX_FILE_BLOCKS
      ensures Ref(fs', j, k) == Ref(fs, j, k)
    {
      GrownRef(fs, i, pos, j, k);
    }
    SameRefsInv(fs, fs');
  }

  lemma GrownRef(fs: Fs, i: nat, pos: nat, j: nat, k: nat)
    requires i < |fs.inodes| && j < |fs.inodes| && k <= MAX_FILE_BLOCKS
    ensures |Grown(fs, i, pos).inodes| == |fs.inodes|
    ensures Ref(Grown(fs, i, pos), j, k) == Ref(fs, j, k)
  {
    hide Entry;
  }

  // ----- writing -----

  /** Bytes d written over c at position p, growing c where d runs past its end. */
  function Splice(c: seq<byte>, p: nat, d: seq<byte>): (r: seq<byte>)
    requires p <= |c|
    ensures |r| == if p + |d| > |c| then p + |d| else |c|
  {
    c[..p] + d + if p + |d| < |c| then c[p + |d|..] else []
  }

  /** One pass of the write loop, block by block. */
  lemma ChunkMeaning(fs: Fs, h: Handle, data: seq<byte>)
    requires Inv(fs) && HandleOk(fs, h) && h.pos < MAX_FILE_SIZE
    requires h.pos % BLOCK_SIZE + |data| <= BLOCK_SIZE
    ensures
      var (fs', h') := WriteChunk(fs, h, data);
      var k := h.pos / BLOCK_SIZE;
      var length := fs.inodes[h.slot].length;
      && Inv(fs') && HandleOk(fs', h') && OnlyFile(fs, fs', h.slot)
      && h'.slot == h.slot && h'.pos == h.pos + |data| && h'.cur == k && h'.dirty
      && fs'.inodes[h.slot].length == (if h'.pos > length then h'.pos else length)
      && (forall l: nat :: l <= MAX_FILE_BLOCKS && l != k ==> Ref(fs', h.slot, l) == Ref(fs, h.slot, l))
      && (Ref(fs', h.slot, k) != 0 <==> Ref(fs, h.slot, k) != 0 || FreeBlock(fs.marks).Some?)
      && fs'.marks == MarksAfter(fs.marks, Ref(fs, h.slot, k) != 0)
      && (Backed(fs, h) ==> forall l: nat :: l < MAX_FILE_BLOCKS ==>
            Logical(fs', h', l) ==
              if l == k then Patch(Logical(fs, h, k), h.pos % BLOCK_SIZE, data) else Logical(fs, h, l))
  {
    hide Inv;
    hide Ref;
    hide BlockAt;
    hide FreeBlock;
    hide LoadBlock;
    hide Grown;
    IndexOfLive(fs, h.slot);
    LoadMeaning(fs, h, h.pos / BLOCK_SIZE, true);
    var (fs1, h1) := LoadBlock(fs, h, h.pos / BLOCK_SIZE, true);
    GrowMeaning(fs1, h.slot, h.pos + |data|);
    OnlyFileTrans(fs, fs1, Grown(fs1, h.slot, h.pos + |data|), h.slot);
    GrownLength(fs1, h.slot, h.pos + |data|);
  }

  lemma GrownLength(fs: Fs, i: nat, pos: nat)
    requires i < |fs.inodes|
    ensures
      var length := fs.inodes[i].length;
      && Grown(fs, i, pos) == fs.(inodes := Grown(fs, i, pos).inodes)
      && |Grown(fs, i, pos).inodes| == |fs.inodes|
      && (forall j: nat :: j < |fs.inodes| && j != i ==> Grown(fs, i, pos).inodes[j] == fs.inodes[j])
      && Grown(fs, i, pos).inodes[i] == fs.inodes[i].(length := if pos > length then pos else length)
  {
  }

  /** One byte after the chunk has been written. */
  lemma ChunkByte(a: Block, b: Block, data: seq<byte>, pos: nat, p: nat)
    requires pos % BLOCK_SIZE + |data| <= BLOCK_SIZE
    requires b == if p / BLOCK_SIZE == pos / BLOCK_SIZE then Patch(a, pos % BLOCK_SIZE, data) else a
    ensures b[p % BLOCK_SIZE] == if pos <= p < pos + |data| then data[p - pos] else a[p % BLOCK_SIZE]
  {
    if p / BLOCK_SIZE == pos / BLOCK_SIZE {
      assert p - pos == p % BLOCK_SIZE - pos % BLOCK_SIZE;
    }
  }

  lemma ContentsAt(fs: Fs, h: Handle, p: nat)
    requires HandleOk(fs, h)
    ensures |Contents(fs, h)| == fs.inodes[h.slot].length
    ensures p < |Contents(fs, h)| ==> Contents(fs, h)[p] == Logical(fs, h, p / BLOCK_SIZE)[p % BLOCK_SIZE]
  {
  }

  /** One byte of the file after one pass of the write loop. */
  lemma ChunkAt(fs: Fs, h: Handle, data: seq<byte>, p: nat)
    requires Inv(fs) && HandleOk(fs, h) && Backed(fs, h) && h.pos < MAX_FILE_SIZE
    requires h.pos % BLOCK_SIZE + |data| <= BLOCK_SIZE
    ensures
      var (fs', h') := WriteChunk(fs, h, data);
      && HandleOk(fs', h')
      && var c, c' := Contents(fs, h), Contents(fs', h');
      && h.pos <= |c| && |c'| == (if h.pos + |data| > |c| then h.pos + |data| else |c|)
      && (p < |c'| ==> c'[p] == if h.pos <= p < h.pos + |data| then data[p - h.pos] else c[p])
  {
    hide Inv;
    hide Ref;
    hide OnlyFile;
    hide FreeBlock;
    hide Backed;
    hide WriteChunk;
    hide Logical;
    hide Patch;
    hide Contents;
    IndexOfLive(fs, h.slot);
    ChunkMeaning(fs, h, data);
    var (fs', h') := WriteChunk(fs, h, data);
    ContentsAt(fs, h, p);
    ContentsAt(fs', h', p);
    if p < |Contents(fs', h')| {
      ChunkByte(Logical(fs, h, p / BLOCK_SIZE), Logical(fs', h', p / BLOCK_SIZE), data, h.pos, p);
    }
  }

  /** One pass of the write loop, as bytes: it splices the chunk in at the current position. */
  lemma ChunkSplices(fs: Fs, h: Handle, data: seq<byte>)
    requires Inv(fs) && HandleOk(fs, h) && Backed(fs, h) && h.pos < MAX_FILE_SIZE
    requires h.pos % BLOCK_SIZE + |data| <= BLOCK_SIZE
    ensures
      var (fs', h') := WriteChunk(fs, h, data);
      && HandleOk(fs', h')
      && Contents(fs', h') == Splice(Contents(fs, h), h.pos, data)
  {
    hide Inv;
    hide WriteChunk;
    hide Contents;
    hide Splice;
    IndexOfLive(fs, h.slot);
    hide HandleOk;
    hide Backed;
    ChunkAt(fs, h, data, 0);
    var (fs', h') := WriteChunk(fs, h, data);
    var c, c' := Contents(fs, h), Contents(fs', h');
    forall p: nat | p < |c'|
      ensures c'[p] == if h.pos <= p < h.pos + |data| then data[p - h.pos] else c[p]
    {
      ChunkAt(fs, h, data, p);
    }
    SplicedBytes(c, c', h.pos, data);
  }

  lemma ContentsAre(fs: Fs, h: Handle)
    requires HandleOk(fs, h)
    ensures |Contents(fs, h)| == fs.inodes[h.slot].length
    ensures forall p: nat :: p < |Contents(fs, h)| ==>
      Contents(fs, h)[p] == Logical(fs, h, p / BLOCK_SIZE)[p % BLOCK_SIZE]
  {
  }

  lemma SplicedBytes(c: seq<byte>, c': seq<byte>, p: nat, d: seq<byte>)
    requires p <= |c| && |c'| == if p + |d| > |c| then p + |d| else |c|
    requires forall q: nat :: q < |c'| ==> c'[q] == if p <= q < p + |d| then d[q - p] else c[q]
    ensures c' == Splice(c, p, d)
  {
  }
}
