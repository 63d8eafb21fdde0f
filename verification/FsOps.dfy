/**
 The operations of the file system and of an open file, as functions on states.
 The classes FileSystem and File are proved to compute exactly these functions;
 the lemmas in FsMeaning say what the functions mean.
 */
module FsOps {
  import opened Bytes
  import opened FsState
  import opened FsLayout

  // ----- searches -----

  /** The first used inode at or after i that carries the id. */
  function Lookup(inodes: seq<Inode>, id: int, i: nat := 0): (r: Option<nat>)
    requires i <= |inodes|
    ensures r.Some? ==> i <= r.value < |inodes| && inodes[r.value].used && inodes[r.value].id == id
    ensures r.Some? ==> forall j :: i <= j < r.value ==> !(inodes[j].used && inodes[j].id == id)
    ensures r.None? ==> forall j :: i <= j < |inodes| ==> !(inodes[j].used && inodes[j].id == id)
    decreases |inodes| - i
  {
    if i == |inodes| then None
    else if inodes[i].used && inodes[i].id == id then Some(i)
    else Lookup(inodes, id, i + 1)
  }

  /** The first unused inode at or after i. */
  function FreeInode(inodes: seq<Inode>, i: nat := 0): (r: Option<nat>)
    requires i <= |inodes|
    ensures r.Some? ==> i <= r.value < |inodes| && !inodes[r.value].used
    ensures r.Some? ==> forall j :: i <= j < r.value ==> inodes[j].used
    ensures r.None? ==> forall j :: i <= j < |inodes| ==> inodes[j].used
    decreases |inodes| - i
  {
    if i == |inodes| then None
    else if !inodes[i].used then Some(i)
    else FreeInode(inodes, i + 1)
  }

  /** The first block at or after b that is not taken. */
  function FreeBlock(marks: seq<bool>, b: nat := METADATA_BLOCKS): (r: Option<nat>)
    ensures r.Some? ==> b <= r.value < |marks| && !marks[r.value]
    ensures r.Some? ==> forall c :: b <= c < r.value ==> marks[c]
    ensures r.None? ==> forall c :: b <= c < |marks| ==> marks[c]
    decreases |marks| - b
  {
    if b >= |marks| then None
    else if !marks[b] then Some(b)
    else FreeBlock(marks, b + 1)
  }

  // ----- data blocks of one inode -----

  /** The block GetDataBlock finds without allocating; 0 if there is none. */
  function DataBlock(fs: Fs, i: nat, k: nat): nat
    requires i < |fs.inodes|
  {
    if k >= MAX_FILE_BLOCKS || fs.inodes[i].index == 0 then 0
    else Entry(Get(fs.disk, fs.inodes[i].index), k)
  }

  /** GetDataBlock with allocation: the state after it; the block is then DataBlock of that state. */
  function Allocate(fs: Fs, i: nat, k: nat): (r: Fs)
    requires i < |fs.inodes| && |fs.marks| <= MAX_FS_BLOCKS
    ensures |r.inodes| == |fs.inodes| && |r.marks| == |fs.marks|
  {
    if k >= MAX_FILE_BLOCKS || fs.inodes[i].index == 0 || DataBlock(fs, i, k) != 0 then fs
    else match FreeBlock(fs.marks)
      case None => fs
      case Some(nb) => Linked(fs, i, k, nb)
  }

  /** The free-block flags after the entries k.. of an index block have been released. */
  function Released(marks: seq<bool>, blk: Block, k: nat := 0): (r: seq<bool>)
    requires k <= MAX_FILE_BLOCKS
    ensures |r| == |marks|
    decreases MAX_FILE_BLOCKS - k
  {
    if k == MAX_FILE_BLOCKS then marks
    else Released(Unmark(marks, Entry(blk, k)), blk, k + 1)
  }

  function Unmark(marks: seq<bool>, b: nat): (r: seq<bool>)
    ensures |r| == |marks|
  {
    if METADATA_BLOCKS <= b < |marks| then marks[b := false] else marks
  }

  /** FreeAllBlocks. */
  function FreeAll(fs: Fs, i: nat): (marks: seq<bool>)
    requires i < |fs.inodes|
    ensures |marks| == |fs.marks|
  {
    var x := fs.inodes[i].index;
    if x == 0 then fs.marks else Unmark(Released(fs.marks, Get(fs.disk, x)), x)
  }

  // ----- files by id -----

  function Created(fs: Fs, i: nat, id: int, nb: nat): Fs
    requires i < |fs.inodes| && nb < |fs.marks|
  {
    fs.(inodes := fs.inodes[i := Inode(id, nb, 0, true)],
        marks := fs.marks[nb := true],
        disk := Put(fs.disk, nb, Zeros()))
  }

  /** CreateFile: the new state, and whether the file was created. */
  function CreateFile(fs: Fs, id: int): (Fs, bool)
    requires Shape(fs) && -0x8000_0000 <= id < 0x8000_0000
  {
    if Lookup(fs.inodes, id).Some? then (fs, false)
    else match (FreeInode(fs.inodes), FreeBlock(fs.marks))
      case (Some(i), Some(nb)) => (Save(Created(fs, i, id, nb)), true)
      case _ => (fs, false)
  }

  function Deleted(fs: Fs, i: nat): Fs
    requires i < |fs.inodes|
  {
    fs.(marks := FreeAll(fs, i), inodes := fs.inodes[i := FREE_INODE])
  }

  /** DeleteFile: the new state, and whether there was such a file. */
  function DeleteFile(fs: Fs, id: int): (Fs, bool)
    requires Shape(fs)
  {
    match Lookup(fs.inodes, id)
    case None => (fs, false)
    case Some(i) => (Save(Deleted(fs, i)), true)
  }

  // ----- an open file -----

  /** An open file: `cur` is the logical block in the cache, `dirty` whether it must be written back. */
  datatype Handle = Handle(slot: nat, pos: nat, cur: nat, dirty: bool, cache: Block)

  /** Writing back a dirty cache; dropped when the logical block has no disk block. */
  function Flush(fs: Fs, h: Handle): (r: Fs)
    requires h.slot < |fs.inodes|
    ensures |r.inodes| == |fs.inodes| && |r.marks| == |fs.marks|
  {
    var p := DataBlock(fs, h.slot, h.cur);
    if h.dirty && p != 0 then fs.(disk := Put(fs.disk, p, h.cache)) else fs
  }

  /** LoadBlock: write back the old block, then fetch (or allocate) logical block k. */
  function LoadBlock(fs: Fs, h: Handle, k: nat, allocate: bool): (r: (Fs, Handle))
    requires h.slot < |fs.inodes| && |fs.marks| <= MAX_FS_BLOCKS
    ensures |r.0.inodes| == |fs.inodes| && |r.0.marks| == |fs.marks| && r.1.slot == h.slot
  {
    var fs1 := Flush(fs, h);
    var fs2 := if allocate then Allocate(fs1, h.slot, k) else fs1;
    var p := DataBlock(fs2, h.slot, k);
    (fs2, h.(cur := k, dirty := false, cache := if p != 0 then Get(fs2.disk, p) else Zeros()))
  }

  /** The File constructor. */
  function OpenFile(fs: Fs, i: nat): (Fs, Handle)
    requires i < |fs.inodes| && |fs.marks| <= MAX_FS_BLOCKS
  {
    var h := Handle(i, 0, 0, false, Zeros());
    if fs.inodes[i].length > 0 then LoadBlock(fs, h, 0, false) else (fs, h)
  }

  /** The File destructor: write back the cache, then both metadata blocks. */
  function CloseFile(fs: Fs, h: Handle): Fs
    requires h.slot < |fs.inodes| && StorableTable(fs.inodes) && |fs.marks| <= MAX_FS_BLOCKS
  {
    Save(Flush(fs, h))
  }

  function Min(a: nat, b: nat): nat {
    if a < b then a else b
  }

  /** Bytes of one pass of the copy loops: what is left, up to the end of the block. */
  function ChunkSize(pos: nat, remaining: nat): (n: nat)
    ensures n <= remaining && pos % BLOCK_SIZE + n <= BLOCK_SIZE
    ensures remaining > 0 ==> n > 0
  {
    Min(remaining, BLOCK_SIZE - pos % BLOCK_SIZE)
  }

  /** The block with `data` copied over it from `off` on. */
  function Patch(blk: Block, off: nat, data: seq<byte>): Block
    requires off + |data| <= BLOCK_SIZE
  {
    blk[..off] + data + blk[off + |data|..]
  }

  /** The length is raised to the position reached, never lowered. */
  function Grown(fs: Fs, i: nat, pos: nat): Fs
    requires i < |fs.inodes|
  {
    if pos > fs.inodes[i].length then fs.(inodes := fs.inodes[i := fs.inodes[i].(length := pos)]) else fs
  }

  /** One pass of Write's loop. */
  function WriteChunk(fs: Fs, h: Handle, data: seq<byte>): (r: (Fs, Handle))
    requires h.slot < |fs.inodes| && |fs.marks| <= MAX_FS_BLOCKS
    requires h.pos % BLOCK_SIZE + |data| <= BLOCK_SIZE
    ensures |r.0.inodes| == |fs.inodes| && |r.0.marks| == |fs.marks| && r.1.slot == h.slot
  {
    var (fs1, h1) := LoadBlock(fs, h, h.pos / BLOCK_SIZE, true);
    var pos' := h.pos + |data|;
    var h2 := h1.(cache := Patch(h1.cache, h.pos % BLOCK_SIZE, data), dirty := true, pos := pos');
    (Grown(fs1, h.slot, pos'), h2)
  }

  /** Write's loop over the bytes it has decided to write. */
  function WriteLoop(fs: Fs, h: Handle, data: seq<byte>): (r: (Fs, Handle))
    requires h.slot < |fs.inodes| && |fs.marks| <= MAX_FS_BLOCKS
    ensures |r.0.inodes| == |fs.inodes| && |r.0.marks| == |fs.marks| && r.1.slot == h.slot
    decreases |data|
  {
    if data == [] then (fs, h)
    else
      var n := ChunkSize(h.pos, |data|);
      var (fs1, h1) := WriteChunk(fs, h, data[..n]);
      WriteLoop(fs1, h1, data[n..])
  }

  /** How many of n bytes Write takes at the current position. */
  function WriteCount(h: Handle, n: nat): nat {
    if h.pos >= MAX_FILE_SIZE then 0 else Min(n, MAX_FILE_SIZE - h.pos)
  }

  function WriteFile(fs: Fs, h: Handle, data: seq<byte>): (r: (Fs, Handle))
    requires h.slot < |fs.inodes| && |fs.marks| <= MAX_FS_BLOCKS
    ensures |r.0.inodes| == |fs.inodes| && |r.0.marks| == |fs.marks| && r.1.slot == h.slot
  {
    WriteLoop(fs, h, data[..WriteCount(h, |data|)])
  }

  /** Read's loop over n bytes: the state, the handle and the bytes copied out. */
  function ReadLoop(fs: Fs, h: Handle, n: nat): (r: (Fs, Handle, seq<byte>))
    requires h.slot < |fs.inodes| && |fs.marks| <= MAX_FS_BLOCKS
    ensures |r.0.inodes| == |fs.inodes| && |r.0.marks| == |fs.marks| && r.1.slot == h.slot
    decreases n
  {
    if n == 0 then (fs, h, [])
    else
      var c := ChunkSize(h.pos, n);
      var (fs1, h1) := LoadBlock(fs, h, h.pos / BLOCK_SIZE, false);
      var off := h.pos % BLOCK_SIZE;
      var (fs2, h2, rest) := ReadLoop(fs1, h1.(pos := h1.pos + c), n - c);
      (fs2, h2, h1.cache[off..off + c] + rest)
  }

  /** How many bytes Read copies: `current_pos + _n` is 32-bit arithmetic and may wrap. */
  function ReadCount(fs: Fs, h: Handle, n: nat): nat
    requires h.slot < |fs.inodes|
  {
    var length := fs.inodes[h.slot].length;
    if h.pos >= length then 0
    else
      var end := Min((h.pos + n) % TWO32, length);
      if end > h.pos then end - h.pos else 0
  }

  function ReadFile(fs: Fs, h: Handle, n: nat): (r: (Fs, Handle, seq<byte>))
    requires h.slot < |fs.inodes| && |fs.marks| <= MAX_FS_BLOCKS
    ensures |r.0.inodes| == |fs.inodes| && |r.0.marks| == |fs.marks| && r.1.slot == h.slot
  {
    ReadLoop(fs, h, ReadCount(fs, h, n))
  }

  /** Reset rewinds the position and relabels the cached block as block 0. */
  function ResetFile(h: Handle): Handle {
    h.(pos := 0, cur := 0)
  }

  predicate AtEnd(fs: Fs, h: Handle)
    requires h.slot < |fs.inodes|
  {
    h.pos >= fs.inodes[h.slot].length
  }
}
