/**
 The File class: an open file with its position and its one-block write-back cache,
 updated in place. Every method is proved to compute the function of FsOps that its
 contract names, on the state of the file system and of the handle together.
 */
module File {
  import opened Bytes
  import opened FsState
  import opened FsLayout
  import opened FsOps
  import opened FsMeaning
  import opened FsFiles
  import opened FsTable
  import opened FileSystem

  class File {
    const fs: FileSystem
    const slot: nat
    var current_pos: nat
    var current_block_index: nat
    var cache_dirty: bool
    const block_cache: array<byte>

    /** The cache has its fixed size and is not one of the file system's tables. */
    ghost predicate Wired()
      reads this, fs
    {
      && fs.Wired() && block_cache.Length == BLOCK_SIZE
      && block_cache as object != fs.inodes && block_cache as object != fs.free_blocks
    }

    /** The handle as a value. */
    ghost function H(): Handle
      requires block_cache.Length == BLOCK_SIZE
      reads this, block_cache
    {
      Handle(slot, current_pos, current_block_index, cache_dirty, block_cache[..])
    }

    /** The file is open on a mounted file system. */
    ghost predicate Ready()
      reads this, block_cache, fs, fs.disk, fs.inodes, fs.free_blocks
    {
      Wired() && fs.Ready() && HandleOk(fs.State(), H())
    }

    /** Opens file `id`; the source asserts that it exists. */
    constructor (f: FileSystem, id: int)
      requires f.Ready() && Lookup(f.State().inodes, id).Some?
      modifies f.disk, f.free_blocks
      ensures fs == f && slot == Lookup(old(f.State()).inodes, id).value && fresh(block_cache)
      ensures |old(f.State()).marks| <= MAX_FS_BLOCKS && Ready()
      ensures (f.State(), H()) == OpenFile(old(f.State()), slot)
    {
      ghost var s0 := f.State();
      var found := f.LookupFile(id);
      fs, slot := f, found.value;
      current_pos, current_block_index, cache_dirty := 0, 0, false;
      block_cache := new byte[BLOCK_SIZE](_ => 0);
      new;
      assert block_cache[..] == Zeros();
      FreshHandle(s0, slot);
      IndexOfLive(s0, slot);
      hide Inv;
      hide FsOps.LoadBlock;
      if fs.inodes[slot].length > 0 {
        LoadBlock(0, false);
      } else {
        Clear(block_cache);
      }
    }

    /** Writes a dirty cache back, if its logical block has a disk block to go to. */
    method WriteBack()
      requires Ready()
      modifies fs.disk, fs.free_blocks
      ensures Ready() && fs.State() == Flush(old(fs.State()), H())
      ensures H() == old(H())
    {
      hide Inv;
      hide DataBlock;
      hide Ref;
      hide BlockAt;
      ghost var s0, h0 := fs.State(), H();
      IndexOfLive(s0, slot);
      FlushMeaning(s0, h0);
      if cache_dirty {
        var phys := fs.GetDataBlock(slot, current_block_index, false);
        DataBlockBound(s0, slot, current_block_index);
        if phys != 0 {
          fs.disk.Write(phys, block_cache);
        }
      }
      assert fs.State() == Flush(s0, h0);
    }

    method LoadBlock(k: nat, allocate: bool)
      requires Ready() && k < MAX_FILE_BLOCKS
      modifies this, block_cache, fs.disk, fs.free_blocks
      ensures Ready()
      ensures |old(fs.State()).marks| <= MAX_FS_BLOCKS
      ensures (fs.State(), H()) == FsOps.LoadBlock(old(fs.State()), old(H()), k, allocate)
    {
      hide Inv;
      hide DataBlock;
      hide Allocate;
      hide Flush;
      hide Ref;
      hide BlockAt;
      ghost var s0, h0 := fs.State(), H();
      IndexOfLive(s0, slot);
      LoadMeaning(s0, h0, k, allocate);
      WriteBack();
      cache_dirty := false;
      var phys := fs.GetDataBlock(slot, k, allocate);
      ghost var s1 := fs.State();
      DataBlockBound(s1, slot, k);
      if phys != 0 {
        assert phys < fs.size;
        fs.disk.Read(phys, block_cache);
      } else {
        Clear(block_cache);
      }
      current_block_index := k;
    }

    /** The destructor: write back the cache, then both metadata blocks. */
    method Close()
      requires Ready()
      modifies fs.disk, fs.free_blocks
      ensures StorableTable(old(fs.State()).inodes) && |old(fs.State()).marks| <= MAX_FS_BLOCKS
      ensures fs.Ready() && fs.State() == CloseFile(old(fs.State()), old(H()))
    {
      hide Inv;
      hide Ref;
      hide BlockAt;
      hide Flush;
      hide Save;
      hide StorableTable;
      hide Synced;
      ghost var s0, h0 := fs.State(), H();
      FlushMeaning(s0, h0);
      WriteBack();
      SaveMeaning(fs.State());
      InvStorable(s0);
      ShapeOf(fs.State());
      fs.FlushMetadata();
    }

    /** Reads up to n bytes into buf; returns how many. */
    method Read(n: nat, buf: array<byte>) returns (count: nat)
      requires Ready() && Backed(fs.State(), H()) && n < TWO32 && n <= buf.Length
      requires buf != block_cache && buf as object != fs.inodes && buf as object != fs.free_blocks
      modifies this, block_cache, fs.disk, fs.free_blocks, buf
      ensures Ready() && |old(fs.State()).marks| <= MAX_FS_BLOCKS
      ensures count <= n
      ensures (fs.State(), H(), buf[..count]) == ReadFile(old(fs.State()), old(H()), n)
      ensures buf[count..] == old(buf[count..])
    {
      hide Inv, ReadLoop;
      IndexOfLive(fs.State(), slot);
      var length := fs.inodes[slot].length;
      if current_pos >= length {
        count := ReadTo(current_pos, buf, 0);
        return;
      }
      var end_pos := (current_pos + n) % TWO32;
      if end_pos > length {
        end_pos := length;
      }
      count := ReadTo(end_pos, buf, ReadCount(fs.State(), H(), n));
    }

    /** Read's loop, up to the end position. */
    method ReadTo(end_pos: nat, buf: array<byte>, ghost total: nat) returns (count: nat)
      requires Ready() && current_pos + total <= fs.State().inodes[slot].length && total <= buf.Length
      requires if end_pos > current_pos then end_pos == current_pos + total else total == 0
      requires buf != block_cache && buf as object != fs.inodes && buf as object != fs.free_blocks
      modifies this, block_cache, fs.disk, fs.free_blocks, buf
      ensures Ready() && count == total && |old(fs.State()).marks| <= MAX_FS_BLOCKS
      ensures (fs.State(), H(), buf[..count]) == ReadLoop(old(fs.State()), old(H()), total)
      ensures forall j :: count <= j < buf.Length ==> buf[j] == old(buf[j])
    {
      hide Inv, ReadSoFar, ReadLoop, FsOps.LoadBlock, HandleOk, ChunkSize;
      ghost var s0, h0 := fs.State(), H();
      SlotBounds(s0, h0);
      count := 0;
      ReadStart(s0, h0, total);
      assert buf[..count] == [];
      while current_pos < end_pos
        invariant Ready() && |fs.State().marks| <= MAX_FS_BLOCKS && fs.State().inodes == s0.inodes
        invariant count <= total && current_pos == h0.pos + count
        invariant if current_pos < end_pos then end_pos == h0.pos + total else count == total
        invariant ReadSoFar(s0, h0, total, fs.State(), H(), buf[..count])
        invariant forall j :: count <= j < buf.Length ==> buf[j] == old(buf[j])
        decreases end_pos - current_pos
      {
        var c := ReadPiece(end_pos - current_pos, buf, count, s0, h0, total);
        count := count + c;
      }
      ReadDone(s0, h0, total, fs.State(), H(), buf[..count]);
    }

    /** One pass of Read's loop, as part of the whole read that started from s0 and h0. */
    method ReadPiece(remaining: nat, buf: array<byte>, count: nat, ghost s0: Fs, ghost h0: Handle, ghost total: nat)
      returns (c: nat)
      requires Ready() && 0 < remaining && count + remaining <= buf.Length && count + remaining == total
      requires current_pos + remaining <= fs.State().inodes[slot].length
      requires buf != block_cache && buf as object != fs.inodes && buf as object != fs.free_blocks
      requires h0.slot < |s0.inodes| && |s0.marks| <= MAX_FS_BLOCKS
      requires ReadSoFar(s0, h0, total, fs.State(), H(), buf[..count])
      modifies this, block_cache, fs.disk, fs.free_blocks, buf
      ensures Ready() && |fs.State().marks| <= MAX_FS_BLOCKS && fs.State().inodes == old(fs.State()).inodes
      ensures 0 < c <= remaining && current_pos == old(current_pos) + c
      ensures ReadSoFar(s0, h0, total, fs.State(), H(), buf[..count + c])
      ensures forall j :: count + c <= j < buf.Length ==> buf[j] == old(buf[j])
    {
      hide Inv, ReadSoFar, FsOps.LoadBlock, HandleOk;
      ghost var s1, h1, before := fs.State(), H(), buf[..count];
      c := ReadChunk(remaining, buf, count);
      ReadAdvance(s0, h0, total, s1, h1, before, remaining);
    }

    /** One pass of Read's loop: load the block under the position and copy out of the cache. */
    method ReadChunk(remaining: nat, buf: array<byte>, count: nat) returns (c: nat)
      requires Ready() && 0 < remaining && count + remaining <= buf.Length
      requires current_pos + remaining <= fs.State().inodes[slot].length
      requires buf != block_cache && buf as object != fs.inodes && buf as object != fs.free_blocks
      modifies this, block_cache, fs.disk, fs.free_blocks, buf
      ensures Ready() && |old(fs.State()).marks| <= MAX_FS_BLOCKS && |fs.State().marks| <= MAX_FS_BLOCKS
      ensures c == ChunkSize(old(current_pos), remaining) && current_pos == old(current_pos) + c
      ensures fs.State() == FsOps.LoadBlock(old(fs.State()), old(H()), old(current_pos) / BLOCK_SIZE, false).0
      ensures
        var h1 := FsOps.LoadBlock(old(fs.State()), old(H()), old(current_pos) / BLOCK_SIZE, false).1;
        var off := old(current_pos) % BLOCK_SIZE;
        && H() == h1.(pos := h1.pos + c)
        && buf[..count + c] == old(buf[..count]) + h1.cache[off..off + c]
      ensures forall j :: count + c <= j < buf.Length ==> buf[j] == old(buf[j])
      ensures fs.State().inodes == old(fs.State()).inodes
    {
      hide Inv;
      hide Ref;
      hide BlockAt;
      hide OnlyFile;
      hide SameRefs;
      hide FsOps.LoadBlock;
      ghost var s1, h1 := fs.State(), H();
      IndexOfLive(s1, slot);
      LoadMeaning(s1, h1, current_pos / BLOCK_SIZE, false);
      var off := current_pos % BLOCK_SIZE;
      c := ChunkSize(current_pos, remaining);
      LoadBlock(current_pos / BLOCK_SIZE, false);
      CopyBytes(buf, count, block_cache, off, c);
      current_pos := current_pos + c;
    }

    /** Writes up to n bytes from buf; returns how many. */
    method Write(n: nat, buf: array<byte>) returns (total_written: nat)
      requires Ready() && n <= buf.Length
      requires buf != block_cache && buf as object != fs.inodes && buf as object != fs.free_blocks
      modifies this, block_cache, fs.disk, fs.free_blocks, fs.inodes
      ensures Ready() && |old(fs.State()).marks| <= MAX_FS_BLOCKS
      ensures (fs.State(), H()) == WriteFile(old(fs.State()), old(H()), old(buf[..n]))
      ensures total_written == WriteCount(old(H()), n)
      ensures buf[..] == old(buf[..])
    {
      hide Inv;
      hide WriteLoop;
      hide WriteChunk;
      ghost var s0, h0 := fs.State(), H();
      IndexOfLive(s0, slot);
      if current_pos >= MAX_FILE_SIZE {
        WriteNothing(s0, h0);
        return 0;
      }
      var to_write_total := Min(n, MAX_FILE_SIZE - current_pos);
      ghost var all := buf[..];
      ghost var data := all[..to_write_total];
      assert data == buf[..n][..to_write_total];
      total_written := 0;
      assert data[0..] == data;
      while total_written < to_write_total
        invariant Ready() && |fs.State().marks| <= MAX_FS_BLOCKS
        invariant total_written <= to_write_total && current_pos == h0.pos + total_written
        invariant buf[..] == all
        invariant WriteLoop(fs.State(), H(), data[total_written..]) == WriteLoop(s0, h0, data)
        decreases to_write_total - total_written
      {
        ghost var s1, h1, rest := fs.State(), H(), data[total_written..];
        var c := WriteStep(to_write_total - total_written, buf, total_written);
        PieceOf(all, to_write_total, total_written, c);
        WriteAdvance(s1, h1, rest);
        total_written := total_written + c;
      }
      assert data[total_written..] == [];
      WriteNothing(fs.State(), H());
    }

    /** One pass of Write's loop: load (or take) the block under the position, copy into the cache. */
    method WriteStep(remaining: nat, buf: array<byte>, at: nat) returns (c: nat)
      requires Ready() && 0 < remaining && at + remaining <= buf.Length && current_pos + remaining <= MAX_FILE_SIZE
      requires buf != block_cache && buf as object != fs.inodes && buf as object != fs.free_blocks
      modifies this, block_cache, fs.disk, fs.free_blocks, fs.inodes
      ensures Ready() && |old(fs.State()).marks| <= MAX_FS_BLOCKS && |fs.State().marks| <= MAX_FS_BLOCKS
      ensures c == ChunkSize(old(current_pos), remaining) && current_pos == old(current_pos) + c
      ensures (fs.State(), H()) == WriteChunk(old(fs.State()), old(H()), old(buf[..][at..at + c]))
      ensures buf[..] == old(buf[..])
    {
      hide Inv;
      hide Ref;
      hide BlockAt;
      hide OnlyFile;
      hide FsOps.LoadBlock;
      ghost var s1, h1 := fs.State(), H();
      IndexOfLive(s1, slot);
      var off := current_pos % BLOCK_SIZE;
      c := ChunkSize(current_pos, remaining);
      ghost var piece := buf[..][at..at + c];
      assert piece == buf[at..at + c];
      LoadMeaning(s1, h1, current_pos / BLOCK_SIZE, true);
      ChunkMeaning(s1, h1, piece);
      IndexOfLive(WriteChunk(s1, h1, piece).0, slot);
      LoadBlock(current_pos / BLOCK_SIZE, true);
      ghost var s2, h2 := fs.State(), H();
      CopyBytes(block_cache, off, buf, at, c);
      cache_dirty := true;
      current_pos := current_pos + c;
      if current_pos > fs.inodes[slot].length {
        fs.inodes[slot] := fs.inodes[slot].(length := current_pos);
      }
      assert fs.State() == Grown(s2, slot, current_pos);
      assert block_cache[..] == Patch(h2.cache, off, piece);
      assert (fs.State(), H()) == WriteChunk(s1, h1, piece);
    }

    /** Back to the beginning; the cache keeps its bytes but is from now on taken for block 0. */
    method Reset()
      modifies this
      requires block_cache.Length == BLOCK_SIZE
      ensures H() == ResetFile(old(H()))
    {
      current_pos := 0;
      current_block_index := 0;
    }

    method EoF() returns (b: bool)
      requires Ready()
      ensures b == AtEnd(fs.State(), H())
    {
      b := current_pos >= fs.inodes[slot].length;
    }
  }

  lemma PieceOf(all: seq<byte>, n: nat, at: nat, c: nat)
    requires at + c <= n <= |all|
    ensures all[at..at + c] == all[..n][at..][..c] && all[..n][at..][c..] == all[..n][at + c..]
  {
  }

  /** What Read's loop will return in the end, as what it has copied and what is still to come. */
  ghost predicate ReadSoFar(s0: Fs, h0: Handle, total: nat, s: Fs, h: Handle, out: seq<byte>)
    requires h0.slot < |s0.inodes| && |s0.marks| <= MAX_FS_BLOCKS
  {
    && h.slot < |s.inodes| && |s.marks| <= MAX_FS_BLOCKS && |out| <= total
    && var (fs', h', rest) := ReadLoop(s, h, total - |out|);
       ReadLoop(s0, h0, total) == (fs', h', out + rest)
  }

  lemma ReadStart(s0: Fs, h0: Handle, total: nat)
    requires h0.slot < |s0.inodes| && |s0.marks| <= MAX_FS_BLOCKS
    ensures ReadSoFar(s0, h0, total, s0, h0, [])
  {
    hide ReadLoop;
    var rest := ReadLoop(s0, h0, total).2;
    assert [] + rest == rest;
  }

  lemma ReadDone(s0: Fs, h0: Handle, total: nat, s: Fs, h: Handle, out: seq<byte>)
    requires h0.slot < |s0.inodes| && |s0.marks| <= MAX_FS_BLOCKS
    requires ReadSoFar(s0, h0, total, s, h, out) && |out| == total
    ensures ReadLoop(s0, h0, total) == (s, h, out)
  {
    hide FsOps.LoadBlock;
    assert out + [] == out;
  }

  lemma ReadAdvance(s0: Fs, h0: Handle, total: nat, s: Fs, h: Handle, out: seq<byte>, remaining: nat)
    requires h0.slot < |s0.inodes| && |s0.marks| <= MAX_FS_BLOCKS
    requires ReadSoFar(s0, h0, total, s, h, out) && |out| + remaining == total && 0 < remaining
    ensures
      var c := ChunkSize(h.pos, remaining);
      var off := h.pos % BLOCK_SIZE;
      var (s1, h1) := FsOps.LoadBlock(s, h, h.pos / BLOCK_SIZE, false);
      ReadSoFar(s0, h0, total, s1, h1.(pos := h1.pos + c), out + h1.cache[off..off + c])
  {
    hide FsOps.LoadBlock, ReadLoop;
    var c := ChunkSize(h.pos, remaining);
    var off := h.pos % BLOCK_SIZE;
    var (s1, h1) := FsOps.LoadBlock(s, h, h.pos / BLOCK_SIZE, false);
    ReadLoopStep(s, h, remaining);
    var rest := ReadLoop(s1, h1.(pos := h.pos + c), remaining - c).2;
    assert out + (ReadPass(s, h, c) + rest) == (out + h1.cache[off..off + c]) + rest;
  }

  lemma FreshHandle(fs: Fs, i: nat)
    requires Inv(fs) && Live(fs, i)
    ensures HandleOk(fs, Shut(i))
  {
  }

  lemma DataBlockBound(fs: Fs, i: nat, k: nat)
    requires Inv(fs) && Live(fs, i) && k < MAX_FILE_BLOCKS
    ensures DataBlock(fs, i, k) < |fs.marks| <= |fs.disk|
  {
    DataBlockIsRef(fs, i, k);
    RefBound(fs, i, k);
  }
}
