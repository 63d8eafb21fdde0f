/**
 The FileSystem class: the inode table, the free-block flags and the disk they belong
 to, updated in place. Every method is proved to compute the function of FsOps and
 FsLayout that its contract names.
 */
module FileSystem {
  import opened Bytes
  import opened FsState
  import opened FsLayout
  import opened FsOps
  import opened FsMeaning
  import opened FsTable

  // ----- buffers -----

  /** `reinterpret_cast<unsigned int*>(buf)[k]`. */
  method GetWord(buf: array<byte>, k: nat) returns (n: nat)
    requires buf.Length == BLOCK_SIZE && k < MAX_FILE_BLOCKS
    ensures n == Entry(buf[..], k)
  {
    hide BytesWord;
    n := BytesWord([buf[4 * k], buf[4 * k + 1], buf[4 * k + 2], buf[4 * k + 3]]);
    assert [buf[4 * k], buf[4 * k + 1], buf[4 * k + 2], buf[4 * k + 3]] == buf[..][4 * k..4 * k + 4];
  }

  /** `reinterpret_cast<unsigned int*>(buf)[k] = n`. */
  method PutWord(buf: array<byte>, k: nat, n: nat)
    requires buf.Length == BLOCK_SIZE && k < MAX_FILE_BLOCKS && n < TWO32
    modifies buf
    ensures buf[..] == SetEntry(old(buf[..]), k, n)
  {
    hide WordBytes;
    var w := WordBytes(n);
    buf[4 * k], buf[4 * k + 1], buf[4 * k + 2], buf[4 * k + 3] := w[0], w[1], w[2], w[3];
    assert buf[..] == SetEntry(old(buf[..]), k, n);
  }

  method Clear(buf: array<byte>)
    requires buf.Length == BLOCK_SIZE
    modifies buf
    ensures buf[..] == Zeros()
  {
    for i := 0 to BLOCK_SIZE
      invariant forall j :: 0 <= j < i ==> buf[j] == 0
    {
      buf[i] := 0;
    }
  }

  /** The byte loop `dst[at + i] = src[off + i]`. */
  method CopyBytes(dst: array<byte>, at: nat, src: array<byte>, off: nat, n: nat)
    requires dst != src && at + n <= dst.Length && off + n <= src.Length
    modifies dst
    ensures dst[..] == old(dst[..at]) + src[off..off + n] + old(dst[at + n..])
  {
    for i := 0 to n
      invariant dst[at..at + i] == src[off..off + i]
      invariant dst[..at] == old(dst[..at]) && dst[at + i..] == old(dst[at + i..])
    {
      dst[at + i] := src[off + i];
    }
  }

  method SetBlockUsedInPlace(buf: array<byte>, b: nat)
    requires buf.Length == BLOCK_SIZE && b < MAX_FS_BLOCKS
    modifies buf
    ensures buf[..] == SetBlockUsed(old(buf[..]), b)
  {
    hide SetBit;
    buf[4 + b / 8] := SetBit(buf[4 + b / 8], b % 8);
  }

  method SetBlockFreeInPlace(buf: array<byte>, b: nat)
    requires buf.Length == BLOCK_SIZE && b < MAX_FS_BLOCKS
    modifies buf
    ensures buf[..] == SetBlockFree(old(buf[..]), b)
  {
    hide ClearBit;
    buf[4 + b / 8] := ClearBit(buf[4 + b / 8], b % 8);
  }

  method PutHeader(buf: array<byte>, n: nat)
    requires buf.Length == BLOCK_SIZE && n < TWO32 && buf[..] == Zeros()
    modifies buf
    ensures buf[..] == Header(n)
  {
    hide WordBytes;
    var w := WordBytes(n);
    buf[0], buf[1], buf[2], buf[3] := w[0], w[1], w[2], w[3];
    assert buf[..] == Header(n);
  }

  // ----- the disk -----

  /** The block device: 512-byte blocks, no error check beyond what the driver asserts. */
  class SimpleDisk {
    var blocks: seq<Block>

    constructor (n: nat)
      ensures |blocks| == n
    {
      blocks := seq(n, _ => Zeros());
    }

    method Read(b: nat, buf: array<byte>)
      requires b < |blocks| && buf.Length == BLOCK_SIZE
      modifies buf
      ensures buf[..] == Get(blocks, b)
    {
      for i := 0 to BLOCK_SIZE
        invariant forall j :: 0 <= j < i ==> buf[j] == blocks[b][j]
      {
        buf[i] := blocks[b][i];
      }
    }

    method Write(b: nat, buf: array<byte>)
      requires b < |blocks| && buf.Length == BLOCK_SIZE
      modifies this
      ensures blocks == Put(old(blocks), b, buf[..])
    {
      blocks := blocks[b := buf[..]];
    }
  }

  // ----- the file system -----

  /** The returned flag, or an assertion that stops the kernel. */
  datatype Answer = Yes | No | Stopped

  class FileSystem {
    var disk: SimpleDisk?
    var size: nat
    var inodes: array?<Inode>
    var free_blocks: array?<bool>
    var mounted: bool

    constructor ()
      ensures disk == null && size == 0 && inodes == null && free_blocks == null && !mounted
    {
      disk, size, inodes, free_blocks, mounted := null, 0, null, null, false;
    }

    /** All tables are in memory. */
    ghost predicate Wired()
      reads this
    {
      && disk != null && inodes != null && free_blocks != null
      && inodes.Length == MAX_INODES && size == free_blocks.Length
    }

    /** The value of the disk and of the tables. */
    ghost function State(): Fs
      requires Wired()
      reads this, disk, inodes, free_blocks
    {
      Fs(disk.blocks, inodes[..], free_blocks[..])
    }

    /** The file system is mounted and satisfies the invariant. */
    ghost predicate Ready()
      reads this, disk, inodes, free_blocks
    {
      mounted && Wired() && Inv(State())
    }

    // ----- loading and saving the tables -----

    method LoadInodeTable()
      requires disk != null && METADATA_BLOCKS <= |disk.blocks|
      requires inodes != null ==> inodes.Length == MAX_INODES
      modifies this`inodes, inodes
      ensures inodes != null && inodes.Length == MAX_INODES && (old(inodes) == null ==> fresh(inodes))
      ensures old(inodes) != null ==> inodes == old(inodes)
      ensures inodes[..] == LoadInodes(Get(disk.blocks, INODES_BLOCK))
    {
      hide BytesInode;
      var buf := new byte[BLOCK_SIZE];
      disk.Read(INODES_BLOCK, buf);
      if inodes == null {
        inodes := new Inode[MAX_INODES](_ => FREE_INODE);
      }
      ghost var blk: Block := buf[..];
      var table := inodes;
      for i := 0 to MAX_INODES
        modifies table
        invariant forall j :: 0 <= j < i ==> table[j] == InodeAt(blk, j)
      {
        table[i] := BytesInode(buf[INODE_SIZE * i..INODE_SIZE * i + INODE_SIZE]);
        assert buf[INODE_SIZE * i..INODE_SIZE * i + INODE_SIZE] == blk[INODE_SIZE * i..INODE_SIZE * i + INODE_SIZE];
      }
    }

    method SaveInodeTable()
      requires Wired() && StorableTable(inodes[..]) && METADATA_BLOCKS <= |disk.blocks|
      modifies disk
      ensures disk.blocks == Put(old(disk.blocks), INODES_BLOCK, InodesBlock(inodes[..]))
    {
      hide InodeBytes;
      hide Storable;
      var buf := new byte[BLOCK_SIZE];
      Clear(buf);
      for i := 0 to MAX_INODES * INODE_SIZE
        modifies buf
        invariant forall j :: 0 <= j < i ==> buf[j] == InodeBytes(inodes[..][j / INODE_SIZE])[j % INODE_SIZE]
        invariant forall j :: i <= j < BLOCK_SIZE ==> buf[j] == 0
      {
        var b := InodeBytes(inodes[i / INODE_SIZE]);
        buf[i] := b[i % INODE_SIZE];
      }
      assert buf[..] == InodesBlock(inodes[..]);
      disk.Write(INODES_BLOCK, buf);
    }

    /**
     A header of 0 means there is no file system; otherwise the flags are decoded bit by bit. The flag
     of a block that the bitmap has no bit for comes from past the buffer and can be anything.
     */
    method LoadFreelist()
      requires disk != null && METADATA_BLOCKS <= |disk.blocks|
      modifies this`size, this`free_blocks
      ensures size == HeaderSize(Get(disk.blocks, FREELIST_BLOCK))
      ensures size == 0 ==> free_blocks == old(free_blocks)
      ensures size > 0 ==> free_blocks != null && fresh(free_blocks) && free_blocks.Length == size
      ensures size > 0 ==> forall b: nat :: b < size && b < MAX_FS_BLOCKS ==>
        free_blocks[b] == IsBlockUsed(Get(disk.blocks, FREELIST_BLOCK), b)
    {
      hide BytesWord;
      hide IsBlockUsed;
      var buf := new byte[BLOCK_SIZE];
      disk.Read(FREELIST_BLOCK, buf);
      ghost var blk: Block := buf[..];
      var n := BytesWord(buf[..4]);
      assert buf[..4] == blk[..4];
      if n == 0 {
        size := 0;
        return;
      }
      size := n;
      var flags := new bool[n];
      free_blocks := flags;
      for b := 0 to n
        modifies flags
        invariant forall c :: 0 <= c < b && c < MAX_FS_BLOCKS ==> flags[c] == IsBlockUsed(blk, c)
      {
        assert buf[..] == blk;
        if b < MAX_FS_BLOCKS {
          flags[b] := IsBlockUsed(buf[..], b);
        } else {
          flags[b] := *;
        }
      }
    }

    method SaveFreelist()
      requires Wired() && 0 < size <= MAX_FS_BLOCKS && METADATA_BLOCKS <= |disk.blocks|
      modifies disk
      ensures disk.blocks == Put(old(disk.blocks), FREELIST_BLOCK, FreelistBlock(free_blocks[..]))
    {
      hide SetBlockUsed;
      hide SetBlockFree;
      hide Header;
      var buf := new byte[BLOCK_SIZE];
      Clear(buf);
      PutHeader(buf, size);
      for b := 0 to size
        modifies buf
        invariant buf[..] == FillBitmap(Header(size), free_blocks[..], b)
      {
        if free_blocks[b] {
          SetBlockUsedInPlace(buf, b);
        } else {
          SetBlockFreeInPlace(buf, b);
        }
      }
      disk.Write(FREELIST_BLOCK, buf);
    }

    /** Both metadata blocks are rewritten. */
    method FlushMetadata()
      requires Wired() && StorableTable(inodes[..]) && 0 < size <= MAX_FS_BLOCKS && size <= |disk.blocks|
      requires METADATA_BLOCKS <= size
      modifies disk
      ensures State() == Save(old(State()))
    {
      hide InodesBlock;
      hide FreelistBlock;
      SaveInodeTable();
      SaveFreelist();
    }

    // ----- searches -----

    /** The first unused inode, or -1. */
    method GetFreeInode() returns (r: int)
      requires inodes != null
      ensures r == match FreeInode(inodes[..]) case None => -1 case Some(i) => i
    {
      for i := 0 to inodes.Length
        invariant FreeInode(inodes[..], i) == FreeInode(inodes[..])
      {
        if !inodes[i].used {
          return i;
        }
      }
      return -1;
    }

    /** Takes the first free block and returns its number, or returns -1. */
    method GetFreeBlock() returns (r: int)
      requires free_blocks != null ==> size == free_blocks.Length
      modifies free_blocks
      ensures free_blocks == null ==> r == -1
      ensures free_blocks != null ==>
        match FreeBlock(old(free_blocks[..]))
        case None => r == -1 && free_blocks[..] == old(free_blocks[..])
        case Some(b) => r == b && free_blocks[..] == old(free_blocks[..])[b := true]
    {
      if free_blocks == null || size <= METADATA_BLOCKS {
        return -1;
      }
      for b := METADATA_BLOCKS to size
        invariant free_blocks[..] == old(free_blocks[..])
        invariant FreeBlock(free_blocks[..], b) == FreeBlock(free_blocks[..])
      {
        if !free_blocks[b] {
          free_blocks[b] := true;
          return b;
        }
      }
      return -1;
    }

    /** The inode of a file, or none. */
    method LookupFile(id: int) returns (r: Option<nat>)
      ensures r == if inodes == null then None else Lookup(inodes[..], id)
    {
      if inodes == null {
        return None;
      }
      for i := 0 to inodes.Length
        invariant Lookup(inodes[..], id, i) == Lookup(inodes[..], id)
      {
        if inodes[i].used && inodes[i].id == id {
          return Some(i);
        }
      }
      return None;
    }

    // ----- blocks of a file -----

    /** The disk block of logical block k, taken from the free list first if asked for and missing. */
    method GetDataBlock(i: nat, k: nat, allocate: bool) returns (phys: nat)
      requires Ready() && Live(State(), i)
      modifies disk, free_blocks
      ensures Wired() && State() == (if allocate then Allocate(old(State()), i, k) else old(State()))
      ensures phys == DataBlock(State(), i, k)
    {
      hide Inv;
      hide Entry;
      hide FreeBlock;
      hide SetEntry;
      hide Linked;
      ghost var fs := State();
      if k >= MAX_FILE_BLOCKS {
        return 0;
      }
      var x := inodes[i].index;
      if x == 0 {
        return 0;
      }
      IndexOfLive(fs, i);
      var index_buf := new byte[BLOCK_SIZE];
      disk.Read(x, index_buf);
      phys := GetWord(index_buf, k);
      if !allocate || phys != 0 {
        return;
      }
      var new_block := GetFreeBlock();
      if new_block < 0 {
        return 0;
      }
      LinkNewBlock(i, k, x, new_block, index_buf, fs);
      phys := new_block;
    }

    /** The second half of GetDataBlock: record the new block in the index block and zero it. */
    method LinkNewBlock(i: nat, k: nat, x: nat, new_block: nat, index_buf: array<byte>, ghost fs: Fs)
      requires Wired() && Inv(fs) && Live(fs, i) && k < MAX_FILE_BLOCKS && DataBlock(fs, i, k) == 0
      requires x == fs.inodes[i].index && METADATA_BLOCKS <= new_block < |fs.marks| && !fs.marks[new_block]
      requires State() == fs.(marks := fs.marks[new_block := true])
      requires index_buf.Length == BLOCK_SIZE && index_buf[..] == Get(fs.disk, x)
      requires index_buf as object != free_blocks
      modifies disk, index_buf
      ensures Wired() && State() == Linked(fs, i, k, new_block)
      ensures DataBlock(State(), i, k) == new_block
    {
      hide Inv;
      hide Entry;
      hide SetEntry;
      IndexOfLive(fs, i);
      PutWord(index_buf, k, new_block);
      disk.Write(x, index_buf);
      Clear(index_buf);
      disk.Write(new_block, index_buf);
      assert free_blocks[..] == old(State()).marks;
      LinkedDataBlock(fs, i, k, new_block);
    }

    /** Clears the flags of the file's data blocks and of its index block. */
    method FreeAllBlocks(i: nat)
      requires Wired() && i < MAX_INODES && inodes[i].index < |disk.blocks|
      modifies free_blocks
      ensures free_blocks[..] == FreeAll(old(State()), i)
    {
      hide Entry;
      var x := inodes[i].index;
      if x == 0 {
        return;
      }
      var index_buf := new byte[BLOCK_SIZE];
      disk.Read(x, index_buf);
      ghost var blk: Block := index_buf[..];
      for k := 0 to MAX_FILE_BLOCKS
        modifies free_blocks
        invariant Released(free_blocks[..], blk, k) == Released(old(free_blocks[..]), blk)
      {
        assert index_buf[..] == blk;
        var b := GetWord(index_buf, k);
        ghost var before := free_blocks[..];
        if METADATA_BLOCKS <= b < size {
          free_blocks[b] := false;
        }
        assert free_blocks[..] == Unmark(before, b);
      }
      if METADATA_BLOCKS <= x < size {
        free_blocks[x] := false;
      }
    }

    // ----- the file system as a whole -----

    /** Reads both tables, if there is a disk and a file system on it; a size beyond the disk stops the kernel. */
    method Mount(d: SimpleDisk?) returns (r: Answer)
      requires d != null ==> METADATA_BLOCKS <= |d.blocks|
      requires inodes != null ==> inodes.Length == MAX_INODES
      modifies this, inodes
      ensures r.No? <==> d == null || HeaderSize(Get(d.blocks, FREELIST_BLOCK)) == 0
      ensures r.Stopped? <==> d != null && HeaderSize(Get(d.blocks, FREELIST_BLOCK)) > |d.blocks|
      ensures r.Yes? ==> mounted && disk == d && Wired() && size == HeaderSize(Get(d.blocks, FREELIST_BLOCK))
      ensures r.Yes? ==> inodes[..] == LoadInodes(Get(d.blocks, INODES_BLOCK))
      ensures r.Yes? ==> forall b: nat :: b < size && b < MAX_FS_BLOCKS ==>
        free_blocks[b] == IsBlockUsed(Get(d.blocks, FREELIST_BLOCK), b)
      ensures r.Yes? && size <= MAX_FS_BLOCKS ==> State() == Mounted(d.blocks)
      ensures !r.Yes? ==> mounted == old(mounted)
    {
      hide LoadInodes;
      hide HeaderSize;
      hide IsBlockUsed;
      if d == null {
        return No;
      }
      disk := d;
      LoadFreelist();
      if size == 0 {
        return No;
      }
      var diskBlocks := |disk.blocks|;
      if size > diskBlocks {
        return Stopped;
      }
      LoadInodeTable();
      mounted := true;
      if size <= MAX_FS_BLOCKS {
        assert free_blocks[..] == LoadMarks(Get(d.blocks, FREELIST_BLOCK));
      }
      return Yes;
    }

    /** Writes the two metadata blocks of an empty file system of `bytes / 512` blocks. */
    static method Format(d: SimpleDisk?, bytes: nat) returns (r: Answer)
      requires d != null ==> METADATA_BLOCKS <= |d.blocks|
      modifies d
      ensures r.No? <==> d == null || bytes / 512 < 2
      ensures r.Stopped? <==> d != null && bytes / 512 > 4064
      ensures r.Yes? ==> d.blocks == Formatted(old(d.blocks), bytes / 512)
      ensures !r.Yes? && d != null ==> d.blocks == old(d.blocks)
    {
      hide InodeBytes;
      hide SetBlockUsed;
      hide Header;
      if d == null {
        return No;
      }
      var n := bytes / BLOCK_SIZE;
      if n < METADATA_BLOCKS {
        return No;
      }
      if n > MAX_FS_BLOCKS {
        return Stopped;
      }
      var table := new Inode[MAX_INODES](_ => FREE_INODE);
      var inode_buf := new byte[BLOCK_SIZE];
      Clear(inode_buf);
      for i := 0 to MAX_INODES * INODE_SIZE
        modifies inode_buf
        invariant forall j :: 0 <= j < i ==> inode_buf[j] == InodeBytes(FREE_INODE)[j % INODE_SIZE]
        invariant forall j :: i <= j < BLOCK_SIZE ==> inode_buf[j] == 0
      {
        var b := InodeBytes(table[i / INODE_SIZE]);
        inode_buf[i] := b[i % INODE_SIZE];
      }
      assert inode_buf[..] == InodesBlock(EmptyTable());
      d.Write(INODES_BLOCK, inode_buf);
      var freelist_buf := new byte[BLOCK_SIZE];
      Clear(freelist_buf);
      PutHeader(freelist_buf, n);
      SetBlockUsedInPlace(freelist_buf, INODES_BLOCK);
      SetBlockUsedInPlace(freelist_buf, FREELIST_BLOCK);
      d.Write(FREELIST_BLOCK, freelist_buf);
      return Yes;
    }

    method CreateFile(id: int) returns (ok: bool)
      requires mounted ==> Ready()
      requires -0x8000_0000 <= id < 0x8000_0000
      modifies this, disk, inodes, free_blocks
      ensures !old(mounted) ==> !ok && !mounted
      ensures old(mounted) ==> Wired() && mounted && (State(), ok) == FsOps.CreateFile(old(State()), id)
      ensures disk == old(disk) && inodes == old(inodes) && free_blocks == old(free_blocks) && size == old(size)
    {
      if !mounted {
        return false;
      }
      hide Inv;
      hide FreeBlock;
      hide FreeInode;
      hide Lookup;
      hide Save;
      ghost var fs := State();
      ShapeOf(fs);
      var found := LookupFile(id);
      if found.Some? {
        return false;
      }
      var i := GetFreeInode();
      if i < 0 {
        return false;
      }
      var nb := GetFreeBlock();
      if nb < 0 {
        return false;
      }
      inodes[i] := Inode(id, nb, 0, true);
      var index_buf := new byte[BLOCK_SIZE];
      Clear(index_buf);
      disk.Write(nb, index_buf);
      assert State() == Created(fs, i, id, nb);
      CreatedStorable(fs, i, id, nb);
      FlushMetadata();
      return true;
    }

    method DeleteFile(id: int) returns (ok: bool)
      requires mounted ==> Ready()
      modifies this, disk, inodes, free_blocks
      ensures !old(mounted) ==> !ok && !mounted
      ensures old(mounted) ==> Wired() && mounted && (State(), ok) == FsOps.DeleteFile(old(State()), id)
      ensures disk == old(disk) && inodes == old(inodes) && free_blocks == old(free_blocks) && size == old(size)
    {
      if !mounted {
        return false;
      }
      hide Inv, Lookup, FreeAll, Save, StorableTable, Deleted;
      ghost var fs := State();
      ShapeOf(fs);
      var found := LookupFile(id);
      if found.None? {
        return false;
      }
      EraseInode(found.value);
      return true;
    }

    /** Releases the blocks of the inode, blanks it, and saves the tables. */
    method EraseInode(i: nat)
      requires Wired() && Shape(State()) && i < MAX_INODES
      modifies disk, inodes, free_blocks
      ensures State() == Save(Deleted(old(State()), i))
    {
      hide FreeAll, StorableTable, Save;
      ghost var fs := State();
      DeletedStorable(fs, i);
      FreeAllBlocks(i);
      inodes[i] := FREE_INODE;
      assert State() == Deleted(fs, i);
      FlushMetadata();
    }

    /** The destructor: save both tables if mounted, then forget everything. */
    method Unmount()
      requires mounted ==> Ready()
      modifies this, disk
      ensures disk == null && inodes == null && free_blocks == null && size == 0 && !mounted
      ensures old(mounted) ==> old(disk).blocks == Save(old(State())).disk
    {
      if mounted && disk != null {
        InvStorable(State());
        ShapeOf(State());
        hide Inv;
        hide Save;
        FlushMetadata();
      }
      disk, size, inodes, free_blocks, mounted := null, 0, null, null, false;
    }
  }

  lemma ShapeOf(fs: Fs)
    requires Inv(fs)
    ensures Shape(fs)
  {
  }

  lemma CreatedStorable(fs: Fs, i: nat, id: int, nb: nat)
    requires Shape(fs) && i < |fs.inodes| && nb < |fs.marks| && -0x8000_0000 <= id < 0x8000_0000
    ensures StorableTable(Created(fs, i, id, nb).inodes)
  {
  }

  lemma DeletedStorable(fs: Fs, i: nat)
    requires Shape(fs) && i < |fs.inodes|
    ensures StorableTable(Deleted(fs, i).inodes)
  {
  }

  lemma LinkedDataBlock(fs: Fs, i: nat, k: nat, nb: nat)
    requires Inv(fs) && Live(fs, i) && k < MAX_FILE_BLOCKS && DataBlock(fs, i, k) == 0
    requires METADATA_BLOCKS <= nb < |fs.marks| <= MAX_FS_BLOCKS && !fs.marks[nb]
    ensures DataBlock(Linked(fs, i, k, nb), i, k) == nb
  {
    hide Inv;
    hide DataBlock;
    hide Linked;
    hide BlockAt;
    DataBlockIsRef(fs, i, k);
    LinkBlock(fs, i, k, nb);
    LinkedLive(fs, i, k, nb);
    DataBlockIsRef(Linked(fs, i, k, nb), i, k);
  }

  lemma LinkedLive(fs: Fs, i: nat, k: nat, nb: nat)
    requires i < |fs.inodes| && k < MAX_FILE_BLOCKS && nb < |fs.marks| && nb < TWO32
    ensures Linked(fs, i, k, nb).inodes == fs.inodes
  {
  }
}
