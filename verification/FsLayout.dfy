/**
 The on-disk form of the metadata: block 0 holds the inode table, block 1 a size
 header and the free-block bitmap. Saving and loading are inverse to each other.
 */
module FsLayout {
  import opened Bytes
  import opened FsState

  const INODES_BLOCK: nat := 0
  const FREELIST_BLOCK: nat := 1

  /** sizeof(Inode): id, index block, length, used flag with padding, back pointer. */
  const INODE_SIZE: nat := 20

  // ----- the bitmap -----

  predicate IsBlockUsed(buf: Block, b: nat)
    requires b < MAX_FS_BLOCKS
  {
    HasBit(buf[4 + b / 8], b % 8)
  }

  function SetBlockUsed(buf: Block, b: nat): Block
    requires b < MAX_FS_BLOCKS
  {
    buf[4 + b / 8 := SetBit(buf[4 + b / 8], b % 8)]
  }

  function SetBlockFree(buf: Block, b: nat): Block
    requires b < MAX_FS_BLOCKS
  {
    buf[4 + b / 8 := ClearBit(buf[4 + b / 8], b % 8)]
  }

  function MarkBlock(buf: Block, b: nat, taken: bool): Block
    requires b < MAX_FS_BLOCKS
  {
    if taken then SetBlockUsed(buf, b) else SetBlockFree(buf, b)
  }

  /** Marking one block changes its bit, no other bit, and no header byte. */
  lemma MarkBlockFrame(buf: Block, b: nat, taken: bool, c: nat)
    requires b < MAX_FS_BLOCKS && c < MAX_FS_BLOCKS
    ensures IsBlockUsed(MarkBlock(buf, b, taken), c) == if c == b then taken else IsBlockUsed(buf, c)
    ensures MarkBlock(buf, b, taken)[..4] == buf[..4]
  {
    hide HasBit;
    hide SetBit;
    hide ClearBit;
    var y, z := 4 + b / 8, 4 + c / 8;
    assert c == b <==> z == y && c % 8 == b % 8;
    BitFrame(buf[y], b % 8, c % 8);
  }

  /** The buffer after the first n blocks have been marked. */
  function FillBitmap(buf: Block, marks: seq<bool>, n: nat): Block
    requires n <= |marks| <= MAX_FS_BLOCKS
  {
    if n == 0 then buf else MarkBlock(FillBitmap(buf, marks, n - 1), n - 1, marks[n - 1])
  }

  lemma {:induction false} FillBitmapAt(buf: Block, marks: seq<bool>, n: nat, c: nat)
    requires n <= |marks| <= MAX_FS_BLOCKS && c < MAX_FS_BLOCKS
    ensures IsBlockUsed(FillBitmap(buf, marks, n), c) == if c < n then marks[c] else IsBlockUsed(buf, c)
    ensures FillBitmap(buf, marks, n)[..4] == buf[..4]
  {
    hide IsBlockUsed;
    if n > 0 {
      FillBitmapAt(buf, marks, n - 1, c);
      MarkBlockFrame(FillBitmap(buf, marks, n - 1), n - 1, marks[n - 1], c);
    }
  }

  function Header(n: nat): Block
    requires n < TWO32
  {
    WordBytes(n) + Zeros()[4..]
  }

  /** What save_freelist writes to the FREELIST block. */
  function FreelistBlock(marks: seq<bool>): Block
    requires |marks| <= MAX_FS_BLOCKS
  {
    FillBitmap(Header(|marks|), marks, |marks|)
  }

  /** The size in the header of a FREELIST block. */
  function HeaderSize(buf: Block): (n: nat)
    ensures n < TWO32
  {
    BytesWord(buf[..4])
  }

  /** What load_freelist puts into free_blocks. */
  function LoadMarks(buf: Block): (marks: seq<bool>)
    requires HeaderSize(buf) <= MAX_FS_BLOCKS
    ensures |marks| == HeaderSize(buf)
  {
    seq(HeaderSize(buf), b requires 0 <= b < HeaderSize(buf) => IsBlockUsed(buf, b))
  }

  lemma HeaderRoundTrip(n: nat)
    requires n < TWO32
    ensures HeaderSize(Header(n)) == n
  {
    hide BytesWord;
    hide WordBytes;
    WordRoundTrip(n);
    assert Header(n)[..4] == WordBytes(n);
  }

  /** save_freelist followed by load_freelist is the identity on the size and on every flag. */
  lemma FreelistRoundTrip(marks: seq<bool>)
    requires |marks| <= MAX_FS_BLOCKS
    ensures HeaderSize(FreelistBlock(marks)) == |marks|
    ensures LoadMarks(FreelistBlock(marks)) == marks
  {
    hide BytesWord;
    hide WordBytes;
    hide IsBlockUsed;
    hide FillBitmap;
    hide Header;
    var n := |marks|;
    FillBitmapAt(Header(n), marks, n, 0);
    HeaderRoundTrip(n);
    forall b | 0 <= b < n
      ensures LoadMarks(FreelistBlock(marks))[b] == marks[b]
    {
      FillBitmapAt(Header(n), marks, n, b);
    }
  }

  // ----- the inode table -----

  /** A long as the 32-bit word that stores it, and back. */
  function LongWord(x: int): (n: nat)
    requires -0x8000_0000 <= x < 0x8000_0000
    ensures n < TWO32
  {
    if x < 0 then x + TWO32 else x
  }

  function WordLong(n: nat): int
    requires n < TWO32
  {
    if n >= 0x8000_0000 then n - TWO32 else n
  }

  predicate Storable(ino: Inode) {
    -0x8000_0000 <= ino.id < 0x8000_0000 && ino.index < TWO32 && ino.length < TWO32
  }

  function InodeBytes(ino: Inode): (b: seq<byte>)
    requires Storable(ino)
    ensures |b| == INODE_SIZE
  {
    WordBytes(LongWord(ino.id)) + WordBytes(ino.index) + WordBytes(ino.length)
    + [if ino.used then 1 else 0, 0, 0, 0] + [0, 0, 0, 0]
  }

  function BytesInode(b: seq<byte>): Inode
    requires |b| == INODE_SIZE
  {
    Inode(WordLong(BytesWord(b[0..4])), BytesWord(b[4..8]), BytesWord(b[8..12]), b[12] != 0)
  }

  lemma InodeRoundTrip(ino: Inode)
    requires Storable(ino)
    ensures BytesInode(InodeBytes(ino)) == ino
  {
    hide BytesWord;
    hide WordBytes;
    var b := InodeBytes(ino);
    WordRoundTrip(LongWord(ino.id));
    WordRoundTrip(ino.index);
    WordRoundTrip(ino.length);
    assert b[0..4] == WordBytes(LongWord(ino.id));
    assert b[4..8] == WordBytes(ino.index);
    assert b[8..12] == WordBytes(ino.length);
  }

  predicate StorableTable(inodes: seq<Inode>) {
    |inodes| == MAX_INODES && forall i :: 0 <= i < |inodes| ==> Storable(inodes[i])
  }

  /** What save_inodes writes to the INODES block: the table's memory image, then zeros. */
  function InodesBlock(inodes: seq<Inode>): Block
    requires StorableTable(inodes)
  {
    seq(BLOCK_SIZE, i requires 0 <= i < BLOCK_SIZE =>
      if i < MAX_INODES * INODE_SIZE then InodeBytes(inodes[i / INODE_SIZE])[i % INODE_SIZE] else 0)
  }

  /** Slot i of the table that load_inodes reads. */
  function InodeAt(buf: Block, i: nat): Inode
    requires i < MAX_INODES
  {
    BytesInode(buf[INODE_SIZE * i..INODE_SIZE * i + INODE_SIZE])
  }

  function LoadInodes(buf: Block): (inodes: seq<Inode>)
    ensures |inodes| == MAX_INODES
  {
    seq(MAX_INODES, i requires 0 <= i < MAX_INODES => InodeAt(buf, i))
  }

  lemma InodesRoundTrip(inodes: seq<Inode>)
    requires StorableTable(inodes)
    ensures LoadInodes(InodesBlock(inodes)) == inodes
  {
    hide BytesInode;
    hide InodeBytes;
    var buf := InodesBlock(inodes);
    forall i | 0 <= i < MAX_INODES
      ensures InodeAt(buf, i) == inodes[i]
    {
      InodeRoundTrip(inodes[i]);
      assert buf[INODE_SIZE * i..INODE_SIZE * i + INODE_SIZE] == InodeBytes(inodes[i]);
    }
  }

  // ----- save, load, format -----

  /** FlushMetadata: both metadata blocks are rewritten from memory. */
  function Save(fs: Fs): Fs
    requires StorableTable(fs.inodes) && |fs.marks| <= MAX_FS_BLOCKS
  {
    fs.(disk := Put(Put(fs.disk, INODES_BLOCK, InodesBlock(fs.inodes)), FREELIST_BLOCK, FreelistBlock(fs.marks)))
  }

  /** The file system a fresh mount of a disk sees. */
  function Mounted(disk: seq<Block>): Fs
    requires HeaderSize(Get(disk, FREELIST_BLOCK)) <= MAX_FS_BLOCKS
  {
    Fs(disk, LoadInodes(Get(disk, INODES_BLOCK)), LoadMarks(Get(disk, FREELIST_BLOCK)))
  }

  /** The metadata blocks on disk hold exactly the tables in memory. */
  predicate Synced(fs: Fs)
    requires StorableTable(fs.inodes) && |fs.marks| <= MAX_FS_BLOCKS
  {
    Get(fs.disk, INODES_BLOCK) == InodesBlock(fs.inodes) && Get(fs.disk, FREELIST_BLOCK) == FreelistBlock(fs.marks)
  }

  /** Mounting the disk of a synchronised file system gives that file system back. */
  lemma MountOfSynced(fs: Fs)
    requires StorableTable(fs.inodes) && |fs.marks| <= MAX_FS_BLOCKS && Synced(fs)
    ensures HeaderSize(Get(fs.disk, FREELIST_BLOCK)) == |fs.marks|
    ensures Mounted(fs.disk) == fs
  {
    hide InodesBlock;
    hide FreelistBlock;
    hide LoadInodes;
    hide LoadMarks;
    FreelistRoundTrip(fs.marks);
    InodesRoundTrip(fs.inodes);
  }

  const FREE_INODE := Inode(-1, 0, 0, false)

  function EmptyTable(): (t: seq<Inode>)
    ensures StorableTable(t)
  {
    seq(MAX_INODES, _ => FREE_INODE)
  }

  /** The two metadata blocks Format writes for a file system of n blocks. */
  function Formatted(disk: seq<Block>, n: nat): seq<Block>
    requires n <= MAX_FS_BLOCKS
  {
    Put(Put(disk, INODES_BLOCK, InodesBlock(EmptyTable())),
        FREELIST_BLOCK, SetBlockUsed(SetBlockUsed(Header(n), INODES_BLOCK), FREELIST_BLOCK))
  }

  function FormatMarks(n: nat): seq<bool> {
    seq(n, b => b < METADATA_BLOCKS)
  }

  lemma HeaderBits(n: nat, c: nat)
    requires n < TWO32 && c < MAX_FS_BLOCKS
    ensures !IsBlockUsed(Header(n), c)
  {
    hide HasBit;
    hide WordBytes;
    ZeroHasNoBit(c % 8);
  }

  /** Format sets two bits and leaves the rest zero; that is also what saving its free list would write. */
  lemma {:induction false} FormatFill(n: nat, k: nat)
    requires METADATA_BLOCKS <= k <= n <= MAX_FS_BLOCKS
    ensures FillBitmap(Header(n), FormatMarks(n), k)
         == SetBlockUsed(SetBlockUsed(Header(n), INODES_BLOCK), FREELIST_BLOCK)
  {
    hide Header;
    hide HasBit;
    hide SetBit;
    hide ClearBit;
    if k > METADATA_BLOCKS {
      FormatFill(n, k - 1);
      var buf := FillBitmap(Header(n), FormatMarks(n), k - 1);
      FillBitmapAt(Header(n), FormatMarks(n), k - 1, k - 1);
      HeaderBits(n, k - 1);
      ClearUnsetBit(buf[4 + (k - 1) / 8], (k - 1) % 8);
      assert SetBlockFree(buf, k - 1) == buf;
    } else {
      assert FillBitmap(Header(n), FormatMarks(n), 1) == SetBlockUsed(Header(n), INODES_BLOCK);
    }
  }

  /** Mounting a freshly formatted disk finds no file and only the metadata blocks taken. */
  lemma MountOfFormatted(disk: seq<Block>, n: nat)
    requires METADATA_BLOCKS <= n <= MAX_FS_BLOCKS && n <= |disk|
    ensures
      var d := Formatted(disk, n);
      && HeaderSize(Get(d, FREELIST_BLOCK)) == n
      && Mounted(d) == Fs(d, EmptyTable(), FormatMarks(n))
      && Synced(Mounted(d))
  {
    hide InodesBlock;
    hide FillBitmap;
    hide Header;
    hide HeaderSize;
    hide SetBlockUsed;
    hide LoadMarks;
    hide LoadInodes;
    hide EmptyTable;
    var d := Formatted(disk, n);
    FormatFill(n, n);
    MountOfSynced(Fs(d, EmptyTable(), FormatMarks(n)));
  }
}
