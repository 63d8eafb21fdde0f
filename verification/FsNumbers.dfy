/**
 The file system in plain numbers: what it holds, counted in blocks, bytes and files, and where each
 number lies on the disk. Nothing here names the constants of the code.
 */
module FsNumbers {
  import opened Bytes
  import opened FsState
  import opened FsLayout
  import opened FsOps
  import opened FsMeaning
  import opened FsFiles
  import opened FsMachine
  import opened FsRefinement
  import opened FsTheorems
  import opened FsSessions
  import opened FsExamples
  import opened FsSpace

  // ----- how large a file can be -----

  /** A file has as many blocks as there are four-byte entries in one block of 512 bytes. */
  lemma FileBlocks(blk: Block, k: nat)
    ensures |blk| == 512 && MAX_FILE_BLOCKS == |blk| / |WordBytes(k % TWO32)| == 128
    ensures MAX_FILE_SIZE == 128 * 512 == 65536
  {
  }

  /** A write of n bytes with room takes all of them, up to the end of the 128th block. */
  lemma WriteAnswers(sys: Sys, id: int, data: seq<byte>)
    requires SysInv(sys) && SysShape(sys) && Allowed(sys, Write(id, data))
    ensures
      var h := sys.open[SlotOf(sys, id)];
      var n := if |data| < 128 * 512 - h.pos then |data| else 128 * 512 - h.pos;
      && 0 <= n <= |data|
      && Step(sys, Write(id, data)).1 == Count(n)
      && SysInv(Step(sys, Write(id, data)).0) && id in Abs(sys) && id in Abs(Step(sys, Write(id, data)).0)
      && var before, after := Abs(sys)[id].bytes, Abs(Step(sys, Write(id, data)).0)[id].bytes;
        && h.pos <= |before| && |after| == (if h.pos + n > |before| then h.pos + n else |before|) <= 128 * 512
        && forall p: nat :: p < |after| ==>
          after[p] == if h.pos <= p < h.pos + n then data[p - h.pos] else before[p]
  {
    hide SysInv, Inv, Abs, Contents, Lookup, Dense, HandleInv, Backed, HandleOk, Step, SysShape, Refines, Room, Splice;
    OpenEntry(sys, id);
    StepRefines(sys, Write(id, data));
    RefinesIs(sys, Write(id, data));
    WrittenInNumbers(Abs(sys), id, data, Step(sys, Write(id, data)).1, Abs(Step(sys, Write(id, data)).0));
  }

  lemma RefinesIs(sys: Sys, op: Op)
    requires SysInv(sys) && SysShape(sys) && Allowed(sys, op) && Refines(sys, op)
    ensures op.Create? ==> -0x8000_0000 <= op.id < 0x8000_0000
    ensures op.Remount? ==> HeaderSize(Get(sys.fs.disk, FREELIST_BLOCK)) <= MAX_FS_BLOCKS
    ensures SysInv(Step(sys, op).0) && Spec(Abs(sys), op, Step(sys, op).1, Abs(Step(sys, op).0))
  {
    hide SysInv, Abs, Spec, Step;
  }

  lemma WrittenInNumbers(a: Files, id: int, data: seq<byte>, r: Reply, a': Files)
    requires Spec(a, Write(id, data), r, a')
    ensures
      var pos := a[id].pos.value;
      var n := if |data| < 128 * 512 - pos then |data| else 128 * 512 - pos;
      var before, after := a[id].bytes, a'[id].bytes;
      && 0 <= n <= |data| && r == Count(n) && id in a'
      && pos <= |before| && |after| == (if pos + n > |before| then pos + n else |before|) <= 128 * 512
      && forall p: nat :: p < |after| ==> after[p] == if pos <= p < pos + n then data[p - pos] else before[p]
  {
  }

  /** The replies of a session that writes everything in one piece and reads it back in one piece. */
  lemma SessionReplies(a: Files, id: int, data: seq<byte>, replies: seq<Reply>, end: Files)
    requires SpecRun(a, Session(id, [data], [|data|]), replies, end)
    requires |replies| > 0 && replies[0] == Flag(true) && |data| <= MAX_FILE_SIZE
    ensures replies == [Flag(true), Done, Count(|data|), Done, Done, Data(data)]
  {
    hide SpecRun, Splice;
    var n := |data|;
    var tail5 := [Read(id, n)] + [];
    var tail4 := [Open(id)] + tail5;
    var tail3 := [Close(id)] + tail4;
    var tail2 := [Write(id, data)] + tail3;
    var tail1 := [Open(id)] + tail2;
    SessionIs(id, data);
    var a1 := SpecHead(a, Create(id), tail1, replies, end);
    var a2 := SpecHead(a1, Open(id), tail2, replies[1..], end);
    var a3 := SpecHead(a2, Write(id, data), tail3, replies[1..][1..], end);
    AppendIsSplice(a2[id].bytes, data);
    var a4 := SpecHead(a3, Close(id), tail4, replies[1..][1..][1..], end);
    var a5 := SpecHead(a4, Open(id), tail5, replies[1..][1..][1..][1..], end);
    var a6 := SpecHead(a5, Read(id, n), [], replies[1..][1..][1..][1..][1..], end);
    SpecLength(a, Session(id, [data], [n]), replies, end);
    assert a3[id].bytes == data;
    assert data[..n] == data && data[0..n] == data;
  }

  lemma SessionIs(id: int, data: seq<byte>)
    ensures Session(id, [data], [|data|]) ==
      [Create(id)] + ([Open(id)] + ([Write(id, data)] + ([Close(id)] + ([Open(id)] + ([Read(id, |data|)] + [])))))
  {
    assert Writes(id, [data][1..]) == [] && Reads(id, [|data|][1..]) == [];
    assert Writes(id, [data]) == [Write(id, data)] && Reads(id, [|data|]) == [Read(id, |data|)];
  }

  /**
   A disk of 131 blocks or more has room for a file of 128 blocks: written in one call, all 65536 bytes are
   taken and read back, and each of the logical blocks 0 to 127 has a disk block with its bytes.
   */
  lemma LargestFile(disk: seq<Block>, n: nat, id: int, data: seq<byte>) returns (replies: seq<Reply>, end: Sys)
    requires |data| == 65536 && -0x8000_0000 <= id < 0x8000_0000
    requires 131 <= n <= MAX_FS_BLOCKS && n <= |disk|
    ensures FreshRun(disk, n, Session(id, [data], [65536]), replies, end)
    ensures replies == [Flag(true), Done, Count(65536), Done, Done, Data(data)]
    ensures Shows(end, id, data, 65536)
    ensures forall l: nat :: l < 128 ==>
      && Ref(end.fs, SlotOf(end, id), l) != 0
      && Logical(end.fs, end.open[SlotOf(end, id)], l) == data[512 * l..512 * l + 512]
  {
    hide SysInv, Run, SpecRun, Session, Formatted, Mounted, HeaderSize, Abs, Shows;
    replies, end := Reopened(disk, n, id, data, 65536);
    FormatMounts(disk, n);
    var start := Sys(Mounted(Formatted(disk, n)), map[]);
    RunRefines(start, Session(id, [data], [65536]), replies, end);
    SessionReplies(Abs(start), id, data, replies, Abs(end));
    FullBlocks(end, id, data);
  }

  lemma FullBlocks(sys: Sys, id: int, data: seq<byte>)
    requires Shows(sys, id, data, 65536) && |data| == 65536
    ensures SlotOf(sys, id) < |sys.fs.inodes|
    ensures forall l: nat :: l < 128 ==>
      && Ref(sys.fs, SlotOf(sys, id), l) != 0
      && Logical(sys.fs, sys.open[SlotOf(sys, id)], l) == data[512 * l..512 * l + 512]
  {
    hide SysInv, Ref, Contents, BlockAt, Lookup, Inv;
    HandleInShape(sys, id);
    var h := sys.open[SlotOf(sys, id)];
    ContentsAre(sys.fs, h);
    forall l: nat | l < 128
      ensures Logical(sys.fs, h, l) == data[512 * l..512 * l + 512]
    {
      forall j | 0 <= j < 512
        ensures Logical(sys.fs, h, l)[j] == data[512 * l + j]
      {
        assert (512 * l + j) / 512 == l && (512 * l + j) % 512 == j;
      }
    }
  }

  // ----- how many files -----

  /** The blocks of a file: its index block and one for every 512 bytes begun. */
  lemma CostInNumbers(f: AFile)
    ensures Cost(f) == 1 + |f.bytes| / 512 + if |f.bytes| % 512 == 0 then 0 else 1
  {
  }

  /** A file can be created exactly while its id is new, there are fewer than 25, and a block is left. */
  lemma CreateInNumbers(sys: Sys, id: int)
    requires Accounts(sys) && SysShape(sys) && Allowed(sys, Create(id))
    ensures Step(sys, Create(id)).1 ==
      Flag(id !in Abs(sys) && |Abs(sys)| < 25 && Space(Abs(sys)) + 2 < |sys.fs.marks|)
  {
    hide SysInv, Abs, Space, SysShape, Balanced, AllTight, Step;
    CreateAccounts(sys, id);
  }

  /** A new file takes the first unused inode and the lowest free block, and that block is zeroed. */
  lemma CreatedWhere(fs: Fs, id: int) returns (i: nat, b: nat)
    requires Shape(fs) && -0x8000_0000 <= id < 0x8000_0000 && CreateFile(fs, id).1
    ensures i < |fs.inodes| && !fs.inodes[i].used && forall j :: 0 <= j < i ==> fs.inodes[j].used
    ensures 2 <= b < |fs.marks| && !fs.marks[b] && forall c :: 2 <= c < b ==> fs.marks[c]
    ensures
      var made := CreateFile(fs, id).0;
      && made.inodes == fs.inodes[i := Inode(id, b, 0, true)] && made.marks == fs.marks[b := true]
      && Get(made.disk, b) == seq(512, _ => 0)
  {
    hide Lookup, InodesBlock, FreelistBlock;
    i, b := FreeInode(fs.inodes).value, FreeBlock(fs.marks).value;
  }

  /** A deleted file leaves its inode as a formatted disk has it. */
  lemma DeletedWhere(fs: Fs, id: int) returns (i: nat)
    requires Shape(fs) && DeleteFile(fs, id).1
    ensures i < |fs.inodes| && fs.inodes[i].used && fs.inodes[i].id == id
    ensures forall j :: 0 <= j < i ==> !(fs.inodes[j].used && fs.inodes[j].id == id)
    ensures DeleteFile(fs, id).0.inodes == fs.inodes[i := Inode(-1, 0, 0, false)]
  {
    hide InodesBlock, FreelistBlock, FreeAll;
    i := Lookup(fs.inodes, id).value;
  }

  /** An opened file has its first block in the cache. */
  lemma OpenedCache(fs: Fs, i: nat)
    requires Inv(fs) && Live(fs, i) && Dense(fs, i)
    ensures |fs.marks| <= MAX_FS_BLOCKS
    ensures
      var (fs', h) := OpenFile(fs, i);
      && h.slot == i && h.pos == 0 && h.cur == 0 && !h.dirty
      && h.cache == if fs.inodes[i].length > 0 then BlockAt(fs', i, 0) else seq(512, _ => 0)
  {
    hide Inv, Ref, BlockAt, Dense, Contents, LoadBlock, OnlyFile;
    IndexOfLive(fs, i);
    LiveLength(fs, i);
    if fs.inodes[i].length > 0 {
      LoadMeaning(fs, Shut(i), 0, false);
    }
  }

  // ----- numbers on the disk -----

  /** The value of a byte is the number that its bits stand for, bit k counting 2 to the k. */
  lemma ByteInNumbers(x: byte)
    ensures ByteVal(x) ==
      (if x & 1 != 0 then 1 else 0) + (if x & 2 != 0 then 2 else 0) + (if x & 4 != 0 then 4 else 0)
      + (if x & 8 != 0 then 8 else 0) + (if x & 16 != 0 then 16 else 0) + (if x & 32 != 0 then 32 else 0)
      + (if x & 64 != 0 then 64 else 0) + (if x & 128 != 0 then 128 else 0)
  {
    hide BitsVal;
    BitsInNumbers(Unpack(x));
  }

  lemma BitsInNumbers(b: seq<bool>)
    requires |b| == 8
    ensures BitsVal(b) ==
      (if b[0] then 1 else 0) + (if b[1] then 2 else 0) + (if b[2] then 4 else 0) + (if b[3] then 8 else 0)
      + (if b[4] then 16 else 0) + (if b[5] then 32 else 0) + (if b[6] then 64 else 0) + (if b[7] then 128 else 0)
  {
    hide BitsVal;
    assert b[0..] == b && b[8..] == [];
    BitsEnd();
    BitsFrom(b, 0);
    BitsFrom(b, 1);
    BitsFrom(b, 2);
    BitsFrom(b, 3);
    BitsFrom(b, 4);
    BitsFrom(b, 5);
    BitsFrom(b, 6);
    BitsFrom(b, 7);
  }

  lemma BitsEnd()
    ensures BitsVal([]) == 0
  {
  }

  lemma BitsFrom(b: seq<bool>, k: nat)
    requires k < |b|
    ensures BitsVal(b[k..]) == (if b[k] then 1 else 0) + 2 * BitsVal(b[k + 1..])
  {
    assert b[k..][1..] == b[k + 1..];
  }

  /** A word of four bytes, the lowest first. */
  function Little(b: seq<byte>): nat
    requires |b| == 4
  {
    ByteVal(b[0]) + 0x100 * ByteVal(b[1]) + 0x1_0000 * ByteVal(b[2]) + 0x100_0000 * ByteVal(b[3])
  }

  lemma WordIsLittle(n: nat)
    requires n < 0x1_0000_0000
    ensures Little(WordBytes(n)) == n
  {
    hide ByteVal, WordBytes;
    WordRoundTrip(n);
  }

  /** Entry k of an index block lies in its bytes 4k to 4k + 3. */
  lemma EntryInNumbers(blk: Block, k: nat)
    requires k < 128
    ensures Entry(blk, k) == Little(blk[4 * k..4 * k + 4])
  {
    hide ByteVal;
  }

  lemma InodeImage(inodes: seq<Inode>, i: nat)
    requires StorableTable(inodes) && i < MAX_INODES
    ensures InodesBlock(inodes)[20 * i..20 * i + 20] == InodeBytes(inodes[i])
  {
    hide InodeBytes;
  }

  lemma InodeParts(ino: Inode)
    requires Storable(ino)
    ensures
      var b := InodeBytes(ino);
      && b[0..4] == WordBytes(LongWord(ino.id)) && b[4..8] == WordBytes(ino.index) && b[8..12] == WordBytes(ino.length)
      && b[12] == if ino.used then 1 else 0
  {
    hide WordBytes, LongWord;
  }

  lemma PartOf(s: seq<byte>, at: nat, part: seq<byte>, a: nat, b: nat)
    requires at + |part| <= |s| && s[at..at + |part|] == part && a <= b <= |part|
    ensures s[at + a..at + b] == part[a..b]
    ensures a < b ==> s[at + a] == part[a]
  {
    var whole := s[at..at + |part|];
    assert s == s[..at] + whole + s[at + |part|..];
    assert part == part[..a] + part[a..b] + part[b..];
  }

  /** Inode i takes bytes 20i to 20i + 19 of block 0: id, index block, length, used flag. */
  lemma InodeInNumbers(inodes: seq<Inode>, i: nat)
    requires StorableTable(inodes) && i < 25
    ensures
      var blk := InodesBlock(inodes);
      && |inodes| == 25
      && Little(blk[20 * i..20 * i + 4]) == inodes[i].id % 0x1_0000_0000
      && Little(blk[20 * i + 4..20 * i + 8]) == inodes[i].index
      && Little(blk[20 * i + 8..20 * i + 12]) == inodes[i].length
      && blk[20 * i + 12] == if inodes[i].used then 1 else 0
  {
    hide WordBytes, Little, InodeBytes, InodesBlock;
    var ino := inodes[i];
    var blk := InodesBlock(inodes);
    InodeImage(inodes, i);
    InodeParts(ino);
    PartOf(blk, 20 * i, InodeBytes(ino), 0, 4);
    PartOf(blk, 20 * i, InodeBytes(ino), 4, 8);
    PartOf(blk, 20 * i, InodeBytes(ino), 8, 12);
    PartOf(blk, 20 * i, InodeBytes(ino), 12, 13);
    WordIsLittle(LongWord(ino.id));
    WordIsLittle(ino.index);
    WordIsLittle(ino.length);
  }

  /** Block 1 starts with the number of blocks; the flag of block b is bit b % 8 of byte 4 + b / 8. */
  lemma FreelistInNumbers(marks: seq<bool>, b: nat)
    requires |marks| <= 4064 && b < |marks|
    ensures
      var blk := FreelistBlock(marks);
      && Little(blk[..4]) == |marks| && 4 + b / 8 < 512
      && (marks[b] <==> (blk[4 + b / 8] >> (b % 8)) & 1 == 1)
  {
    hide FillBitmap, HasBit, Little, WordBytes;
    var blk := FreelistBlock(marks);
    FillBitmapAt(Header(|marks|), marks, |marks|, b);
    WordIsLittle(|marks|);
    assert Header(|marks|)[..4] == WordBytes(|marks|);
    BitInNumbers(blk[4 + b / 8], b % 8);
  }

  lemma BitInNumbers(x: byte, k: nat)
    requires k < 8
    ensures HasBit(x, k) <==> (x >> k) & 1 == 1
  {
  }

  /** A saved file system has its inodes in block 0 and its free list in block 1. */
  lemma SavedInNumbers(fs: Fs)
    requires StorableTable(fs.inodes) && |fs.marks| <= 4064 && |fs.disk| >= 2
    ensures Get(Save(fs).disk, 0) == InodesBlock(fs.inodes) && Get(Save(fs).disk, 1) == FreelistBlock(fs.marks)
    ensures forall b: nat :: b >= 2 ==> Get(Save(fs).disk, b) == Get(fs.disk, b)
  {
    hide InodesBlock, FreelistBlock;
  }

  /** A formatted one has 25 unused inodes, blocks 0 and 1 taken and every other block free. */
  lemma FormattedInNumbers(disk: seq<Block>, n: nat)
    requires 2 <= n <= 4064 && n <= |disk|
    ensures HeaderSize(Get(Formatted(disk, n), 1)) == n
    ensures
      var fs := Mounted(Formatted(disk, n));
      && |fs.inodes| == 25 && (forall i :: 0 <= i < 25 ==> fs.inodes[i] == Inode(-1, 0, 0, false))
      && |fs.marks| == n && (forall b :: 0 <= b < n ==> (fs.marks[b] <==> b < 2))
      && Get(Formatted(disk, n), 0) == InodesBlock(fs.inodes) && Get(Formatted(disk, n), 1) == FreelistBlock(fs.marks)
  {
    hide InodesBlock, FreelistBlock, Formatted, Mounted, HeaderSize;
    MountOfFormatted(disk, n);
  }
}
