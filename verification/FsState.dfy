/**
 The on-disk and in-memory state of the indexed file system as one value, what it
 means (which blocks a file owns, what each logical block holds), and the invariant
 every operation keeps.
 */
module FsState {
  import opened Bytes

  const BLOCK_SIZE: nat := 512
  const MAX_INODES: nat := 25
  const MAX_FILE_BLOCKS: nat := 128
  const MAX_FILE_SIZE: nat := 65536
  const METADATA_BLOCKS: nat := 2
  const MAX_FS_BLOCKS: nat := 4064

  type Block = b: seq<byte> | |b| == 512 witness seq(512, _ => 0)

  function Zeros(): (z: Block)
    ensures forall i :: 0 <= i < BLOCK_SIZE ==> z[i] == 0
  {
    seq(512, _ => 0)
  }

  /** `index` is the number of the index block; the back pointer to the file system is not state. */
  datatype Inode = Inode(id: int, index: nat, length: nat, used: bool)

  /** `marks[b]` stands for `free_blocks[b] != 0`, that is, block b is taken. */
  datatype Fs = Fs(disk: seq<Block>, inodes: seq<Inode>, marks: seq<bool>)

  // ----- block access: the driver does no error check, so both are total -----

  function Get(disk: seq<Block>, b: nat): Block {
    if b < |disk| then disk[b] else Zeros()
  }

  function Put(disk: seq<Block>, b: nat, blk: Block): (r: seq<Block>)
    ensures |r| == |disk|
  {
    if b < |disk| then disk[b := blk] else disk
  }

  // ----- the index block: 128 little-endian words -----

  function Entry(blk: Block, k: nat): (n: nat)
    requires k < MAX_FILE_BLOCKS
    ensures n < TWO32
  {
    BytesWord(blk[4 * k..4 * k + 4])
  }

  function SetEntry(blk: Block, k: nat, n: nat): Block
    requires k < MAX_FILE_BLOCKS && n < TWO32
  {
    blk[..4 * k] + WordBytes(n) + blk[4 * k + 4..]
  }

  /** Storing one word of the index block changes that word and no other. */
  lemma EntryOfSet(blk: Block, k: nat, n: nat, j: nat)
    requires k < MAX_FILE_BLOCKS && n < TWO32 && j < MAX_FILE_BLOCKS
    ensures Entry(SetEntry(blk, k, n), j) == if j == k then n else Entry(blk, j)
  {
    hide BytesWord;
    hide WordBytes;
    var w := SetEntry(blk, k, n);
    if j == k {
      WordRoundTrip(n);
      assert w[4 * k..4 * k + 4] == WordBytes(n);
    } else {
      assert w[4 * j..4 * j + 4] == blk[4 * j..4 * j + 4];
    }
  }

  lemma EntryOfZero(k: nat)
    requires k < MAX_FILE_BLOCKS
    ensures Entry(Zeros(), k) == 0
  {
    hide BytesWord;
    ZeroWord();
    assert Zeros()[4 * k..4 * k + 4] == [0, 0, 0, 0];
  }

  // ----- what a file owns -----

  ghost predicate Live(fs: Fs, i: nat) {
    i < |fs.inodes| && fs.inodes[i].used
  }

  /** Reference k of inode i: its data blocks for k < 128, its index block for k == 128; 0 is "none". */
  ghost function Ref(fs: Fs, i: nat, k: nat): nat
    requires i < |fs.inodes| && k <= MAX_FILE_BLOCKS
  {
    if k == MAX_FILE_BLOCKS then fs.inodes[i].index else Entry(Get(fs.disk, fs.inodes[i].index), k)
  }

  /** What logical block k of a closed file holds: a missing block reads as zeros. */
  ghost function BlockAt(fs: Fs, i: nat, k: nat): Block
    requires i < |fs.inodes| && k < MAX_FILE_BLOCKS
  {
    if Ref(fs, i, k) == 0 then Zeros() else Get(fs.disk, Ref(fs, i, k))
  }

  ghost predicate Owns(fs: Fs, i: nat, k: nat, b: nat) {
    Live(fs, i) && k <= MAX_FILE_BLOCKS && Ref(fs, i, k) == b
  }

  // ----- the invariant -----

  predicate Shape(fs: Fs) {
    && |fs.inodes| == MAX_INODES
    && METADATA_BLOCKS <= |fs.marks| <= MAX_FS_BLOCKS
    && |fs.marks| <= |fs.disk|
    && (forall i: nat :: i < |fs.inodes| ==>
          && -0x8000_0000 <= fs.inodes[i].id < 0x8000_0000
          && fs.inodes[i].index < |fs.marks|
          && fs.inodes[i].length <= MAX_FILE_SIZE)
  }

  predicate IdsDistinct(inodes: seq<Inode>) {
    forall i: nat, j: nat ::
      i < |inodes| && j < |inodes| && inodes[i].used && inodes[j].used && inodes[i].id == inodes[j].id ==> i == j
  }

  /** The owner map: which inode and which reference of it each taken data or index block serves. */
  type Owners = map<nat, (nat, nat)>

  ghost predicate RefOk(fs: Fs, o: Owners, i: nat, k: nat)
    requires i < |fs.inodes| && k <= MAX_FILE_BLOCKS
  {
    var r := Ref(fs, i, k);
    if r == 0 then k < MAX_FILE_BLOCKS else r in o && o[r] == (i, k)
  }

  ghost predicate OwnerOk(fs: Fs, o: Owners, b: nat)
    requires b in o
  {
    METADATA_BLOCKS <= b < |fs.marks| && fs.marks[b] && Owns(fs, o[b].0, o[b].1, b)
  }

  ghost predicate OwnedBy(fs: Fs, o: Owners) {
    && (forall i: nat, k: nat :: Live(fs, i) && k <= MAX_FILE_BLOCKS ==> RefOk(fs, o, i, k))
    && (forall b :: b in o ==> OwnerOk(fs, o, b))
    && (forall b: nat :: METADATA_BLOCKS <= b < |fs.marks| && fs.marks[b] ==> b in o)
  }

  /** The file-system invariant: no shared block, no leaked block, no double id. */
  ghost predicate Inv(fs: Fs) {
    && Shape(fs)
    && fs.marks[0] && fs.marks[1]
    && IdsDistinct(fs.inodes)
    && exists o :: OwnedBy(fs, o)
  }

  /** Both states have the same live inodes, and those own the same blocks in the same places. */
  ghost predicate SameRefs(a: Fs, b: Fs) {
    && |a.inodes| == |b.inodes|
    && (forall i: nat :: Live(a, i) <==> Live(b, i))
    && (forall i: nat, k: nat :: Live(a, i) && k <= MAX_FILE_BLOCKS ==> Ref(b, i, k) == Ref(a, i, k))
  }

  // ----- consequences of the invariant -----

  lemma RefBound(fs: Fs, i: nat, k: nat)
    requires Inv(fs) && Live(fs, i) && k <= MAX_FILE_BLOCKS
    ensures Ref(fs, i, k) < |fs.marks| <= |fs.disk| && Ref(fs, i, k) != 1
    ensures |fs.marks| <= MAX_FS_BLOCKS
    ensures k == MAX_FILE_BLOCKS ==> Ref(fs, i, k) != 0
    ensures fs.marks[Ref(fs, i, k)]
  {
    hide Ref;
    var o: Owners :| OwnedBy(fs, o);
    assert RefOk(fs, o, i, k);
  }

  lemma RefUnique(fs: Fs, i: nat, k: nat, j: nat, l: nat)
    requires Inv(fs) && Live(fs, i) && k <= MAX_FILE_BLOCKS && Live(fs, j) && l <= MAX_FILE_BLOCKS
    requires Ref(fs, i, k) == Ref(fs, j, l) != 0
    ensures i == j && k == l
  {
    hide Ref;
    var o: Owners :| OwnedBy(fs, o);
    assert RefOk(fs, o, i, k);
    assert RefOk(fs, o, j, l);
  }

  /** No leak and no sharing: a block is marked taken exactly when it is a metadata block
      or is referenced, in one place, by one live inode. */
  lemma MarkedIffOwned(fs: Fs, b: nat)
    requires Inv(fs) && b < |fs.marks|
    ensures fs.marks[b] <==> b < METADATA_BLOCKS || exists i: nat, k: nat :: Owns(fs, i, k, b)
    ensures b >= METADATA_BLOCKS ==>
      forall i: nat, k: nat, j: nat, l: nat :: Owns(fs, i, k, b) && Owns(fs, j, l, b) ==> i == j && k == l
  {
    hide Ref;
    var o: Owners :| OwnedBy(fs, o);
    if b >= METADATA_BLOCKS {
      if fs.marks[b] {
        assert OwnerOk(fs, o, b);
      }
      forall i: nat, k: nat | Owns(fs, i, k, b)
        ensures fs.marks[b] && o[b] == (i, k)
      {
        assert RefOk(fs, o, i, k);
      }
    }
  }

  // ----- primitive updates -----

  /** Changing a block that no live inode uses as its index block changes no reference. */
  lemma PutKeepsRefs(fs: Fs, b: nat, blk: Block)
    requires forall i: nat :: Live(fs, i) ==> fs.inodes[i].index != b
    ensures SameRefs(fs, fs.(disk := Put(fs.disk, b, blk)))
  {
    hide Entry;
    var fs' := fs.(disk := Put(fs.disk, b, blk));
    forall i: nat, k: nat | Live(fs, i) && k <= MAX_FILE_BLOCKS
      ensures Ref(fs', i, k) == Ref(fs, i, k)
    {
      assert Get(fs'.disk, fs.inodes[i].index) == Get(fs.disk, fs.inodes[i].index);
    }
  }

  lemma SameRefsInv(a: Fs, b: Fs)
    requires Inv(a) && SameRefs(a, b)
    requires Shape(b) && a.marks == b.marks && IdsDistinct(b.inodes)
    ensures Inv(b)
  {
    hide Ref;
    var o: Owners :| OwnedBy(a, o);
    forall i: nat, k: nat | Live(b, i) && k <= MAX_FILE_BLOCKS
      ensures RefOk(b, o, i, k)
    {
      assert RefOk(a, o, i, k);
    }
    forall x | x in o
      ensures OwnerOk(b, o, x)
    {
      assert OwnerOk(a, o, x);
    }
    assert OwnedBy(b, o);
  }

  lemma SameInodesInv(a: Fs, b: Fs)
    requires Inv(a) && SameRefs(a, b)
    requires b.inodes == a.inodes && b.marks == a.marks && |b.disk| == |a.disk|
    ensures Inv(b)
  {
    hide SameRefs;
    SameRefsInv(a, b);
  }

  /** Writing a data block of one file: every other logical block keeps its bytes. */
  lemma PutData(fs: Fs, i: nat, k: nat, blk: Block)
    requires Inv(fs) && Live(fs, i) && k < MAX_FILE_BLOCKS && Ref(fs, i, k) != 0
    ensures
      var fs' := fs.(disk := Put(fs.disk, Ref(fs, i, k), blk));
      && Inv(fs') && SameRefs(fs, fs')
      && (forall j: nat, l: nat :: Live(fs, j) && l < MAX_FILE_BLOCKS ==>
            BlockAt(fs', j, l) == if j == i && l == k then blk else BlockAt(fs, j, l))
  {
    hide Ref, Inv, Put, Get;
    var p := Ref(fs, i, k);
    var fs' := fs.(disk := Put(fs.disk, p, blk));
    DataIsNoIndex(fs, i, k);
    PutKeepsRefs(fs, p, blk);
    SameInodesInv(fs, fs');
    RefBound(fs, i, k);
    forall j: nat, l: nat | Live(fs, j) && l < MAX_FILE_BLOCKS
      ensures BlockAt(fs', j, l) == if j == i && l == k then blk else BlockAt(fs, j, l)
    {
      if Ref(fs, j, l) == p {
        RefUnique(fs, i, k, j, l);
      }
      GetPut(fs.disk, p, blk, Ref(fs, j, l));
    }
  }

  lemma DataIsNoIndex(fs: Fs, i: nat, k: nat)
    requires Inv(fs) && Live(fs, i) && k < MAX_FILE_BLOCKS && Ref(fs, i, k) != 0
    ensures forall j: nat :: Live(fs, j) ==> fs.inodes[j].index != Ref(fs, i, k)
  {
    hide Ref, Inv;
    forall j: nat | Live(fs, j)
      ensures fs.inodes[j].index != Ref(fs, i, k)
    {
      IndexIsRef(fs, j);
      if fs.inodes[j].index == Ref(fs, i, k) {
        RefUnique(fs, i, k, j, MAX_FILE_BLOCKS);
      }
    }
  }

  lemma GetPut(disk: seq<Block>, b: nat, blk: Block, c: nat)
    requires b < |disk|
    ensures Get(Put(disk, b, blk), c) == if c == b then blk else Get(disk, c)
  {
  }

  /** The state after block nb has been taken, linked as logical block k of inode i and zeroed. */
  function Linked(fs: Fs, i: nat, k: nat, nb: nat): Fs
    requires i < |fs.inodes| && k < MAX_FILE_BLOCKS && nb < |fs.marks| && nb < TWO32
  {
    var x := fs.inodes[i].index;
    fs.(marks := fs.marks[nb := true],
        disk := Put(Put(fs.disk, x, SetEntry(Get(fs.disk, x), k, nb)), nb, Zeros()))
  }

  lemma LinkedRef(fs: Fs, i: nat, k: nat, nb: nat, j: nat, l: nat)
    requires Inv(fs) && Live(fs, i) && k < MAX_FILE_BLOCKS
    requires METADATA_BLOCKS <= nb < |fs.marks| && !fs.marks[nb]
    requires Live(fs, j) && l <= MAX_FILE_BLOCKS
    ensures Ref(Linked(fs, i, k, nb), j, l) == if j == i && l == k then nb else Ref(fs, j, l)
  {
    hide Inv;
    hide Entry;
    hide SetEntry;
    var x, y := fs.inodes[i].index, fs.inodes[j].index;
    assert Ref(fs, i, MAX_FILE_BLOCKS) == x && Ref(fs, j, MAX_FILE_BLOCKS) == y;
    RefBound(fs, i, MAX_FILE_BLOCKS);
    RefBound(fs, j, MAX_FILE_BLOCKS);
    if x == y {
      RefUnique(fs, i, MAX_FILE_BLOCKS, j, MAX_FILE_BLOCKS);
    }
    if l < MAX_FILE_BLOCKS {
      EntryOfSet(Get(fs.disk, x), k, nb, l);
    }
  }

  /** Taking a free block nb as logical block k, zeroed, changes no file's bytes. */
  lemma LinkBlock(fs: Fs, i: nat, k: nat, nb: nat)
    requires Inv(fs) && Live(fs, i) && k < MAX_FILE_BLOCKS && Ref(fs, i, k) == 0
    requires METADATA_BLOCKS <= nb < |fs.marks| && !fs.marks[nb]
    ensures
      var fs' := Linked(fs, i, k, nb);
      && Inv(fs')
      && (forall j: nat, l: nat :: Live(fs, j) && l <= MAX_FILE_BLOCKS ==>
            Ref(fs', j, l) == if j == i && l == k then nb else Ref(fs, j, l))
      && (forall j: nat, l: nat :: Live(fs, j) && l < MAX_FILE_BLOCKS ==>
            BlockAt(fs', j, l) == BlockAt(fs, j, l))
  {
    var fs' := Linked(fs, i, k, nb);
    forall j: nat, l: nat | Live(fs, j) && l <= MAX_FILE_BLOCKS
      ensures Ref(fs', j, l) == if j == i && l == k then nb else Ref(fs, j, l)
    {
      LinkedRef(fs, i, k, nb, j, l);
    }
    LinkedInv(fs, i, k, nb);
    forall j: nat, l: nat | Live(fs, j) && l < MAX_FILE_BLOCKS
      ensures BlockAt(fs', j, l) == BlockAt(fs, j, l)
    {
      LinkedBlock(fs, i, k, nb, j, l);
    }
  }

  lemma LinkedBlock(fs: Fs, i: nat, k: nat, nb: nat, j: nat, l: nat)
    requires Inv(fs) && Live(fs, i) && k < MAX_FILE_BLOCKS && Ref(fs, i, k) == 0
    requires METADATA_BLOCKS <= nb < |fs.marks| && !fs.marks[nb]
    requires Live(fs, j) && l < MAX_FILE_BLOCKS
    ensures BlockAt(Linked(fs, i, k, nb), j, l) == BlockAt(fs, j, l)
  {
    hide Inv, Ref, Linked;
    LinkedRef(fs, i, k, nb, j, l);
    RefBound(fs, j, l);
    RefBound(fs, i, MAX_FILE_BLOCKS);
    IndexIsRef(fs, i);
    if Ref(fs, j, l) == fs.inodes[i].index {
      RefUnique(fs, i, MAX_FILE_BLOCKS, j, l);
    }
    LinkedGet(fs, i, k, nb, Ref(fs, j, l));
  }

  lemma IndexIsRef(fs: Fs, i: nat)
    requires i < |fs.inodes|
    ensures Ref(fs, i, MAX_FILE_BLOCKS) == fs.inodes[i].index
  {
  }

  /** The new block holds zeros, and only it and the index block have changed. */
  lemma LinkedGet(fs: Fs, i: nat, k: nat, nb: nat, b: nat)
    requires i < |fs.inodes| && k < MAX_FILE_BLOCKS && nb < |fs.marks| <= |fs.disk| && nb < TWO32
    ensures |Linked(fs, i, k, nb).inodes| == |fs.inodes|
    ensures Get(Linked(fs, i, k, nb).disk, nb) == Zeros()
    ensures b != nb && b != fs.inodes[i].index ==> Get(Linked(fs, i, k, nb).disk, b) == Get(fs.disk, b)
  {
    hide SetEntry, Zeros;
  }

  lemma LinkedInv(fs: Fs, i: nat, k: nat, nb: nat)
    requires Inv(fs) && Live(fs, i) && k < MAX_FILE_BLOCKS && Ref(fs, i, k) == 0
    requires METADATA_BLOCKS <= nb < |fs.marks| && !fs.marks[nb]
    ensures Inv(Linked(fs, i, k, nb))
  {
    hide Ref;
    hide SetEntry;
    hide Put;
    hide Get;
    hide OwnedBy;
    var o: Owners :| OwnedBy(fs, o);
    LinkedOwned(fs, o, i, k, nb);
  }

  lemma LinkedOwned(fs: Fs, o: Owners, i: nat, k: nat, nb: nat)
    requires Inv(fs) && OwnedBy(fs, o) && Live(fs, i) && k < MAX_FILE_BLOCKS && Ref(fs, i, k) == 0
    requires METADATA_BLOCKS <= nb < |fs.marks| && !fs.marks[nb] && nb < TWO32
    ensures OwnedBy(Linked(fs, i, k, nb), o[nb := (i, k)])
  {
    hide Ref;
    hide SetEntry;
    hide Put;
    hide Get;
    hide Inv;
    var fs' := Linked(fs, i, k, nb);
    var o': Owners := o[nb := (i, k)];
    assert nb in o ==> OwnerOk(fs, o, nb);
    forall j: nat, l: nat | Live(fs', j) && l <= MAX_FILE_BLOCKS
      ensures RefOk(fs', o', j, l)
    {
      LinkedRef(fs, i, k, nb, j, l);
      assert RefOk(fs, o, j, l);
    }
    forall b | b in o'
      ensures OwnerOk(fs', o', b)
    {
      if b == nb {
        LinkedRef(fs, i, k, nb, i, k);
      } else {
        assert OwnerOk(fs, o, b);
        LinkedRef(fs, i, k, nb, o[b].0, o[b].1);
      }
    }
  }
}
