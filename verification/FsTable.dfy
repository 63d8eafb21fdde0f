/**
 Creating and deleting files, and saving the metadata: which blocks are taken and
 released, and that the other files and their blocks are left as they were.
 */
module FsTable {
  import opened FsState
  import opened FsLayout
  import opened FsOps
  import opened FsMeaning

  // ----- saving the metadata -----

  lemma InvStorable(fs: Fs)
    requires Inv(fs)
    ensures StorableTable(fs.inodes) && |fs.marks| <= MAX_FS_BLOCKS
  {
  }

  /** Saving the metadata changes no file, and leaves disk and memory in agreement. */
  lemma SaveMeaning(fs: Fs)
    requires Inv(fs)
    ensures StorableTable(fs.inodes) && |fs.marks| <= MAX_FS_BLOCKS
    ensures
      var fs' := Save(fs);
      && Inv(fs') && fs'.inodes == fs.inodes && fs'.marks == fs.marks && |fs'.disk| == |fs.disk| && Synced(fs')
      && SameRefs(fs, fs') && (forall i: nat :: Live(fs, i) ==> Untouched(fs, fs', i))
  {
    InvStorable(fs);
    hide InodesBlock;
    hide FreelistBlock;
    hide Ref;
    var a, b := InodesBlock(fs.inodes), FreelistBlock(fs.marks);
    var fs1 := fs.(disk := Put(fs.disk, INODES_BLOCK, a));
    PutMetadata(fs, INODES_BLOCK, a);
    PutMetadata(fs1, FREELIST_BLOCK, b);
    forall i: nat | Live(fs, i)
      ensures Untouched(fs, Save(fs), i)
    {
      assert Untouched(fs, fs1, i) && Untouched(fs1, Save(fs), i);
    }
  }

  lemma PutMetadata(fs: Fs, b: nat, blk: Block)
    requires Inv(fs) && b < METADATA_BLOCKS
    ensures
      var fs' := fs.(disk := Put(fs.disk, b, blk));
      && Inv(fs') && SameRefs(fs, fs') && (forall i: nat :: Live(fs, i) ==> Untouched(fs, fs', i))
  {
    hide Inv;
    var fs' := fs.(disk := Put(fs.disk, b, blk));
    forall i: nat | Live(fs, i)
      ensures fs.inodes[i].index != b
    {
      IndexOfLive(fs, i);
    }
    PutKeepsRefs(fs, b, blk);
    SameInodesInv(fs, fs');
    hide Ref;
    forall i: nat, k: nat | Live(fs, i) && k < MAX_FILE_BLOCKS
      ensures BlockAt(fs', i, k) == BlockAt(fs, i, k)
    {
      RefBound(fs, i, k);
    }
  }

  // ----- creating a file -----

  lemma CreatedRef(fs: Fs, i: nat, id: int, nb: nat, j: nat, k: nat)
    requires Inv(fs) && i < |fs.inodes| && !fs.inodes[i].used
    requires METADATA_BLOCKS <= nb < |fs.marks| && !fs.marks[nb]
    requires (Live(fs, j) || j == i) && k <= MAX_FILE_BLOCKS
    ensures Ref(Created(fs, i, id, nb), j, k) ==
      if j != i then Ref(fs, j, k) else if k == MAX_FILE_BLOCKS then nb else 0
  {
    hide Entry;
    hide Inv;
    if j == i {
      RefRange(fs);
      if k < MAX_FILE_BLOCKS {
        EntryOfZero(k);
      }
    } else {
      RefBound(fs, j, MAX_FILE_BLOCKS);
    }
  }

  lemma RefRange(fs: Fs)
    requires Inv(fs)
    ensures |fs.marks| <= |fs.disk|
  {
  }

  /** CreateFile takes one free block as an all-zero index block; no other file is touched. */
  lemma CreatedMeaning(fs: Fs, i: nat, id: int, nb: nat)
    requires Inv(fs) && i < |fs.inodes| && !fs.inodes[i].used
    requires METADATA_BLOCKS <= nb < |fs.marks| && !fs.marks[nb]
    requires -0x8000_0000 <= id < 0x8000_0000 && Lookup(fs.inodes, id).None?
    ensures
      var fs' := Created(fs, i, id, nb);
      && Inv(fs') && Live(fs', i)
      && (forall j: nat :: Live(fs', j) <==> Live(fs, j) || j == i)
      && (forall j: nat :: Live(fs, j) ==> Untouched(fs, fs', j))
      && (forall k: nat :: k < MAX_FILE_BLOCKS ==> Ref(fs', i, k) == 0)
  {
    var fs' := Created(fs, i, id, nb);
    hide Ref;
    hide Inv;
    hide Zeros;
    hide Put;
    hide Untouched;
    CreatedInv(fs, i, id, nb);
    forall k: nat | k < MAX_FILE_BLOCKS
      ensures Ref(fs', i, k) == 0
    {
      CreatedRef(fs, i, id, nb, i, k);
    }
    forall j: nat | Live(fs, j)
      ensures Untouched(fs, fs', j)
    {
      CreatedUntouched(fs, i, id, nb, j);
    }
  }

  lemma CreatedUntouched(fs: Fs, i: nat, id: int, nb: nat, j: nat)
    requires Inv(fs) && i < |fs.inodes| && !fs.inodes[i].used && Live(fs, j)
    requires METADATA_BLOCKS <= nb < |fs.marks| && !fs.marks[nb]
    ensures Untouched(fs, Created(fs, i, id, nb), j)
  {
    var fs' := Created(fs, i, id, nb);
    hide Ref;
    hide Inv;
    hide Zeros;
    hide Put;
    hide Get;
    forall k: nat | k <= MAX_FILE_BLOCKS
      ensures Ref(fs', j, k) == Ref(fs, j, k)
      ensures k < MAX_FILE_BLOCKS ==> BlockAt(fs', j, k) == BlockAt(fs, j, k)
    {
      CreatedRef(fs, i, id, nb, j, k);
      RefBound(fs, j, k);
      PutOther(fs.disk, nb, Zeros(), Ref(fs, j, k));
    }
  }

  lemma PutOther(disk: seq<Block>, b: nat, blk: Block, c: nat)
    requires c != b
    ensures Get(Put(disk, b, blk), c) == Get(disk, c)
  {
  }

  lemma CreatedInv(fs: Fs, i: nat, id: int, nb: nat)
    requires Inv(fs) && i < |fs.inodes| && !fs.inodes[i].used
    requires METADATA_BLOCKS <= nb < |fs.marks| && !fs.marks[nb]
    requires -0x8000_0000 <= id < 0x8000_0000 && Lookup(fs.inodes, id).None?
    ensures Inv(Created(fs, i, id, nb))
  {
    hide Ref;
    hide Put;
    hide OwnedBy;
    var o: Owners :| OwnedBy(fs, o);
    CreatedOwned(fs, o, i, id, nb);
  }

  lemma CreatedOwned(fs: Fs, o: Owners, i: nat, id: int, nb: nat)
    requires Inv(fs) && OwnedBy(fs, o) && i < |fs.inodes| && !fs.inodes[i].used
    requires METADATA_BLOCKS <= nb < |fs.marks| && !fs.marks[nb]
    ensures OwnedBy(Created(fs, i, id, nb), o[nb := (i, MAX_FILE_BLOCKS)])
  {
    hide Ref;
    hide Put;
    hide Inv;
    var fs' := Created(fs, i, id, nb);
    var o': Owners := o[nb := (i, MAX_FILE_BLOCKS)];
    assert nb in o ==> OwnerOk(fs, o, nb);
    forall j: nat, k: nat | Live(fs', j) && k <= MAX_FILE_BLOCKS
      ensures RefOk(fs', o', j, k)
    {
      CreatedRef(fs, i, id, nb, j, k);
      assert j != i ==> RefOk(fs, o, j, k);
    }
    forall b | b in o'
      ensures OwnerOk(fs', o', b)
    {
      if b == nb {
        CreatedRef(fs, i, id, nb, i, MAX_FILE_BLOCKS);
      } else {
        assert OwnerOk(fs, o, b);
        CreatedRef(fs, i, id, nb, o[b].0, o[b].1);
      }
    }
  }

  // ----- deleting a file -----

  /** FreeAllBlocks clears exactly the flags of the blocks the entries k.. name. */
  lemma {:induction false} ReleasedAt(marks: seq<bool>, blk: Block, k: nat, b: nat)
    requires k <= MAX_FILE_BLOCKS && b < |marks|
    ensures Released(marks, blk, k)[b] <==>
      marks[b] && !(b >= METADATA_BLOCKS && exists l: nat :: k <= l < MAX_FILE_BLOCKS && Entry(blk, l) == b)
    decreases MAX_FILE_BLOCKS - k
  {
    hide Entry;
    if k < MAX_FILE_BLOCKS {
      ReleasedAt(Unmark(marks, Entry(blk, k)), blk, k + 1, b);
    }
  }

  /** Deleting an inode releases exactly the blocks it owns. */
  lemma DeletedMarks(fs: Fs, i: nat, b: nat)
    requires Inv(fs) && Live(fs, i) && b < |fs.marks|
    ensures FreeAll(fs, i)[b] <==> fs.marks[b] && !(b >= METADATA_BLOCKS && exists k: nat :: Owns(fs, i, k, b))
  {
    hide Inv;
    hide Entry;
    hide Released;
    var x := fs.inodes[i].index;
    var blk := Get(fs.disk, x);
    IndexOfLive(fs, i);
    ReleasedAt(fs.marks, blk, 0, b);
    if k: nat :| Owns(fs, i, k, b) {
      assert k < MAX_FILE_BLOCKS ==> Entry(blk, k) == b;
    } else {
      assert !Owns(fs, i, MAX_FILE_BLOCKS, b);
      forall l: nat | l < MAX_FILE_BLOCKS
        ensures Entry(blk, l) != b
      {
        assert !Owns(fs, i, l, b);
      }
    }
  }

  /** DeleteFile releases the file's blocks and touches no other file. */
  lemma DeletedMeaning(fs: Fs, i: nat)
    requires Inv(fs) && Live(fs, i)
    ensures
      var fs' := Deleted(fs, i);
      && Inv(fs')
      && (forall j: nat :: Live(fs', j) <==> Live(fs, j) && j != i)
      && (forall j: nat :: Live(fs', j) ==> Untouched(fs, fs', j))
  {
    hide Inv;
    hide FreeAll;
    hide Entry;
    var fs' := Deleted(fs, i);
    assert forall j: nat, k: nat :: Live(fs', j) && k <= MAX_FILE_BLOCKS ==> Ref(fs', j, k) == Ref(fs, j, k);
    DeletedInv(fs, i);
  }

  lemma DeletedInv(fs: Fs, i: nat)
    requires Inv(fs) && Live(fs, i)
    requires forall j: nat, k: nat :: Live(Deleted(fs, i), j) && k <= MAX_FILE_BLOCKS ==>
      Ref(Deleted(fs, i), j, k) == Ref(fs, j, k)
    ensures Inv(Deleted(fs, i))
  {
    hide Ref;
    hide FreeAll;
    hide Shape;
    hide IdsDistinct;
    var fs' := Deleted(fs, i);
    var o: Owners :| OwnedBy(fs, o);
    var o': Owners := map b | b in o && o[b].0 != i :: o[b];
    forall j: nat, k: nat | Live(fs', j) && k <= MAX_FILE_BLOCKS
      ensures RefOk(fs', o', j, k)
    {
      assert RefOk(fs, o, j, k);
    }
    forall b: nat | METADATA_BLOCKS <= b < |fs.marks|
      ensures fs'.marks[b] <==> b in o'
    {
      DeletedMark(fs, o, i, b);
    }
    forall b | b in o'
      ensures OwnerOk(fs', o', b)
    {
      assert OwnerOk(fs, o, b);
    }
    assert OwnedBy(fs', o');
    DeletedShape(fs, i);
  }

  lemma DeletedShape(fs: Fs, i: nat)
    requires Inv(fs) && Live(fs, i)
    ensures Shape(Deleted(fs, i)) && IdsDistinct(Deleted(fs, i).inodes)
    ensures FreeAll(fs, i)[0] && FreeAll(fs, i)[1]
  {
    hide OwnedBy;
    hide FreeAll;
    hide Owns;
    DeletedMarks(fs, i, 0);
    DeletedMarks(fs, i, 1);
    FewerIds(fs.inodes, i);
  }

  lemma FewerIds(inodes: seq<Inode>, i: nat)
    requires IdsDistinct(inodes) && i < |inodes|
    ensures IdsDistinct(inodes[i := FREE_INODE])
  {
  }

  /** A block stays taken exactly when another inode owns it. */
  lemma DeletedMark(fs: Fs, o: Owners, i: nat, b: nat)
    requires Inv(fs) && OwnedBy(fs, o) && Live(fs, i) && METADATA_BLOCKS <= b < |fs.marks|
    ensures FreeAll(fs, i)[b] <==> b in o && o[b].0 != i
  {
    hide Inv;
    hide Ref;
    DeletedMarks(fs, i, b);
    hide FreeAll;
    if b in o {
      assert OwnerOk(fs, o, b);
    }
    if k: nat :| Owns(fs, i, k, b) {
      assert RefOk(fs, o, i, k);
    }
  }

  // ----- CreateFile and DeleteFile as called -----

  lemma UntouchedTrans(a: Fs, b: Fs, c: Fs, j: nat)
    requires Untouched(a, b, j) && Untouched(b, c, j)
    ensures Untouched(a, c, j)
  {
    hide Ref;
    hide BlockAt;
  }

  /** CreateFile succeeds exactly when the id is new and an inode and a block are free; then there is one
      more file, empty, and the rest is as before. Otherwise nothing at all has changed. */
  lemma CreateMeaning(fs: Fs, id: int)
    requires Inv(fs) && -0x8000_0000 <= id < 0x8000_0000
    ensures
      var (fs', ok) := CreateFile(fs, id);
      && (ok <==> Lookup(fs.inodes, id).None? && FreeInode(fs.inodes).Some? && FreeBlock(fs.marks).Some?)
      && (!ok ==> fs' == fs)
      && (ok ==>
            var i := FreeInode(fs.inodes).value;
            && Inv(fs') && Live(fs', i) && fs'.inodes[i].id == id && fs'.inodes[i].length == 0
            && (forall j: nat :: Live(fs', j) <==> Live(fs, j) || j == i)
            && (forall j: nat :: Live(fs, j) ==> Untouched(fs, fs', j))
            && (forall k: nat :: k < MAX_FILE_BLOCKS ==> Ref(fs', i, k) == 0)
            && fs'.marks == fs.marks[FreeBlock(fs.marks).value := true]
            && fs'.inodes == fs.inodes[i := Inode(id, FreeBlock(fs.marks).value, 0, true)]
            && |fs'.disk| == |fs.disk|
            && StorableTable(fs'.inodes) && |fs'.marks| <= MAX_FS_BLOCKS && Synced(fs'))
  {
    hide Inv;
    hide Untouched;
    hide Synced;
    hide StorableTable;
    hide Save;
    hide Shape;
    hide Ref;
    var found, slot, blk := Lookup(fs.inodes, id), FreeInode(fs.inodes), FreeBlock(fs.marks);
    if found.None? && slot.Some? && blk.Some? {
      var i, nb := slot.value, blk.value;
      CreatedMeaning(fs, i, id, nb);
      var fs1 := Created(fs, i, id, nb);
      SaveMeaning(fs1);
      forall j: nat | Live(fs, j)
        ensures Untouched(fs, Save(fs1), j)
      {
        UntouchedTrans(fs, fs1, Save(fs1), j);
      }
    }
  }

  /** DeleteFile succeeds exactly when there is such a file; then it is gone, its blocks are free,
      and every other file is as before. */
  lemma DeleteMeaning(fs: Fs, id: int)
    requires Inv(fs)
    ensures
      var (fs', ok) := DeleteFile(fs, id);
      && (ok <==> Lookup(fs.inodes, id).Some?)
      && (!ok ==> fs' == fs)
      && (ok ==>
            var i := Lookup(fs.inodes, id).value;
            && Inv(fs')
            && (forall j: nat :: Live(fs', j) <==> Live(fs, j) && j != i)
            && (forall j: nat :: Live(fs', j) ==> Untouched(fs, fs', j))
            && fs'.inodes == fs.inodes[i := FREE_INODE] && |fs'.marks| == |fs.marks|
            && (forall b: nat :: b < |fs.marks| ==>
                  fs'.marks[b] == (fs.marks[b] && !(b >= METADATA_BLOCKS && exists k: nat :: Owns(fs, i, k, b))))
            && StorableTable(fs'.inodes) && |fs'.marks| <= MAX_FS_BLOCKS && Synced(fs'))
  {
    hide Inv;
    hide Untouched;
    hide Synced;
    hide StorableTable;
    hide Save;
    hide Shape;
    hide FreeAll;
    hide Owns;
    if Lookup(fs.inodes, id).Some? {
      var i := Lookup(fs.inodes, id).value;
      DeletedMeaning(fs, i);
      var fs1 := Deleted(fs, i);
      SaveMeaning(fs1);
      forall j: nat | Live(fs1, j)
        ensures Untouched(fs, Save(fs1), j)
      {
        UntouchedTrans(fs, fs1, Save(fs1), j);
      }
      forall b: nat | b < |fs.marks|
        ensures fs1.marks[b] == (fs.marks[b] && !(b >= METADATA_BLOCKS && exists k: nat :: Owns(fs, i, k, b)))
      {
        DeletedMarks(fs, i, b);
      }
    }
  }
}
