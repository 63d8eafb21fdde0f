/**
 The refinement: in every run, the mounted file system with its handles and caches
 behaves as a map from file id to byte string.
 */
module FsRefinement {
  import opened Bytes
  import opened FsState
  import opened FsLayout
  import opened FsOps
  import opened FsMeaning
  import opened FsFiles
  import opened FsTable
  import opened FsMachine

  /** Ids are unique, so a live inode is found under its id. */
  lemma LookupLive(fs: Fs, i: nat)
    requires Inv(fs) && Live(fs, i)
    ensures Lookup(fs.inodes, fs.inodes[i].id) == Some(i)
  {
    hide OwnedBy;
  }

  /** A file that is not touched, with the same handle, stands for the same bytes. */
  lemma UntouchedFile(sys: Sys, sys': Sys, j: nat)
    requires Inv(sys.fs) && Inv(sys'.fs) && Untouched(sys.fs, sys'.fs, j)
    requires j in sys.open <==> j in sys'.open
    requires j in sys.open ==> sys'.open[j] == sys.open[j] && HandleInv(sys.fs, j, sys.open[j])
    ensures j in sys.open ==> HandleInv(sys'.fs, j, sys'.open[j])
    ensures FileAt(sys', j) == FileAt(sys, j)
    ensures Dense(sys.fs, j) ==> Dense(sys'.fs, j)
  {
    hide Inv;
    hide Ref;
    hide BlockAt;
    hide Contents;
    var h := if j in sys.open then sys.open[j] else Shut(j);
    LiveLength(sys.fs, j);
    ContentsAre(sys.fs, h);
    ContentsAre(sys'.fs, h);
    assert Contents(sys'.fs, h) == Contents(sys.fs, h);
  }

  lemma LiveLength(fs: Fs, i: nat)
    requires Inv(fs) && Live(fs, i)
    ensures HandleOk(fs, Shut(i))
  {
  }

  ghost predicate OtherHandles(a: map<nat, Handle>, b: map<nat, Handle>, i: nat) {
    forall j: nat :: j != i ==> (j in a <==> j in b) && (j in a ==> b[j] == a[j])
  }

  ghost predicate SavedIfClosed(sys: Sys) {
    sys.open == map[] ==> StorableTable(sys.fs.inodes) && |sys.fs.marks| <= MAX_FS_BLOCKS && Synced(sys.fs)
  }

  /** A step that touches only file i, and at most its handle, keeps the invariant. */
  lemma OneFileInv(sys: Sys, sys': Sys, i: nat)
    requires SysInv(sys) && Live(sys.fs, i) && Inv(sys'.fs) && OnlyFile(sys.fs, sys'.fs, i) && Dense(sys'.fs, i)
    requires OtherHandles(sys.open, sys'.open, i) && SavedIfClosed(sys')
    requires i in sys'.open ==> HandleInv(sys'.fs, i, sys'.open[i])
    ensures SysInv(sys')
    ensures forall j: nat :: j != i && Live(sys.fs, j) ==> FileAt(sys', j) == FileAt(sys, j)
  {
    hide Inv;
    hide Synced;
    hide StorableTable;
    hide Untouched;
    hide Dense;
    hide FileAt;
    forall j: nat | j != i && Live(sys.fs, j)
      ensures j in sys'.open ==> HandleInv(sys'.fs, j, sys'.open[j])
      ensures FileAt(sys', j) == FileAt(sys, j) && Dense(sys'.fs, j)
    {
      UntouchedFile(sys, sys', j);
    }
    forall s | s in sys'.open
      ensures HandleInv(sys'.fs, s, sys'.open[s])
    {
      assert s != i ==> HandleInv(sys.fs, s, sys.open[s]);
    }
  }

  /** ... and changes the map only at i's id. */
  lemma OneFileStep(sys: Sys, sys': Sys, i: nat)
    requires SysInv(sys) && Live(sys.fs, i) && Inv(sys'.fs) && OnlyFile(sys.fs, sys'.fs, i) && Dense(sys'.fs, i)
    requires OtherHandles(sys.open, sys'.open, i) && SavedIfClosed(sys')
    requires i in sys'.open ==> HandleInv(sys'.fs, i, sys'.open[i])
    ensures SysInv(sys')
    ensures Abs(sys') == Abs(sys)[sys.fs.inodes[i].id := FileAt(sys', i)]
  {
    OneFileInv(sys, sys', i);
    SameLookups(sys.fs, sys'.fs, i);
    LookupLive(sys.fs, i);
    AbsUpdate(sys, sys', i);
  }

  lemma AbsUpdate(sys: Sys, sys': Sys, i: nat)
    requires SysInv(sys) && SysInv(sys') && Live(sys.fs, i) && Live(sys'.fs, i)
    requires forall id :: Lookup(sys'.fs.inodes, id) == Lookup(sys.fs.inodes, id)
    requires Lookup(sys.fs.inodes, sys.fs.inodes[i].id) == Some(i)
    requires forall j: nat :: j != i && Live(sys.fs, j) ==> Live(sys'.fs, j) && FileAt(sys', j) == FileAt(sys, j)
    ensures Abs(sys') == Abs(sys)[sys.fs.inodes[i].id := FileAt(sys', i)]
  {
    hide Inv;
    hide HandleInv;
    hide Dense;
    hide Synced;
    hide FileAt;
    hide Abs;
    hide Lookup;
    AbsIs(sys);
    AbsIs(sys');
    var a, a', here := Abs(sys), Abs(sys'), sys.fs.inodes[i].id;
    assert Lookup(sys'.fs.inodes, here) == Some(i);
    forall id | id in a && id != here
      ensures id in a' && a'[id] == a[id]
    {
      LookupSound(sys.fs, id);
      assert Lookup(sys'.fs.inodes, id) == Lookup(sys.fs.inodes, id);
    }
    forall id | id in a' && id != here
      ensures id in a
    {
      assert Lookup(sys'.fs.inodes, id) == Lookup(sys.fs.inodes, id);
    }
    assert here in a && here in a' && a'[here] == FileAt(sys', i);
  }

  lemma LookupSound(fs: Fs, id: int)
    requires Lookup(fs.inodes, id).Some?
    ensures Live(fs, Lookup(fs.inodes, id).value) && fs.inodes[Lookup(fs.inodes, id).value].id == id
  {
  }

  lemma AbsIs(sys: Sys)
    requires SysInv(sys)
    ensures forall id :: id in Abs(sys) <==> Lookup(sys.fs.inodes, id).Some?
    ensures forall id :: id in Abs(sys) ==> Abs(sys)[id] == FileAt(sys, Lookup(sys.fs.inodes, id).value)
  {
    hide SysInv;
    hide FileAt;
    forall id
      ensures id in Ids(sys.fs.inodes) <==> Lookup(sys.fs.inodes, id).Some?
    {
      if Lookup(sys.fs.inodes, id).Some? {
        assert sys.fs.inodes[Lookup(sys.fs.inodes, id).value].id == id;
      }
    }
  }

  /** Changing a length moves no file to another inode. */
  lemma SameLookups(a: Fs, b: Fs, i: nat)
    requires OnlyFile(a, b, i)
    ensures Ids(b.inodes) == Ids(a.inodes)
    ensures forall id :: Lookup(b.inodes, id) == Lookup(a.inodes, id)
  {
    hide Lookup;
    forall id
      ensures Lookup(b.inodes, id) == Lookup(a.inodes, id)
    {
    }
  }

  // ----- one operation at a time -----

  ghost predicate Refines(sys: Sys, op: Op)
    requires SysInv(sys) && SysShape(sys) && Allowed(sys, op)
  {
    var (sys', r) := Step(sys, op);
    SysInv(sys') && Spec(Abs(sys), op, r, Abs(sys'))
  }

  lemma ShapeOfInv(sys: Sys)
    requires SysInv(sys)
    ensures SysShape(sys)
  {
    hide OwnedBy;
    hide Dense;
    hide Synced;
    forall s | s in sys.open
      ensures s < MAX_INODES && sys.open[s].slot == s
    {
      assert HandleInv(sys.fs, s, sys.open[s]);
    }
  }

  lemma SameBytes(a: Fs, g: Handle, b: Fs, h: Handle)
    requires HandleOk(a, g) && HandleOk(b, h) && a.inodes[g.slot].length == b.inodes[h.slot].length
    requires forall l: nat :: l < MAX_FILE_BLOCKS ==> Logical(b, h, l) == Logical(a, g, l)
    ensures Contents(b, h) == Contents(a, g)
  {
    hide Logical;
    hide Contents;
    ContentsAre(a, g);
    ContentsAre(b, h);
  }

  /** What the map holds for an open file. */
  lemma OpenEntry(sys: Sys, id: int)
    requires SysInv(sys) && SysShape(sys) && HasHandle(sys, id)
    ensures
      var i := SlotOf(sys, id);
      var h := sys.open[i];
      && Live(sys.fs, i) && sys.fs.inodes[i].id == id && HandleInv(sys.fs, i, h) && HandleOk(sys.fs, h)
      && IsOpen(Abs(sys), id) && Abs(sys)[id] == AFile(Contents(sys.fs, h), Some(h.pos))
      && |Contents(sys.fs, h)| == sys.fs.inodes[i].length
      && Inv(sys.fs) && Dense(sys.fs, i) && Backed(sys.fs, h)
  {
    hide Inv;
    hide Dense;
    hide Synced;
    hide Contents;
    AbsIs(sys);
    LookupSound(sys.fs, id);
    ContentsLength(sys.fs, sys.open[SlotOf(sys, id)]);
  }

  lemma AtEofRefines(sys: Sys, id: int)
    requires SysInv(sys) && SysShape(sys) && HasHandle(sys, id)
    ensures Refines(sys, AtEof(id))
  {
    hide SysInv;
    hide Contents;
    hide Lookup;
    OpenEntry(sys, id);
  }

  /** A step on file id: the new state is the old one with that file and its handle replaced. */
  lemma FileRefines(sys: Sys, id: int, i: nat, sys': Sys)
    requires SysInv(sys) && Lookup(sys.fs.inodes, id) == Some(i)
    requires Inv(sys'.fs) && OnlyFile(sys.fs, sys'.fs, i) && Dense(sys'.fs, i)
    requires OtherHandles(sys.open, sys'.open, i) && SavedIfClosed(sys')
    requires i in sys'.open ==> HandleInv(sys'.fs, i, sys'.open[i])
    ensures Live(sys.fs, i) && Live(sys'.fs, i)
    ensures SysInv(sys') && Abs(sys') == Abs(sys)[id := FileAt(sys', i)]
  {
    hide SysInv;
    hide Inv;
    hide Dense;
    hide HandleInv;
    hide FileAt;
    hide SavedIfClosed;
    LookupSound(sys.fs, id);
    OneFileStep(sys, sys', i);
  }

  /** ... where the handle stays open. */
  lemma HandleRefines(sys: Sys, id: int, fs': Fs, h': Handle)
    requires SysInv(sys) && SysShape(sys) && HasHandle(sys, id)
    requires Inv(fs') && OnlyFile(sys.fs, fs', SlotOf(sys, id)) && Dense(fs', SlotOf(sys, id))
    requires h'.slot == SlotOf(sys, id) && HandleOk(fs', h') && Backed(fs', h')
    ensures
      var sys' := Sys(fs', sys.open[SlotOf(sys, id) := h']);
      && SysInv(sys') && Abs(sys') == Abs(sys)[id := AFile(Contents(fs', h'), Some(h'.pos))]
  {
    hide SysInv;
    hide Inv;
    hide Dense;
    hide HandleOk;
    hide Backed;
    hide Contents;
    hide Lookup;
    hide OnlyFile;
    var i := SlotOf(sys, id);
    FileRefines(sys, id, i, Sys(fs', sys.open[i := h']));
  }

  lemma RewindRefines(sys: Sys, id: int)
    requires SysInv(sys) && SysShape(sys) && Allowed(sys, Rewind(id))
    ensures Refines(sys, Rewind(id))
  {
    hide SysInv;
    hide Inv;
    hide Ref;
    hide BlockAt;
    hide Contents;
    hide Lookup;
    var h := sys.open[SlotOf(sys, id)];
    OpenEntry(sys, id);
    SameBytes(sys.fs, h, sys.fs, ResetFile(h));
    HandleRefines(sys, id, sys.fs, ResetFile(h));
  }

  lemma HandleInShape(sys: Sys, id: int)
    requires SysShape(sys) && HasHandle(sys, id)
    ensures SlotOf(sys, id) < |sys.fs.inodes| && sys.open[SlotOf(sys, id)].slot == SlotOf(sys, id)
    ensures |sys.fs.marks| <= MAX_FS_BLOCKS
  {
  }

  lemma ReadRefines(sys: Sys, id: int, n: nat)
    requires SysInv(sys) && SysShape(sys) && Allowed(sys, Read(id, n))
    ensures Refines(sys, Read(id, n))
  {
    hide SysInv, Inv, Ref, Contents, Lookup, Dense, OnlyFile, ReadFile, HandleInv, Backed, HandleOk, Step;
    hide Spec, SysShape;
    HandleInShape(sys, id);
    var h := sys.open[SlotOf(sys, id)];
    OpenEntry(sys, id);
    ReadMeaning(sys.fs, h, n);
    var (fs', h', out) := ReadFile(sys.fs, h, n);
    HandleRefines(sys, id, fs', h');
    ReadStepIs(sys, id, n);
    SpecOfRead(Abs(sys), id, n);
  }

  lemma SpecOfRead(a: Files, id: int, n: nat)
    requires IsOpen(a, id)
    ensures
      var p := a[id].pos.value;
      var c := Min(n, |a[id].bytes| - p);
      Spec(a, Read(id, n), Data(a[id].bytes[p..p + c]), a[id := a[id].(pos := Some(p + c))])
  {
  }

  lemma ReadStepIs(sys: Sys, id: int, n: nat)
    requires SysShape(sys) && HasHandle(sys, id)
    ensures
      var h := sys.open[SlotOf(sys, id)];
      var (fs', h', out) := ReadFile(sys.fs, h, n);
      Step(sys, Read(id, n)) == (Sys(fs', sys.open[SlotOf(sys, id) := h']), Data(out))
  {
    hide ReadFile, Lookup;
    HandleStepIs(sys, Read(id, n));
  }

  lemma WriteRefines(sys: Sys, id: int, data: seq<byte>)
    requires SysInv(sys) && SysShape(sys) && Allowed(sys, Write(id, data))
    ensures Refines(sys, Write(id, data))
  {
    hide SysInv, Inv, Ref, Contents, Lookup, Dense, OnlyFile, WriteFile, Room, Splice, HandleInv, Backed, HandleOk;
    hide Step, Spec, SysShape;
    HandleInShape(sys, id);
    var h := sys.open[SlotOf(sys, id)];
    OpenEntry(sys, id);
    WriteMeaning(sys.fs, h, data);
    var (fs', h') := WriteFile(sys.fs, h, data);
    HandleRefines(sys, id, fs', h');
    WriteStepIs(sys, id, data);
    SpecOfWrite(Abs(sys), id, data);
  }

  lemma SpecOfWrite(a: Files, id: int, data: seq<byte>)
    requires IsOpen(a, id)
    ensures
      var p := a[id].pos.value;
      var n := Min(|data|, MAX_FILE_SIZE - p);
      Spec(a, Write(id, data), Count(n), a[id := AFile(Splice(a[id].bytes, p, data[..n]), Some(p + n))])
  {
    hide Splice;
  }

  lemma WriteStepIs(sys: Sys, id: int, data: seq<byte>)
    requires SysShape(sys) && HasHandle(sys, id)
    ensures
      var h := sys.open[SlotOf(sys, id)];
      var (fs', h') := WriteFile(sys.fs, h, data);
      Step(sys, Write(id, data)) ==
        (Sys(fs', sys.open[SlotOf(sys, id) := h']), Count(WriteCount(h, |data|)))
  {
    hide WriteFile, Lookup;
    HandleStepIs(sys, Write(id, data));
  }

  lemma HandleStepIs(sys: Sys, op: Op)
    requires SysShape(sys) && (op.Close? || op.Write? || op.Read? || op.Rewind? || op.AtEof?)
    requires HasHandle(sys, op.id)
    ensures Step(sys, op) == HandleStep(sys, SlotOf(sys, op.id), op)
  {
  }

  /** Opening a file shows what the disk holds. */
  lemma OpenMeaning(fs: Fs, i: nat)
    requires Inv(fs) && Live(fs, i) && Dense(fs, i)
    ensures |fs.marks| <= MAX_FS_BLOCKS && HandleOk(fs, Shut(i))
    ensures
      var (fs', h) := OpenFile(fs, i);
      && Inv(fs') && OnlyFile(fs, fs', i) && Dense(fs', i)
      && h.slot == i && h.pos == 0 && !h.dirty && HandleOk(fs', h)
      && Contents(fs', h) == Contents(fs, Shut(i))
  {
    hide Inv;
    hide Ref;
    hide BlockAt;
    hide Dense;
    hide Contents;
    hide LoadBlock;
    hide OnlyFile;
    IndexOfLive(fs, i);
    LiveLength(fs, i);
    var (fs', h) := OpenFile(fs, i);
    if fs.inodes[i].length > 0 {
      LoadMeaning(fs, Shut(i), 0, false);
      DenseOfSameRefs(fs, fs', i);
    } else {
      Reflexive(fs, i);
    }
    SameBytes(fs, Shut(i), fs', h);
  }

  lemma OpenRefines(sys: Sys, id: int)
    requires SysInv(sys) && SysShape(sys) && Allowed(sys, Open(id))
    ensures Refines(sys, Open(id))
  {
    hide SysInv;
    hide Inv;
    hide Dense;
    hide Contents;
    hide Lookup;
    hide OnlyFile;
    hide OpenFile;
    hide HandleOk;
    hide HandleInv;
    hide Synced;
    var i := Lookup(sys.fs.inodes, id).value;
    ClosedEntry(sys, id);
    OpenMeaning(sys.fs, i);
    var (fs', h) := OpenFile(sys.fs, i);
    OpenedInv(fs', i, h);
    OpenedFile(sys, id, i, fs', h);
  }

  lemma OpenedFile(sys: Sys, id: int, i: nat, fs': Fs, h: Handle)
    requires SysInv(sys) && Lookup(sys.fs.inodes, id) == Some(i)
    requires Inv(fs') && OnlyFile(sys.fs, fs', i) && Dense(fs', i) && HandleInv(fs', i, h)
    ensures
      var sys' := Sys(fs', sys.open[i := h]);
      && SysInv(sys') && Abs(sys') == Abs(sys)[id := AFile(Contents(fs', h), Some(h.pos))]
  {
    hide SysInv;
    hide Inv;
    hide Dense;
    hide Lookup;
    hide Contents;
    hide OnlyFile;
    hide HandleInv;
    var open' := sys.open[i := h];
    assert i in open' && open' != map[];
    FileRefines(sys, id, i, Sys(fs', open'));
  }

  lemma OpenedInv(fs: Fs, i: nat, h: Handle)
    requires h.slot == i && !h.dirty && HandleOk(fs, h)
    ensures HandleInv(fs, i, h)
  {
  }

  /** What the map holds for a closed file. */
  lemma ClosedEntry(sys: Sys, id: int)
    requires SysInv(sys) && Lookup(sys.fs.inodes, id).Some? && !HasHandle(sys, id)
    ensures
      var i := Lookup(sys.fs.inodes, id).value;
      && Live(sys.fs, i) && sys.fs.inodes[i].id == id && Inv(sys.fs) && Dense(sys.fs, i)
      && HandleOk(sys.fs, Shut(i))
      && id in Abs(sys) && Abs(sys)[id] == AFile(Contents(sys.fs, Shut(i)), None)
  {
    hide Inv;
    hide Dense;
    hide Synced;
    hide Contents;
    AbsIs(sys);
    LookupSound(sys.fs, id);
    LiveLength(sys.fs, Lookup(sys.fs.inodes, id).value);
  }

  /** Closing a file puts everything it shows onto the disk and brings the metadata blocks up to date. */
  lemma CloseMeaning(fs: Fs, h: Handle)
    requires Inv(fs) && HandleOk(fs, h) && Backed(fs, h) && Dense(fs, h.slot)
    ensures StorableTable(fs.inodes) && |fs.marks| <= MAX_FS_BLOCKS
    ensures
      var fs' := CloseFile(fs, h);
      && Inv(fs') && OnlyFile(fs, fs', h.slot) && Dense(fs', h.slot)
      && fs'.inodes == fs.inodes && fs'.marks == fs.marks && Synced(fs')
      && HandleOk(fs', Shut(h.slot)) && Contents(fs', Shut(h.slot)) == Contents(fs, h)
  {
    hide Inv;
    hide Ref;
    hide BlockAt;
    hide Dense;
    hide Contents;
    hide Flush;
    hide Synced;
    hide StorableTable;
    hide Save;
    InvStorable(fs);
    FlushMeaning(fs, h);
    var fs1 := Flush(fs, h);
    SaveMeaning(fs1);
    OnlyFileTrans(fs, fs1, Save(fs1), h.slot);
    DenseOfSameRefs(fs, fs1, h.slot);
    DenseOfSameRefs(fs1, Save(fs1), h.slot);
    assert Untouched(fs1, Save(fs1), h.slot);
    SameBytes(fs, h, Save(fs1), Shut(h.slot));
  }

  lemma CloseRefines(sys: Sys, id: int)
    requires SysInv(sys) && SysShape(sys) && Allowed(sys, Close(id))
    ensures Refines(sys, Close(id))
  {
    hide SysInv;
    hide Inv;
    hide Ref;
    hide Dense;
    hide Contents;
    hide Lookup;
    hide OnlyFile;
    hide CloseFile;
    hide Synced;
    hide StorableTable;
    hide Backed;
    var h := sys.open[SlotOf(sys, id)];
    OpenEntry(sys, id);
    CloseMeaning(sys.fs, h);
    FileRefines(sys, id, h.slot, Sys(CloseFile(sys.fs, h), sys.open - {h.slot}));
  }

  // ----- creating, deleting, remounting -----

  /** Both states hold the same files, with the same bytes, except perhaps in slot i. */
  ghost predicate SameBut(sys: Sys, sys': Sys, i: nat)
    requires SysInv(sys) && SysInv(sys')
  {
    forall j: nat :: j != i ==>
      (Live(sys.fs, j) <==> Live(sys'.fs, j))
      && (Live(sys.fs, j) ==> sys'.fs.inodes[j].id == sys.fs.inodes[j].id && FileAt(sys', j) == FileAt(sys, j))
  }

  /** A file that both states hold outside slot i is the same entry of both maps. */
  lemma EntryKept(sys: Sys, sys': Sys, i: nat, id: int)
    requires SysInv(sys) && SysInv(sys') && SameBut(sys, sys', i)
    requires id in Abs(sys) && Lookup(sys.fs.inodes, id) != Some(i)
    ensures id in Abs(sys') && Abs(sys')[id] == Abs(sys)[id]
  {
    hide Inv;
    hide HandleInv;
    hide Dense;
    hide Synced;
    hide FileAt;
    hide Abs;
    hide Lookup;
    AbsIs(sys);
    AbsIs(sys');
    LookupSound(sys.fs, id);
    LookupLive(sys'.fs, Lookup(sys.fs.inodes, id).value);
  }

  /** Adding or removing the file in one slot. */
  lemma SysUpdate(sys: Sys, fs': Fs, i: nat)
    requires SysInv(sys) && Inv(fs') && i !in sys.open
    requires forall j: nat :: j != i ==> (Live(fs', j) <==> Live(sys.fs, j))
    requires forall j: nat :: j != i && Live(sys.fs, j) ==> Untouched(sys.fs, fs', j)
    requires Live(fs', i) ==> Dense(fs', i)
    requires StorableTable(fs'.inodes) && |fs'.marks| <= MAX_FS_BLOCKS && Synced(fs')
    ensures SysInv(sys.(fs := fs')) && SameBut(sys, sys.(fs := fs'), i)
  {
    hide Inv;
    hide Dense;
    hide Synced;
    hide StorableTable;
    hide Untouched;
    hide FileAt;
    var sys' := sys.(fs := fs');
    forall j: nat | j != i && Live(sys.fs, j)
      ensures j in sys.open ==> HandleInv(fs', j, sys.open[j])
      ensures FileAt(sys', j) == FileAt(sys, j) && Dense(fs', j) && fs'.inodes[j].id == sys.fs.inodes[j].id
    {
      UntouchedFile(sys, sys', j);
      assert fs'.inodes[j] == sys.fs.inodes[j] by { UntouchedInode(sys.fs, fs', j); }
    }
    forall s | s in sys.open
      ensures HandleInv(fs', s, sys.open[s])
    {
      assert HandleInv(sys.fs, s, sys.open[s]);
    }
  }

  lemma UntouchedInode(a: Fs, b: Fs, j: nat)
    requires Untouched(a, b, j)
    ensures Live(a, j) && Live(b, j) && a.inodes[j] == b.inodes[j]
  {
  }

  lemma EmptyFile(sys: Sys, i: nat)
    requires Inv(sys.fs) && Live(sys.fs, i) && sys.fs.inodes[i].length == 0 && i !in sys.open
    ensures FileAt(sys, i) == AFile([], None) && Dense(sys.fs, i)
  {
    hide Inv;
    hide Ref;
  }

  lemma CreateRefines(sys: Sys, id: int)
    requires SysInv(sys) && SysShape(sys) && Allowed(sys, Create(id))
    ensures Refines(sys, Create(id))
  {
    hide Inv;
    hide Untouched;
    hide Dense;
    hide Synced;
    hide StorableTable;
    hide CreateFile;
    hide FileAt;
    CreateMeaning(sys.fs, id);
    var (fs', ok) := CreateFile(sys.fs, id);
    if ok {
      var i := FreeInode(sys.fs.inodes).value;
      var sys' := sys.(fs := fs');
      assert i !in sys.open by {
        assert i in sys.open ==> HandleInv(sys.fs, i, sys.open[i]);
      }
      EmptyFile(sys', i);
      SysUpdate(sys, fs', i);
      CreatedMap(sys, sys', i, id);
    }
  }

  lemma CreatedMap(sys: Sys, sys': Sys, i: nat, id: int)
    requires SysInv(sys) && SysInv(sys') && SameBut(sys, sys', i)
    requires !Live(sys.fs, i) && Live(sys'.fs, i) && sys'.fs.inodes[i].id == id && Lookup(sys.fs.inodes, id).None?
    ensures id !in Abs(sys) && Abs(sys') == Abs(sys)[id := FileAt(sys', i)]
  {
    hide Inv;
    hide HandleInv;
    hide Dense;
    hide Synced;
    hide FileAt;
    hide Abs;
    hide Lookup;
    hide SameBut;
    hide StorableTable;
    LookupLive(sys'.fs, i);
    AbsIs(sys);
    AbsIs(sys');
    var a, a' := Abs(sys), Abs(sys');
    assert id in a' && a'[id] == FileAt(sys', i);
    forall x | x in a
      ensures x in a' && a'[x] == a[x]
    {
      LookupSound(sys.fs, x);
      EntryKept(sys, sys', i, x);
    }
    forall x | x in a' && x != id
      ensures x in a
    {
      LookupSound(sys'.fs, x);
      SameButFlips(sys, sys', i);
      EntryKept(sys', sys, i, x);
    }
  }

  lemma SameButFlips(sys: Sys, sys': Sys, i: nat)
    requires SysInv(sys) && SysInv(sys') && SameBut(sys, sys', i)
    ensures SameBut(sys', sys, i)
  {
    hide SysInv;
    hide FileAt;
  }

  lemma DeleteRefines(sys: Sys, id: int)
    requires SysInv(sys) && SysShape(sys) && Allowed(sys, Delete(id))
    ensures Refines(sys, Delete(id))
  {
    hide Inv;
    hide Untouched;
    hide Dense;
    hide Synced;
    hide StorableTable;
    hide DeleteFile;
    hide FileAt;
    hide Owns;
    DeleteMeaning(sys.fs, id);
    var (fs', ok) := DeleteFile(sys.fs, id);
    if ok {
      var i := Lookup(sys.fs.inodes, id).value;
      SysUpdate(sys, fs', i);
      DeletedMap(sys, sys.(fs := fs'), i, id);
    } else {
      AbsIs(sys);
    }
  }

  lemma DeletedMap(sys: Sys, sys': Sys, i: nat, id: int)
    requires SysInv(sys) && SysInv(sys') && SameBut(sys, sys', i)
    requires Live(sys.fs, i) && !Live(sys'.fs, i) && Lookup(sys.fs.inodes, id) == Some(i)
    ensures id in Abs(sys) && Abs(sys') == Abs(sys) - {id}
  {
    hide Inv;
    hide HandleInv;
    hide Dense;
    hide Synced;
    hide FileAt;
    hide Abs;
    hide Lookup;
    AbsIs(sys);
    AbsIs(sys');
    LookupSound(sys.fs, id);
    forall x | x in Abs(sys) && x != id
      ensures x in Abs(sys') && Abs(sys')[x] == Abs(sys)[x]
    {
      LookupSound(sys.fs, x);
      EntryKept(sys, sys', i, x);
    }
    forall x | x in Abs(sys')
      ensures x in Abs(sys) && x != id
    {
      LookupSound(sys'.fs, x);
      EntryKept(sys', sys, i, x);
      LookupLive(sys.fs, Lookup(sys'.fs.inodes, x).value);
    }
  }

  /** With every handle closed, a fresh mount of the disk gives the very same file system. */
  lemma RemountReproduces(sys: Sys)
    requires SysInv(sys) && sys.open == map[]
    ensures HeaderSize(Get(sys.fs.disk, FREELIST_BLOCK)) == |sys.fs.marks| <= MAX_FS_BLOCKS
    ensures Mounted(sys.fs.disk) == sys.fs
  {
    hide Inv;
    hide HeaderSize;
    hide Mounted;
    hide Synced;
    hide StorableTable;
    MountOfSynced(sys.fs);
  }

  lemma RemountRefines(sys: Sys)
    requires SysInv(sys) && SysShape(sys) && Allowed(sys, Remount)
    ensures Refines(sys, Remount)
  {
    hide SysInv;
    hide Mounted;
    hide HeaderSize;
    RemountReproduces(sys);
  }
}
