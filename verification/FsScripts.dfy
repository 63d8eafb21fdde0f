/**
 Which scripts of calls a formatted file system carries out, told without its blocks and caches: by the
 map from ids to byte strings alone, and the set of open files that were written to last. A script runs
 exactly when that view permits it, and then answers as the view does.
 */
module FsScripts {
  import opened Bytes
  import opened FsState
  import opened FsLayout
  import opened FsOps
  import opened FsMeaning
  import opened FsFiles
  import opened FsMachine
  import opened FsRefinement
  import opened FsTheorems
  import opened FsSpace

  /** The files, and the open ones whose last transfer of bytes was a write. */
  datatype View = View(files: Files, unsaved: set<int>)

  ghost function Unsaved(sys: Sys): set<int> {
    set id | id in Ids(sys.fs.inodes) && HasHandle(sys, id) && sys.open[SlotOf(sys, id)].dirty
  }

  ghost function ViewOf(sys: Sys): View
    requires SysInv(sys)
  {
    View(Abs(sys), Unsaved(sys))
  }

  /** What a caller may ask for, on a disk of n blocks. */
  ghost predicate Permitted(n: nat, v: View, op: Op) {
    match op
    case Create(id) => -0x8000_0000 <= id < 0x8000_0000
    case Delete(id) => id in v.files ==> v.files[id].pos.None?
    case Open(id) => id in v.files && v.files[id].pos.None?
    case Close(id) => IsOpen(v.files, id)
    case Write(id, data) =>
      IsOpen(v.files, id) &&
      Space(v.files) + Growth(v.files, id, Min(|data|, MAX_FILE_SIZE - v.files[id].pos.value)) + 2 <= n
    case Read(id, m) => IsOpen(v.files, id) && v.files[id].pos.value + m < 0x1_0000_0000
    case Rewind(id) => IsOpen(v.files, id) && (id in v.unsaved ==> v.files[id].pos.value <= 512)
    case AtEof(id) => IsOpen(v.files, id)
    case Remount => forall id :: id in v.files ==> v.files[id].pos.None?
  }

  /** The view after a permitted call, and the answer. */
  ghost function Next(n: nat, v: View, op: Op): (View, Reply)
    requires Permitted(n, v, op)
  {
    var a, u := v.files, v.unsaved;
    match op
    case Create(id) =>
      if CanCreate(n, a, id) then (View(a[id := AFile([], None)], u), Flag(true)) else (v, Flag(false))
    case Delete(id) => (View(a - {id}, u), Flag(id in a))
    case Open(id) => (View(a[id := AFile(a[id].bytes, Some(0))], u), Done)
    case Close(id) => (View(a[id := AFile(a[id].bytes, None)], u - {id}), Done)
    case Write(id, data) =>
      var p := a[id].pos.value;
      var c := Min(|data|, MAX_FILE_SIZE - p);
      (View(a[id := AFile(Splice(a[id].bytes, p, data[..c]), Some(p + c))], if c > 0 then u + {id} else u), Count(c))
    case Read(id, m) =>
      var p := a[id].pos.value;
      var c := Min(m, |a[id].bytes| - p);
      (View(a[id := AFile(a[id].bytes, Some(p + c))], if c > 0 then u - {id} else u), Data(a[id].bytes[p..p + c]))
    case Rewind(id) => (View(a[id := AFile(a[id].bytes, Some(0))], u), Done)
    case AtEof(id) => (v, Flag(a[id].pos.value == |a[id].bytes|))
    case Remount => (v, Done)
  }

  // ----- the cached block of an open file -----

  /** The cache holds the block of the last byte before the position, and block 0 at the start. */
  predicate AtCache(h: Handle) {
    h.cur == if h.pos == 0 then 0 else (h.pos - 1) / BLOCK_SIZE
  }

  ghost predicate CachesFollow(sys: Sys) {
    forall s :: s in sys.open ==> AtCache(sys.open[s])
  }

  lemma {:induction false} WriteEnds(fs: Fs, h: Handle, data: seq<byte>)
    requires h.slot < |fs.inodes| && |fs.marks| <= MAX_FS_BLOCKS
    ensures
      var h' := WriteLoop(fs, h, data).1;
      if data == [] then h' == h else h'.pos == h.pos + |data| && h'.dirty && AtCache(h')
    decreases |data|
  {
    hide Flush, DataBlock, Allocate, ChunkSize, Patch;
    if data != [] {
      var n := ChunkSize(h.pos, |data|);
      var (fs1, h1) := WriteChunk(fs, h, data[..n]);
      assert h1.pos == h.pos + n && h1.cur == h.pos / BLOCK_SIZE && h1.dirty;
      SameBlock(h.pos, n);
      WriteEnds(fs1, h1, data[n..]);
    }
  }

  lemma {:induction false} ReadEnds(fs: Fs, h: Handle, n: nat)
    requires h.slot < |fs.inodes| && |fs.marks| <= MAX_FS_BLOCKS
    ensures
      var h' := ReadLoop(fs, h, n).1;
      if n == 0 then h' == h else h'.pos == h.pos + n && !h'.dirty && AtCache(h')
    decreases n
  {
    hide Flush, DataBlock, Allocate, ChunkSize;
    if n > 0 {
      var c := ChunkSize(h.pos, n);
      var (fs1, h1) := LoadBlock(fs, h, h.pos / BLOCK_SIZE, false);
      var h2 := h1.(pos := h1.pos + c);
      assert h2.pos == h.pos + c && h2.cur == h.pos / BLOCK_SIZE && !h2.dirty;
      SameBlock(h.pos, c);
      ReadEnds(fs1, h2, n - c);
    }
  }

  lemma SameBlock(pos: nat, n: nat)
    requires 0 < n && pos % BLOCK_SIZE + n <= BLOCK_SIZE
    ensures (pos + n - 1) / BLOCK_SIZE == pos / BLOCK_SIZE
  {
  }

  // ----- handles and the view -----

  /** A file has a handle exactly when the map holds a position for it. */
  lemma HandleIff(sys: Sys, id: int)
    requires SysInv(sys)
    ensures HasHandle(sys, id) <==> id in Abs(sys) && Abs(sys)[id].pos.Some?
    ensures Lookup(sys.fs.inodes, id).Some? <==> id in Abs(sys)
    ensures HasHandle(sys, id) ==> IsOpen(Abs(sys), id) && Abs(sys)[id].pos == Some(sys.open[SlotOf(sys, id)].pos)
    ensures id in Unsaved(sys) <==> HasHandle(sys, id) && sys.open[SlotOf(sys, id)].dirty
  {
    hide SysInv, Lookup, Contents, HandleOk;
    ShapeOfInv(sys);
    AbsIs(sys);
    if HasHandle(sys, id) {
      OpenEntry(sys, id);
    }
  }

  /** Every open handle is that of a file in the map. */
  lemma NoneOpen(sys: Sys)
    requires SysInv(sys)
    ensures sys.open == map[] <==> forall id :: id in Abs(sys) ==> Abs(sys)[id].pos.None?
  {
    hide Inv, Lookup, Abs, Dense, Synced, StorableTable, Backed;
    if s :| s in sys.open {
      assert HandleInv(sys.fs, s, sys.open[s]);
      LookupLive(sys.fs, s);
      HandleIff(sys, sys.fs.inodes[s].id);
    } else {
      assert sys.open == map[];
      forall id | id in Abs(sys)
        ensures Abs(sys)[id].pos.None?
      {
        HandleIff(sys, id);
      }
    }
  }

  /** What the callers must keep to is what the view permits. */
  lemma AllowedIff(sys: Sys, op: Op)
    requires Accounts(sys) && SysShape(sys) && CachesFollow(sys)
    ensures Allowed(sys, op) <==> Permitted(|sys.fs.marks|, ViewOf(sys), op)
  {
    hide SysInv, Abs, SysShape, Lookup, Space, Growth, Room, Balanced, AllTight, HeaderSize;
    match op
    case Remount =>
      NoneOpen(sys);
      if sys.open == map[] {
        RemountReproduces(sys);
      }
    case Create(id) =>
    case Write(id, data) =>
      WriteAllowedIff(sys, id, data);
    case _ =>
      HandleIff(sys, op.id);
  }

  lemma WriteAllowedIff(sys: Sys, id: int, data: seq<byte>)
    requires Accounts(sys) && SysShape(sys)
    ensures Allowed(sys, Write(id, data)) <==> Permitted(|sys.fs.marks|, ViewOf(sys), Write(id, data))
  {
    hide SysInv, Abs, SysShape, Lookup, Space, Growth, Room, Balanced, AllTight, Unsaved;
    HandleIff(sys, id);
    if HasHandle(sys, id) {
      var h := sys.open[SlotOf(sys, id)];
      assert h.pos + WriteCount(h, |data|) <= MAX_FILE_SIZE;
      RoomIff(sys, id, WriteCount(h, |data|));
    }
  }

  // ----- one call -----

  /** The inodes keep their ids and their use, but for the one of the file that is created or deleted. */
  lemma InodeKept(sys: Sys, op: Op, s: nat)
    requires Accounts(sys) && SysShape(sys) && Allowed(sys, op) && Live(sys.fs, s)
    requires op.Create? || op.Delete? ==> sys.fs.inodes[s].id != op.id
    ensures
      var fs' := Step(sys, op).0.fs;
      Live(fs', s) && fs'.inodes[s].id == sys.fs.inodes[s].id
  {
    hide SysInv, Abs, Lookup, Balanced, Inv, FreeAll, Ref, SameRefs;
    match op
    case Create(id) =>
      CreatedInodes(sys.fs, id);
    case Delete(id) =>
      DeletedInodes(sys.fs, id);
    case Write(id, data) =>
      hide Room, WriteLoop, Tight, OnlyFile;
      OpenEntry(sys, id);
      HandleInShape(sys, id);
      var h := sys.open[SlotOf(sys, id)];
      WriteLeavesTight(sys.fs, h, data[..WriteCount(h, |data|)]);
      WriteStepIs(sys, id, data);
      OnlyFileAt(sys.fs, Step(sys, op).0.fs, h.slot, s);
    case _ =>
      hide Step;
      Quiet(sys, op);
  }

  lemma OnlyFileAt(a: Fs, b: Fs, i: nat, s: nat)
    requires OnlyFile(a, b, i) && Live(a, s)
    ensures Live(b, s) && b.inodes[s].id == a.inodes[s].id
  {
    hide Untouched;
  }

  lemma CreatedInodes(fs: Fs, id: int)
    requires Shape(fs) && -0x8000_0000 <= id < 0x8000_0000
    ensures
      var fs' := CreateFile(fs, id).0;
      forall s: nat :: Live(fs, s) ==> Live(fs', s) && fs'.inodes[s] == fs.inodes[s]
  {
    hide Lookup, InodesBlock, FreelistBlock;
  }

  lemma DeletedInodes(fs: Fs, id: int)
    requires Shape(fs)
    ensures
      var fs' := DeleteFile(fs, id).0;
      forall s: nat :: Live(fs, s) && fs.inodes[s].id != id ==> Live(fs', s) && fs'.inodes[s] == fs.inodes[s]
  {
    hide Lookup, InodesBlock, FreelistBlock, FreeAll;
  }

  /** The slot that an operation on an open file works on. */
  predicate OnHandle(op: Op) {
    op.Close? || op.Write? || op.Read? || op.Rewind? || op.AtEof?
  }

  /** What becomes of the handle: whether it is dirty, and that its cache follows the position. */
  lemma HandleMoves(sys: Sys, op: Op)
    requires SysInv(sys) && SysShape(sys) && Allowed(sys, op) && OnHandle(op) && CachesFollow(sys)
    ensures HasHandle(sys, op.id)
    ensures
      var s := SlotOf(sys, op.id);
      var h, open' := sys.open[s], Step(sys, op).0.open;
      if op.Close? then open' == sys.open - {s}
      else
        && s in open' && open' == sys.open[s := open'[s]] && AtCache(open'[s])
        && (open'[s].dirty <==>
             if op.Write? && WriteCount(h, |op.data|) > 0 then true
             else if op.Read? && ReadCount(sys.fs, h, op.n) > 0 then false
             else h.dirty)
  {
    hide SysInv, Lookup, Room, WriteLoop, ReadLoop, Flush, ReadCount, WriteCount;
    HandleInShape(sys, op.id);
    HandleStepIs(sys, op);
    var s := SlotOf(sys, op.id);
    var h := sys.open[s];
    assert AtCache(h);
    match op
    case Write(id, data) =>
      TransferCounts(sys.fs, h, |data|);
      var d := data[..WriteCount(h, |data|)];
      WriteEnds(sys.fs, h, d);
      assert sys.open[s := h] == sys.open;
    case Read(id, n) =>
      ReadEnds(sys.fs, h, ReadCount(sys.fs, h, n));
    case _ =>
  }

  lemma OpenMoves(sys: Sys, id: int)
    requires SysInv(sys) && SysShape(sys) && Allowed(sys, Open(id))
    ensures
      var s := Lookup(sys.fs.inodes, id).value;
      var open' := Step(sys, Open(id)).0.open;
      s !in sys.open && s in open' && open' == sys.open[s := open'[s]] && !open'[s].dirty && AtCache(open'[s])
  {
    hide SysInv, Lookup, Flush, DataBlock;
  }

  lemma StillMoves(sys: Sys, op: Op)
    requires SysInv(sys) && SysShape(sys) && Allowed(sys, op) && (op.Create? || op.Delete? || op.Remount?)
    ensures Step(sys, op).0.open == sys.open
  {
    hide SysInv, CreateFile, DeleteFile, Mounted, HeaderSize;
  }

  /** The cache of every open file goes on following its position. */
  lemma CachesKept(sys: Sys, op: Op)
    requires SysInv(sys) && SysShape(sys) && Allowed(sys, op) && CachesFollow(sys)
    ensures CachesFollow(Step(sys, op).0)
  {
    hide SysInv, SysShape, Allowed, Step, AtCache;
    if OnHandle(op) {
      HandleMoves(sys, op);
    } else if op.Open? {
      OpenMoves(sys, op.id);
    } else {
      StillMoves(sys, op);
    }
  }

  lemma TransferCounts(fs: Fs, h: Handle, n: nat)
    requires h.slot < |fs.inodes|
    ensures WriteCount(h, n) <= n
    ensures h.pos <= MAX_FILE_SIZE ==> WriteCount(h, n) == Min(n, MAX_FILE_SIZE - h.pos)
    ensures h.pos <= fs.inodes[h.slot].length && h.pos + n < TWO32 ==>
      ReadCount(fs, h, n) == Min(n, fs.inodes[h.slot].length - h.pos)
  {
  }

  /** Another file's handle stays as it is. */
  lemma OtherHandle(sys: Sys, op: Op, j: int)
    requires Accounts(sys) && SysShape(sys) && Allowed(sys, op) && CachesFollow(sys) && HasHandle(sys, j)
    requires !op.Remount? && op.id != j
    ensures
      var sys' := Step(sys, op).0;
      HasHandle(sys', j) && sys'.open[SlotOf(sys', j)] == sys.open[SlotOf(sys, j)]
  {
    hide SysInv, SysShape, Allowed, Step, Lookup, Balanced, AllTight, Inv, FileAt, Abs;
    AllowedIsCallable(sys, op);
    OpenEntry(sys, j);
    var s := SlotOf(sys, j);
    InodeKept(sys, op, s);
    StepAccounts(sys, op);
    SlotFound(Step(sys, op).0, s);
    if OnHandle(op) {
      HandleMoves(sys, op);
      OpenEntry(sys, op.id);
    } else if op.Open? {
      OpenMoves(sys, op.id);
    } else {
      StillMoves(sys, op);
    }
  }

  lemma SlotFound(sys: Sys, s: nat)
    requires SysInv(sys) && Live(sys.fs, s)
    ensures Lookup(sys.fs.inodes, sys.fs.inodes[s].id) == Some(s)
  {
    hide Lookup, Dense, Synced, HandleInv;
    LookupLive(sys.fs, s);
  }

  /** The file's own handle, while it has one. */
  lemma OwnHandle(sys: Sys, op: Op)
    requires Accounts(sys) && SysShape(sys) && Allowed(sys, op) && CachesFollow(sys)
    requires OnHandle(op) && !op.Close?
    ensures
      var sys' := Step(sys, op).0;
      HasHandle(sys, op.id) && HasHandle(sys', op.id) && SlotOf(sys', op.id) == SlotOf(sys, op.id)
  {
    hide SysInv, SysShape, Step, Lookup, Balanced, AllTight, Inv, FileAt, Abs, Room;
    HandleMoves(sys, op);
    OpenEntry(sys, op.id);
    var s := SlotOf(sys, op.id);
    hide Allowed;
    InodeKept(sys, op, s);
    StepAccounts(sys, op);
    SlotFound(Step(sys, op).0, s);
  }

  lemma NewHandle(sys: Sys, id: int)
    requires Accounts(sys) && SysShape(sys) && Allowed(sys, Open(id))
    ensures
      var sys' := Step(sys, Open(id)).0;
      HasHandle(sys', id) && SlotOf(sys', id) == Lookup(sys.fs.inodes, id).value
  {
    hide SysInv, SysShape, Step, Lookup, Balanced, AllTight, Inv, FileAt, Abs;
    ClosedEntry(sys, id);
    var s := Lookup(sys.fs.inodes, id).value;
    OpenMoves(sys, id);
    InodeKept(sys, Open(id), s);
    StepAccounts(sys, Open(id));
    SlotFound(Step(sys, Open(id)).0, s);
  }

  /** The map and the reply go on as in the view. */
  lemma SpecIsNext(n: nat, v: View, op: Op, r: Reply, a': Files)
    requires ExactSpec(n, v.files, op, r, a') && Permitted(n, v, op)
    ensures Next(n, v, op).0.files == a' && Next(n, v, op).1 == r
  {
    hide Space, Growth, Splice, CanCreate;
  }

  lemma NotCreated(sys: Sys, id: int)
    requires SysShape(sys) && -0x8000_0000 <= id < 0x8000_0000
    ensures Step(sys, Create(id)).1 == Flag(false) ==> Step(sys, Create(id)).0 == sys
  {
    hide InodesBlock, FreelistBlock, Lookup;
  }

  /** Whether a file's last transfer was a write goes on as in the view. */
  lemma UnsavedIsNext(sys: Sys, op: Op, j: int)
    requires Accounts(sys) && Callable(sys, op) && Allowed(sys, op) && CachesFollow(sys)
    requires Permitted(|sys.fs.marks|, ViewOf(sys), op) && SysInv(Step(sys, op).0)
    requires Next(|sys.fs.marks|, ViewOf(sys), op).0.files == Abs(Step(sys, op).0)
    requires Next(|sys.fs.marks|, ViewOf(sys), op).1 == Step(sys, op).1
    ensures j in Unsaved(Step(sys, op).0) <==> j in Next(|sys.fs.marks|, ViewOf(sys), op).0.unsaved
  {
    hide SysInv, SysShape, Allowed, Step, Lookup, Balanced, AllTight, Inv, FileAt, Abs, Room, Space, Growth, Unsaved;
    hide CachesFollow, Splice;
    var sys' := Step(sys, op).0;
    HandleIff(sys, j);
    HandleIff(sys', j);
    if op.Remount? {
      StillMoves(sys, op);
      NoneOpen(sys);
    } else if op.id != j {
      if HasHandle(sys, j) {
        OtherHandle(sys, op, j);
      }
    } else if OnHandle(op) {
      HandleMoves(sys, op);
      if !op.Close? {
        OwnHandle(sys, op);
        OwnCounts(sys, op);
      }
    } else if op.Open? {
      OpenMoves(sys, j);
      NewHandle(sys, j);
    } else if op.Create? && Step(sys, op).1 == Flag(false) {
      NotCreated(sys, j);
    }
  }

  /** The bytes a call transfers, as the view counts them. */
  lemma OwnCounts(sys: Sys, op: Op)
    requires SysInv(sys) && SysShape(sys) && Allowed(sys, op) && OnHandle(op)
    ensures
      HasHandle(sys, op.id) && IsOpen(Abs(sys), op.id) && SlotOf(sys, op.id) < |sys.fs.inodes|
      && sys.open[SlotOf(sys, op.id)].slot == SlotOf(sys, op.id)
    ensures
      var h, f := sys.open[SlotOf(sys, op.id)], Abs(sys)[op.id];
      && (op.Write? ==> WriteCount(h, |op.data|) == Min(|op.data|, MAX_FILE_SIZE - f.pos.value))
      && (op.Read? ==> ReadCount(sys.fs, h, op.n) == Min(op.n, |f.bytes| - f.pos.value))
  {
    hide SysInv, Lookup, Inv, Abs, Room, Contents, Dense;
    HandleInShape(sys, op.id);
    OpenEntry(sys, op.id);
    var h := sys.open[SlotOf(sys, op.id)];
    match op
    case Write(id, data) => TransferCounts(sys.fs, h, |data|);
    case Read(id, n) => TransferCounts(sys.fs, h, n);
    case _ =>
  }

  /** The view goes on as it says, and the reply is the one that it gives. */
  ghost predicate GoesOn(sys: Sys, op: Op)
    requires Accounts(sys) && Callable(sys, op) && Permitted(|sys.fs.marks|, ViewOf(sys), op)
  {
    var (sys', r) := Step(sys, op);
    && Accounts(sys') && SysShape(sys') && CachesFollow(sys') && |sys'.fs.marks| == |sys.fs.marks|
    && (ViewOf(sys'), r) == Next(|sys.fs.marks|, ViewOf(sys), op)
  }

  /** Every permitted call does to the view what the view says, and answers as it does. */
  lemma StepIsNext(sys: Sys, op: Op)
    requires Accounts(sys) && SysShape(sys) && CachesFollow(sys)
    requires Permitted(|sys.fs.marks|, ViewOf(sys), op)
    ensures Allowed(sys, op) && Callable(sys, op)
    ensures GoesOn(sys, op)
  {
    hide SysInv, SysShape, Allowed, Step, Balanced, AllTight, Abs, Unsaved, ExactSpec, CachesFollow, Permitted, Next;
    AllowedIff(sys, op);
    AllowedIsCallable(sys, op);
    StepAccounts(sys, op);
    var (sys', r) := Step(sys, op);
    ShapeOfInv(sys');
    CachesKept(sys, op);
    SpecIsNext(|sys.fs.marks|, ViewOf(sys), op, r, Abs(sys'));
    forall j: int
      ensures j in Unsaved(sys') <==> j in Next(|sys.fs.marks|, ViewOf(sys), op).0.unsaved
    {
      UnsavedIsNext(sys, op, j);
    }
    assert Unsaved(sys') == Next(|sys.fs.marks|, ViewOf(sys), op).0.unsaved;
  }

  // ----- scripts -----

  /** Every call is permitted when it comes. */
  ghost predicate PermittedRun(n: nat, v: View, ops: seq<Op>)
    decreases |ops|
  {
    ops == [] || (Permitted(n, v, ops[0]) && PermittedRun(n, Next(n, v, ops[0]).0, ops[1..]))
  }

  ghost function Replies(n: nat, v: View, ops: seq<Op>): seq<Reply>
    requires PermittedRun(n, v, ops)
    decreases |ops|
  {
    if ops == [] then []
    else var (w, r) := Next(n, v, ops[0]); [r] + Replies(n, w, ops[1..])
  }

  ghost function After(n: nat, v: View, ops: seq<Op>): View
    requires PermittedRun(n, v, ops)
    decreases |ops|
  {
    if ops == [] then v else After(n, Next(n, v, ops[0]).0, ops[1..])
  }

  /** A permitted script runs, with the answers and to the end that the view says. */
  lemma {:induction false} PermittedRuns(sys: Sys, ops: seq<Op>) returns (end: Sys)
    requires Accounts(sys) && SysShape(sys) && CachesFollow(sys) && PermittedRun(|sys.fs.marks|, ViewOf(sys), ops)
    ensures Run(sys, ops, Replies(|sys.fs.marks|, ViewOf(sys), ops), end)
    ensures Accounts(end) && ViewOf(end) == After(|sys.fs.marks|, ViewOf(sys), ops)
    decreases |ops|
  {
    hide SysInv, SysShape, Allowed, Step, Balanced, AllTight, Abs, Unsaved, Next, Permitted, CachesFollow;
    if ops == [] {
      end := sys;
    } else {
      StepIsNext(sys, ops[0]);
      AllowedIsCallable(sys, ops[0]);
      var (next, r) := Step(sys, ops[0]);
      end := PermittedRuns(next, ops[1..]);
      assert Replies(|sys.fs.marks|, ViewOf(sys), ops)[1..] == Replies(|next.fs.marks|, ViewOf(next), ops[1..]);
    }
  }

  /** And every script that runs was permitted. */
  lemma {:induction false} RunsPermitted(sys: Sys, ops: seq<Op>, replies: seq<Reply>, end: Sys)
    requires Accounts(sys) && CachesFollow(sys) && Run(sys, ops, replies, end)
    ensures PermittedRun(|sys.fs.marks|, ViewOf(sys), ops)
    ensures replies == Replies(|sys.fs.marks|, ViewOf(sys), ops)
    ensures Accounts(end) && ViewOf(end) == After(|sys.fs.marks|, ViewOf(sys), ops)
    decreases |ops|
  {
    hide SysInv, SysShape, Allowed, Step, Balanced, AllTight, Abs, Unsaved, Next, Permitted, CachesFollow;
    if ops != [] {
      AllowedIff(sys, ops[0]);
      AllowedIsCallable(sys, ops[0]);
      StepIsNext(sys, ops[0]);
      var next := Step(sys, ops[0]).0;
      RunsPermitted(next, ops[1..], replies[1..], end);
      assert replies == [replies[0]] + replies[1..];
    }
  }

  /**
   On a freshly formatted disk of n blocks a script of calls runs exactly when the view permits it,
   from the empty map on, and its replies are those of the view.
   */
  lemma ScriptsOfFormatted(disk: seq<Block>, n: nat, ops: seq<Op>)
    requires METADATA_BLOCKS <= n <= MAX_FS_BLOCKS && n <= |disk|
    ensures HeaderSize(Get(Formatted(disk, n), FREELIST_BLOCK)) <= MAX_FS_BLOCKS
    ensures
      var start := Sys(Mounted(Formatted(disk, n)), map[]);
      && ((exists replies, end :: Run(start, ops, replies, end)) <==> PermittedRun(n, View(map[], {}), ops))
      && forall replies, end :: Run(start, ops, replies, end) ==>
           PermittedRun(n, View(map[], {}), ops) && replies == Replies(n, View(map[], {}), ops)
           && SysInv(end) && ViewOf(end) == After(n, View(map[], {}), ops)
  {
    hide SysInv, Run, Formatted, Mounted, HeaderSize, Abs, PermittedRun, Replies, After, Balanced, AllTight;
    hide CachesFollow, SysShape;
    var start := FormattedStart(disk, n);
    forall replies, end | Run(start, ops, replies, end)
      ensures PermittedRun(n, View(map[], {}), ops) && replies == Replies(n, View(map[], {}), ops)
      ensures SysInv(end) && ViewOf(end) == After(n, View(map[], {}), ops)
    {
      RunsPermitted(start, ops, replies, end);
    }
    if PermittedRun(n, View(map[], {}), ops) {
      var end := PermittedRuns(start, ops);
    }
  }

  lemma FormattedStart(disk: seq<Block>, n: nat) returns (start: Sys)
    requires METADATA_BLOCKS <= n <= MAX_FS_BLOCKS && n <= |disk|
    ensures HeaderSize(Get(Formatted(disk, n), FREELIST_BLOCK)) <= MAX_FS_BLOCKS
    ensures start == Sys(Mounted(Formatted(disk, n)), map[]) && |start.fs.marks| == n
    ensures Accounts(start) && SysShape(start) && CachesFollow(start) && ViewOf(start) == View(map[], {})
  {
    hide SysInv, Formatted, Mounted, HeaderSize, FreeCount, EmptyTable, FormatMarks, Synced, Abs, UnusedCount;
    FormatMounts(disk, n);
    MountOfFormatted(disk, n);
    FormatLength(n);
    start := Sys(Mounted(Formatted(disk, n)), map[]);
    FormattedRunsExactly(disk, n, [], [], start);
    ShapeOfInv(start);
    forall j
      ensures j !in Unsaved(start)
    {
      HandleIff(start, j);
    }
  }
}
