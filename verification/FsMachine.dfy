/**
 Whole runs of the mounted file system with its open handles, and the machine they
 refine: a map from file id to a byte string with an optional read/write position.
 */
module FsMachine {
  import opened Bytes
  import opened FsState
  import opened FsLayout
  import opened FsOps
  import opened FsMeaning
  import opened FsFiles

  /** A mounted file system and its open handles, by inode slot. */
  datatype Sys = Sys(fs: Fs, open: map<nat, Handle>)

  datatype Op =
    | Create(id: int)
    | Delete(id: int)
    | Open(id: int)
    | Close(id: int)
    | Write(id: int, data: seq<byte>)
    | Read(id: int, n: nat)
    | Rewind(id: int)
    | AtEof(id: int)
    | Remount

  datatype Reply = Done | Flag(b: bool) | Count(n: nat) | Data(bytes: seq<byte>)

  // ----- the abstract machine -----

  datatype AFile = AFile(bytes: seq<byte>, pos: Option<nat>)

  type Files = map<int, AFile>

  ghost predicate IsOpen(a: Files, id: int) {
    id in a && a[id].pos.Some? && a[id].pos.value <= |a[id].bytes| <= MAX_FILE_SIZE
  }

  /** One step of the map from ids to byte strings; which answer Create gives is FsSpace.ExactSpec's part. */
  ghost predicate Spec(a: Files, op: Op, r: Reply, a': Files) {
    match op
    case Create(id) =>
      r.Flag? && (if r.b then id !in a && a' == a[id := AFile([], None)] else a' == a)
    case Delete(id) =>
      r == Flag(id in a) && a' == a - {id}
    case Open(id) =>
      r == Done && id in a && a' == a[id := a[id].(pos := Some(0))]
    case Close(id) =>
      r == Done && IsOpen(a, id) && a' == a[id := a[id].(pos := None)]
    case Write(id, data) =>
      IsOpen(a, id) &&
      var p := a[id].pos.value;
      var n := Min(|data|, MAX_FILE_SIZE - p);
      r == Count(n) && a' == a[id := AFile(Splice(a[id].bytes, p, data[..n]), Some(p + n))]
    case Read(id, n) =>
      IsOpen(a, id) &&
      var p := a[id].pos.value;
      var c := Min(n, |a[id].bytes| - p);
      r == Data(a[id].bytes[p..p + c]) && a' == a[id := a[id].(pos := Some(p + c))]
    case Rewind(id) =>
      r == Done && IsOpen(a, id) && a' == a[id := a[id].(pos := Some(0))]
    case AtEof(id) =>
      IsOpen(a, id) && r == Flag(a[id].pos.value == |a[id].bytes|) && a' == a
    case Remount =>
      r == Done && a' == a
  }

  // ----- the concrete machine -----

  predicate SysShape(sys: Sys) {
    Shape(sys.fs) && forall s :: s in sys.open ==> s < MAX_INODES && sys.open[s].slot == s
  }

  predicate HasHandle(sys: Sys, id: int) {
    var r := Lookup(sys.fs.inodes, id);
    r.Some? && r.value in sys.open
  }

  function SlotOf(sys: Sys, id: int): nat
    requires HasHandle(sys, id)
  {
    Lookup(sys.fs.inodes, id).value
  }

  /** What the callers of each operation owe: one handle per file, none on a deleted file, room
      for a write, no 32-bit wrap in a read, and no rewind over a dirty cache of a later block. */
  ghost predicate Allowed(sys: Sys, op: Op)
    requires SysShape(sys)
  {
    match op
    case Create(id) => -0x8000_0000 <= id < 0x8000_0000
    case Delete(id) => !HasHandle(sys, id)
    case Open(id) => Lookup(sys.fs.inodes, id).Some? && !HasHandle(sys, id)
    case Close(id) => HasHandle(sys, id)
    case Write(id, data) =>
      HasHandle(sys, id) &&
      var h := sys.open[SlotOf(sys, id)];
      h.pos + WriteCount(h, |data|) <= MAX_FILE_SIZE && Room(sys.fs, h, WriteCount(h, |data|))
    case Read(id, n) => HasHandle(sys, id) && sys.open[SlotOf(sys, id)].pos + n < TWO32
    case Rewind(id) =>
      HasHandle(sys, id) &&
      var h := sys.open[SlotOf(sys, id)];
      !h.dirty || h.cur == 0
    case AtEof(id) => HasHandle(sys, id)
    case Remount => sys.open == map[] && HeaderSize(Get(sys.fs.disk, FREELIST_BLOCK)) <= MAX_FS_BLOCKS
  }

  /** The ranges that every allowed operation respects. */
  predicate Callable(sys: Sys, op: Op) {
    && SysShape(sys)
    && (op.Create? ==> -0x8000_0000 <= op.id < 0x8000_0000)
    && (op.Remount? ==> HeaderSize(Get(sys.fs.disk, FREELIST_BLOCK)) <= MAX_FS_BLOCKS)
  }

  function Step(sys: Sys, op: Op): (Sys, Reply)
    requires SysShape(sys)
    requires op.Create? ==> -0x8000_0000 <= op.id < 0x8000_0000
    requires op.Remount? ==> HeaderSize(Get(sys.fs.disk, FREELIST_BLOCK)) <= MAX_FS_BLOCKS
  {
    match op
    case Create(id) =>
      var (fs', ok) := CreateFile(sys.fs, id);
      (sys.(fs := fs'), Flag(ok))
    case Delete(id) =>
      var (fs', ok) := DeleteFile(sys.fs, id);
      (sys.(fs := fs'), Flag(ok))
    case Open(id) =>
      var s := Lookup(sys.fs.inodes, id);
      if s.None? then (sys, Done)
      else
        var (fs', h) := OpenFile(sys.fs, s.value);
        (Sys(fs', sys.open[s.value := h]), Done)
    case Remount => (Sys(Mounted(sys.fs.disk), map[]), Done)
    case _ => if HasHandle(sys, op.id) then HandleStep(sys, SlotOf(sys, op.id), op) else (sys, Done)
  }

  /** The operations on an open handle. */
  function HandleStep(sys: Sys, s: nat, op: Op): (Sys, Reply)
    requires SysShape(sys) && s in sys.open
  {
    var h := sys.open[s];
    match op
    case Close(id) => (Sys(CloseFile(sys.fs, h), sys.open - {s}), Done)
    case Write(id, data) =>
      var (fs', h') := WriteFile(sys.fs, h, data);
      (Sys(fs', sys.open[s := h']), Count(WriteCount(h, |data|)))
    case Read(id, n) =>
      var (fs', h', out) := ReadFile(sys.fs, h, n);
      (Sys(fs', sys.open[s := h']), Data(out))
    case Rewind(id) => (sys.(open := sys.open[s := ResetFile(h)]), Done)
    case AtEof(id) => (sys, Flag(AtEnd(sys.fs, h)))
    case _ => (sys, Done)
  }

  // ----- invariant and abstraction -----

  ghost predicate HandleInv(fs: Fs, s: nat, h: Handle) {
    h.slot == s && HandleOk(fs, h) && Backed(fs, h)
  }

  /** The invariant of every reachable state. */
  ghost predicate SysInv(sys: Sys) {
    && Inv(sys.fs)
    && (forall s :: s in sys.open ==> HandleInv(sys.fs, s, sys.open[s]))
    && (forall i: nat :: Live(sys.fs, i) ==> Dense(sys.fs, i))
    && (sys.open == map[] ==> StorableTable(sys.fs.inodes) && |sys.fs.marks| <= MAX_FS_BLOCKS && Synced(sys.fs))
  }

  ghost function FileAt(sys: Sys, i: nat): AFile
    requires Inv(sys.fs) && Live(sys.fs, i)
    requires i in sys.open ==> HandleInv(sys.fs, i, sys.open[i])
  {
    if i in sys.open then AFile(Contents(sys.fs, sys.open[i]), Some(sys.open[i].pos))
    else AFile(Contents(sys.fs, Shut(i)), None)
  }

  ghost function Ids(inodes: seq<Inode>): set<int> {
    set i | 0 <= i < |inodes| && inodes[i].used :: inodes[i].id
  }

  /** The map from file ids to byte strings that a state stands for. */
  ghost function Abs(sys: Sys): Files
    requires SysInv(sys)
  {
    map id | id in Ids(sys.fs.inodes) :: FileAt(sys, Lookup(sys.fs.inodes, id).value)
  }
}
