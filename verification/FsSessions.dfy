/**
 Sessions: a file that is created, written in any pieces, closed, opened again and
 read in any pieces gives back exactly the bytes written; a file that is created,
 used and deleted leaves the free list as it was.
 */
module FsSessions {
  import opened Bytes
  import opened FsState
  import opened FsLayout
  import opened FsOps
  import opened FsMeaning
  import opened FsFiles
  import opened FsTable
  import opened FsMachine
  import opened FsRefinement
  import opened FsTheorems

  function Join(parts: seq<seq<byte>>): seq<byte> {
    if parts == [] then [] else parts[0] + Join(parts[1..])
  }

  function Sum(ns: seq<nat>): nat {
    if ns == [] then 0 else ns[0] + Sum(ns[1..])
  }

  function Writes(id: int, parts: seq<seq<byte>>): (ops: seq<Op>)
    ensures |ops| == |parts|
  {
    if parts == [] then [] else [Write(id, parts[0])] + Writes(id, parts[1..])
  }

  function Reads(id: int, ns: seq<nat>): (ops: seq<Op>)
    ensures |ops| == |ns|
  {
    if ns == [] then [] else [Read(id, ns[0])] + Reads(id, ns[1..])
  }

  /** The bytes in the replies to a series of reads. */
  function Returned(replies: seq<Reply>): seq<byte> {
    if replies == [] then []
    else (if replies[0].Data? then replies[0].bytes else []) + Returned(replies[1..])
  }

  // ----- on the map from ids to byte strings -----

  lemma {:induction false} SpecWrites(a: Files, id: int, parts: seq<seq<byte>>, ops: seq<Op>, replies: seq<Reply>,
          end: Files)
    requires id in a && a[id].pos == Some(|a[id].bytes|) && |a[id].bytes| + |Join(parts)| <= MAX_FILE_SIZE
    requires SpecRun(a, Writes(id, parts) + ops, replies, end)
    ensures |replies| == |parts| + |ops|
    ensures
      var c := a[id].bytes + Join(parts);
      SpecRun(a[id := AFile(c, Some(|c|))], ops, replies[|parts|..], end)
    decreases |parts|
  {
    hide Spec;
    hide SpecRun;
    var c := a[id].bytes + Join(parts);
    var w := a[id := AFile(c, Some(|c|))];
    if parts == [] {
      assert Writes(id, parts) + ops == ops;
      SpecLength(a, ops, replies, end);
      assert replies[0..] == replies;
      assert c == a[id].bytes;
      assert w == a;
    } else {
      assert Writes(id, parts) + ops == [Write(id, parts[0])] + (Writes(id, parts[1..]) + ops);
      var m := SpecWrite(a, id, parts[0], Writes(id, parts[1..]) + ops, replies, end);
      SpecWrites(m, id, parts[1..], ops, replies[1..], end);
      assert replies[1..][|parts[1..]|..] == replies[|parts|..];
      assert m[id].bytes + Join(parts[1..]) == c;
      assert m[id := AFile(c, Some(|c|))] == w;
    }
  }

  lemma SpecLength(a: Files, ops: seq<Op>, replies: seq<Reply>, end: Files)
    requires SpecRun(a, ops, replies, end)
    ensures |replies| == |ops|
  {
  }

  /** A write at the end of a file, as the first step of a run. */
  lemma SpecWrite(a: Files, id: int, d: seq<byte>, ops: seq<Op>, replies: seq<Reply>, end: Files) returns (m: Files)
    requires id in a && a[id].pos == Some(|a[id].bytes|) && |a[id].bytes| + |d| <= MAX_FILE_SIZE
    requires SpecRun(a, [Write(id, d)] + ops, replies, end)
    ensures |replies| == 1 + |ops|
    ensures m == a[id := AFile(a[id].bytes + d, Some(|a[id].bytes + d|))]
    ensures SpecRun(m, ops, replies[1..], end)
  {
    hide SpecRun;
    hide Splice;
    m := SpecHead(a, Write(id, d), ops, replies, end);
    AppendIsSplice(a[id].bytes, d);
  }

  /** A read as the first step of a run. */
  lemma SpecRead(a: Files, id: int, n: nat, ops: seq<Op>, replies: seq<Reply>, end: Files) returns (m: Files)
    requires IsOpen(a, id) && SpecRun(a, [Read(id, n)] + ops, replies, end)
    ensures |replies| == 1 + |ops|
    ensures
      var file, p := a[id].bytes, a[id].pos.value;
      var c := Min(n, |file| - p);
      replies[0] == Data(file[p..p + c]) && IsOpen(m, id) && m[id] == AFile(file, Some(p + c))
    ensures SpecRun(m, ops, replies[1..], end)
  {
    hide SpecRun;
    m := SpecHead(a, Read(id, n), ops, replies, end);
  }

  lemma SpecHead(a: Files, op: Op, ops: seq<Op>, replies: seq<Reply>, end: Files) returns (m: Files)
    requires SpecRun(a, [op] + ops, replies, end)
    ensures |replies| == 1 + |ops|
    ensures Spec(a, op, replies[0], m) && SpecRun(m, ops, replies[1..], end)
  {
    hide Spec;
    var all := [op] + ops;
    assert all[1..] == ops && all[0] == op;
    m :| Spec(a, all[0], replies[0], m) && SpecRun(m, all[1..], replies[1..], end);
  }

  lemma AppendIsSplice(c: seq<byte>, d: seq<byte>)
    ensures Splice(c, |c|, d) == c + d
    ensures d[..|d|] == d
  {
  }

  lemma SpecNothing(a: Files, replies: seq<Reply>, end: Files)
    requires SpecRun(a, [], replies, end)
    ensures end == a
  {
  }

  lemma MinSum(n: nat, rest: nat, left: nat)
    ensures Min(n + rest, left) == Min(n, left) + Min(rest, left - Min(n, left))
  {
  }

  lemma {:induction false} SpecReads(a: Files, id: int, ns: seq<nat>, replies: seq<Reply>, end: Files)
    requires IsOpen(a, id) && SpecRun(a, Reads(id, ns), replies, end)
    ensures
      var file, p := a[id].bytes, a[id].pos.value;
      && Returned(replies) == file[p..p + Min(Sum(ns), |file| - p)]
      && id in end && end[id] == AFile(file, Some(p + Min(Sum(ns), |file| - p)))
    decreases |ns|
  {
    hide SpecRun, Spec;
    SpecLength(a, Reads(id, ns), replies, end);
    if ns == [] {
      SpecNothing(a, replies, end);
    } else {
      var m := SpecRead(a, id, ns[0], Reads(id, ns[1..]), replies, end);
      SpecReads(m, id, ns[1..], replies[1..], end);
      var file, p := a[id].bytes, a[id].pos.value;
      var q := m[id].pos.value;
      MinSum(ns[0], Sum(ns[1..]), |file| - p);
      SliceIsJoin(file, p, q, p + Min(Sum(ns), |file| - p));
    }
  }

  /** Create, open, write in pieces, close, open again, read in pieces. */
  function Session(id: int, parts: seq<seq<byte>>, ns: seq<nat>): seq<Op> {
    [Create(id), Open(id)] + (Writes(id, parts) + ([Close(id), Open(id)] + Reads(id, ns)))
  }

  lemma SpecSession(a: Files, id: int, parts: seq<seq<byte>>, ns: seq<nat>, replies: seq<Reply>, end: Files)
    requires SpecRun(a, Session(id, parts, ns), replies, end)
    requires |replies| > 0 && replies[0] == Flag(true) && |Join(parts)| <= MAX_FILE_SIZE
    ensures |replies| == 4 + |parts| + |ns|
    ensures Returned(replies[4 + |parts|..]) == Join(parts)[..Min(Sum(ns), |Join(parts)|)]
    ensures id in end && end[id] == AFile(Join(parts), Some(Min(Sum(ns), |Join(parts)|)))
  {
    hide SpecRun;
    var d := Join(parts);
    var tail := [Close(id), Open(id)] + Reads(id, ns);
    var body := Writes(id, parts) + tail;
    assert Session(id, parts, ns) == [Create(id)] + ([Open(id)] + body);
    var a1 := SpecHead(a, Create(id), [Open(id)] + body, replies, end);
    var a2 := SpecHead(a1, Open(id), body, replies[1..], end);
    SpecWrites(a2, id, parts, tail, replies[1..][1..], end);
    var a3 := a2[id := AFile([] + d, Some(|[] + d|))];
    var r3 := replies[1..][1..][|parts|..];
    assert tail == [Close(id)] + ([Open(id)] + Reads(id, ns));
    var a4 := SpecHead(a3, Close(id), [Open(id)] + Reads(id, ns), r3, end);
    var a5 := SpecHead(a4, Open(id), Reads(id, ns), r3[1..], end);
    SpecReads(a5, id, ns, r3[1..][1..], end);
    assert r3[1..][1..] == replies[4 + |parts|..];
    SpecLength(a, Session(id, parts, ns), replies, end);
    assert [] + d == d;
  }

  /** Write-close-reopen-read: whatever pieces the bytes are written and read in, in every such run
      the reads return the bytes written, from the first on, and the file still holds them all. */
  lemma SessionReadsBack(sys: Sys, id: int, parts: seq<seq<byte>>, ns: seq<nat>, replies: seq<Reply>, end: Sys)
    requires SysInv(sys) && Run(sys, Session(id, parts, ns), replies, end)
    requires |replies| > 0 && replies[0] == Flag(true) && |Join(parts)| <= MAX_FILE_SIZE
    ensures |replies| == 4 + |parts| + |ns|
    ensures Returned(replies[4 + |parts|..]) == Join(parts)[..Min(Sum(ns), |Join(parts)|)]
    ensures SysInv(end) && id in Abs(end) && Abs(end)[id] == AFile(Join(parts), Some(Min(Sum(ns), |Join(parts)|)))
  {
    hide SysInv;
    hide Run;
    hide SpecRun;
    hide Session;
    RunRefines(sys, Session(id, parts, ns), replies, end);
    SpecSession(Abs(sys), id, parts, ns, replies, Abs(end));
  }

  // ----- such runs exist whenever there is room -----

  lemma RunTail(sys: Sys, ops: seq<Op>, rs: seq<Reply>, end: Sys)
    requires Run(sys, ops, rs, end) && ops != []
    ensures |rs| == |ops| && Callable(sys, ops[0]) && Allowed(sys, ops[0])
    ensures rs[0] == Step(sys, ops[0]).1 && Run(Step(sys, ops[0]).0, ops[1..], rs[1..], end)
  {
  }

  lemma RunCons(sys: Sys, ops: seq<Op>, rs: seq<Reply>, end: Sys)
    requires ops != [] && |rs| == |ops| && Callable(sys, ops[0]) && Allowed(sys, ops[0])
    requires rs[0] == Step(sys, ops[0]).1 && Run(Step(sys, ops[0]).0, ops[1..], rs[1..], end)
    ensures Run(sys, ops, rs, end)
  {
  }

  lemma {:induction false} RunAppend(sys: Sys, ops: seq<Op>, rs: seq<Reply>, mid: Sys, ops2: seq<Op>,
          rs2: seq<Reply>, end: Sys)
    requires Run(sys, ops, rs, mid) && Run(mid, ops2, rs2, end)
    ensures Run(sys, ops + ops2, rs + rs2, end)
    decreases |ops|
  {
    if ops == [] {
      hide Step;
      assert ops + ops2 == ops2 && rs + rs2 == rs2;
    } else {
      hide Run;
      hide Allowed;
      hide SysShape;
      hide Step;
      RunTail(sys, ops, rs, mid);
      assert (ops + ops2)[1..] == ops[1..] + ops2 && (rs + rs2)[1..] == rs[1..] + rs2;
      RunAppend(Step(sys, ops[0]).0, ops[1..], rs[1..], mid, ops2, rs2, end);
      RunCons(sys, ops + ops2, rs + rs2, end);
    }
  }

  lemma RunOne(sys: Sys, op: Op)
    requires SysInv(sys) && SysShape(sys) && Allowed(sys, op)
    ensures SysInv(Step(sys, op).0) && SysShape(Step(sys, op).0)
    ensures Run(sys, [op], [Step(sys, op).1], Step(sys, op).0)
  {
    hide SysInv;
    hide SysShape;
    hide Step;
    StepRefines(sys, op);
    ShapeOfInv(Step(sys, op).0);
    assert [op][1..] == [] && [Step(sys, op).1][1..] == [];
  }

  /** File id is open, positioned at its end, and there is room for n more bytes. */
  ghost predicate Appending(sys: Sys, id: int, n: nat) {
    && SysInv(sys) && SysShape(sys) && HasHandle(sys, id)
    && var h := sys.open[SlotOf(sys, id)];
       && HandleOk(sys.fs, h) && h.pos == sys.fs.inodes[h.slot].length && h.pos + n <= MAX_FILE_SIZE
       && Room(sys.fs, h, n)
  }

  lemma AppendStep(sys: Sys, id: int, d: seq<byte>, n: nat)
    requires Appending(sys, id, |d| + n)
    ensures SysShape(sys) && Allowed(sys, Write(id, d)) && Appending(Step(sys, Write(id, d)).0, id, n)
    ensures Run(sys, [Write(id, d)], [Step(sys, Write(id, d)).1], Step(sys, Write(id, d)).0)
  {
    hide SysInv;
    hide Inv;
    hide Ref;
    hide Contents;
    hide Lookup;
    hide Dense;
    hide OnlyFile;
    hide WriteLoop;
    hide Room;
    hide Splice;
    hide HandleInv;
    hide Backed;
    var h := sys.open[SlotOf(sys, id)];
    OpenEntry(sys, id);
    RoomSplit(sys.fs, h, d, n);
    assert WriteCount(h, |d|) == |d| && d[..|d|] == d;
    WriteMeaning(sys.fs, h, d);
    RunOne(sys, Write(id, d));
    HandleStepIs(sys, Write(id, d));
    var (fs', h') := WriteFile(sys.fs, h, d);
    SameLookups(sys.fs, fs', h.slot);
    ContentsLength(sys.fs, h);
    ContentsLength(fs', h');
  }

  lemma {:induction false} RunWrites(sys: Sys, id: int, parts: seq<seq<byte>>) returns (rs: seq<Reply>, end: Sys)
    requires Appending(sys, id, |Join(parts)|)
    ensures Run(sys, Writes(id, parts), rs, end)
    ensures SysInv(end) && SysShape(end) && HasHandle(end, id)
    decreases |parts|
  {
    hide SysInv;
    hide SysShape;
    hide Step;
    hide Room;
    hide HandleOk;
    hide Lookup;
    if parts == [] {
      rs, end := [], sys;
    } else {
      AppendStep(sys, id, parts[0], |Join(parts[1..])|);
      var r, next := Step(sys, Write(id, parts[0])).1, Step(sys, Write(id, parts[0])).0;
      hide Run;
      rs, end := RunWrites(next, id, parts[1..]);
      RunAppend(sys, [Write(id, parts[0])], [r], next, Writes(id, parts[1..]), rs, end);
      rs := [r] + rs;
    }
  }

  ghost predicate Readable(sys: Sys, id: int) {
    SysInv(sys) && SysShape(sys) && HasHandle(sys, id)
  }

  lemma ReadStepRuns(sys: Sys, id: int, n: nat)
    requires Readable(sys, id) && n < TWO32 - MAX_FILE_SIZE
    ensures SysShape(sys) && Allowed(sys, Read(id, n)) && Readable(Step(sys, Read(id, n)).0, id)
    ensures Run(sys, [Read(id, n)], [Step(sys, Read(id, n)).1], Step(sys, Read(id, n)).0)
  {
    hide SysInv;
    hide Inv;
    hide Ref;
    hide Contents;
    hide Lookup;
    hide Dense;
    hide OnlyFile;
    hide ReadFile;
    hide HandleInv;
    hide Backed;
    var h := sys.open[SlotOf(sys, id)];
    OpenEntry(sys, id);
    ReadMeaning(sys.fs, h, n);
    RunOne(sys, Read(id, n));
    HandleStepIs(sys, Read(id, n));
    SameLookups(sys.fs, ReadFile(sys.fs, h, n).0, h.slot);
  }

  lemma {:induction false} RunReads(sys: Sys, id: int, ns: seq<nat>) returns (rs: seq<Reply>, end: Sys)
    requires Readable(sys, id) && forall i :: 0 <= i < |ns| ==> ns[i] < TWO32 - MAX_FILE_SIZE
    ensures Run(sys, Reads(id, ns), rs, end)
    decreases |ns|
  {
    hide Readable;
    hide SysShape;
    hide Step;
    if ns == [] {
      rs, end := [], sys;
    } else {
      ReadStepRuns(sys, id, ns[0]);
      var r, next := Step(sys, Read(id, ns[0])).1, Step(sys, Read(id, ns[0])).0;
      hide Run;
      rs, end := RunReads(next, id, ns[1..]);
      RunAppend(sys, [Read(id, ns[0])], [r], next, Reads(id, ns[1..]), rs, end);
      rs := [r] + rs;
    }
  }

  /** Closing a file and opening it again. */
  lemma RunReopen(sys: Sys, id: int) returns (rs: seq<Reply>, end: Sys)
    requires Readable(sys, id)
    ensures Run(sys, [Close(id), Open(id)], rs, end) && Readable(end, id)
  {
    hide SysInv;
    hide SysShape;
    hide Step;
    hide Lookup;
    var mid, r1 := Step(sys, Close(id)).0, Step(sys, Close(id)).1;
    CloseStep(sys, id);
    RunOne(sys, Close(id));
    OpenStep(mid, id);
    RunOne(mid, Open(id));
    end, rs := Step(mid, Open(id)).0, [r1, Step(mid, Open(id)).1];
    hide Run;
    RunAppend(sys, [Close(id)], [r1], mid, [Open(id)], [Step(mid, Open(id)).1], end);
    assert [Close(id)] + [Open(id)] == [Close(id), Open(id)];
    assert [r1] + [Step(mid, Open(id)).1] == rs;
  }

  lemma CloseStep(sys: Sys, id: int)
    requires Readable(sys, id)
    ensures SysShape(sys) && Allowed(sys, Close(id))
    ensures
      var sys' := Step(sys, Close(id)).0;
      Lookup(sys'.fs.inodes, id).Some? && !HasHandle(sys', id)
  {
    hide SysInv;
    hide Inv;
    hide Ref;
    hide Contents;
    hide Lookup;
    hide Dense;
    hide OnlyFile;
    hide CloseFile;
    hide HandleInv;
    hide Backed;
    hide Synced;
    hide StorableTable;
    var h := sys.open[SlotOf(sys, id)];
    OpenEntry(sys, id);
    CloseMeaning(sys.fs, h);
    HandleStepIs(sys, Close(id));
    SameLookups(sys.fs, CloseFile(sys.fs, h), h.slot);
  }

  lemma OpenStep(sys: Sys, id: int)
    requires SysInv(sys) && SysShape(sys) && Lookup(sys.fs.inodes, id).Some? && !HasHandle(sys, id)
    ensures Allowed(sys, Open(id))
    ensures HasHandle(Step(sys, Open(id)).0, id)
  {
    hide SysInv;
    hide Inv;
    hide Ref;
    hide Contents;
    hide Lookup;
    hide Dense;
    hide OnlyFile;
    hide OpenFile;
    var i := Lookup(sys.fs.inodes, id).value;
    ClosedEntry(sys, id);
    OpenMeaning(sys.fs, i);
    SameLookups(sys.fs, OpenFile(sys.fs, i).0, i);
  }

  /** Creating a new file and opening it: it is empty, and its data blocks are all still to be taken. */
  lemma CreateOpenStep(sys: Sys, id: int, n: nat)
    requires SysInv(sys) && SysShape(sys) && -0x8000_0000 <= id < 0x8000_0000 && n <= MAX_FILE_SIZE
    requires Lookup(sys.fs.inodes, id).None? && FreeInode(sys.fs.inodes).Some?
    requires FreeCount(sys.fs.marks) >= 1 + LastBlock(0, n)
    ensures
      var sys1 := Step(sys, Create(id)).0;
      && Step(sys, Create(id)).1 == Flag(true)
      && SysInv(sys1) && SysShape(sys1) && Lookup(sys1.fs.inodes, id).Some? && !HasHandle(sys1, id)
      && Allowed(sys1, Open(id)) && Appending(Step(sys1, Open(id)).0, id, n)
  {
    hide SysInv;
    hide Inv;
    hide Ref;
    hide Lookup;
    hide Synced;
    hide StorableTable;
    hide Untouched;
    hide CreateFile;
    hide Shape;
    hide FreeCount;
    FreeCountPositive(sys.fs.marks, METADATA_BLOCKS);
    CreateMeaning(sys.fs, id) by { assert Inv(sys.fs) by { InvOf(sys); } }
    StepRefines(sys, Create(id));
    var i := FreeInode(sys.fs.inodes).value;
    var sys1 := Step(sys, Create(id)).0;
    ShapeOfInv(sys1);
    LookupLive(sys1.fs, i);
    NoHandle(sys, i);
    FreeCountTake(sys.fs.marks, METADATA_BLOCKS, FreeBlock(sys.fs.marks).value);
    OpenEmpty(sys1, id, i, n);
  }

  lemma InvOf(sys: Sys)
    requires SysInv(sys)
    ensures Inv(sys.fs)
  {
  }

  lemma NoHandle(sys: Sys, i: nat)
    requires SysInv(sys) && !Live(sys.fs, i)
    ensures i !in sys.open
  {
    hide Inv;
    assert i in sys.open ==> HandleInv(sys.fs, i, sys.open[i]);
  }

  lemma OpenEmpty(sys: Sys, id: int, i: nat, n: nat)
    requires SysInv(sys) && SysShape(sys) && Inv(sys.fs) && Lookup(sys.fs.inodes, id) == Some(i) && i !in sys.open
    requires sys.fs.inodes[i].length == 0 && n <= MAX_FILE_SIZE && FreeCount(sys.fs.marks) >= LastBlock(0, n)
    requires forall k: nat :: k < MAX_FILE_BLOCKS ==> Ref(sys.fs, i, k) == 0
    ensures Allowed(sys, Open(id)) && Appending(Step(sys, Open(id)).0, id, n)
  {
    hide SysInv;
    hide Inv;
    hide Ref;
    hide Lookup;
    hide FreeCount;
    hide Missing;
    hide Refines;
    RunOne(sys, Open(id));
    NothingMissing(sys.fs, i, 0, LastBlock(0, n));
    LookupSound(sys.fs, id);
  }

  lemma {:induction false} NothingMissing(fs: Fs, i: nat, k: nat, hi: nat)
    requires i < |fs.inodes| && hi <= MAX_FILE_BLOCKS
    requires forall l: nat :: l < MAX_FILE_BLOCKS ==> Ref(fs, i, l) == 0
    ensures Missing(fs, i, k, hi) == if k < hi then hi - k else 0
    decreases hi - k
  {
    hide Ref;
    if k < hi {
      NothingMissing(fs, i, k + 1, hi);
    }
  }

  /** With a free inode and blocks enough for the index block and the data, the whole session runs,
      and the bytes come back. */
  lemma SessionRuns(sys: Sys, id: int, parts: seq<seq<byte>>, ns: seq<nat>) returns (replies: seq<Reply>, end: Sys)
    requires SysInv(sys) && -0x8000_0000 <= id < 0x8000_0000 && |Join(parts)| <= MAX_FILE_SIZE
    requires Lookup(sys.fs.inodes, id).None? && FreeInode(sys.fs.inodes).Some?
    requires FreeCount(sys.fs.marks) >= 1 + LastBlock(0, |Join(parts)|)
    requires forall i :: 0 <= i < |ns| ==> ns[i] < TWO32 - MAX_FILE_SIZE
    ensures Run(sys, Session(id, parts, ns), replies, end) && |replies| == 4 + |parts| + |ns|
    ensures replies[0] == Flag(true)
    ensures Returned(replies[4 + |parts|..]) == Join(parts)[..Min(Sum(ns), |Join(parts)|)]
    ensures SysInv(end) && id in Abs(end) && Abs(end)[id] == AFile(Join(parts), Some(Min(Sum(ns), |Join(parts)|)))
  {
    hide SysInv;
    hide SysShape;
    hide Step;
    hide Allowed;
    hide Lookup;
    hide FreeCount;
    hide Room;
    ShapeOfInv(sys);
    CreateOpenStep(sys, id, |Join(parts)|);
    var s1 := Step(sys, Create(id)).0;
    var s2 := Step(s1, Open(id)).0;
    var r1, r2 := Step(sys, Create(id)).1, Step(s1, Open(id)).1;
    RunFirst(sys, id);
    RunOne(s1, Open(id));
    hide Run;
    var w, s3 := RunWrites(s2, id, parts);
    var c, s4 := RunReopen(s3, id);
    var d, s5 := RunReads(s4, id, ns);
    RunAppend(s3, [Close(id), Open(id)], c, s4, Reads(id, ns), d, s5);
    RunAppend(s2, Writes(id, parts), w, s3, [Close(id), Open(id)] + Reads(id, ns), c + d, s5);
    RunAppend(sys, [Create(id)], [r1], s1, [Open(id)], [r2], s2);
    RunAppend(sys, [Create(id)] + [Open(id)], [r1] + [r2], s2,
              Writes(id, parts) + ([Close(id), Open(id)] + Reads(id, ns)), w + (c + d), s5);
    assert [Create(id)] + [Open(id)] == [Create(id), Open(id)];
    replies, end := [r1] + [r2] + (w + (c + d)), s5;
    SessionReadsBack(sys, id, parts, ns, replies, end);
  }

  lemma RunFirst(sys: Sys, id: int)
    requires SysInv(sys) && SysShape(sys) && -0x8000_0000 <= id < 0x8000_0000
    ensures Allowed(sys, Create(id)) && Run(sys, [Create(id)], [Step(sys, Create(id)).1], Step(sys, Create(id)).0)
  {
    hide SysInv;
    hide SysShape;
    hide Step;
    RunOne(sys, Create(id));
  }
}
