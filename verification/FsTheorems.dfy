/**
 The central result about the file system: every run refines the map from ids to byte strings, and
 a freshly formatted disk is the empty map.
 */
module FsTheorems {
  import opened FsState
  import opened FsLayout
  import opened FsFiles
  import opened FsMachine
  import opened FsRefinement

  // ----- every run refines the map -----

  /** Every allowed operation keeps the invariant and does to the map what its specification says. */
  lemma StepRefines(sys: Sys, op: Op)
    requires SysInv(sys) && SysShape(sys) && Allowed(sys, op)
    ensures Refines(sys, op)
  {
    hide SysInv;
    hide Refines;
    match op
    case Create(id) => CreateRefines(sys, id);
    case Delete(id) => DeleteRefines(sys, id);
    case Open(id) => OpenRefines(sys, id);
    case Close(id) => CloseRefines(sys, id);
    case Write(id, data) => WriteRefines(sys, id, data);
    case Read(id, n) => ReadRefines(sys, id, n);
    case Rewind(id) => RewindRefines(sys, id);
    case AtEof(id) => AtEofRefines(sys, id);
    case Remount => RemountRefines(sys);
  }

  /** A run in which the callers keep their side at every step, with the replies it gives. */
  ghost predicate Run(sys: Sys, ops: seq<Op>, replies: seq<Reply>, end: Sys)
    decreases |ops|
  {
    && |replies| == |ops|
    && if ops == [] then end == sys
       else
         && SysShape(sys) && Allowed(sys, ops[0])
         && replies[0] == Step(sys, ops[0]).1
         && Run(Step(sys, ops[0]).0, ops[1..], replies[1..], end)
  }

  /** The same replies come from the map from ids to byte strings. */
  ghost predicate SpecRun(a: Files, ops: seq<Op>, replies: seq<Reply>, end: Files)
    decreases |ops|
  {
    && |replies| == |ops|
    && if ops == [] then end == a
       else exists m :: Spec(a, ops[0], replies[0], m) && SpecRun(m, ops[1..], replies[1..], end)
  }

  /** Every run of the file system is a run of the map from ids to byte strings. */
  lemma {:induction false} RunRefines(sys: Sys, ops: seq<Op>, replies: seq<Reply>, end: Sys)
    requires SysInv(sys) && Run(sys, ops, replies, end)
    ensures SysInv(end) && SpecRun(Abs(sys), ops, replies, Abs(end))
    decreases |ops|
  {
    hide SysInv;
    hide SysShape;
    hide Abs;
    hide Spec;
    hide Step;
    if ops != [] {
      StepRefines(sys, ops[0]);
      var next := Step(sys, ops[0]).0;
      RunRefines(next, ops[1..], replies[1..], end);
      assert Spec(Abs(sys), ops[0], replies[0], Abs(next));
    }
  }

  // ----- a fresh file system -----

  /** Format followed by Mount is the empty map, in a state that satisfies the invariant. */
  lemma FormatMounts(disk: seq<Block>, n: nat)
    requires METADATA_BLOCKS <= n <= MAX_FS_BLOCKS && n <= |disk|
    ensures HeaderSize(Get(Formatted(disk, n), FREELIST_BLOCK)) == n
    ensures
      var sys := Sys(Mounted(Formatted(disk, n)), map[]);
      SysInv(sys) && Abs(sys) == map[]
  {
    hide HeaderSize;
    hide Formatted;
    hide Mounted;
    hide Inv;
    hide Synced;
    hide Dense;
    hide FileAt;
    MountOfFormatted(disk, n);
    FormattedDisk(disk, n);
    EmptyInv(Mounted(Formatted(disk, n)));
    NoFiles(Sys(Mounted(Formatted(disk, n)), map[]));
  }

  lemma FormattedDisk(disk: seq<Block>, n: nat)
    requires n <= MAX_FS_BLOCKS
    ensures |Formatted(disk, n)| == |disk|
  {
  }

  lemma NoFiles(sys: Sys)
    requires SysInv(sys) && forall i: nat :: !Live(sys.fs, i)
    ensures Abs(sys) == map[]
  {
    hide SysInv;
    hide FileAt;
    AbsIs(sys);
    forall id | id in Abs(sys)
      ensures false
    {
      LookupSound(sys.fs, id);
    }
  }

  lemma EmptyInv(fs: Fs)
    requires fs.inodes == EmptyTable() && METADATA_BLOCKS <= |fs.marks| <= MAX_FS_BLOCKS && |fs.marks| <= |fs.disk|
    requires fs.marks == FormatMarks(|fs.marks|)
    ensures Inv(fs)
    ensures forall i: nat :: !Live(fs, i)
  {
    hide Ref;
    var o: Owners := map[];
    assert OwnedBy(fs, o);
  }
}
