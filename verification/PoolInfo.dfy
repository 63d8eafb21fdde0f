/**
 The frame that holds a pool's own bitmap: it is taken from the start, and no run of the pool ever hands it
 out. And what marking a range does to the extents that it meets.
 */
module PoolInfo {
  import opened Bytes
  import opened FrameModel
  import opened FrameRuns
  import opened ContFramePool

  /** So nothing is handed out yet, and the bitmap's frame is an extent of its own. */
  lemma NewPoolExtents(base: nat, n: nat, info: nat)
    requires n > 0
    ensures
      var b := BitmapFrame(base, info);
      Extents(InitialStates(base, n, info)) == if base <= b < base + n then map[b - base := 1] else map[]
  {
    var s := InitialStates(base, n, info);
    var b := BitmapFrame(base, info);
    forall f: nat | f < n
      ensures s[f] == if base + f == b then HoS else Free
    {
      AllFreeButBitmap(base, n, info, f);
    }
    if base <= b < base + n {
      RunEndIs(s, b - base + 1, b - base + 1);
    }
  }

  /** An extent that no one releases stays as it is, and no allocation meets it. */
  lemma {:induction false} ExtentStays(s: seq<FrameState>, ops: seq<FrameOp>, f: nat)
    requires WellFormed(s) && ProperRun(s, ops) && f in Extents(s)
    requires forall i :: 0 <= i < |ops| ==> ops[i] != Drop(f)
    ensures f in Extents(Run(s, ops)) && Extents(Run(s, ops))[f] == Extents(s)[f]
    ensures WellFormed(Run(s, ops)) && |Run(s, ops)| == |s|
    decreases |ops|
  {
    hide Extents, Step, WellFormed;
    if ops != [] {
      ExtentIsPositive(s, f);
      StepRefines(s, ops[0]);
      OthersStay(Extents(s), |s|, ops[0], Extents(Step(s, ops[0])), f);
      ExtentStays(Step(s, ops[0]), ops[1..], f);
    }
  }

  lemma ExtentIsPositive(s: seq<FrameState>, f: nat)
    requires f in Extents(s)
    ensures Extents(s)[f] > 0
  {
  }

  lemma OthersStay(x: Extent, size: nat, op: FrameOp, y: Extent, f: nat)
    requires Promised(x, size, op, y) && f in x && op != Drop(f) && x[f] > 0
    requires op.Get? || op.Mark? ==> op.n > 0
    ensures f in y && y[f] == x[f]
  {
  }

  /**
   From a new pool: after any run in which callers release only what they were given, the next allocation
   does not meet the frame that holds the bitmap.
   */
  lemma NeverHandsOutBitmap(base: nat, n: nat, info: nat, ops: seq<FrameOp>, m: nat)
    requires n > 0 && m > 0 && base <= BitmapFrame(base, info) < base + n
    requires ProperRun(InitialStates(base, n, info), ops)
    requires forall i :: 0 <= i < |ops| ==> ops[i] != Drop(BitmapFrame(base, info) - base)
    ensures
      var s := Run(InitialStates(base, n, info), ops);
      var t := FindWindow(s, m);
      t.Some? ==> !(base + t.value <= BitmapFrame(base, info) < base + t.value + m)
  {
    hide Run, ProperRun, InitialStates, WellFormed, RunEnd;
    var b := BitmapFrame(base, info);
    var s0 := InitialStates(base, n, info);
    NewPoolExtents(base, n, info);
    AllFreeButBitmap(base, n, info, b - base);
    ExtentStays(s0, ops, b - base);
    FindWindowMeaning(Run(s0, ops), m);
  }

  /** For example the kernel's own pool: 512 frames from frame 512 on, and the first frame handed out is 513. */
  lemma KernelPoolExample()
    ensures FindWindow(InitialStates(512, 512, 0), 1) == Some(1)
  {
    hide InitialStates;
    var s := InitialStates(512, 512, 0);
    AllFreeButBitmap(512, 512, 0, 0);
    AllFreeButBitmap(512, 512, 0, 1);
    FindWindowMeaning(s, 1);
    assert AllFree(s, 1, 1) && !AllFree(s, 0, 1);
  }

  // ----- marking a range that is partly taken -----

  lemma MarkedAt(s: seq<FrameState>, base: nat, start: nat, n: nat, i: nat)
    requires n > 0 && start + n <= |s| && i < |s|
    ensures Marked(s, base, base + start, n)[i] ==
      if i == start then HoS else if start < i < start + n then Used else s[i]
  {
  }

  /**
   After a range inside the pool is marked, whatever it held, it lies in one extent that starts at its
   first frame, and runs on over what was left of an extent that reached past its end.
   */
  lemma MarkedRange(s: seq<FrameState>, base: nat, start: nat, n: nat, f: nat)
    requires WellFormed(s) && n > 0 && start + n <= |s|
    ensures
      var t := Marked(s, base, base + start, n);
      && WellFormed(t)
      && start in Extents(t) && start + Extents(t)[start] == RunEnd(s, start + n) >= start + n
      && (start < f < start + n ==> f !in Extents(t))
  {
    hide WellFormed, RunEnd, Marked;
    var t := Marked(s, base, base + start, n);
    MarkedKeepsIff(s, base, base + start, n);
    MarkedAt(s, base, start, n, start);
    var e := RunEnd(s, start + n);
    forall i: nat | start < i < |s|
      ensures t[i] == if i < start + n then Used else s[i]
    {
      MarkedAt(s, base, start, n, i);
    }
    RunEndIs(t, start + 1, e);
  }

  /** An extent that reached into the range from the left ends where it starts; the others on the left stay. */
  lemma MarkedLeft(s: seq<FrameState>, base: nat, start: nat, n: nat, f: nat)
    requires WellFormed(s) && n > 0 && start + n <= |s| && f < start
    ensures
      var t := Marked(s, base, base + start, n);
      && (f in Extents(t) <==> f in Extents(s))
      && (f in Extents(s) ==> f + Extents(t)[f] == if f + Extents(s)[f] > start then start else f + Extents(s)[f])
  {
    hide WellFormed, RunEnd, Marked;
    var t := Marked(s, base, base + start, n);
    forall i: nat | i <= start
      ensures t[i] == if i < start then s[i] else HoS
    {
      MarkedAt(s, base, start, n, i);
    }
    var e := RunEnd(s, f + 1);
    RunEndIs(t, f + 1, if e > start then start else e);
  }

  /** The extents on the right stay. */
  lemma MarkedRight(s: seq<FrameState>, base: nat, start: nat, n: nat, f: nat)
    requires WellFormed(s) && n > 0 && start + n <= f < |s|
    ensures
      var t := Marked(s, base, base + start, n);
      && (f in Extents(t) <==> f in Extents(s))
      && (f in Extents(s) ==> Extents(t)[f] == Extents(s)[f])
  {
    hide WellFormed, RunEnd, Marked;
    var t := Marked(s, base, base + start, n);
    forall i: nat | f <= i < |s|
      ensures t[i] == s[i]
    {
      MarkedAt(s, base, start, n, i);
    }
    RunEndIs(t, f + 1, RunEnd(s, f + 1));
  }
}
