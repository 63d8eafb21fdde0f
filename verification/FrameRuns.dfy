/**
 Runs of the frame pool against an allocator that knows nothing of frame states, only the set
 of extents it has handed out.
 */
module FrameRuns {
  import opened Bytes
  import opened FrameModel

  // ----- the allocator of extents -----

  type Extent = map<nat, nat>

  /** The window lies in the pool and meets no extent. */
  ghost predicate Apart(x: Extent, size: nat, t: nat, n: nat) {
    t + n <= size && forall f :: f in x ==> f + x[f] <= t || t + n <= f
  }

  /** get_frames as promised: the lowest window that meets no extent, and failure only if there is none. */
  ghost predicate Gets(x: Extent, size: nat, n: nat, r: Option<nat>, y: Extent) {
    match r
    case None => y == x && forall t: nat :: !Apart(x, size, t, n)
    case Some(t) => y == x[t := n] && Apart(x, size, t, n) && forall u: nat :: u < t ==> !Apart(x, size, u, n)
  }

  /** The windows of free frames are exactly those that meet no extent. */
  lemma FreeIffApart(s: seq<FrameState>, t: nat, n: nat)
    requires WellFormed(s) && n > 0
    ensures AllFree(s, t, n) <==> Apart(Extents(s), |s|, t, n)
  {
    if AllFree(s, t, n) {
      forall f | f in Extents(s)
        ensures f + Extents(s)[f] <= t || t + n <= f
      {
        FreeMeetsNone(s, t, n, f);
      }
    } else if t + n <= |s| {
      var i :| t <= i < t + n && s[i] != Free;
      ExtentsCover(s, i);
      var f :| f in Extents(s) && f <= i < f + Extents(s)[f];
    }
  }

  lemma FreeMeetsNone(s: seq<FrameState>, t: nat, n: nat, f: nat)
    requires WellFormed(s) && n > 0 && AllFree(s, t, n) && f in Extents(s)
    ensures f + Extents(s)[f] <= t || t + n <= f
  {
    assert s[t] == Free;
  }

  /** One allocation refines the promise. */
  lemma GetRefines(s: seq<FrameState>, n: nat)
    requires WellFormed(s) && n > 0
    ensures
      var r := FindWindow(s, n);
      Gets(Extents(s), |s|, n, r,
           match r case None => Extents(s) case Some(t) => if t + n <= |s| then Extents(Take(s, t, n)) else Extents(s))
  {
    FindWindowMeaning(s, n);
    forall t: nat
      ensures AllFree(s, t, n) <==> Apart(Extents(s), |s|, t, n)
    {
      FreeIffApart(s, t, n);
    }
    var r := FindWindow(s, n);
    hide AllFree, Extents, Apart, FindWindow, Take, WellFormed;
    if r.Some? {
      AllFreeFits(s, r.value, n);
      TakeExtents(s, r.value, n);
    }
  }

  // ----- runs -----

  datatype FrameOp = Get(n: nat) | Mark(start: nat, n: nat) | Drop(first: nat)

  /** Mark is mark_inaccessible on an in-pool range of free frames, Drop releases the head of an extent. */
  predicate Proper(s: seq<FrameState>, op: FrameOp) {
    match op
    case Get(n) => n > 0
    case Mark(start, n) => n > 0 && AllFree(s, start, n)
    case Drop(first) => first < |s| && s[first] == HoS
  }

  function Step(s: seq<FrameState>, op: FrameOp): (r: seq<FrameState>)
    requires Proper(s, op)
  {
    match op
    case Get(n) =>
      (match FindWindow(s, n)
       case None => s
       case Some(t) => if t + n <= |s| then Take(s, t, n) else s)
    case Mark(start, n) => Take(s, start, n)
    case Drop(first) => Release(s, first)
  }

  predicate ProperRun(s: seq<FrameState>, ops: seq<FrameOp>)
    decreases |ops|
  {
    ops == [] || (Proper(s, ops[0]) && ProperRun(Step(s, ops[0]), ops[1..]))
  }

  function Run(s: seq<FrameState>, ops: seq<FrameOp>): seq<FrameState>
    requires ProperRun(s, ops)
    decreases |ops|
  {
    if ops == [] then s else Run(Step(s, ops[0]), ops[1..])
  }

  /** The same run told with extents only. */
  ghost predicate Promised(x: Extent, size: nat, op: FrameOp, y: Extent) {
    match op
    case Get(n) => exists r :: Gets(x, size, n, r, y)
    case Mark(start, n) => Apart(x, size, start, n) && y == x[start := n]
    case Drop(first) => first in x && y == x - {first}
  }

  ghost predicate PromisedRun(x: Extent, size: nat, ops: seq<FrameOp>, y: Extent)
    decreases |ops|
  {
    if ops == [] then y == x
    else exists z :: Promised(x, size, ops[0], z) && PromisedRun(z, size, ops[1..], y)
  }

  lemma StepRefines(s: seq<FrameState>, op: FrameOp)
    requires WellFormed(s) && Proper(s, op)
    ensures |Step(s, op)| == |s| && WellFormed(Step(s, op))
    ensures Promised(Extents(s), |s|, op, Extents(Step(s, op)))
  {
    match op {
      case Get(n) =>
        FindWindowMeaning(s, n);
        hide Extents, Gets, AllFree, Take, WellFormed;
        GetRefines(s, n);
        if FindWindow(s, n).Some? {
          AllFreeFits(s, FindWindow(s, n).value, n);
          TakeWellFormed(s, FindWindow(s, n).value, n);
        }
        assert Gets(Extents(s), |s|, n, FindWindow(s, n), Extents(Step(s, op)));
      case Mark(start, n) =>
        hide Extents, Apart, AllFree, Take, WellFormed;
        AllFreeFits(s, start, n);
        FreeIffApart(s, start, n);
        TakeWellFormed(s, start, n);
        TakeExtents(s, start, n);
      case Drop(first) =>
        assert first in Extents(s);
        hide Extents, Release, WellFormed;
        ReleaseWellFormed(s, first);
        ReleaseExtents(s, first);
    }
  }

  /** Every run of the pool refines a run of the allocator of extents, and the extents stay well formed. */
  lemma {:induction false} RunRefines(s: seq<FrameState>, ops: seq<FrameOp>)
    requires WellFormed(s) && ProperRun(s, ops)
    ensures |Run(s, ops)| == |s| && WellFormed(Run(s, ops))
    ensures PromisedRun(Extents(s), |s|, ops, Extents(Run(s, ops)))
    decreases |ops|
  {
    hide Extents, Step, Promised, WellFormed, Proper;
    if ops != [] {
      StepRefines(s, ops[0]);
      RunRefines(Step(s, ops[0]), ops[1..]);
    }
  }
}
