/**
 The contiguous frame pool as a sequence of frame states, and the set of disjoint
 extents it stands for.
 */
module FrameModel {
  import opened Bytes

  /** The two-bit codes are Free = 0, Used = 1, HoS = 2. */
  datatype FrameState = Free | Used | HoS

  // ----- windows of free frames -----

  predicate AllFree(s: seq<FrameState>, start: nat, n: nat) {
    start + n <= |s| && forall i :: start <= i < start + n ==> s[i] == Free
  }

  /** start is the lowest place where n free frames lie in a row. */
  ghost predicate LowestWindow(s: seq<FrameState>, n: nat, start: nat) {
    AllFree(s, start, n) && forall t: nat :: t < start ==> !AllFree(s, t, n)
  }

  ghost predicate NoWindow(s: seq<FrameState>, n: nat) {
    forall t: nat :: !AllFree(s, t, n)
  }

  /** The plain form of the search: try every start in turn, looking at all n frames each time. */
  function FindFrom(s: seq<FrameState>, n: nat, t: nat): Option<nat>
    decreases |s| + 1 - t
  {
    if t + n > |s| || t > |s| then None
    else if AllFree(s, t, n) then Some(t)
    else FindFrom(s, n, t + 1)
  }

  function FindWindow(s: seq<FrameState>, n: nat): Option<nat> {
    FindFrom(s, n, 0)
  }

  /** The search returns the lowest window, and nothing exactly when there is none. */
  lemma {:induction false} FindFromMeaning(s: seq<FrameState>, n: nat, t: nat)
    ensures FindFrom(s, n, t) == None ==> forall u: nat :: t <= u ==> !AllFree(s, u, n)
    ensures FindFrom(s, n, t).Some? ==> t <= FindFrom(s, n, t).value && AllFree(s, FindFrom(s, n, t).value, n)
    ensures FindFrom(s, n, t).Some? ==> forall u: nat :: t <= u < FindFrom(s, n, t).value ==> !AllFree(s, u, n)
    decreases |s| + 1 - t
  {
    if t + n <= |s| && t <= |s| && !AllFree(s, t, n) {
      FindFromMeaning(s, n, t + 1);
    }
  }

  lemma FindWindowMeaning(s: seq<FrameState>, n: nat)
    ensures FindWindow(s, n) == None <==> NoWindow(s, n)
    ensures forall start: nat :: FindWindow(s, n) == Some(start) <==> LowestWindow(s, n, start)
  {
    FindFromMeaning(s, n, 0);
  }

  /** A single free frame can be found exactly when the count is not zero. */
  lemma FindOne(s: seq<FrameState>)
    ensures FindWindow(s, 1).Some? <==> FreeCount(s) > 0
  {
    FindWindowMeaning(s, 1);
    if FreeCount(s) == 0 {
      TooFewFrames(s, 1);
    } else if NoWindow(s, 1) {
      forall i: nat | i < |s|
        ensures s[i] != Free
      {
        assert !AllFree(s, i, 1);
      }
      FreeCountUniform(s);
    }
  }

  function FreeCount(s: seq<FrameState>): nat {
    if s == [] then 0 else (if s[0] == Free then 1 else 0) + FreeCount(s[1..])
  }

  lemma {:induction false} FreeCountConcat(a: seq<FrameState>, b: seq<FrameState>)
    ensures FreeCount(a + b) == FreeCount(a) + FreeCount(b)
  {
    if a == [] {
      assert a + b == b;
    } else {
      assert (a + b)[1..] == a[1..] + b;
      FreeCountConcat(a[1..], b);
    }
  }

  lemma {:induction false} FreeCountUniform(s: seq<FrameState>)
    ensures (forall i :: 0 <= i < |s| ==> s[i] == Free) ==> FreeCount(s) == |s|
    ensures (forall i :: 0 <= i < |s| ==> s[i] != Free) ==> FreeCount(s) == 0
    ensures FreeCount(s) <= |s|
  {
    if s != [] {
      FreeCountUniform(s[1..]);
    }
  }

  lemma FreeCountUpdate(s: seq<FrameState>, i: nat, v: FrameState)
    requires i < |s|
    ensures FreeCount(s[i := v]) == FreeCount(s) + (if v == Free then 1 else 0) - (if s[i] == Free then 1 else 0)
  {
    var t := s[i := v];
    assert t[..i] == s[..i] && t[i + 1..] == s[i + 1..] && t[i..i + 1] == [v] && s[i..i + 1] == [s[i]];
    FreeCountPart(s, i, i + 1);
    FreeCountPart(t, i, i + 1);
  }

  /** Replacing a stretch changes the count by what the stretch holds. */
  lemma FreeCountPart(s: seq<FrameState>, lo: nat, hi: nat)
    requires lo <= hi <= |s|
    ensures FreeCount(s) == FreeCount(s[..lo]) + FreeCount(s[lo..hi]) + FreeCount(s[hi..])
  {
    hide FreeCount;
    assert s == s[..lo] + s[lo..hi] + s[hi..];
    FreeCountConcat(s[..lo] + s[lo..hi], s[hi..]);
    FreeCountConcat(s[..lo], s[lo..hi]);
  }

  /** The early exit of get_frames is sound: with fewer than n free frames there is no window. */
  lemma TooFewFrames(s: seq<FrameState>, n: nat)
    requires FreeCount(s) < n
    ensures NoWindow(s, n)
  {
    forall t: nat
      ensures !AllFree(s, t, n)
    {
      if AllFree(s, t, n) {
        FreeCountPart(s, t, t + n);
        FreeCountUniform(s[t..t + n]);
      }
    }
  }

  // ----- extents -----

  /** Used never follows Free and never comes first: every Used frame belongs to some HoS. */
  predicate WellFormed(s: seq<FrameState>) {
    forall i :: 0 <= i < |s| && s[i] == Used ==> i > 0 && s[i - 1] != Free
  }

  /** The end of the extent that frame f - 1 is part of: the first frame at or after f that is not Used. */
  function RunEnd(s: seq<FrameState>, f: nat): (e: nat)
    requires f <= |s|
    ensures f <= e <= |s|
    ensures forall i :: f <= i < e ==> s[i] == Used
    ensures e < |s| ==> s[e] != Used
    decreases |s| - f
  {
    if f < |s| && s[f] == Used then RunEnd(s, f + 1) else f
  }

  lemma RunEndIs(s: seq<FrameState>, f: nat, e: nat)
    requires f <= e <= |s| && (e < |s| ==> s[e] != Used)
    requires forall i :: f <= i < e ==> s[i] == Used
    ensures RunEnd(s, f) == e
  {
  }

  /** The allocated extents: first frame to length. */
  ghost function Extents(s: seq<FrameState>): map<nat, nat> {
    map f: nat | f < |s| && s[f] == HoS :: RunEnd(s, f + 1) - f
  }

  /** get_frames and mark_inaccessible: n frames from start become one extent. */
  function Take(s: seq<FrameState>, start: nat, n: nat): (r: seq<FrameState>)
    requires 0 < n && start + n <= |s|
    ensures |r| == |s|
  {
    s[..start] + [HoS] + seq(n - 1, _ => Used) + s[start + n..]
  }

  function Freed(s: seq<FrameState>, lo: nat, hi: nat): (r: seq<FrameState>)
    requires lo <= hi <= |s|
    ensures |r| == |s|
  {
    s[..lo] + seq(hi - lo, _ => Free) + s[hi..]
  }

  /** release_frames: the extent that starts at f becomes free. */
  function Release(s: seq<FrameState>, f: nat): (r: seq<FrameState>)
    requires f < |s|
    ensures |r| == |s|
  {
    Freed(s, f, RunEnd(s, f + 1))
  }

  lemma TakeAt(s: seq<FrameState>, start: nat, n: nat, i: nat)
    requires 0 < n && start + n <= |s| && i < |s|
    ensures Take(s, start, n)[i] == if i == start then HoS else if start < i < start + n then Used else s[i]
  {
  }

  lemma ReleaseAt(s: seq<FrameState>, f: nat, i: nat)
    requires f < |s| && i < |s|
    ensures Release(s, f)[i] == if f <= i < RunEnd(s, f + 1) then Free else s[i]
  {
  }

  lemma TakeCount(s: seq<FrameState>, start: nat, n: nat)
    requires 0 < n && AllFree(s, start, n)
    ensures FreeCount(Take(s, start, n)) == FreeCount(s) - n
  {
    hide Take, FreeCount;
    var t := Take(s, start, n);
    forall i: nat | i < |s|
      ensures t[i] == if i == start then HoS else if start < i < start + n then Used else s[i]
    {
      TakeAt(s, start, n, i);
    }
    StretchCount(s, start, start + n, true);
    StretchCount(t, start, start + n, false);
    CountChange(s, t, start, start + n);
  }

  /** A stretch that is all free, or has no free frame. */
  lemma StretchCount(s: seq<FrameState>, lo: nat, hi: nat, free: bool)
    requires lo <= hi <= |s| && forall i :: lo <= i < hi ==> (s[i] == Free <==> free)
    ensures FreeCount(s[lo..hi]) == if free then hi - lo else 0
  {
    hide FreeCount;
    var part := s[lo..hi];
    assert forall i :: 0 <= i < |part| ==> part[i] == s[lo + i];
    FreeCountUniform(part);
  }

  /** The counts of two sequences differ by what a stretch of them differs. */
  lemma CountChange(s: seq<FrameState>, t: seq<FrameState>, lo: nat, hi: nat)
    requires |s| == |t| && lo <= hi <= |s|
    requires forall i: nat :: i < lo || hi <= i < |s| ==> t[i] == s[i]
    ensures FreeCount(t) - FreeCount(t[lo..hi]) == FreeCount(s) - FreeCount(s[lo..hi])
  {
    hide FreeCount;
    assert t[..lo] == s[..lo];
    assert t[hi..] == s[hi..] by {
      assert forall i :: 0 <= i < |s| - hi ==> t[hi..][i] == t[hi + i] == s[hi + i];
    }
    FreeCountPart(s, lo, hi);
    FreeCountPart(t, lo, hi);
  }

  lemma TakeFirst(s: seq<FrameState>, start: nat)
    requires start < |s|
    ensures s[start := HoS] == Take(s, start, 1)
  {
  }

  lemma TakeStep(s: seq<FrameState>, start: nat, i: nat)
    requires 0 < i && start + i < |s|
    ensures Take(s, start, i)[start + i := Used] == Take(s, start, i + 1)
  {
  }

  lemma FreedFirst(s: seq<FrameState>, lo: nat)
    requires lo < |s|
    ensures s[lo := Free] == Freed(s, lo, lo + 1)
  {
  }

  lemma FreedStep(s: seq<FrameState>, lo: nat, i: nat)
    requires lo < i < |s|
    ensures Freed(s, lo, i)[i] == s[i]
    ensures Freed(s, lo, i)[i := Free] == Freed(s, lo, i + 1)
  {
  }

  lemma MarkedFirst(s: seq<FrameState>, base: nat, first: nat)
    ensures Marked(s, base, first, 0) == s
  {
  }

  lemma MarkedStep(s: seq<FrameState>, base: nat, first: nat, k: nat)
    ensures var local := first + k - base;
      Marked(s, base, first, k + 1) ==
        if 0 <= local < |s| then Marked(s, base, first, k)[local := if k == 0 then HoS else Used]
        else Marked(s, base, first, k)
  {
  }

  /** Taking a window of free frames adds exactly that extent. */
  lemma TakeExtents(s: seq<FrameState>, start: nat, n: nat)
    requires WellFormed(s) && 0 < n && AllFree(s, start, n)
    ensures Extents(Take(s, start, n)) == Extents(s)[start := n]
  {
    hide Take, AllFree, WellFormed, RunEnd;
    AllFreeFits(s, start, n);
    var t := Take(s, start, n);
    forall f: nat | f < |s|
      ensures f in Extents(t) <==> f in Extents(s)[start := n]
      ensures f in Extents(t) ==> Extents(t)[f] == Extents(s)[start := n][f]
    {
      TakeHead(s, start, n, f);
    }
  }

  lemma AllFreeFits(s: seq<FrameState>, start: nat, n: nat)
    requires AllFree(s, start, n)
    ensures start + n <= |s|
  {
  }

  lemma TakeHead(s: seq<FrameState>, start: nat, n: nat, f: nat)
    requires WellFormed(s) && 0 < n && AllFree(s, start, n) && f < |s|
    ensures Take(s, start, n)[f] == HoS <==> f == start || s[f] == HoS
    ensures Take(s, start, n)[f] == HoS ==>
      RunEnd(Take(s, start, n), f + 1) == if f == start then start + n else RunEnd(s, f + 1)
  {
    TakeAt(s, start, n, f);
    if Take(s, start, n)[f] == HoS {
      TakeRun(s, start, n, f);
    }
  }

  lemma TakeWellFormed(s: seq<FrameState>, start: nat, n: nat)
    requires WellFormed(s) && 0 < n && AllFree(s, start, n)
    ensures WellFormed(Take(s, start, n))
  {
  }

  lemma TakeRun(s: seq<FrameState>, start: nat, n: nat, f: nat)
    requires WellFormed(s) && 0 < n && AllFree(s, start, n)
    requires f < |s| && Take(s, start, n)[f] == HoS
    ensures RunEnd(Take(s, start, n), f + 1) == if f == start then start + n else RunEnd(s, f + 1)
    ensures f != start ==> s[f] == HoS
  {
    var t := Take(s, start, n);
    var e := if f == start then start + n else RunEnd(s, f + 1);
    TakeAt(s, start, n, f);
    forall i: nat | f + 1 <= i < |s| && i <= e
      ensures i < e ==> t[i] == Used
      ensures i == e ==> t[i] != Used
    {
      TakeAt(s, start, n, i);
      assert start < i <= start + n ==> s[i - 1] == Free;
      assert f != start && f < i <= e ==> s[i - 1] != Free;
      assert f != start && i < e ==> s[i] == Used;
    }
    hide Take, WellFormed;
    RunEndIs(t, f + 1, e);
  }

  lemma ReleaseCount(s: seq<FrameState>, f: nat)
    requires f < |s| && s[f] == HoS
    ensures FreeCount(Release(s, f)) == FreeCount(s) + (RunEnd(s, f + 1) - f)
  {
    var e := RunEnd(s, f + 1);
    var t := Release(s, f);
    hide Release, FreeCount;
    forall i: nat | i < |s|
      ensures t[i] == if f <= i < e then Free else s[i]
    {
      ReleaseAt(s, f, i);
    }
    StretchCount(s, f, e, false);
    StretchCount(t, f, e, true);
    CountChange(s, t, f, e);
  }

  lemma ReleaseWellFormed(s: seq<FrameState>, f: nat)
    requires WellFormed(s) && f < |s| && s[f] == HoS
    ensures WellFormed(Release(s, f))
  {
  }

  lemma ReleaseRun(s: seq<FrameState>, f: nat, g: nat)
    requires WellFormed(s) && f < |s| && s[f] == HoS
    requires g < |s| && s[g] == HoS && g != f
    ensures Release(s, f)[g] == HoS
    ensures RunEnd(Release(s, f), g + 1) == RunEnd(s, g + 1)
  {
    var t := Release(s, f);
    var e := RunEnd(s, g + 1);
    forall i: nat | g + 1 <= i < |s| && i <= e
      ensures i < e ==> t[i] == Used
      ensures i == e ==> t[i] != Used
    {
      ReleaseAt(s, f, i);
    }
    hide Release;
    RunEndIs(t, g + 1, e);
  }

  /** Releasing an extent removes exactly that extent. */
  lemma ReleaseExtents(s: seq<FrameState>, f: nat)
    requires WellFormed(s) && f < |s| && s[f] == HoS
    ensures Extents(Release(s, f)) == Extents(s) - {f}
  {
    hide Release, WellFormed, RunEnd;
    var t := Release(s, f);
    forall g: nat | g < |s|
      ensures g in Extents(t) <==> g in Extents(s) - {f}
      ensures g in Extents(t) ==> Extents(t)[g] == Extents(s)[g]
    {
      ReleaseAt(s, f, g);
      ReleaseHead(s, f, g);
    }
  }

  lemma ReleaseHead(s: seq<FrameState>, f: nat, g: nat)
    requires WellFormed(s) && f < |s| && s[f] == HoS && g < |s|
    ensures Release(s, f)[g] == HoS <==> g != f && s[g] == HoS
    ensures Release(s, f)[g] == HoS ==> RunEnd(Release(s, f), g + 1) == RunEnd(s, g + 1)
  {
    ReleaseAt(s, f, g);
    if g != f && s[g] == HoS {
      ReleaseRun(s, f, g);
    }
  }

  /** Get followed by release is the identity. */
  lemma ReleaseOfTake(s: seq<FrameState>, start: nat, n: nat)
    requires WellFormed(s) && 0 < n && AllFree(s, start, n)
    ensures Release(Take(s, start, n), start) == s
  {
    var t := Take(s, start, n);
    TakeRun(s, start, n, start);
    forall i: nat | i < |s|
      ensures Release(t, start)[i] == s[i]
    {
      ReleaseAt(t, start, i);
    }
  }

  /** Distinct extents do not overlap. */
  lemma ExtentsDisjoint(s: seq<FrameState>, f: nat, g: nat)
    requires f in Extents(s) && g in Extents(s) && f < g
    ensures f + Extents(s)[f] <= g
  {
  }

  /** The frames that are not free are exactly those of the extents. */
  lemma ExtentsCover(s: seq<FrameState>, i: nat)
    requires WellFormed(s) && i < |s|
    ensures s[i] != Free <==> exists f :: f in Extents(s) && f <= i < f + Extents(s)[f]
  {
    if s[i] != Free {
      var f := Head(s, i);
      assert f in Extents(s);
    }
  }

  /** The first frame of the extent that frame i belongs to. */
  lemma {:induction false} Head(s: seq<FrameState>, i: nat) returns (f: nat)
    requires WellFormed(s) && i < |s| && s[i] != Free
    ensures f <= i && s[f] == HoS && forall j :: f < j <= i ==> s[j] == Used
    ensures i < RunEnd(s, f + 1)
  {
    if s[i] == HoS {
      f := i;
    } else {
      f := Head(s, i - 1);
    }
    RunReaches(s, f + 1, i);
  }

  lemma RunReaches(s: seq<FrameState>, f: nat, i: nat)
    requires f <= i + 1 <= |s| && forall j :: f <= j <= i ==> s[j] == Used
    ensures i < RunEnd(s, f)
  {
  }

  // ----- mark_inaccessible -----

  /** Every in-pool frame of [first, first + n) is marked; only frame number first itself becomes a head. */
  function Marked(s: seq<FrameState>, base: nat, first: nat, n: nat): (r: seq<FrameState>)
    ensures |r| == |s|
  {
    seq(|s|, i requires 0 <= i < |s| =>
      if base + i == first && n > 0 then HoS else if first < base + i < first + n then Used else s[i])
  }

  /** On an in-pool range of free frames, marking takes the range as one extent. */
  lemma MarkedIsTake(s: seq<FrameState>, base: nat, start: nat, n: nat)
    requires 0 < n && AllFree(s, start, n)
    ensures Marked(s, base, base + start, n) == Take(s, start, n)
  {
  }

  /** Marking keeps the extents well formed exactly when the range does not reach in from below the pool. */
  lemma MarkedKeepsIff(s: seq<FrameState>, base: nat, first: nat, n: nat)
    requires WellFormed(s) && s != []
    ensures WellFormed(Marked(s, base, first, n)) <==> !(first < base < first + n)
  {
    var t := Marked(s, base, first, n);
    if first < base < first + n {
      assert t[0] == Used;
    } else {
      forall i | 0 <= i < |t| && t[i] == Used
        ensures i > 0 && t[i - 1] != Free
      {
        assert s[i] == Used ==> i > 0 && s[i - 1] != Free;
      }
    }
  }
}
