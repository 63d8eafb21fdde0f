/**
 The contiguous frame pool over its packed bitmap: two bits a frame, four frames a byte,
 and the global linked list of pools that release_frames searches.
 */
module ContFramePool {
  import opened Bytes
  import opened FrameModel

  const FRAME_SIZE: nat := 4096

  // ----- one two-bit field of a byte -----

  /** The shift `(frame_no % 4) * 2`. */
  function Shift(k: nat): byte
    requires k < 4
  {
    if k == 0 then 0 else if k == 1 then 2 else if k == 2 then 4 else 6
  }

  function GetField(x: byte, k: nat): byte
    requires k < 4
  {
    (x >> Shift(k)) & 3
  }

  function SetField(x: byte, k: nat, v: byte): byte
    requires k < 4
  {
    (x & !((3 as byte) << Shift(k))) | (v << Shift(k))
  }

  /** Writing one field of a byte leaves the other three alone. */
  lemma FieldFrame(x: byte, k: nat, v: byte, j: nat)
    requires k < 4 && j < 4 && v <= 3
    ensures GetField(SetField(x, k, v), j) == if j == k then v else GetField(x, j)
  {
  }

  function Code(st: FrameState): (v: byte)
    ensures v <= 2
  {
    match st
    case Free => 0
    case Used => 1
    case HoS => 2
  }

  function StateOf(v: byte): FrameState {
    if v == 0 then Free else if v == 1 then Used else HoS
  }

  // ----- the packed bitmap -----

  function StateAt(bits: seq<byte>, i: nat): FrameState
    requires i < 4 * |bits|
  {
    StateOf(GetField(bits[i / 4], i % 4))
  }

  /** The states that the first n fields of a bitmap stand for. */
  function StatesOf(bits: seq<byte>, n: nat): (s: seq<FrameState>)
    requires n <= 4 * |bits|
    ensures |s| == n
  {
    seq(n, i requires 0 <= i < n => StateAt(bits, i))
  }

  /** Rewriting one field changes that one state. */
  lemma SetFieldStates(bits: seq<byte>, n: nat, f: nat, st: FrameState)
    requires f < n <= 4 * |bits|
    ensures StatesOf(bits[f / 4 := SetField(bits[f / 4], f % 4, Code(st))], n) == StatesOf(bits, n)[f := st]
  {
    var after := bits[f / 4 := SetField(bits[f / 4], f % 4, Code(st))];
    forall i: nat | i < n
      ensures StateAt(after, i) == if i == f then st else StateAt(bits, i)
    {
      FieldFrame(bits[f / 4], f % 4, Code(st), i % 4);
    }
  }

  /** How many frames hold the bitmap of a pool of n frames. */
  function NeededInfoFrames(n: nat): nat {
    ((n * 2 + 7) / 8 + FRAME_SIZE - 1) / FRAME_SIZE
  }

  /** The computed number of info frames has room for two bits a frame, and one frame fewer does not. */
  lemma NeededIsLeast(n: nat, k: nat)
    ensures k >= NeededInfoFrames(n) <==> 4 * FRAME_SIZE * k >= n
  {
  }

  class ContFramePool {
    const bitmap: array<byte>
    var nFreeFrames: nat
    const baseFrameNo: nat
    const nframes: nat
    const infoFrameNo: nat
    const next: ContFramePool?

    ghost predicate Valid()
      reads this, bitmap
    {
      && bitmap.Length == FRAME_SIZE
      && nframes <= 4 * FRAME_SIZE
      && nFreeFrames == FreeCount(States())
    }

    ghost function States(): (s: seq<FrameState>)
      requires nframes <= 4 * bitmap.Length
      reads this, bitmap
      ensures |s| == nframes
    {
      StatesOf(bitmap[..], nframes)
    }

    predicate Contains(frame: nat) {
      baseFrameNo <= frame < baseFrameNo + nframes
    }

    function GetState(f: nat): (st: FrameState)
      requires f < nframes <= 4 * bitmap.Length
      reads this, bitmap
      ensures st == States()[f]
    {
      StateOf(GetField(bitmap[f / 4], f % 4))
    }

    method SetState(f: nat, st: FrameState)
      requires f < nframes <= 4 * bitmap.Length
      modifies bitmap
      ensures States() == old(States())[f := st]
    {
      SetFieldStates(bitmap[..], nframes, f, st);
      ghost var before := bitmap[..];
      bitmap[f / 4] := SetField(bitmap[f / 4], f % 4, Code(st));
      assert bitmap[..] == before[f / 4 := SetField(before[f / 4], f % 4, Code(st))];
    }

    /** The pool starts all free, apart from its own first frame or an info frame that lies inside it. */
    constructor (base: nat, n: nat, info: nat, list: PoolList)
      requires 0 < n <= 4 * FRAME_SIZE
      requires list.Valid() && list.Apart(base, n)
      modifies list
      ensures Valid() && WellFormed(States()) && fresh(bitmap)
      ensures baseFrameNo == base && nframes == n && infoFrameNo == info
      ensures States() == InitialStates(base, n, info)
      ensures forall i: nat :: i < n ==> (States()[i] == Free <==> base + i != BitmapFrame(base, info))
      ensures list.Valid() && list.pools == [this] + old(list.pools)
    {
      bitmap := new byte[FRAME_SIZE](_ => 0);
      baseFrameNo, nframes, nFreeFrames, infoFrameNo := base, n, n, info;
      next := list.head;
      new;
      hide StatesOf, FreeCount, InitialStates, WellFormed;
      Clear();
      MarkInfo();
      list.Insert(this);
      forall i: nat | i < n
        ensures States()[i] == Free <==> base + i != BitmapFrame(base, info)
      {
        AllFreeButBitmap(base, n, info, i);
      }
    }

    /** Only the frame that holds the bitmap is taken, when it is one of the pool's own. */
    method MarkInfo()
      requires 0 < nframes <= 4 * bitmap.Length && nFreeFrames == nframes
      requires States() == seq(nframes, _ => Free)
      modifies bitmap, this`nFreeFrames
      ensures States() == InitialStates(baseFrameNo, nframes, infoFrameNo) && WellFormed(States())
      ensures nFreeFrames == FreeCount(States())
    {
      hide StatesOf, FreeCount;
      FreeCountUniform(States());
      if infoFrameNo == 0 {
        FreeCountUpdate(States(), 0, HoS);
        SetState(0, HoS);
        nFreeFrames := nFreeFrames - 1;
      } else if baseFrameNo <= infoFrameNo < baseFrameNo + nframes {
        FreeCountUpdate(States(), infoFrameNo - baseFrameNo, HoS);
        SetState(infoFrameNo - baseFrameNo, HoS);
        nFreeFrames := nFreeFrames - 1;
      }
    }

    /** Every frame starts out free. */
    method Clear()
      requires nframes <= 4 * bitmap.Length
      modifies bitmap
      ensures States() == seq(nframes, _ => Free)
    {
      hide StatesOf;
      var fno := 0;
      while fno < nframes
        modifies bitmap
        invariant fno <= nframes
        invariant States()[..fno] == seq(fno, _ => Free)
      {
        SetState(fno, Free);
        fno := fno + 1;
      }
    }

    /**
     Returns the lowest window of n free frames as one extent, or 0 and no change when there
     is none. The one-pass scan agrees with trying every start in turn.
     */
    method GetFrames(n: nat) returns (first: nat)
      requires Valid()
      modifies this`nFreeFrames, bitmap
      ensures Valid()
      ensures n == 0 || FindWindow(old(States()), n) == None ==> first == 0 && States() == old(States())
      ensures n > 0 && FindWindow(old(States()), n).Some? ==>
        var start := FindWindow(old(States()), n).value;
        first == baseFrameNo + start && start + n <= nframes && States() == Take(old(States()), start, n)
    {
      hide StatesOf, FindWindow, Take, FreeCount, AllFree;
      FindWindowMeaning(States(), n);
      if n == 0 {
        return 0;
      }
      if n > nFreeFrames {
        TooFewFrames(States(), n);
        return 0;
      }
      var run, start, frameNo := 0, 0, 0;
      ghost var s := States();
      NoFrames(s, 0);
      while frameNo < nframes
        modifies {}
        invariant frameNo <= nframes && run <= frameNo && run < n
        invariant run > 0 ==> start == frameNo - run
        invariant AllFree(s, frameNo - run, run)
        invariant s == States()
        invariant frameNo > run ==> s[frameNo - run - 1] != Free
        invariant forall t: nat :: t + n <= frameNo ==> !AllFree(s, t, n)
      {
        if GetState(frameNo) == Free {
          if run == 0 {
            start := frameNo;
          }
          RunGrows(s, frameNo - run, run);
          run := run + 1;
          if run == n {
            NothingBelow(s, n, start);
            break;
          }
          NoneYet(s, n, frameNo, run);
        } else {
          run := 0;
          NoFrames(s, frameNo + 1);
          NoneYet(s, n, frameNo, run);
        }
        frameNo := frameNo + 1;
      }
      if frameNo < nframes {
        Occupy(start, n);
        return start + baseFrameNo;
      }
      NowhereLeft(s, n);
      return 0;
    }

    /** The marking part of get_frames: head first, then the rest, then the count. */
    method Occupy(start: nat, n: nat)
      requires Valid() && n > 0 && AllFree(States(), start, n)
      modifies this`nFreeFrames, bitmap
      ensures Valid()
      ensures States() == Take(old(States()), start, n)
    {
      hide StatesOf, Take, AllFree, FreeCount;
      ghost var s := States();
      TakeCount(s, start, n);
      AllFreeFits(s, start, n);
      TakeFirst(s, start);
      SetState(start, HoS);
      var i := 1;
      while i < n
        modifies bitmap
        invariant 1 <= i <= n
        invariant States() == Take(s, start, i)
      {
        TakeStep(s, start, i);
        SetState(start + i, Used);
        i := i + 1;
      }
      nFreeFrames := nFreeFrames - n;
    }

    method MarkInaccessible(first: nat, n: nat)
      requires Valid()
      modifies this`nFreeFrames, bitmap
      ensures Valid()
      ensures States() == Marked(old(States()), baseFrameNo, first, n)
    {
      hide StatesOf, Marked, FreeCount;
      var fno := first;
      ghost var s := States();
      MarkedFirst(s, baseFrameNo, first);
      while fno < first + n
        invariant first <= fno <= first + n
        invariant Valid()
        invariant States() == Marked(s, baseFrameNo, first, fno - first)
      {
        MarkedStep(s, baseFrameNo, first, fno - first);
        if baseFrameNo <= fno && fno < baseFrameNo + nframes {
          var local := fno - baseFrameNo;
          var prev := GetState(local);
          var st := if fno == first then HoS else Used;
          FreeCountUpdate(States(), local, st);
          SetState(local, st);
          if prev == Free {
            nFreeFrames := nFreeFrames - 1;
          }
        }
        fno := fno + 1;
      }
    }

    /** The freeing part of release_frames: the head, then every Used frame up to the first other one. */
    method FreeExtent(local: nat)
      requires Valid() && local < nframes && States()[local] == HoS
      modifies this`nFreeFrames, bitmap
      ensures Valid()
      ensures States() == Release(old(States()), local)
    {
      hide StatesOf, Freed, FreeCount;
      ghost var s := States();
      FreedFirst(s, local);
      FreeCountUpdate(s, local, Free);
      SetState(local, Free);
      nFreeFrames := nFreeFrames + 1;
      var i := local + 1;
      while i < nframes
        invariant local < i <= nframes
        invariant Valid()
        invariant States() == Freed(s, local, i)
        invariant forall j :: local < j < i ==> s[j] == Used
      {
        FreedStep(s, local, i);
        if GetState(i) == Used {
          FreeCountUpdate(States(), i, Free);
          SetState(i, Free);
          nFreeFrames := nFreeFrames + 1;
          i := i + 1;
        } else {
          break;
        }
      }
      RunEndIs(s, local + 1, i);
    }
  }

  lemma RunGrows(s: seq<FrameState>, start: nat, run: nat)
    requires start + run < |s| && AllFree(s, start, run) && s[start + run] == Free
    ensures AllFree(s, start, run + 1)
  {
  }

  lemma NoFrames(s: seq<FrameState>, at: nat)
    requires at <= |s|
    ensures AllFree(s, at, 0)
  {
  }

  /** A window of n frames that ends just before frame frameNo + 1 would make the run at least n long. */
  lemma NoneYet(s: seq<FrameState>, n: nat, frameNo: nat, run: nat)
    requires frameNo < |s| && run <= frameNo + 1 && run < n
    requires run == 0 ==> s[frameNo] != Free
    requires frameNo + 1 > run ==> s[frameNo - run] != Free
    requires forall t: nat :: t + n <= frameNo ==> !AllFree(s, t, n)
    ensures forall t: nat :: t + n <= frameNo + 1 ==> !AllFree(s, t, n)
  {
  }

  lemma NothingBelow(s: seq<FrameState>, n: nat, start: nat)
    requires n > 0 && AllFree(s, start, n)
    requires start > 0 ==> s[start - 1] != Free
    requires forall t: nat :: t + n <= start + n - 1 ==> !AllFree(s, t, n)
    ensures LowestWindow(s, n, start)
  {
  }

  lemma NowhereLeft(s: seq<FrameState>, n: nat)
    requires forall t: nat :: t + n <= |s| ==> !AllFree(s, t, n)
    ensures NoWindow(s, n)
  {
  }

  function InitialStates(base: nat, n: nat, info: nat): (s: seq<FrameState>)
    requires n > 0
  {
    var clear := seq(n, _ => Free);
    if info == 0 then clear[0 := HoS]
    else if base <= info < base + n then clear[info - base := HoS]
    else clear
  }

  /** Where a pool keeps its bitmap: in its first frame, unless it is given another one. */
  function BitmapFrame(base: nat, info: nat): nat {
    if info == 0 then base else info
  }

  /** A new pool has every frame free but the one that holds its bitmap. */
  lemma AllFreeButBitmap(base: nat, n: nat, info: nat, i: nat)
    requires i < n
    ensures |InitialStates(base, n, info)| == n
    ensures InitialStates(base, n, info)[i] == Free <==> base + i != BitmapFrame(base, info)
    ensures InitialStates(base, n, info)[i] != Used
    ensures WellFormed(InitialStates(base, n, info))
  {
  }

  /** The static list head that all pools share. */
  class PoolList {
    var head: ContFramePool?
    ghost var pools: seq<ContFramePool>

    ghost predicate Valid()
      reads this, pools, set p | p in pools :: p.bitmap
    {
      && Linked()
      && Separate()
      && forall p :: p in pools ==> p.Valid()
    }

    ghost predicate Linked()
      reads this
    {
      && head == (if pools == [] then null else pools[0])
      && (pools != [] ==> pools[|pools| - 1].next == null)
      && forall i, j :: 0 <= i < j < |pools| && j == i + 1 ==> pools[i].next == pools[j]
    }

    /** The pools have bitmaps of their own and disjoint ranges of frames. */
    ghost predicate Separate()
      reads this
    {
      forall p, q :: p in pools && q in pools && p != q ==>
        p.bitmap != q.bitmap && forall frame :: !(p.Contains(frame) && q.Contains(frame))
    }

    ghost predicate Apart(base: nat, n: nat)
      reads this
    {
      forall p :: p in pools ==> p.baseFrameNo + p.nframes <= base || base + n <= p.baseFrameNo
    }

    constructor ()
      ensures Valid() && pools == []
    {
      head := null;
      pools := [];
    }

    /** The constructor's last step: a new pool goes to the front. */
    method Insert(p: ContFramePool)
      requires Valid() && p !in pools && p.Valid() && p.next == head
      requires Apart(p.baseFrameNo, p.nframes) && forall q :: q in pools ==> q.bitmap != p.bitmap
      modifies this
      ensures Valid() && pools == [p] + old(pools)
    {
      ghost var was := pools;
      head := p;
      pools := [p] + pools;
      assert forall i :: 0 < i < |pools| ==> pools[i] == was[i - 1];
      assert forall q :: q in pools ==> q == p || q in was;
    }

    /**
     Frees the extent that starts at a frame, in the pool that the frame belongs to, and leaves
     every other pool alone. It is refused (the assertion fires) exactly when no pool has the
     frame as the head of an extent.
     */
    method ReleaseFrames(frame: nat) returns (ok: bool)
      requires Valid()
      modifies set p | p in pools :: p, set p | p in pools :: p.bitmap
      ensures Valid() && pools == old(pools)
      ensures ok <==> old(exists p :: p in pools && p.Contains(frame) && p.States()[frame - p.baseFrameNo] == HoS)
      ensures forall p :: p in pools ==>
        p.States() == old(if ok && p.Contains(frame) then Release(p.States(), frame - p.baseFrameNo) else p.States())
    {
      hide StatesOf, Release, FreeCount;
      var pool := head;
      ghost var k := 0;
      while pool != null
        modifies {}
        invariant k <= |pools|
        invariant Linked()
        invariant pool == if k < |pools| then pools[k] else null
        invariant forall i :: 0 <= i < k ==> !pools[i].Contains(frame)
        decreases |pools| - k
      {
        if pool.Contains(frame) {
          break;
        }
        assert k + 1 < |pools| ==> pools[k].next == pools[k + 1];
        pool := pool.next;
        k := k + 1;
      }
      if pool == null {
        return false;
      }
      assert pools[k] in pools;
      var local := frame - pool.baseFrameNo;
      if pool.GetState(local) != HoS {
        return false;
      }
      pool.FreeExtent(local);
      return true;
    }
  }
}
