/**
 The bookkeeping of one virtual-memory pool: which page ranges are allocated and which are
 free. Allocation is first fit; release does not coalesce.
 */
module VmRegions {
  import opened Bytes

  const PAGE_SIZE: nat := 4096
  const MAX_REGIONS: nat := 256

  datatype Region = Region(base: nat, length: nat) {
    predicate Has(page: nat) {
      base <= page < base + length
    }
  }

  /** lo and total are the pool's first page and its number of pages; they never change. */
  datatype Pool = Pool(lo: nat, total: nat, live: seq<Region>, free: seq<Region>)

  /** What a pool operation does: it returns, or one of its assertions stops the kernel. */
  datatype Outcome<+T> = Done(pool: Pool, result: T) | Halt

  // ----- the operations -----

  /** Unsigned 32-bit rounding up: the addition can wrap. */
  function BytesToPages(bytes: nat): nat {
    (bytes + PAGE_SIZE - 1) % TWO32 / PAGE_SIZE
  }

  function RemoveAt(rs: seq<Region>, i: nat): seq<Region>
    requires i < |rs|
  {
    rs[..i] + rs[i + 1..]
  }

  /** The first region with room for need pages, or |rs|. */
  function FirstFit(rs: seq<Region>, need: nat): (i: nat)
    ensures i <= |rs|
    ensures i < |rs| ==> rs[i].length >= need
    ensures forall j :: 0 <= j < i ==> rs[j].length < need
  {
    if rs == [] then 0 else if rs[0].length >= need then 0 else 1 + FirstFit(rs[1..], need)
  }

  /** The first region that starts at page, or |rs|. */
  function StartingAt(rs: seq<Region>, page: nat): (i: nat)
    ensures i <= |rs|
    ensures i < |rs| ==> rs[i].base == page
    ensures forall j :: 0 <= j < i ==> rs[j].base != page
  {
    if rs == [] then 0 else if rs[0].base == page then 0 else 1 + StartingAt(rs[1..], page)
  }

  function NewPool(baseAddress: nat, size: nat): Pool {
    Pool(baseAddress / PAGE_SIZE, BytesToPages(size), [],
         [Region(baseAddress / PAGE_SIZE, BytesToPages(size))])
  }

  function Carve(free: seq<Region>, i: nat, need: nat): seq<Region>
    requires i < |free| && free[i].length >= need
  {
    var rest := Region(free[i].base + need, free[i].length - need);
    if rest.length == 0 then RemoveAt(free, i) else free[i := rest]
  }

  function Allocate(p: Pool, size: nat): Outcome<nat> {
    var need := BytesToPages(size);
    var i := FirstFit(p.free, need);
    if size == 0 || i == |p.free| then
      Done(p, 0)
    else if |p.live| >= MAX_REGIONS then
      Halt
    else
      Done(p.(live := p.live + [Region(p.free[i].base, need)], free := Carve(p.free, i, need)),
           p.free[i].base * PAGE_SIZE)
  }

  /** The bookkeeping part of release; the result is the region given back. */
  function Release(p: Pool, address: nat): Outcome<Region> {
    var i := StartingAt(p.live, address / PAGE_SIZE);
    if i == |p.live| || |p.free| >= MAX_REGIONS then
      Halt
    else
      Done(p.(live := RemoveAt(p.live, i), free := p.free + [p.live[i]]), p.live[i])
  }

  predicate Legitimate(p: Pool, page: nat) {
    exists i :: 0 <= i < |p.live| && p.live[i].Has(page)
  }

  predicate HasByte(p: Pool, address: nat) {
    Legitimate(p, address / PAGE_SIZE)
  }

  // ----- how often a page is covered -----

  function Cover(rs: seq<Region>, page: nat): nat {
    if rs == [] then 0 else (if rs[0].Has(page) then 1 else 0) + Cover(rs[1..], page)
  }

  lemma {:induction false} CoverConcat(a: seq<Region>, b: seq<Region>, page: nat)
    ensures Cover(a + b, page) == Cover(a, page) + Cover(b, page)
  {
    if a == [] {
      assert a + b == b;
    } else {
      assert (a + b)[1..] == a[1..] + b;
      CoverConcat(a[1..], b, page);
    }
  }

  lemma CoverOne(r: Region, page: nat)
    ensures Cover([r], page) == if r.Has(page) then 1 else 0
  {
    assert Cover([r][1..], page) == 0;
  }

  /** Splitting off one region. */
  lemma CoverAt(rs: seq<Region>, i: nat, page: nat)
    requires i < |rs|
    ensures Cover(rs, page) == Cover(RemoveAt(rs, i), page) + (if rs[i].Has(page) then 1 else 0)
  {
    assert rs == rs[..i] + ([rs[i]] + rs[i + 1..]);
    CoverConcat(rs[..i], [rs[i]] + rs[i + 1..], page);
    CoverConcat([rs[i]], rs[i + 1..], page);
    CoverConcat(rs[..i], rs[i + 1..], page);
    CoverOne(rs[i], page);
  }

  lemma CoverUpdate(rs: seq<Region>, i: nat, r: Region, page: nat)
    requires i < |rs|
    ensures Cover(rs[i := r], page) == Cover(RemoveAt(rs, i), page) + (if r.Has(page) then 1 else 0)
  {
    CoverAt(rs[i := r], i, page);
    assert RemoveAt(rs[i := r], i) == RemoveAt(rs, i);
  }

  lemma {:induction false} CoveredIff(rs: seq<Region>, page: nat)
    ensures Cover(rs, page) > 0 <==> exists i :: 0 <= i < |rs| && rs[i].Has(page)
  {
    if rs != [] {
      CoveredIff(rs[1..], page);
      if Cover(rs[1..], page) > 0 {
        var i :| 0 <= i < |rs[1..]| && rs[1..][i].Has(page);
        assert rs[i + 1].Has(page);
      } else if exists i :: 0 <= i < |rs| && rs[i].Has(page) {
        var i :| 0 <= i < |rs| && rs[i].Has(page);
        assert i > 0 ==> rs[1..][i - 1].Has(page);
      }
    }
  }

  // ----- the partition -----

  /** Every page of the pool lies in exactly one allocated or free region, and no other page in any. */
  ghost predicate Partition(p: Pool) {
    && (forall i :: 0 <= i < |p.live| ==> p.live[i].length > 0)
    && (p.total > 0 ==> forall i :: 0 <= i < |p.free| ==> p.free[i].length > 0)
    && forall page: nat ::
      Cover(p.live, page) + Cover(p.free, page) == if p.lo <= page < p.lo + p.total then 1 else 0
  }

  lemma NewPoolPartition(baseAddress: nat, size: nat)
    ensures Partition(NewPool(baseAddress, size))
  {
    var p := NewPool(baseAddress, size);
    forall page: nat
      ensures Cover(p.live, page) + Cover(p.free, page) == if p.lo <= page < p.lo + p.total then 1 else 0
    {
      CoverOne(p.free[0], page);
    }
  }

  lemma CarveCover(free: seq<Region>, i: nat, need: nat, page: nat)
    requires i < |free| && free[i].length >= need
    ensures Cover(free, page) ==
      Cover(Carve(free, i, need), page) + (if Region(free[i].base, need).Has(page) then 1 else 0)
  {
    var rest := Region(free[i].base + need, free[i].length - need);
    CoverAt(free, i, page);
    CoverUpdate(free, i, rest, page);
  }

  lemma CarveLengths(free: seq<Region>, i: nat, need: nat)
    requires i < |free| && free[i].length >= need
    requires forall j :: 0 <= j < |free| ==> free[j].length > 0
    ensures forall j :: 0 <= j < |Carve(free, i, need)| ==> Carve(free, i, need)[j].length > 0
  {
  }

  /** The size rounds up without wrapping, so the region has room for every requested byte. */
  lemma RoundsUpIff(size: nat)
    requires 0 < size < TWO32
    ensures BytesToPages(size) * PAGE_SIZE >= size <==> size <= TWO32 - PAGE_SIZE
    ensures size <= TWO32 - PAGE_SIZE ==> 0 < BytesToPages(size) && BytesToPages(size) * PAGE_SIZE < size + PAGE_SIZE
  {
    if size > TWO32 - PAGE_SIZE {
      assert (size + PAGE_SIZE - 1) % TWO32 == size + PAGE_SIZE - 1 - TWO32;
    }
  }

  ghost predicate Fits(p: Pool, size: nat) {
    exists i :: 0 <= i < |p.free| && p.free[i].length >= BytesToPages(size)
  }

  /**
   Allocation finds a region exactly when some free one is long enough. It hands out pages of the
   pool that were in no allocated region, and adds those pages and no others; a size that wraps
   around is answered with a region of no pages, and the table then no longer partitions the pool.
   */
  lemma AllocateMeaning(p: Pool, size: nat)
    requires Partition(p) && 0 < size < TWO32
    ensures Allocate(p, size).Halt? <==> Fits(p, size) && |p.live| >= MAX_REGIONS
    ensures !Fits(p, size) ==> Allocate(p, size) == Done(p, 0)
    ensures Fits(p, size) && |p.live| < MAX_REGIONS ==>
      var q := Allocate(p, size).pool;
      var r := Region(Allocate(p, size).result / PAGE_SIZE, BytesToPages(size));
      && Allocate(p, size).result % PAGE_SIZE == 0
      && (r.length > 0 ==> p.lo <= r.base && r.base + r.length <= p.lo + p.total)
      && (forall page: nat :: r.Has(page) ==> !Legitimate(p, page))
      && (forall page: nat :: Legitimate(q, page) <==> Legitimate(p, page) || r.Has(page))
      && q.live == p.live + [r]
      && (r.length > 0 <==> size <= TWO32 - PAGE_SIZE)
      && (Partition(q) <==> size <= TWO32 - PAGE_SIZE)
  {
    hide Partition, Legitimate, BytesToPages, Carve;
    RoundsUpIff(size);
    if Fits(p, size) && |p.live| < MAX_REGIONS {
      AllocateAdds(p, size);
      var q := Allocate(p, size).pool;
      if size > TWO32 - PAGE_SIZE {
        assert BytesToPages(size) == 0 by { WrapsToNothing(size); }
        EmptyRegion(q, |p.live|);
      }
    }
  }

  lemma WrapsToNothing(size: nat)
    requires TWO32 - PAGE_SIZE < size < TWO32
    ensures BytesToPages(size) == 0
  {
    assert (size + PAGE_SIZE - 1) % TWO32 == size + PAGE_SIZE - 1 - TWO32;
  }

  lemma EmptyRegion(p: Pool, i: nat)
    requires i < |p.live| && p.live[i].length == 0
    ensures !Partition(p)
  {
  }

  lemma AllocateAdds(p: Pool, size: nat)
    requires Partition(p) && 0 < size && |p.live| < MAX_REGIONS && Fits(p, size)
    ensures Allocate(p, size).Done?
    ensures BytesToPages(size) > 0 ==> Partition(Allocate(p, size).pool)
    ensures
      var q := Allocate(p, size).pool;
      var r := Region(Allocate(p, size).result / PAGE_SIZE, BytesToPages(size));
      && Allocate(p, size).result % PAGE_SIZE == 0
      && (r.length > 0 ==> p.lo <= r.base && r.base + r.length <= p.lo + p.total)
      && (forall page: nat :: r.Has(page) ==> !Legitimate(p, page))
      && (forall page: nat :: Legitimate(q, page) <==> Legitimate(p, page) || r.Has(page))
      && q.live == p.live + [r]
  {
    hide Cover, BytesToPages;
    var need := BytesToPages(size);
    var i := FirstFit(p.free, need);
    var q := Allocate(p, size).pool;
    var r := Region(p.free[i].base, need);
    forall page: nat
      ensures Cover(q.live, page) + Cover(q.free, page) == if p.lo <= page < p.lo + p.total then 1 else 0
      ensures r.Has(page) ==> p.lo <= page < p.lo + p.total && !Legitimate(p, page)
      ensures Legitimate(q, page) <==> Legitimate(p, page) || r.Has(page)
    {
      CarveCover(p.free, i, need, page);
      CoverConcat(p.live, [r], page);
      CoverOne(r, page);
      CoveredIff(p.live, page);
      CoveredIff(q.live, page);
    }
    if need > 0 {
      assert r.Has(r.base) && r.Has(r.base + r.length - 1);
    }
    if p.total > 0 {
      CarveLengths(p.free, i, need);
    }
  }

  /**
   Every byte of a successful allocation is legitimate exactly when the size rounds up without
   wrapping; a larger size is answered with the address of a region of no pages at all.
   */
  lemma AllocateCoversIff(p: Pool, size: nat)
    requires Partition(p) && 0 < size < TWO32 && Fits(p, size) && |p.live| < MAX_REGIONS
    ensures Allocate(p, size).Done?
    ensures size <= TWO32 - PAGE_SIZE <==>
      forall b: nat :: Allocate(p, size).result <= b < Allocate(p, size).result + size ==>
        HasByte(Allocate(p, size).pool, b)
  {
    RoundsUpIff(size);
    var q := Allocate(p, size).pool;
    var at := Allocate(p, size).result;
    if size <= TWO32 - PAGE_SIZE {
      AllocateAdds(p, size);
      var r := Region(at / PAGE_SIZE, BytesToPages(size));
      forall b: nat | at <= b < at + size
        ensures HasByte(q, b)
      {
        assert b < (r.base + r.length) * PAGE_SIZE;
        assert r.Has(b / PAGE_SIZE);
      }
    } else {
      assert BytesToPages(size) == 0;
      var i := FirstFit(p.free, 0);
      var r := Region(p.free[i].base, 0);
      CoverConcat(p.live, [r], r.base);
      CoverOne(r, r.base);
      CoveredIff(p.live, r.base);
      CoveredIff(q.live, r.base);
      EdgeOfPool(p, i);
      assert !HasByte(q, at);
    }
  }

  /** The first page of a free region is in no allocated region. */
  lemma EdgeOfPool(p: Pool, i: nat)
    requires Partition(p) && i < |p.free|
    ensures Cover(p.live, p.free[i].base) == 0
  {
    CoverAt(p.free, i, p.free[i].base);
  }

  /** Two allocated regions never start at the same page, so release finds the one it was asked for. */
  lemma StartsDistinct(p: Pool, i: nat, j: nat)
    requires Partition(p) && i < j < |p.live|
    ensures forall page: nat :: !(p.live[i].Has(page) && p.live[j].Has(page))
    ensures p.live[i].base != p.live[j].base
  {
    forall page: nat
      ensures !(p.live[i].Has(page) && p.live[j].Has(page))
    {
      CoverAt(p.live, j, page);
      CoverAt(RemoveAt(p.live, j), i, page);
      assert RemoveAt(p.live, j)[i] == p.live[i];
    }
    assert p.live[i].Has(p.live[i].base);
    assert p.live[j].Has(p.live[j].base);
  }

  /** Release takes away exactly the pages of the region that starts at the address. */
  lemma ReleaseMeaning(p: Pool, k: nat)
    requires Partition(p) && k < |p.live| && |p.free| < MAX_REGIONS
    ensures var r := p.live[k];
      && Release(p, r.base * PAGE_SIZE) == Done(p.(live := RemoveAt(p.live, k), free := p.free + [r]), r)
      && var q := Release(p, r.base * PAGE_SIZE).pool;
      && Partition(q)
      && forall page: nat :: Legitimate(q, page) <==> Legitimate(p, page) && !r.Has(page)
  {
    hide Cover;
    var r := p.live[k];
    var i := StartingAt(p.live, r.base);
    if i < k {
      StartsDistinct(p, i, k);
    }
    var q := Release(p, r.base * PAGE_SIZE).pool;
    forall page: nat
      ensures Cover(q.live, page) + Cover(q.free, page) == if p.lo <= page < p.lo + p.total then 1 else 0
      ensures Legitimate(q, page) <==> Legitimate(p, page) && !r.Has(page)
    {
      CoverAt(p.live, k, page);
      CoverConcat(p.free, [r], page);
      CoverOne(r, page);
      CoveredIff(p.live, page);
      CoveredIff(q.live, page);
    }
  }

  // ----- runs of one pool -----

  datatype PoolOp = AllocOp(size: nat) | ReleaseOp(address: nat)

  /** None once an assertion has stopped the kernel. */
  function PoolStep(p: Pool, op: PoolOp): Option<Pool> {
    match op
    case AllocOp(size) => (match Allocate(p, size) case Done(q, _) => Some(q) case Halt => None)
    case ReleaseOp(address) => (match Release(p, address) case Done(q, _) => Some(q) case Halt => None)
  }

  /** The caller asks for sizes that round up without wrapping and releases regions it holds. */
  predicate Proper(p: Pool, op: PoolOp) {
    match op
    case AllocOp(size) => size <= TWO32 - PAGE_SIZE
    case ReleaseOp(address) => exists i :: 0 <= i < |p.live| && p.live[i].base == address / PAGE_SIZE
  }

  predicate ProperRun(p: Pool, ops: seq<PoolOp>)
    decreases |ops|
  {
    ops == [] || (Proper(p, ops[0]) && (PoolStep(p, ops[0]).Some? ==> ProperRun(PoolStep(p, ops[0]).value, ops[1..])))
  }

  function PoolRun(p: Pool, ops: seq<PoolOp>): Option<Pool>
    decreases |ops|
  {
    if ops == [] then Some(p)
    else match PoolStep(p, ops[0])
      case None => None
      case Some(q) => PoolRun(q, ops[1..])
  }

  /** The number of successful allocations in a run. */
  function Successes(p: Pool, ops: seq<PoolOp>): nat
    decreases |ops|
  {
    if ops == [] then 0
    else match PoolStep(p, ops[0])
      case None => 0
      case Some(q) => (if |q.live| > |p.live| then 1 else 0) + Successes(q, ops[1..])
  }

  lemma PoolStepKeeps(p: Pool, op: PoolOp, budget: nat)
    requires Partition(p) && Proper(p, op) && |p.live| + |p.free| <= budget <= MAX_REGIONS
    ensures PoolStep(p, op).Some?
    ensures var q := PoolStep(p, op).value;
      && Partition(q) && q.lo == p.lo && q.total == p.total
      && |q.live| + |q.free| <= budget + if |q.live| > |p.live| then 1 else 0
  {
    match op {
      case AllocOp(size) =>
        if size > 0 {
          AllocateMeaning(p, size);
        }
      case ReleaseOp(address) =>
        var i := StartingAt(p.live, address / PAGE_SIZE);
        ReleaseMeaning(p, i);
    }
  }

  lemma {:induction false} RegionsSuffice(p: Pool, ops: seq<PoolOp>, budget: nat)
    requires Partition(p) && |p.live| + |p.free| <= budget && ProperRun(p, ops)
    requires budget + Successes(p, ops) <= MAX_REGIONS
    ensures PoolRun(p, ops).Some?
    ensures Partition(PoolRun(p, ops).value)
    ensures |PoolRun(p, ops).value.live| + |PoolRun(p, ops).value.free| <= budget + Successes(p, ops)
    decreases |ops|
  {
    if ops != [] {
      PoolStepKeeps(p, ops[0], budget);
      var q := PoolStep(p, ops[0]).value;
      RegionsSuffice(q, ops[1..], budget + if |q.live| > |p.live| then 1 else 0);
    }
  }

  /**
   In every proper run of a new pool with at most 255 successful allocations no region-table
   assertion fires, the regions always partition the pool, and their number is at most one
   more than the number of successful allocations.
   */
  lemma NewPoolSuffices(baseAddress: nat, size: nat, ops: seq<PoolOp>)
    requires ProperRun(NewPool(baseAddress, size), ops)
    requires Successes(NewPool(baseAddress, size), ops) < MAX_REGIONS
    ensures var p := NewPool(baseAddress, size);
      && PoolRun(p, ops).Some?
      && Partition(PoolRun(p, ops).value)
      && |PoolRun(p, ops).value.live| + |PoolRun(p, ops).value.free| <= 1 + Successes(p, ops)
  {
    NewPoolPartition(baseAddress, size);
    RegionsSuffice(NewPool(baseAddress, size), ops, 1);
  }
}
