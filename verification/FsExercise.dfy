/**
 The kernel's own exercise of the file system, round after round: two files are created, written, closed,
 opened again, rewound, read and deleted. Every answer it asserts is the one it gets.
 */
module FsExercise {
  import opened Bytes
  import opened FsState
  import opened FsLayout
  import opened FsMeaning
  import opened FsMachine
  import opened FsTheorems
  import opened FsSpace
  import opened FsScripts

  // ----- permitted scripts, one after the other -----

  ghost predicate Leads(n: nat, v: View, ops: seq<Op>, rs: seq<Reply>, w: View) {
    PermittedRun(n, v, ops) && Replies(n, v, ops) == rs && After(n, v, ops) == w
  }

  lemma LeadsOne(n: nat, v: View, op: Op)
    requires Permitted(n, v, op)
    ensures Leads(n, v, [op], [Next(n, v, op).1], Next(n, v, op).0)
  {
    hide Permitted, Next;
    var w := Next(n, v, op).0;
    assert [op][1..] == [];
    assert PermittedRun(n, w, []) && Replies(n, w, []) == [] && After(n, w, []) == w;
    assert PermittedRun(n, v, [op]);
    assert Replies(n, v, [op]) == [Next(n, v, op).1] + Replies(n, w, []);
    assert After(n, v, [op]) == After(n, w, []);
  }

  lemma {:induction false} LeadsOn(n: nat, v: View, a: seq<Op>, rs: seq<Reply>, w: View,
          b: seq<Op>, ss: seq<Reply>, x: View)
    requires Leads(n, v, a, rs, w) && Leads(n, w, b, ss, x)
    ensures Leads(n, v, a + b, rs + ss, x)
    decreases |a|
  {
    hide Permitted, Next;
    if a == [] {
      assert a + b == b && rs + ss == ss;
    } else {
      var (u, r) := Next(n, v, a[0]);
      assert (a + b)[0] == a[0] && (a + b)[1..] == a[1..] + b;
      LeadsOn(n, u, a[1..], Replies(n, u, a[1..]), w, b, ss, x);
      assert rs == [r] + Replies(n, u, a[1..]);
      assert Replies(n, v, a + b) == [r] + Replies(n, u, a[1..] + b);
      assert rs + ss == [r] + (Replies(n, u, a[1..]) + ss);
    }
  }

  // ----- two files -----

  /** Files 1 and 2 and no other. */
  function Pair(i: int, f: AFile, j: int, g: AFile): Files {
    map[i := f, j := g]
  }

  lemma PairSpace(i: int, f: AFile, j: int, g: AFile)
    requires i != j
    ensures Space(map[]) == 0 && Space(map[i := f]) == Cost(f) && Space(Pair(i, f, j, g)) == Cost(f) + Cost(g)
    ensures |map[i := f]| == 1
  {
    hide Cost;
    var none: Files := map[];
    SpaceUpdate(none, i, f);
    SpaceUpdate(map[i := f], j, g);
    assert none[i := f] == map[i := f] && none - {i} == none;
    assert map[i := f][j := g] == Pair(i, f, j, g) && map[i := f] - {j} == map[i := f];
    assert none.Keys == {};
    assert map[i := f].Keys == {i};
  }

  function Fresh(): AFile {
    AFile([], None)
  }

  lemma Creates(n: nat, i: int, j: int)
    requires i != j && n >= 4 && -0x8000_0000 <= i < 0x8000_0000 && -0x8000_0000 <= j < 0x8000_0000
    ensures Leads(n, View(map[], {}), [Create(i)] + [Create(j)], [Flag(true)] + [Flag(true)],
                  View(Pair(i, Fresh(), j, Fresh()), {}))
  {
    hide Leads, Space, Replies, After, PermittedRun;
    PairSpace(i, Fresh(), j, Fresh());
    var none: Files := map[];
    var v0, v1 := View(none, {}), View(map[i := Fresh()], {});
    assert CanCreate(n, none, i) && none[i := Fresh()] == v1.files;
    assert CanCreate(n, v1.files, j) && v1.files[j := Fresh()] == Pair(i, Fresh(), j, Fresh());
    LeadsOne(n, v0, Create(i));
    LeadsOne(n, v1, Create(j));
    LeadsOn(n, v0, [Create(i)], [Flag(true)], v1, [Create(j)], [Flag(true)], View(Pair(i, Fresh(), j, Fresh()), {}));
  }

  lemma Opens(n: nat, v: View, i: int, j: int, c: seq<byte>, d: seq<byte>)
    requires i != j && v == View(Pair(i, AFile(c, None), j, AFile(d, None)), {})
    ensures Leads(n, v, [Open(i)] + [Open(j)], [Done] + [Done],
                  View(Pair(i, AFile(c, Some(0)), j, AFile(d, Some(0))), {}))
  {
    hide Leads, Space, Replies, After, PermittedRun;
    var w := View(Pair(i, AFile(c, Some(0)), j, AFile(d, None)), {});
    var x := View(Pair(i, AFile(c, Some(0)), j, AFile(d, Some(0))), {});
    LeadsOne(n, v, Open(i));
    assert Next(n, v, Open(i)).0.files == w.files;
    LeadsOne(n, w, Open(j));
    assert Next(n, w, Open(j)).0.files == x.files;
    LeadsOn(n, v, [Open(i)], [Done], w, [Open(j)], [Done], x);
  }

  lemma Shuts(n: nat, v: View, i: int, j: int, c: seq<byte>, d: seq<byte>)
    requires i != j && |c| <= MAX_FILE_SIZE && |d| <= MAX_FILE_SIZE && v.unsaved <= {i, j}
    requires v.files == Pair(i, AFile(c, Some(|c|)), j, AFile(d, Some(|d|)))
    ensures Leads(n, v, [Close(j)] + [Close(i)], [Done] + [Done], View(Pair(i, AFile(c, None), j, AFile(d, None)), {}))
  {
    hide Leads, Space, Replies, After, PermittedRun;
    var w := View(Pair(i, AFile(c, Some(|c|)), j, AFile(d, None)), v.unsaved - {j});
    var x := View(Pair(i, AFile(c, None), j, AFile(d, None)), {});
    LeadsOne(n, v, Close(j));
    assert Next(n, v, Close(j)).0.files == w.files;
    LeadsOne(n, w, Close(i));
    assert Next(n, w, Close(i)).0.files == x.files && v.unsaved - {j} - {i} == {};
    LeadsOn(n, v, [Close(j)], [Done], w, [Close(i)], [Done], x);
  }

  lemma Deletes(n: nat, v: View, i: int, j: int, c: seq<byte>, d: seq<byte>)
    requires i != j && v == View(Pair(i, AFile(c, None), j, AFile(d, None)), {})
    ensures Leads(n, v, [Delete(i)] + [Delete(j)], [Flag(true)] + [Flag(true)], View(map[], {}))
  {
    hide Leads, Space, Replies, After, PermittedRun;
    var w := View(map[j := AFile(d, None)], {});
    LeadsOne(n, v, Delete(i));
    assert Next(n, v, Delete(i)).0.files == w.files;
    LeadsOne(n, w, Delete(j));
    assert Next(n, w, Delete(j)).0.files == map[];
    LeadsOn(n, v, [Delete(i)], [Flag(true)], w, [Delete(j)], [Flag(true)], View(map[], {}));
  }

  lemma WritesOne(n: nat, v: View, id: int, d: seq<byte>)
    requires id in v.files && v.files[id] == AFile([], Some(0)) && 0 < |d| <= 65536
    requires Space(v.files) + BlocksFor(|d|) + 2 <= n
    ensures Leads(n, v, [Write(id, d)], [Count(|d|)], View(v.files[id := AFile(d, Some(|d|))], v.unsaved + {id}))
  {
    hide Leads, Space, Replies, After, PermittedRun;
    assert d[..|d|] == d && Splice([], 0, d) == d;
    assert Growth(v.files, id, |d|) == BlocksFor(|d|);
    LeadsOne(n, v, Write(id, d));
  }

  lemma WritesBoth(n: nat, v: View, i: int, j: int, c: seq<byte>, d: seq<byte>)
    requires i != j && 0 < |c| <= 65536 && 0 < |d| <= 65536 && BlocksFor(|c|) + BlocksFor(|d|) + 4 <= n
    requires v == View(Pair(i, AFile([], Some(0)), j, AFile([], Some(0))), {})
    ensures Leads(n, v, [Write(i, c)] + [Write(j, d)], [Count(|c|)] + [Count(|d|)],
                  View(Pair(i, AFile(c, Some(|c|)), j, AFile(d, Some(|d|))), {i, j}))
  {
    hide Leads, Space, Replies, After, PermittedRun;
    var w := View(Pair(i, AFile(c, Some(|c|)), j, AFile([], Some(0))), {i});
    var x := View(Pair(i, AFile(c, Some(|c|)), j, AFile(d, Some(|d|))), {i, j});
    PairSpace(i, AFile([], Some(0)), j, AFile([], Some(0)));
    PairSpace(i, AFile(c, Some(|c|)), j, AFile([], Some(0)));
    WritesOne(n, v, i, c);
    assert v.files[i := AFile(c, Some(|c|))] == w.files && v.unsaved + {i} == {i};
    WritesOne(n, w, j, d);
    assert w.files[j := AFile(d, Some(|d|))] == x.files && {i} + {j} == {i, j};
    LeadsOn(n, v, [Write(i, c)], [Count(|c|)], w, [Write(j, d)], [Count(|d|)], x);
  }

  /** Rewound at its start, or not, and read to the end. */
  lemma RewindsOne(n: nat, v: View, id: int, d: seq<byte>)
    requires id in v.files && v.files[id] == AFile(d, Some(0)) && |d| <= 65536
    ensures Leads(n, v, [Rewind(id)], [Done], v)
  {
    hide Leads, Space, Replies, After, PermittedRun;
    LeadsOne(n, v, Rewind(id));
    assert v.files[id := AFile(d, Some(0))] == v.files;
  }

  lemma ReadsOne(n: nat, v: View, id: int, d: seq<byte>)
    requires id in v.files && v.files[id] == AFile(d, Some(0)) && |d| <= 65536 && v.unsaved == {}
    ensures Leads(n, v, [Read(id, |d|)], [Data(d)], View(v.files[id := AFile(d, Some(|d|))], {}))
  {
    hide Leads, Space, Replies, After, PermittedRun;
    LeadsOne(n, v, Read(id, |d|));
    assert d[0..|d|] == d && v.unsaved - {id} == {};
  }

  /** The small files are rewound and read one after the other, the large ones rewound first. */
  function Checks(large: bool, i: int, c: seq<byte>, j: int, d: seq<byte>): seq<Op> {
    if large then ([Rewind(i)] + [Rewind(j)]) + ([Read(i, |c|)] + [Read(j, |d|)])
    else ([Rewind(i)] + [Read(i, |c|)]) + ([Rewind(j)] + [Read(j, |d|)])
  }

  function CheckReplies(large: bool, c: seq<byte>, d: seq<byte>): seq<Reply> {
    if large then ([Done] + [Done]) + ([Data(c)] + [Data(d)]) else ([Done] + [Data(c)]) + ([Done] + [Data(d)])
  }

  lemma ChecksPass(n: nat, v: View, large: bool, i: int, c: seq<byte>, j: int, d: seq<byte>)
    requires i != j && |c| <= 65536 && |d| <= 65536
    requires v == View(Pair(i, AFile(c, Some(0)), j, AFile(d, Some(0))), {})
    ensures Leads(n, v, Checks(large, i, c, j, d), CheckReplies(large, c, d),
                  View(Pair(i, AFile(c, Some(|c|)), j, AFile(d, Some(|d|))), {}))
  {
    hide Leads;
    var w := View(Pair(i, AFile(c, Some(|c|)), j, AFile(d, Some(0))), {});
    var x := View(Pair(i, AFile(c, Some(|c|)), j, AFile(d, Some(|d|))), {});
    RewindsOne(n, v, i, c);
    ReadsOne(n, v, i, c);
    assert v.files[i := AFile(c, Some(|c|))] == w.files;
    ReadsOne(n, w, j, d);
    assert w.files[j := AFile(d, Some(|d|))] == x.files;
    if large {
      RewindsOne(n, v, j, d);
      LeadsOn(n, v, [Rewind(i)], [Done], v, [Rewind(j)], [Done], v);
      LeadsOn(n, v, [Read(i, |c|)], [Data(c)], w, [Read(j, |d|)], [Data(d)], x);
      LeadsOn(n, v, [Rewind(i)] + [Rewind(j)], [Done] + [Done], v,
              [Read(i, |c|)] + [Read(j, |d|)], [Data(c)] + [Data(d)], x);
    } else {
      RewindsOne(n, w, j, d);
      LeadsOn(n, v, [Rewind(i)], [Done], v, [Read(i, |c|)], [Data(c)], w);
      LeadsOn(n, w, [Rewind(j)], [Done], w, [Read(j, |d|)], [Data(d)], x);
      LeadsOn(n, v, [Rewind(i)] + [Read(i, |c|)], [Done] + [Data(c)], w,
              [Rewind(j)] + [Read(j, |d|)], [Done] + [Data(d)], x);
    }
  }

  /** One round: create, open, write, close, open, check, close, delete. */
  function Round(large: bool, i: int, c: seq<byte>, j: int, d: seq<byte>): seq<Op> {
    ([Create(i)] + [Create(j)]) + (([Open(i)] + [Open(j)]) + (([Write(i, c)] + [Write(j, d)])
    + (([Close(j)] + [Close(i)]) + (([Open(i)] + [Open(j)]) + (Checks(large, i, c, j, d)
    + (([Close(j)] + [Close(i)]) + ([Delete(i)] + [Delete(j)])))))))
  }

  function RoundReplies(large: bool, c: seq<byte>, d: seq<byte>): seq<Reply> {
    ([Flag(true)] + [Flag(true)]) + (([Done] + [Done]) + (([Count(|c|)] + [Count(|d|)])
    + (([Done] + [Done]) + (([Done] + [Done]) + (CheckReplies(large, c, d)
    + (([Done] + [Done]) + ([Flag(true)] + [Flag(true)])))))))
  }

  /** A round gets every answer it asserts, and leaves no file behind. */
  lemma RoundPasses(n: nat, large: bool, i: int, c: seq<byte>, j: int, d: seq<byte>)
    requires i != j && -0x8000_0000 <= i < 0x8000_0000 && -0x8000_0000 <= j < 0x8000_0000
    requires 0 < |c| <= 65536 && 0 < |d| <= 65536 && BlocksFor(|c|) + BlocksFor(|d|) + 4 <= n
    ensures Leads(n, View(map[], {}), Round(large, i, c, j, d), RoundReplies(large, c, d), View(map[], {}))
  {
    hide Leads, BlocksFor, Checks, CheckReplies;
    var none := View(map[], {});
    var made := View(Pair(i, Fresh(), j, Fresh()), {});
    var open := View(Pair(i, AFile([], Some(0)), j, AFile([], Some(0))), {});
    var full := View(Pair(i, AFile(c, Some(|c|)), j, AFile(d, Some(|d|))), {i, j});
    var shut := View(Pair(i, AFile(c, None), j, AFile(d, None)), {});
    var again := View(Pair(i, AFile(c, Some(0)), j, AFile(d, Some(0))), {});
    var done := View(Pair(i, AFile(c, Some(|c|)), j, AFile(d, Some(|d|))), {});
    var opens, ok := [Open(i)] + [Open(j)], [Done] + [Done];
    var shuts, yes := [Close(j)] + [Close(i)], [Flag(true)] + [Flag(true)];
    var deletes, checks := [Delete(i)] + [Delete(j)], Checks(large, i, c, j, d);
    Creates(n, i, j);
    Opens(n, made, i, j, [], []);
    WritesBoth(n, open, i, j, c, d);
    Shuts(n, full, i, j, c, d);
    Opens(n, shut, i, j, c, d);
    ChecksPass(n, again, large, i, c, j, d);
    Shuts(n, done, i, j, c, d);
    Deletes(n, shut, i, j, c, d);
    var ops, rs := shuts + deletes, ok + yes;
    LeadsOn(n, done, shuts, ok, shut, deletes, yes, none);
    LeadsOn(n, again, checks, CheckReplies(large, c, d), done, ops, rs, none);
    ops, rs := checks + ops, CheckReplies(large, c, d) + rs;
    LeadsOn(n, shut, opens, ok, again, ops, rs, none);
    ops, rs := opens + ops, ok + rs;
    LeadsOn(n, full, shuts, ok, shut, ops, rs, none);
    ops, rs := shuts + ops, ok + rs;
    LeadsOn(n, open, [Write(i, c)] + [Write(j, d)], [Count(|c|)] + [Count(|d|)], full, ops, rs, none);
    ops, rs := ([Write(i, c)] + [Write(j, d)]) + ops, ([Count(|c|)] + [Count(|d|)]) + rs;
    LeadsOn(n, made, opens, ok, open, ops, rs, none);
    LeadsOn(n, none, [Create(i)] + [Create(j)], yes, made, opens + ops, ok + rs, none);
  }

  // ----- the kernel's rounds -----

  /** One round: whether it checks as the large rounds do, the two ids and the bytes of each file. */
  datatype Trial = Trial(large: bool, i: int, c: seq<byte>, j: int, d: seq<byte>)

  predicate Fits(n: nat, t: Trial) {
    && t.i != t.j && -0x8000_0000 <= t.i < 0x8000_0000 && -0x8000_0000 <= t.j < 0x8000_0000
    && 0 < |t.c| <= 65536 && 0 < |t.d| <= 65536 && BlocksFor(|t.c|) + BlocksFor(|t.d|) + 4 <= n
  }

  function Script(ts: seq<Trial>): seq<Op> {
    if ts == [] then [] else Round(ts[0].large, ts[0].i, ts[0].c, ts[0].j, ts[0].d) + Script(ts[1..])
  }

  function Asserted(ts: seq<Trial>): seq<Reply> {
    if ts == [] then [] else RoundReplies(ts[0].large, ts[0].c, ts[0].d) + Asserted(ts[1..])
  }

  lemma {:induction false} RoundsPass(n: nat, ts: seq<Trial>)
    requires forall k :: 0 <= k < |ts| ==> Fits(n, ts[k])
    ensures Leads(n, View(map[], {}), Script(ts), Asserted(ts), View(map[], {}))
  {
    var none := View(map[], {});
    if ts == [] {
      assert Script(ts) == [] && Asserted(ts) == [];
    } else {
      hide Leads, Round, RoundReplies, BlocksFor;
      var t := ts[0];
      RoundPasses(n, t.large, t.i, t.c, t.j, t.d);
      RoundsPass(n, ts[1..]);
      LeadsOn(n, none, Round(t.large, t.i, t.c, t.j, t.d), RoundReplies(t.large, t.c, t.d), none,
              Script(ts[1..]), Asserted(ts[1..]), none);
    }
  }

  /** Any rounds whose two files fit on the disk pass, one after the other, from a formatted disk on. */
  lemma ExercisePasses(disk: seq<Block>, n: nat, ts: seq<Trial>) returns (end: Sys)
    requires 2 <= n <= 4064 && n <= |disk| && forall k :: 0 <= k < |ts| ==> Fits(n, ts[k])
    ensures HeaderSize(Get(Formatted(disk, n), FREELIST_BLOCK)) <= MAX_FS_BLOCKS
    ensures Run(Sys(Mounted(Formatted(disk, n)), map[]), Script(ts), Asserted(ts), end)
    ensures SysInv(end) && Abs(end) == map[] && end.open == map[]
  {
    hide Script, Asserted, Run, SysInv, Abs, Formatted, Mounted, HeaderSize, PermittedRun, Replies, After, SysShape;
    hide Balanced, AllTight, CachesFollow, Unsaved, Fits;
    var start := FormattedStart(disk, n);
    RoundsPass(n, ts);
    end := PermittedRuns(start, Script(ts));
    NoneOpen(end);
  }

  function Twice(s: seq<byte>): seq<byte> {
    s + s
  }

  function Digits(): seq<byte> {
    Twice([48, 49, 50, 51, 52, 53, 54, 55, 56, 57])
  }

  function Letters(): seq<byte> {
    Twice([97, 98, 99, 100, 101, 102, 103, 104, 105, 106])
  }

  /** 64 kB, byte k being the low byte of k times the factor, or of the distance to the last one. */
  function Pattern(factor: nat, backwards: bool): (s: seq<byte>)
    ensures |s| == 65536
  {
    seq(65536, k requires 0 <= k < 65536 => (factor * (if backwards then 65535 - k else k) % 256) as byte)
  }

  function SmallTrial(k: nat): Trial {
    if k % 2 == 0 then Trial(false, 1, Digits(), 2, Letters()) else Trial(false, 1, Letters(), 2, Digits())
  }

  function LargeTrial(k: nat): Trial {
    if k % 2 == 0 then Trial(true, 10, Pattern(1, false), 11, Pattern(1, true))
    else Trial(true, 10, Pattern(7, false), 11, Pattern(13, false))
  }

  /** The kernel formats 2048 blocks and goes through 30 rounds of small files and 30 of files of 64 kB. */
  function KernelTrials(): (ts: seq<Trial>)
    ensures |ts| == 60
  {
    seq(30, k requires 0 <= k < 30 => SmallTrial(k)) + seq(30, k requires 0 <= k < 30 => LargeTrial(k))
  }

  lemma TrialsFit(k: nat)
    ensures Fits(2048, SmallTrial(k)) && Fits(2048, LargeTrial(k))
  {
    hide Pattern;
  }

  /** All its assertions hold. */
  lemma KernelExercise(disk: seq<Block>) returns (end: Sys)
    requires |disk| >= 2048
    ensures HeaderSize(Get(Formatted(disk, 2048), FREELIST_BLOCK)) <= MAX_FS_BLOCKS
    ensures Run(Sys(Mounted(Formatted(disk, 2048)), map[]), Script(KernelTrials()), Asserted(KernelTrials()), end)
    ensures SysInv(end) && Abs(end) == map[] && end.open == map[]
  {
    hide Script, Asserted, Run, SysInv, Abs, Formatted, Mounted, HeaderSize, Fits, SmallTrial, LargeTrial;
    var ts := KernelTrials();
    forall k | 0 <= k < 60
      ensures Fits(2048, ts[k])
    {
      TrialsFit(k % 30);
      TrialAt(k);
    }
    end := ExercisePasses(disk, 2048, ts);
  }

  lemma TrialAt(k: nat)
    requires k < 60
    ensures KernelTrials()[k] == if k < 30 then SmallTrial(k % 30) else LargeTrial(k % 30)
  {
    hide SmallTrial, LargeTrial;
  }
}
