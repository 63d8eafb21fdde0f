/**
 Many threads on disjoint stacks: whatever chain of threads runs in between, a thread that is
 switched back in finds the context it had when it switched away. New threads start as if they
 had been switched away from just before thread_start.
 */
module ThreadContexts {
  import opened ContextSwitch

  /** A stack's bytes: [lo, hi). */
  datatype Stack = Stack(lo: nat, hi: nat)

  /** Thread structures by address, and the contexts of the threads that do not run. */
  datatype World = World(cpu: Cpu, stacks: map<nat, Stack>, saved: map<nat, Context>)

  predicate Aligned(a: int) {
    a % 4 == 0
  }

  /** Stacks are disjoint, and no thread structure lies on a stack. */
  ghost predicate Layout(stacks: map<nat, Stack>) {
    && (forall t :: t in stacks ==> Aligned(t) && Aligned(stacks[t].lo) && Aligned(stacks[t].hi))
    && (forall t, u :: t in stacks && u in stacks && t != u ==>
      stacks[t].hi <= stacks[u].lo || stacks[u].hi <= stacks[t].lo)
    && (forall t, u :: t in stacks && u in stacks ==> t < stacks[u].lo || stacks[u].hi <= t)
  }

  /** The thread structure of t points to a frame on t's own stack that holds its context. */
  ghost predicate Parked(m: Mem, t: nat, stack: Stack, x: Context) {
    var s := Ld(m, t);
    Aligned(s) && stack.lo <= s && s + 68 <= stack.hi && FrameAt(m, s) == x
  }

  ghost predicate Inv(w: World) {
    && Layout(w.stacks)
    && w.cpu.cur in w.stacks
    && w.saved.Keys == w.stacks.Keys - {w.cpu.cur}
    && forall t :: t in w.saved ==> Parked(w.cpu.mem, t, w.stacks[t], w.saved[t])
  }

  lemma ParkedIs(w: World, t: nat)
    requires Inv(w) && t in w.saved
    ensures t in w.stacks && Parked(w.cpu.mem, t, w.stacks[t], w.saved[t])
  {
  }

  // ----- the running thread computes -----

  /**
   The words that the running thread must leave alone: the others' stacks and the thread
   structures of those that do not run.
   */
  ghost predicate Private(w: World, a: int) {
    exists t :: t in w.saved && t in w.stacks && (a == t || w.stacks[t].lo <= a < w.stacks[t].hi)
  }

  ghost predicate Computes(w: World, c: Cpu) {
    c.cur == w.cpu.cur && forall a {:trigger Ld(c.mem, a)} :: Private(w, a) ==> Ld(c.mem, a) == Ld(w.cpu.mem, a)
  }

  lemma ParkedStays(w: World, m: Mem, t: nat)
    requires Inv(w) && t in w.saved
    requires forall a {:trigger Ld(m, a)} ::
      a == t || w.stacks[t].lo <= a < w.stacks[t].hi ==> Ld(m, a) == Ld(w.cpu.mem, a)
    ensures Parked(m, t, w.stacks[t], w.saved[t])
  {
    hide FrameAt, Ld;
    ParkedIs(w, t);
    FrameDepends(w.cpu.mem, m, Ld(w.cpu.mem, t));
  }

  lemma ComputeKeeps(w: World, c: Cpu)
    requires Inv(w) && Computes(w, c)
    ensures Inv(w.(cpu := c))
  {
    hide Parked, Ld, FrameAt, Layout;
    forall t | t in w.saved
      ensures Parked(c.mem, t, w.stacks[t], w.saved[t])
    {
      forall a | a == t || w.stacks[t].lo <= a < w.stacks[t].hi
        ensures Ld(c.mem, a) == Ld(w.cpu.mem, a)
      {
        assert Private(w, a);
      }
      ParkedStays(w, c.mem, t);
    }
  }

  // ----- the running thread switches -----

  /** The call is made with room for the frame on the caller's own stack, for a thread that exists. */
  ghost predicate Calls(w: World) {
    && w.cpu.cur in w.stacks && Target(w.cpu) in w.stacks && Aligned(w.cpu.esp)
    && 64 <= w.cpu.esp
    && w.stacks[w.cpu.cur].lo <= w.cpu.esp - 64 && w.cpu.esp + 8 <= w.stacks[w.cpu.cur].hi
  }

  function Switch(w: World, status: nat): World {
    w.(cpu := Steps(w.cpu, 0, LENGTH, status),
       saved := w.saved[w.cpu.cur := CallContext(w.cpu, status)] - {Target(w.cpu)})
  }

  lemma StackApart(w: World, t: nat)
    requires Layout(w.stacks) && t in w.stacks && w.cpu.cur in w.stacks && t != w.cpu.cur
    ensures w.stacks[t].hi <= w.stacks[w.cpu.cur].lo || w.stacks[w.cpu.cur].hi <= w.stacks[t].lo
    ensures w.cpu.cur < w.stacks[t].lo || w.stacks[t].hi <= w.cpu.cur
    ensures t < w.stacks[w.cpu.cur].lo || w.stacks[w.cpu.cur].hi <= t
  {
  }

  lemma OwnStack(w: World)
    requires Layout(w.stacks) && Calls(w)
    ensures CanSave(w.cpu)
  {
    var u := w.cpu.cur;
    assert u < w.stacks[u].lo || w.stacks[u].hi <= u;
  }

  /** What the routine does to the world's memory and registers. */
  lemma SwitchEffect(w: World, status: nat)
    requires Inv(w) && Calls(w)
    ensures var r := Switch(w, status).cpu; var c := w.cpu;
      && r.cur == Target(c)
      && ContextOf(r) == (if Target(c) == c.cur then CallContext(c, status) else w.saved[Target(c)])
      && FrameAt(r.mem, c.esp - 64) == CallContext(c, status) && Ld(r.mem, c.cur) == c.esp - 64
      && forall a {:trigger Ld(r.mem, a)} ::
        a != c.cur && (a < c.esp - 64 || c.esp < a) ==> Ld(r.mem, a) == Ld(c.mem, a)
  {
    hide Steps, FrameAt, Ld, CallContext, Target;
    OwnStack(w);
    if Target(w.cpu) != w.cpu.cur {
      ParkedIs(w, Target(w.cpu));
      StackApart(w, Target(w.cpu));
    }
    SwitchMeaning(w.cpu, status);
  }

  lemma OthersParked(w: World, status: nat, t: nat)
    requires Inv(w) && Calls(w) && t in w.saved
    ensures Parked(Switch(w, status).cpu.mem, t, w.stacks[t], w.saved[t])
  {
    SwitchEffect(w, status);
    hide Steps, FrameAt, Ld, CallContext, Target, Parked;
    ParkedIs(w, t);
    StackApart(w, t);
    ParkedStays(w, Switch(w, status).cpu.mem, t);
  }

  /** A switch dispatches the target's saved context, saves the caller's, and disturbs nobody else's. */
  lemma SwitchKeeps(w: World, status: nat)
    requires Inv(w) && Calls(w)
    ensures Inv(Switch(w, status))
    ensures Switch(w, status).cpu.cur == Target(w.cpu)
    ensures ContextOf(Switch(w, status).cpu) ==
      if Target(w.cpu) == w.cpu.cur then CallContext(w.cpu, status) else w.saved[Target(w.cpu)]
  {
    hide Steps, FrameAt, Ld, CallContext, Target, Layout;
    SwitchEffect(w, status);
    var r := Switch(w, status);
    forall t | t in r.saved
      ensures Parked(r.cpu.mem, t, w.stacks[t], r.saved[t])
    {
      if t != w.cpu.cur {
        OthersParked(w, status, t);
      }
    }
  }

  // ----- chains -----

  datatype Event = Compute(c: Cpu) | Dispatch(status: nat)

  function Step(w: World, e: Event): World {
    match e
    case Compute(c) => w.(cpu := c)
    case Dispatch(status) => Switch(w, status)
  }

  ghost predicate Allowed(w: World, e: Event) {
    match e
    case Compute(c) => Computes(w, c)
    case Dispatch(_) => Calls(w)
  }

  ghost predicate AllowedRun(w: World, es: seq<Event>)
    decreases |es|
  {
    es == [] || (Allowed(w, es[0]) && AllowedRun(Step(w, es[0]), es[1..]))
  }

  function Run(w: World, es: seq<Event>): World
    decreases |es|
  {
    if es == [] then w else Run(Step(w, es[0]), es[1..])
  }

  /** No switch of the run goes to thread t. */
  predicate Avoids(w: World, es: seq<Event>, t: nat)
    decreases |es|
  {
    es == [] || ((es[0].Dispatch? ==> Target(w.cpu) != t) && Avoids(Step(w, es[0]), es[1..], t))
  }

  lemma StepKeeps(w: World, e: Event)
    requires Inv(w) && Allowed(w, e)
    ensures Inv(Step(w, e))
  {
    hide Inv, Switch, Computes, Calls;
    match e {
      case Compute(c) => ComputeKeeps(w, c);
      case Dispatch(status) => SwitchKeeps(w, status);
    }
  }

  lemma {:induction false} RunKeeps(w: World, es: seq<Event>)
    requires Inv(w) && AllowedRun(w, es)
    ensures Inv(Run(w, es))
    decreases |es|
  {
    hide Inv, Step, Allowed;
    if es != [] {
      StepKeeps(w, es[0]);
      RunKeeps(Step(w, es[0]), es[1..]);
    }
  }

  lemma StaysSaved(w: World, e: Event, t: nat)
    requires t in w.saved && t != w.cpu.cur && (e.Dispatch? ==> Target(w.cpu) != t)
    ensures t in Step(w, e).saved && Step(w, e).saved[t] == w.saved[t]
  {
    hide Steps, CallContext, Target;
  }

  /** A thread that is not switched to stays out, with the same saved context. */
  lemma {:induction false} StaysParked(w: World, es: seq<Event>, t: nat)
    requires Inv(w) && AllowedRun(w, es) && Avoids(w, es, t) && t in w.saved
    ensures t in Run(w, es).saved && Run(w, es).saved[t] == w.saved[t]
    ensures Run(w, es).cpu.cur != t
    decreases |es|
  {
    SavedIsOut(w, t);
    if es != [] {
      StepKeeps(w, es[0]);
      StaysSaved(w, es[0], t);
      hide Steps, CallContext, Target, Inv, Calls, Computes, Step;
      StaysParked(Step(w, es[0]), es[1..], t);
    }
  }

  lemma SavedIsOut(w: World, t: nat)
    requires Inv(w) && t in w.saved
    ensures t != w.cpu.cur
  {
  }

  /**
   The round trip. A thread switches away to another one; then any threads compute and switch
   among themselves, in any order and for any length of time; then one of them switches back.
   The thread finds its general and segment registers, its control flags, its stack pointer and
   its return address as they were at its call, and its whole flags word exactly when the routine's
   additions leave the status bits as they were.
   */
  lemma RoundTrip(w: World, status: nat, es: seq<Event>, back: nat)
    requires Inv(w) && Calls(w) && Target(w.cpu) != w.cpu.cur
    requires AllowedRun(Switch(w, status), es) && Avoids(Switch(w, status), es, w.cpu.cur)
    requires var u := Run(Switch(w, status), es); Calls(u) && Target(u.cpu) == w.cpu.cur
    ensures var r := Switch(Run(Switch(w, status), es), back);
      && Inv(r) && r.cpu.cur == w.cpu.cur
      && ContextOf(r.cpu) == CallContext(w.cpu, status)
      && r.cpu.g == w.cpu.g && r.cpu.sg == w.cpu.sg
      && Control(r.cpu.eflags) == Control(w.cpu.eflags)
      && (r.cpu.eflags == w.cpu.eflags <==> status % 64 == w.cpu.eflags % 64)
      && r.cpu.esp == w.cpu.esp + 4 && r.cpu.eip == Ld(w.cpu.mem, w.cpu.esp)
  {
    hide Inv, Calls, Steps, Target, Ld, Avoids, AllowedRun, Run;
    var v := Switch(w, status);
    SwitchKeeps(w, status);
    StaysParked(v, es, w.cpu.cur);
    RunKeeps(v, es);
    SwitchKeeps(Run(v, es), back);
    WithStatusTwice(w.cpu.eflags, status);
  }

  /** Thread 2000 calls with its carry flag set, to switch to thread 3000, which is about to switch back. */
  function TwoThreads(): World {
    var m: Mem := map[1000 := 500, 1004 := 3000, 3000 := 5000, 5072 := 2000];
    World(Cpu(General(1, 2, 3, 4, 5, 6, 7), Segments(KERNEL_DS, KERNEL_DS, 0, 0), 1000, 65, KERNEL_CS, 4096, 2000, m),
          map[2000 := Stack(800, 1200), 3000 := Stack(4800, 5200)], map[3000 := FrameAt(m, 5000)])
  }

  lemma TwoThreadsInv()
    ensures var w := TwoThreads();
      && Inv(w) && Calls(w) && Target(w.cpu) == 3000 && w.cpu.cur == 2000 && w.cpu.eflags == 65
      && w.stacks[3000] == Stack(4800, 5200) && w.saved[3000].esp == 5068
      && Ld(w.cpu.mem, 5072) == 2000 && w.cpu.esp == 1000
  {
    hide FrameAt, Layout;
    var w := TwoThreads();
    TwoStacks();
    FrameEsp(w.cpu.mem, 5000);
    assert Parked(w.cpu.mem, 3000, w.stacks[3000], w.saved[3000]);
  }

  lemma TwoStacks()
    ensures Layout(map[2000 := Stack(800, 1200), 3000 := Stack(4800, 5200)])
  {
    var stacks := map[2000 := Stack(800, 1200), 3000 := Stack(4800, 5200)];
    forall t, u | t in stacks && u in stacks
      ensures t != u ==> stacks[t].hi <= stacks[u].lo || stacks[u].hi <= stacks[t].lo
      ensures t < stacks[u].lo || stacks[u].hi <= t
      ensures Aligned(t) && Aligned(stacks[t].lo) && Aligned(stacks[t].hi)
    {
      WhichStack(t);
      WhichStack(u);
    }
  }

  lemma WhichStack(t: nat)
    requires t in map[2000 := Stack(800, 1200), 3000 := Stack(4800, 5200)]
    ensures (t == 2000 && map[2000 := Stack(800, 1200), 3000 := Stack(4800, 5200)][t] == Stack(800, 1200))
         || (t == 3000 && map[2000 := Stack(800, 1200), 3000 := Stack(4800, 5200)][t] == Stack(4800, 5200))
  {
  }

  lemma FrameEsp(m: Mem, s: int)
    ensures FrameAt(m, s).esp == s + 68
  {
  }

  lemma ThereCalls()
    ensures var v := Switch(TwoThreads(), 0);
      Inv(v) && Calls(v) && Target(v.cpu) == 2000 && v.stacks == TwoThreads().stacks
  {
    hide Steps, FrameAt, Inv, TwoThreads, Ld, CallContext;
    var w := TwoThreads();
    TwoThreadsInv();
    SwitchEffect(w, 0);
    SwitchKeeps(w, 0);
    SavedKeys(w);
    var v := Switch(w, 0);
    assert Ld(v.cpu.mem, 5072) == Ld(w.cpu.mem, 5072);
    assert v.cpu.esp == 5068 && v.cpu.cur == 3000;
  }

  lemma SavedKeys(w: World)
    requires Inv(w)
    ensures w.saved.Keys == w.stacks.Keys - {w.cpu.cur}
  {
  }

  /** For example: there and back at once, and the carry flag is gone. */
  lemma StatusLostExample()
    ensures Inv(TwoThreads()) && Calls(TwoThreads()) && Target(TwoThreads().cpu) == 3000
    ensures var v := Switch(TwoThreads(), 0); Inv(v) && Calls(v) && Target(v.cpu) == 2000
    ensures TwoThreads().cpu.cur == 2000 && TwoThreads().cpu.eflags == 65
    ensures Switch(Switch(TwoThreads(), 0), 0).cpu.cur == 2000 && Switch(Switch(TwoThreads(), 0), 0).cpu.eflags == 64
  {
    hide Steps, FrameAt, Inv, TwoThreads, Ld, Calls, Target, Switch, ContextOf;
    var w := TwoThreads();
    TwoThreadsInv();
    ThereCalls();
    var v := Switch(w, 0);
    assert Avoids(v, [], 2000) && AllowedRun(v, []) && Run(v, []) == v;
    RoundTrip(w, 0, [], 0);
    FlagsOf(Switch(v, 0).cpu, w.cpu);
  }

  lemma FlagsOf(r: Cpu, c: Cpu)
    requires ContextOf(r) == CallContext(c, 0) && c.eflags == 65
    ensures r.eflags == 64
  {
  }

  // ----- new threads -----

  /**
   The context that setup_context prepares: everything zero but the segments and the place to
   start, interrupts off.
   */
  function FreshContext(top: int, threadStart: nat): Context {
    Context(General(0, 0, 0, 0, 0, 0, 0), Segments(KERNEL_DS, KERNEL_DS, 0, 0), 0, KERNEL_CS, threadStart, top - 12)
  }

  /** A near return. */
  function Ret(c: Cpu): Cpu {
    c.(eip := Ld(c.mem, c.esp), esp := c.esp + 4)
  }

  /** Machine::enable_interrupts, after its assertion that interrupts are off. */
  function EnableInterrupts(c: Cpu): Cpu {
    c.(eflags := if InterruptsOn(c.eflags) then c.eflags else c.eflags + 64)
  }

  class Memory {
    var m: Mem

    constructor (contents: Mem)
      ensures m == contents
    {
      m := contents;
    }
  }

  /**
   What the constructor leaves in memory: the thread structure at address t points to a fresh frame,
   and above the frame lie the thread function, its return address and its argument.
   */
  ghost predicate SetUp(m: Mem, t: nat, stack: Stack, function_: nat, threadStart: nat, threadShutdown: nat) {
    && Ld(m, t) == stack.hi - 80
    && FrameAt(m, stack.hi - 80) == FreshContext(stack.hi, threadStart)
    && Ld(m, stack.hi - 12) == function_ && Ld(m, stack.hi - 8) == threadShutdown && Ld(m, stack.hi - 4) == 0
  }

  /** A thread structure in memory; the word at its address is the saved stack pointer. */
  class Thread {
    const memory: Memory
    const address: nat
    const stack: nat
    const stackSize: nat

    ghost function Esp(): nat
      reads memory
    {
      Ld(memory.m, address)
    }

    method PushWord(v: nat)
      requires Esp() >= 4 && address != Esp() - 4
      modifies memory
      ensures Esp() == old(Esp()) - 4 && Ld(memory.m, Esp()) == v
      ensures forall a {:trigger Ld(memory.m, a)} ::
        a != address && a != Esp() ==> Ld(memory.m, a) == Ld(old(memory.m), a)
    {
      var esp := Ld(memory.m, address) - 4;
      memory.m := St(memory.m, address, esp);
      memory.m := St(memory.m, esp, v);
    }

    /** A thread over a stack of at least 80 bytes; afterwards it is as if switched out at the start of thread_start. */
    constructor (mem: Memory, at: nat, base: nat, size: nat, function_: nat, threadStart: nat, threadShutdown: nat)
      requires size >= 80 && (at < base || base + size <= at)
      modifies mem
      ensures memory == mem && address == at && stack == base && stackSize == size
      ensures SetUp(mem.m, at, Stack(base, base + size), function_, threadStart, threadShutdown)
      ensures forall a {:trigger Ld(mem.m, a)} ::
        a != at && (a < base + size - 80 || base + size <= a) ==> Ld(mem.m, a) == Ld(old(mem.m), a)
    {
      memory, address, stack, stackSize := mem, at, base, size;
      new;
      memory.m := St(memory.m, address, base + size);
      SetupContext(function_, threadStart, threadShutdown);
    }

    method SetupContext(function_: nat, threadStart: nat, threadShutdown: nat)
      requires Esp() >= 80 && (address < Esp() - 80 || Esp() <= address)
      modifies memory
      ensures Esp() == old(Esp()) - 80
      ensures FrameAt(memory.m, Esp()) == FreshContext(old(Esp()), threadStart)
      ensures Ld(memory.m, old(Esp()) - 12) == function_
      ensures Ld(memory.m, old(Esp()) - 8) == threadShutdown
      ensures Ld(memory.m, old(Esp()) - 4) == 0
      ensures forall a {:trigger Ld(memory.m, a)} ::
        a != address && (a < Esp() || old(Esp()) <= a) ==> Ld(memory.m, a) == Ld(old(memory.m), a)
    {
      hide FrameAt, FreshContext, Ld, St;
      ghost var top := Esp();
      PushStart(function_, threadStart, threadShutdown);
      PushGeneral();
      ghost var m := memory.m;
      ghost var s := Esp();
      PushSegments();
      SameGeneral(m, memory.m, s);
      FreshFrame(memory.m, top, threadStart);
    }

    /** Argument, shutdown address, thread function; then flags, code segment, start address, error code and number. */
    method PushStart(function_: nat, threadStart: nat, threadShutdown: nat)
      requires Esp() >= 80 && (address < Esp() - 80 || Esp() <= address)
      modifies memory
      ensures Esp() == old(Esp()) - 32
      ensures Ld(memory.m, Esp() + 28) == 0 && Ld(memory.m, Esp() + 24) == threadShutdown
      ensures Ld(memory.m, Esp() + 20) == function_
      ensures Ld(memory.m, Esp() + 16) == 0 && Ld(memory.m, Esp() + 12) == KERNEL_CS
      ensures Ld(memory.m, Esp() + 8) == threadStart
      ensures forall a {:trigger Ld(memory.m, a)} ::
        a != address && (a < Esp() || old(Esp()) <= a) ==> Ld(memory.m, a) == Ld(old(memory.m), a)
    {
      hide Ld;
      PushFour(0, threadShutdown, function_, 0);
      PushFour(KERNEL_CS, threadStart, 0, 0);
    }

    method PushFour(v1: nat, v2: nat, v3: nat, v4: nat)
      requires Esp() >= 16 && (address < Esp() - 16 || Esp() <= address)
      modifies memory
      ensures Esp() == old(Esp()) - 16
      ensures Ld(memory.m, Esp() + 12) == v1 && Ld(memory.m, Esp() + 8) == v2
      ensures Ld(memory.m, Esp() + 4) == v3 && Ld(memory.m, Esp()) == v4
      ensures forall a {:trigger Ld(memory.m, a)} ::
        a != address && (a < Esp() || old(Esp()) <= a) ==> Ld(memory.m, a) == Ld(old(memory.m), a)
    {
      hide Ld;
      PushWord(v1);
      PushWord(v2);
      PushWord(v3);
      PushWord(v4);
    }

    /** eax, ecx, edx, ebx, then esp, ebp, esi, edi. */
    method PushGeneral()
      requires Esp() >= 48 && (address < Esp() - 48 || Esp() <= address)
      modifies memory
      ensures Esp() == old(Esp()) - 32
      ensures PoppedGeneral(memory.m, Esp()) == General(0, 0, 0, 0, 0, 0, 0)
      ensures forall a {:trigger Ld(memory.m, a)} ::
        a != address && (a < Esp() || old(Esp()) <= a) ==> Ld(memory.m, a) == Ld(old(memory.m), a)
    {
      hide Ld;
      PushFour(0, 0, 0, 0);
      PushFour(0, 0, 0, 0);
    }

    method PushSegments()
      requires Esp() >= 16 && (address < Esp() - 16 || Esp() <= address)
      modifies memory
      ensures Esp() == old(Esp()) - 16
      ensures FrameSegments(memory.m, Esp()) == Segments(KERNEL_DS, KERNEL_DS, 0, 0)
      ensures forall a {:trigger Ld(memory.m, a)} ::
        a != address && (a < Esp() || old(Esp()) <= a) ==> Ld(memory.m, a) == Ld(old(memory.m), a)
    {
      hide Ld;
      PushFour(KERNEL_DS, KERNEL_DS, 0, 0);
    }
  }

  lemma SameGeneral(m: Mem, k: Mem, s: int)
    requires forall a {:trigger Ld(k, a)} :: s <= a < s + 32 && (a - s) % 4 == 0 ==> Ld(k, a) == Ld(m, a)
    ensures PoppedGeneral(k, s) == PoppedGeneral(m, s)
  {
  }

  lemma FreshFrame(m: Mem, top: int, threadStart: nat)
    requires FrameGeneral(m, top - 80) == General(0, 0, 0, 0, 0, 0, 0)
    requires FrameSegments(m, top - 80) == Segments(KERNEL_DS, KERNEL_DS, 0, 0)
    requires Ld(m, top - 16) == 0 && Ld(m, top - 20) == KERNEL_CS && Ld(m, top - 24) == threadStart
    ensures FrameAt(m, top - 80) == FreshContext(top, threadStart)
  {
    FrameIs(m, top - 80);
  }

  /** A thread whose frame is fresh can be added to the world: it counts as parked. */
  lemma NewThreadParked(m: Mem, t: nat, stack: Stack, threadStart: nat)
    requires Ld(m, t) == stack.hi - 80 && stack.lo + 80 <= stack.hi && Aligned(stack.hi)
    requires FrameAt(m, stack.hi - 80) == FreshContext(stack.hi, threadStart)
    ensures Parked(m, t, stack, FreshContext(stack.hi, threadStart))
  {
  }

  /** Adding it keeps everybody else where they were. */
  lemma AddThreadKeeps(w: World, t: nat, stack: Stack, threadStart: nat)
    requires Inv(w) && t !in w.stacks && Layout(w.stacks[t := stack])
    requires Ld(w.cpu.mem, t) == stack.hi - 80 && stack.lo + 80 <= stack.hi
    requires FrameAt(w.cpu.mem, stack.hi - 80) == FreshContext(stack.hi, threadStart)
    ensures Inv(World(w.cpu, w.stacks[t := stack], w.saved[t := FreshContext(stack.hi, threadStart)]))
  {
    hide FrameAt, Ld, FreshContext, Parked;
    var stacks := w.stacks[t := stack];
    assert Aligned(stacks[t].hi);
    NewThreadParked(w.cpu.mem, t, stack, threadStart);
  }

  /** The world after the running thread has constructed a thread over a new stack, with memory m. */
  function Spawned(w: World, m: Mem, t: nat, stack: Stack, threadStart: nat): World {
    World(w.cpu.(mem := m), w.stacks[t := stack], w.saved[t := FreshContext(stack.hi, threadStart)])
  }

  /** Constructing a thread on memory that nobody uses disturbs nobody, and the new thread is parked. */
  lemma SpawnKeeps(w: World, m: Mem, t: nat, stack: Stack, function_: nat, threadStart: nat, threadShutdown: nat)
    requires Inv(w) && t !in w.stacks && Layout(w.stacks[t := stack]) && stack.lo + 80 <= stack.hi
    requires SetUp(m, t, stack, function_, threadStart, threadShutdown)
    requires forall a {:trigger Ld(m, a)} ::
      a != t && (a < stack.hi - 80 || stack.hi <= a) ==> Ld(m, a) == Ld(w.cpu.mem, a)
    ensures Inv(Spawned(w, m, t, stack, threadStart))
  {
    hide FrameAt, Ld, FreshContext, Parked, Layout;
    var c := w.cpu.(mem := m);
    forall a {:trigger Ld(c.mem, a)} | Private(w, a)
      ensures Ld(c.mem, a) == Ld(w.cpu.mem, a)
    {
      PrivateIsApart(w, t, stack, a);
    }
    ComputeKeeps(w, c);
    AddThreadKeeps(w.(cpu := c), t, stack, threadStart);
  }

  lemma PrivateIsApart(w: World, t: nat, stack: Stack, a: int)
    requires t !in w.stacks && Layout(w.stacks[t := stack]) && Private(w, a)
    ensures a != t && (a < stack.lo || stack.hi <= a)
  {
    var stacks := w.stacks[t := stack];
    var u :| u in w.saved && u in w.stacks && (a == u || w.stacks[u].lo <= a < w.stacks[u].hi);
    assert u in stacks && stacks[u] == w.stacks[u] && stacks[t] == stack;
  }

  // ----- a word of a thread's own stack -----

  /** While it runs, the thread leaves word a of its stack alone, and switches away from below it. */
  ghost predicate Respects(w: World, es: seq<Event>, t: nat, a: int)
    decreases |es|
  {
    es == [] ||
    (&& (w.cpu.cur == t ==>
          match es[0]
          case Compute(c) => Ld(c.mem, a) == Ld(w.cpu.mem, a)
          case Dispatch(_) => w.cpu.esp < a)
     && Respects(Step(w, es[0]), es[1..], t, a))
  }

  lemma StackWordOnce(w: World, e: Event, t: nat, a: int)
    requires Inv(w) && Allowed(w, e) && t in w.stacks && w.stacks[t].lo <= a < w.stacks[t].hi
    requires w.cpu.cur == t ==>
      match e
      case Compute(c) => Ld(c.mem, a) == Ld(w.cpu.mem, a)
      case Dispatch(_) => w.cpu.esp < a
    ensures Ld(Step(w, e).cpu.mem, a) == Ld(w.cpu.mem, a)
  {
    hide Steps, FrameAt, Ld, CallContext, Target, Parked;
    match e {
      case Compute(c) =>
        assert t != w.cpu.cur ==> Private(w, a);
      case Dispatch(status) =>
        SwitchEffect(w, status);
        StackOfCurrent(w);
        if t != w.cpu.cur {
          StackApart(w, t);
        }
    }
  }

  lemma StackOfCurrent(w: World)
    requires Inv(w)
    ensures w.cpu.cur in w.stacks
    ensures w.cpu.cur < w.stacks[w.cpu.cur].lo || w.stacks[w.cpu.cur].hi <= w.cpu.cur
  {
  }

  /** Nobody else ever touches it, so the word stays over any run. */
  lemma {:induction false} StackWordStays(w: World, es: seq<Event>, t: nat, a: int)
    requires Inv(w) && AllowedRun(w, es) && t in w.stacks && w.stacks[t].lo <= a < w.stacks[t].hi
    requires Respects(w, es, t, a)
    ensures Ld(Run(w, es).cpu.mem, a) == Ld(w.cpu.mem, a) && Run(w, es).stacks == w.stacks
    decreases |es|
  {
    if es != [] {
      StepKeeps(w, es[0]);
      StackWordOnce(w, es[0], t, a);
      hide Steps, CallContext, Target, Inv, Calls, Computes, Ld;
      StackWordStays(Step(w, es[0]), es[1..], t, a);
    }
  }

  /** A thread that is not switched to leaves everything alone. */
  lemma {:induction false} AvoidsRespects(w: World, es: seq<Event>, t: nat, a: int)
    requires Inv(w) && AllowedRun(w, es) && Avoids(w, es, t) && t in w.saved
    ensures Respects(w, es, t, a)
    decreases |es|
  {
    SavedIsOut(w, t);
    if es != [] {
      StepKeeps(w, es[0]);
      StaysSaved(w, es[0], t);
      hide Steps, CallContext, Target, Inv, Calls, Computes, Ld, Step;
      AvoidsRespects(Step(w, es[0]), es[1..], t, a);
    }
  }

  // ----- the life of a new thread -----

  /** thread_start: it enables interrupts and returns. */
  function Started(c: Cpu): Cpu {
    Ret(EnableInterrupts(c))
  }

  /**
   A new thread that is switched to enters thread_start with interrupts off; thread_start
   enables them and returns into the thread function, with its return address on top of the stack.
   */
  lemma FreshThreadRuns(c: Cpu, top: int, function_: nat, threadStart: nat)
    requires ContextOf(c) == FreshContext(top, threadStart) && Ld(c.mem, top - 12) == function_
    ensures c.eip == threadStart && !InterruptsOn(c.eflags)
    ensures InterruptsOn(Started(c).eflags) && Started(c).eip == function_ && Started(c).esp == top - 8
    ensures Started(c).cur == c.cur && Started(c).mem == c.mem
  {
  }

  /** A thread is constructed, and threads compute and switch, but not to it: its first switch is still to come. */
  lemma FreshThreadWaits(w: World, m: Mem, t: nat, stack: Stack, function_: nat, threadStart: nat,
                         threadShutdown: nat, es: seq<Event>)
    requires Inv(w) && t !in w.stacks && Layout(w.stacks[t := stack]) && stack.lo + 80 <= stack.hi
    requires SetUp(m, t, stack, function_, threadStart, threadShutdown)
    requires forall a {:trigger Ld(m, a)} ::
      a != t && (a < stack.hi - 80 || stack.hi <= a) ==> Ld(m, a) == Ld(w.cpu.mem, a)
    requires AllowedRun(Spawned(w, m, t, stack, threadStart), es)
    requires Avoids(Spawned(w, m, t, stack, threadStart), es, t)
    ensures var u := Run(Spawned(w, m, t, stack, threadStart), es);
      && Inv(u) && t in u.saved && u.saved[t] == FreshContext(stack.hi, threadStart)
      && t in u.stacks && u.stacks[t] == stack && u.cpu.cur != t
      && Ld(u.cpu.mem, stack.hi - 12) == function_ && Ld(u.cpu.mem, stack.hi - 8) == threadShutdown
  {
    hide Inv, Layout, Run, AllowedRun, Avoids, FrameAt, Ld, FreshContext, Respects;
    var v := Spawned(w, m, t, stack, threadStart);
    SpawnKeeps(w, m, t, stack, function_, threadStart, threadShutdown);
    StaysParked(v, es, t);
    RunKeeps(v, es);
    AvoidsRespects(v, es, t, stack.hi - 12);
    AvoidsRespects(v, es, t, stack.hi - 8);
    StackWordStays(v, es, t, stack.hi - 12);
    StackWordStays(v, es, t, stack.hi - 8);
  }

  /**
   The life of a thread, from its constructor to thread_shutdown. It is constructed; other threads
   run; one of them switches to it: it enters thread_start with interrupts off and then its function
   with interrupts on. From there it computes, switches away and comes back, among any others; when
   it comes to return from its function, it enters thread_shutdown.
   */
  lemma FreshThreadLives(w: World, m: Mem, t: nat, stack: Stack, function_: nat, threadStart: nat,
                         threadShutdown: nat, es: seq<Event>, status: nat, life: seq<Event>)
    requires Inv(w) && t !in w.stacks && Layout(w.stacks[t := stack]) && stack.lo + 80 <= stack.hi
    requires SetUp(m, t, stack, function_, threadStart, threadShutdown)
    requires forall a {:trigger Ld(m, a)} ::
      a != t && (a < stack.hi - 80 || stack.hi <= a) ==> Ld(m, a) == Ld(w.cpu.mem, a)
    requires AllowedRun(Spawned(w, m, t, stack, threadStart), es)
    requires Avoids(Spawned(w, m, t, stack, threadStart), es, t)
    requires var u := Run(Spawned(w, m, t, stack, threadStart), es); Calls(u) && Target(u.cpu) == t
    ensures var r := Switch(Run(Spawned(w, m, t, stack, threadStart), es), status);
      && Inv(r) && r.cpu.cur == t && r.cpu.eip == threadStart && !InterruptsOn(r.cpu.eflags)
      && var f := r.(cpu := Started(r.cpu));
        && Inv(f) && f.cpu.eip == function_ && InterruptsOn(f.cpu.eflags) && f.cpu.esp == stack.hi - 8
        && (AllowedRun(f, life) && Respects(f, life, t, stack.hi - 8) ==>
            var end := Run(f, life);
            && Inv(end)
            && (end.cpu.cur == t && end.cpu.esp == stack.hi - 8 ==> Ret(end.cpu).eip == threadShutdown))
  {
    hide Inv, Layout, Run, AllowedRun, Avoids, FrameAt, Ld, FreshContext, Respects, Steps, Calls, Target, InterruptsOn;
    hide CallContext, EnableInterrupts;
    FreshThreadWaits(w, m, t, stack, function_, threadStart, threadShutdown, es);
    var u := Run(Spawned(w, m, t, stack, threadStart), es);
    FirstSwitch(u, t, function_, threadStart, threadShutdown, status);
    var r := Switch(u, status);
    FreshThreadRuns(r.cpu, stack.hi, function_, threadStart);
    var f := r.(cpu := Started(r.cpu));
    ComputeKeeps(r, f.cpu);
    if AllowedRun(f, life) && Respects(f, life, t, stack.hi - 8) {
      RunKeeps(f, life);
      StackWordStays(f, life, t, stack.hi - 8);
    }
  }

  /** The switch to a thread leaves the words above its frame alone. */
  lemma FirstSwitch(u: World, t: nat, function_: nat, threadStart: nat, threadShutdown: nat, status: nat)
    requires Inv(u) && Calls(u) && Target(u.cpu) == t && t != u.cpu.cur
    requires t in u.saved && t in u.stacks && u.stacks[t].lo + 80 <= u.stacks[t].hi
    requires u.saved[t] == FreshContext(u.stacks[t].hi, threadStart)
    requires Ld(u.cpu.mem, u.stacks[t].hi - 12) == function_ && Ld(u.cpu.mem, u.stacks[t].hi - 8) == threadShutdown
    ensures var r := Switch(u, status);
      && Inv(r) && r.cpu.cur == t && r.stacks == u.stacks
      && ContextOf(r.cpu) == FreshContext(u.stacks[t].hi, threadStart)
      && Ld(r.cpu.mem, u.stacks[t].hi - 12) == function_ && Ld(r.cpu.mem, u.stacks[t].hi - 8) == threadShutdown
  {
    hide FrameAt, Ld, FreshContext, Steps, CallContext, Target, Parked, Layout;
    SwitchKeeps(u, status);
    StackWordOnce(u, Dispatch(status), t, u.stacks[t].hi - 12);
    StackWordOnce(u, Dispatch(status), t, u.stacks[t].hi - 8);
  }

  // ----- the frames in numbers -----

  /** The 68 bytes below a caller's argument, word by word from the lowest: the interrupt state of the handlers. */
  lemma SavedInNumbers(c: Cpu, status: nat)
    requires CanSave(c)
    ensures
      var m, s := Steps(c, 0, SAVED_AT, status).mem, c.esp - 64;
      && Ld(m, s) == c.sg.gs && Ld(m, s + 4) == c.sg.fs && Ld(m, s + 8) == c.sg.es && Ld(m, s + 12) == c.sg.ds
      && Ld(m, s + 16) == c.g.edi && Ld(m, s + 20) == c.g.esi && Ld(m, s + 24) == c.g.ebp
      && Ld(m, s + 32) == c.g.ebx && Ld(m, s + 36) == c.g.edx && Ld(m, s + 40) == c.g.ecx && Ld(m, s + 44) == c.g.eax
      && Ld(m, s + 56) == Ld(c.mem, c.esp) && Ld(m, s + 60) == 8 && Ld(m, s + 64) / 64 == c.eflags / 64
  {
    hide Steps, Ld;
    SaveMeaning(c, status);
    WithStatusTwice(c.eflags, status);
  }

  /** The 80 bytes at the top of a new stack: flags with interrupts off, the kernel's code and data segments. */
  lemma SetUpInNumbers(m: Mem, t: nat, stack: Stack, function_: nat, threadStart: nat, threadShutdown: nat)
    requires SetUp(m, t, stack, function_, threadStart, threadShutdown)
    ensures
      var s := stack.hi - 80;
      && Ld(m, t) == s && Ld(m, s) == 0 && Ld(m, s + 4) == 0 && Ld(m, s + 8) == 16 && Ld(m, s + 12) == 16
      && (forall k {:trigger Ld(m, s + 4 * k)} :: 4 <= k <= 11 && k != 7 ==> Ld(m, s + 4 * k) == 0)
      && Ld(m, s + 56) == threadStart && Ld(m, s + 60) == 8 && Ld(m, s + 64) == 0
      && Ld(m, s + 68) == function_ && Ld(m, s + 72) == threadShutdown && Ld(m, s + 76) == 0
  {
    hide Ld;
    var s := stack.hi - 80;
    assert FrameAt(m, s).g == General(0, 0, 0, 0, 0, 0, 0);
    forall k {:trigger Ld(m, s + 4 * k)} | 4 <= k <= 11 && k != 7
      ensures Ld(m, s + 4 * k) == 0
    {
      assert s + 4 * k == s + 16 || s + 4 * k == s + 20 || s + 4 * k == s + 24 || s + 4 * k == s + 32
        || s + 4 * k == s + 36 || s + 4 * k == s + 40 || s + 4 * k == s + 44;
    }
  }

  // ----- the processor -----

  class Processor {
    var c: Cpu

    constructor (start: Cpu)
      ensures c == start
    {
      c := start;
    }

    /**
     threads_low_switch_to: executes the routine instruction by instruction, or its short form when
     no thread runs yet.
     */
    method SwitchTo(status: nat)
      modifies this
      ensures c == if old(c).cur == 0 then FirstDispatch(old(c), status) else Steps(old(c), 0, LENGTH, status)
    {
      hide Exec;
      var n := 0;
      if c.cur == 0 {
        c := SetEax(c, Target(c));
        n := 19;
      }
      ghost var entry := c;
      ghost var from := n;
      while n < LENGTH
        invariant from <= n <= LENGTH
        invariant c == Steps(entry, from, n, status)
      {
        StepsOne(entry, from, n, status);
        c := Exec(c, n, status);
        n := n + 1;
      }
    }
  }
}
