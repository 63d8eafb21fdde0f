/**
 threads_low_switch_to, instruction by instruction: what a switch saves, what it restores,
 and where an interrupt in the middle of it destroys the saved context.
 */
module ContextSwitch {

  const KERNEL_CS: nat := 0x08
  const KERNEL_DS: nat := 0x10

  /** Memory as 4-byte words by address. */
  type Mem = map<nat, nat>

  function Ld(m: Mem, a: int): nat {
    if a >= 0 && a in m then m[a] else 0
  }

  function St(m: Mem, a: int, v: nat): Mem {
    if a >= 0 then m[a := v] else m
  }

  datatype General = General(eax: nat, ecx: nat, edx: nat, ebx: nat, ebp: nat, esi: nat, edi: nat)

  datatype Segments = Segments(ds: nat, es: nat, fs: nat, gs: nat)

  /** cur is the variable _current_thread. */
  datatype Cpu = Cpu(g: General, sg: Segments, esp: int, eflags: nat, cs: nat, eip: nat, cur: nat, mem: Mem)

  /** A flags word is kept with its six arithmetic status bits lowest, so that the control flags are the rest. */
  function Control(eflags: nat): nat {
    eflags / 64
  }

  /** The interrupt flag is the lowest control flag. */
  predicate InterruptsOn(eflags: nat) {
    Control(eflags) % 2 == 1
  }

  /** Arithmetic leaves new status bits and keeps the control flags. */
  function WithStatus(eflags: nat, status: nat): nat {
    Control(eflags) * 64 + status % 64
  }

  function Push(c: Cpu, v: nat): Cpu {
    c.(esp := c.esp - 4, mem := St(c.mem, c.esp - 4, v))
  }

  function Top(c: Cpu): nat {
    Ld(c.mem, c.esp)
  }

  function Drop(c: Cpu): Cpu {
    c.(esp := c.esp + 4)
  }

  function Low(a: int): nat {
    if a >= 0 then a else 0
  }

  function Pushad(c: Cpu): Cpu {
    var c4 := Push(Push(Push(Push(c, c.g.eax), c.g.ecx), c.g.edx), c.g.ebx);
    Push(Push(Push(Push(c4, Low(c.esp)), c.g.ebp), c.g.esi), c.g.edi)
  }

  /** The saved stack pointer in the frame is skipped. */
  function PoppedGeneral(m: Mem, s: int): General {
    General(Ld(m, s + 28), Ld(m, s + 24), Ld(m, s + 20), Ld(m, s + 16), Ld(m, s + 8), Ld(m, s + 4), Ld(m, s))
  }

  function SetEax(c: Cpu, v: nat): Cpu {
    c.(g := c.g.(eax := v))
  }

  const SAVED_AT: nat := 18
  const LENGTH: nat := 28

  /** The comparison, and moving the return address down to make room for flags and code segment. */
  function ExecPrologue(c: Cpu, n: nat, status: nat): Cpu {
    if n == 0 then c.(eflags := WithStatus(c.eflags, status))
    else if n == 1 then Push(c, c.g.eax)
    else if n == 2 then SetEax(c, Ld(c.mem, c.esp + 4))
    else if n == 3 then c.(mem := St(c.mem, c.esp - 4, c.g.eax))
    else if n == 4 then c.(esp := c.esp + 8, eflags := WithStatus(c.eflags, status))
    else if n == 5 then Push(c, c.eflags)
    else if n == 6 then SetEax(c, Ld(c.mem, c.esp - 4))
    else if n == 7 then Push(c, KERNEL_CS)
    else c.(esp := c.esp - 4, eflags := WithStatus(c.eflags, status))
  }

  /** The fake error code and interrupt number, the registers, and the stack pointer into the thread structure. */
  function ExecSave(c: Cpu, n: nat): Cpu {
    if n == 9 || n == 10 then Push(c, 0)
    else if n == 11 then Pushad(c)
    else if n == 12 then Push(c, c.sg.ds)
    else if n == 13 then Push(c, c.sg.es)
    else if n == 14 then Push(c, c.sg.fs)
    else if n == 15 then Push(c, c.sg.gs)
    else if n == 16 then SetEax(c, c.cur)
    else c.(mem := St(c.mem, c.g.eax, Low(c.esp)))
  }

  /** The new thread and everything it gets back. */
  function ExecRestore(c: Cpu, n: nat, status: nat): Cpu {
    if n == 18 then SetEax(c, Ld(c.mem, c.esp + 68))
    else if n == 19 then c.(cur := c.g.eax)
    else if n == 20 then c.(esp := Ld(c.mem, c.g.eax))
    else if n == 21 then Drop(c.(sg := c.sg.(gs := Top(c))))
    else if n == 22 then Drop(c.(sg := c.sg.(fs := Top(c))))
    else if n == 23 then Drop(c.(sg := c.sg.(es := Top(c))))
    else if n == 24 then Drop(c.(sg := c.sg.(ds := Top(c))))
    else if n == 25 then c.(g := PoppedGeneral(c.mem, c.esp), esp := c.esp + 32)
    else if n == 26 then c.(esp := c.esp + 8, eflags := WithStatus(c.eflags, status))
    else c.(eip := Ld(c.mem, c.esp), cs := Ld(c.mem, c.esp + 4), eflags := Ld(c.mem, c.esp + 8), esp := c.esp + 12)
  }

  /** Instruction n of the routine; status is what its additions and comparisons leave in the status bits. */
  function Exec(c: Cpu, n: nat, status: nat): Cpu {
    if n < 9 then ExecPrologue(c, n, status) else if n < 18 then ExecSave(c, n) else ExecRestore(c, n, status)
  }

  /** Instructions from .. to, in order. */
  function Steps(c: Cpu, from: nat, to: nat, status: nat): Cpu
    requires from <= to
  {
    if from == to then c else Exec(Steps(c, from, to - 1, status), to - 1, status)
  }

  lemma {:induction false} StepsSplit(c: Cpu, from: nat, mid: nat, to: nat, status: nat)
    requires from <= mid <= to
    ensures Steps(c, from, to, status) == Steps(Steps(c, from, mid, status), mid, to, status)
  {
    hide Exec;
    if mid < to {
      StepsSplit(c, from, mid, to - 1, status);
    }
  }

  // ----- contexts -----

  /** What a thread finds again when it is switched back in. */
  datatype Context = Context(g: General, sg: Segments, eflags: nat, cs: nat, eip: nat, esp: int)

  function FrameGeneral(m: Mem, s: int): General {
    PoppedGeneral(m, s + 16)
  }

  function FrameSegments(m: Mem, s: int): Segments {
    Segments(Ld(m, s + 12), Ld(m, s + 8), Ld(m, s + 4), Ld(m, s))
  }

  /** The context that the 68-byte frame at address s holds. */
  function FrameAt(m: Mem, s: int): Context {
    Context(FrameGeneral(m, s), FrameSegments(m, s), Ld(m, s + 64), Ld(m, s + 60), Ld(m, s + 56), s + 68)
  }

  /** The context that the processor runs in. */
  function ContextOf(c: Cpu): Context {
    Context(c.g, c.sg, c.eflags, c.cs, c.eip, c.esp)
  }

  /**
   The context of a caller of the routine: its registers, the return address, the stack pointer
   with the return address gone. The additions before pushfd have already changed the status bits.
   */
  function CallContext(c: Cpu, status: nat): Context {
    Context(c.g, c.sg, WithStatus(c.eflags, status), KERNEL_CS, Ld(c.mem, c.esp), c.esp + 4)
  }

  /** A frame depends on its 17 words only. */
  lemma FrameDepends(m: Mem, k: Mem, s: int)
    requires forall a :: s <= a < s + 68 && (a - s) % 4 == 0 ==> Ld(m, a) == Ld(k, a)
    ensures FrameAt(m, s) == FrameAt(k, s)
  {
  }

  /** The caller has a thread, room for the frame below its return address, and its thread structure elsewhere. */
  predicate CanSave(c: Cpu) {
    64 <= c.esp && (c.cur < c.esp - 64 || c.esp + 8 <= c.cur)
  }

  // ----- saving -----

  lemma WithStatusTwice(e: nat, status: nat)
    ensures WithStatus(WithStatus(e, status), status) == WithStatus(e, status)
    ensures Control(WithStatus(e, status)) == Control(e)
  {
  }

  lemma LdSt(m: Mem, a: int, v: nat)
    requires a >= 0
    ensures Ld(St(m, a, v), a) == v
    ensures forall b {:trigger Ld(St(m, a, v), b)} :: b != a ==> Ld(St(m, a, v), b) == Ld(m, b)
  {
  }

  lemma PushIs(c: Cpu, v: nat)
    requires c.esp >= 4
    ensures var p := Push(c, v);
      && p == c.(esp := c.esp - 4, mem := p.mem)
      && Ld(p.mem, c.esp - 4) == v
      && forall b {:trigger Ld(p.mem, b)} :: b != c.esp - 4 ==> Ld(p.mem, b) == Ld(c.mem, b)
  {
  }

  lemma StepsOne(c: Cpu, from: nat, n: nat, status: nat)
    requires from <= n
    ensures Steps(c, from, from, status) == c
    ensures Steps(c, from, n + 1, status) == Exec(Steps(c, from, n, status), n, status)
  {
  }

  /** The first four instructions: the return address now also lies 8 bytes lower. */
  lemma MovedDown(c: Cpu, status: nat)
    requires CanSave(c)
    ensures Steps(c, 0, 4, status) ==
      c.(g := c.g.(eax := Ld(c.mem, c.esp)), esp := c.esp - 4, eflags := WithStatus(c.eflags, status),
         mem := St(St(c.mem, c.esp - 4, c.g.eax), c.esp - 8, Ld(c.mem, c.esp)))
  {
    hide Steps, WithStatus;
    StepsOne(c, 0, 0, status);
    StepsOne(c, 0, 1, status);
    StepsOne(c, 0, 2, status);
    StepsOne(c, 0, 3, status);
    var c1 := c.(eflags := WithStatus(c.eflags, status));
    assert Steps(c, 0, 1, status) == c1;
    var c2 := Push(c1, c.g.eax);
    assert Steps(c, 0, 2, status) == c2;
    assert Steps(c, 0, 3, status) == SetEax(c2, Ld(c.mem, c.esp));
  }

  /** The next five put the flags and the code segment above it and give eax its value back. */
  lemma FilledIn(c: Cpu, status: nat)
    requires 12 <= c.esp
    ensures Steps(c, 4, 9, status) ==
      c.(g := c.g.(eax := Ld(c.mem, c.esp)), esp := c.esp - 4,
         eflags := WithStatus(WithStatus(c.eflags, status), status),
         mem := St(St(c.mem, c.esp + 4, WithStatus(c.eflags, status)), c.esp, KERNEL_CS))
  {
    hide Steps, WithStatus, Ld, St;
    LdSt(c.mem, c.esp + 4, WithStatus(c.eflags, status));
    StepsOne(c, 4, 4, status);
    StepsOne(c, 4, 5, status);
    StepsOne(c, 4, 6, status);
    StepsOne(c, 4, 7, status);
    StepsOne(c, 4, 8, status);
    var c1 := c.(esp := c.esp + 8, eflags := WithStatus(c.eflags, status));
    assert Steps(c, 4, 5, status) == c1;
    var c2 := Push(c1, c1.eflags);
    assert Steps(c, 4, 6, status) == c2;
    var c3 := SetEax(c2, Ld(c.mem, c.esp));
    assert Steps(c, 4, 7, status) == c3;
    assert Steps(c, 4, 8, status) == Push(c3, KERNEL_CS);
  }

  /** Memory after the prologue: the eax slot is overwritten by the code segment. */
  function PrologueMem(m: Mem, e: int, eax: nat, flags: nat): Mem {
    St(St(St(St(m, e - 4, eax), e - 8, Ld(m, e)), e, flags), e - 4, KERNEL_CS)
  }

  lemma PrologueMemIs(m: Mem, e: int, eax: nat, flags: nat)
    requires e >= 8
    ensures var k := PrologueMem(m, e, eax, flags);
      && Ld(k, e) == flags && Ld(k, e - 4) == KERNEL_CS && Ld(k, e - 8) == Ld(m, e)
      && forall a {:trigger Ld(k, a)} :: a < e - 8 || e < a || (e - 8 < a < e && a != e - 4) ==> Ld(k, a) == Ld(m, a)
    ensures Ld(St(St(m, e - 4, eax), e - 8, Ld(m, e)), e - 4) == eax
  {
    hide Ld, St;
    var m1 := St(m, e - 4, eax);
    LdSt(m, e - 4, eax);
    var m2 := St(m1, e - 8, Ld(m, e));
    LdSt(m1, e - 8, Ld(m, e));
    var m3 := St(m2, e, flags);
    LdSt(m2, e, flags);
    LdSt(m3, e - 4, KERNEL_CS);
  }

  lemma PrologueState(c: Cpu, status: nat)
    requires CanSave(c)
    ensures Steps(c, 0, 9, status) ==
      c.(esp := c.esp - 8, eflags := WithStatus(c.eflags, status),
         mem := PrologueMem(c.mem, c.esp, c.g.eax, WithStatus(c.eflags, status)))
  {
    hide WithStatus, Steps, Ld, St, PrologueMem;
    WithStatusTwice(c.eflags, status);
    MovedDown(c, status);
    var d := Steps(c, 0, 4, status);
    FilledIn(d, status);
    StepsSplit(c, 0, 4, 9, status);
    PrologueMemIs(c.mem, c.esp, c.g.eax, WithStatus(c.eflags, status));
    PrologueMemOf(c.mem, c.esp, c.g.eax, WithStatus(c.eflags, status));
    var f := Steps(d, 4, 9, status);
    assert d.esp == c.esp - 4 && d.eflags == WithStatus(c.eflags, status);
    assert Ld(d.mem, d.esp) == c.g.eax;
    assert f.g == c.g && f.esp == c.esp - 8 && f.eflags == WithStatus(c.eflags, status);
  }

  lemma PrologueMemOf(m: Mem, e: int, eax: nat, flags: nat)
    ensures PrologueMem(m, e, eax, flags) == St(St(St(St(m, e - 4, eax), e - 8, Ld(m, e)), e, flags), e - 4, KERNEL_CS)
  {
  }

  /**
   The first nine instructions put flags, code segment and return address under the argument, and
   change no register but the stack pointer and the status bits.
   */
  lemma PrologueMeaning(c: Cpu, status: nat)
    requires CanSave(c)
    ensures var p := Steps(c, 0, 9, status);
      && p == c.(esp := c.esp - 8, eflags := WithStatus(c.eflags, status), mem := p.mem)
      && Ld(p.mem, c.esp) == WithStatus(c.eflags, status)
      && Ld(p.mem, c.esp - 4) == KERNEL_CS
      && Ld(p.mem, c.esp - 8) == Ld(c.mem, c.esp)
      && forall a {:trigger Ld(p.mem, a)} :: a < c.esp - 8 || c.esp < a ==> Ld(p.mem, a) == Ld(c.mem, a)
  {
    hide WithStatus, Steps, Ld, St, PrologueMem;
    PrologueState(c, status);
    PrologueMemIs(c.mem, c.esp, c.g.eax, WithStatus(c.eflags, status));
  }

  /** The next seven push the rest of the frame. */
  lemma PushesMeaning(c: Cpu, status: nat)
    requires 56 <= c.esp
    ensures var p := Steps(c, 9, 16, status);
      && p == c.(esp := c.esp - 56, mem := p.mem)
      && FrameGeneral(p.mem, c.esp - 56) == c.g && FrameSegments(p.mem, c.esp - 56) == c.sg
      && forall a {:trigger Ld(p.mem, a)} :: a < c.esp - 56 || c.esp <= a ==> Ld(p.mem, a) == Ld(c.mem, a)
  {
    hide Steps, Push, Pushad, St, Ld, WithStatus;
    forall n | 9 <= n < 16
      ensures Steps(c, 9, n + 1, status) == ExecSave(Steps(c, 9, n, status), n)
    {
      StepsOne(c, 9, n, status);
    }
    StepsOne(c, 9, 9, status);
    var c1 := Push(c, 0);
    PushIs(c, 0);
    assert Steps(c, 9, 10, status) == c1;
    var c2 := Push(c1, 0);
    PushIs(c1, 0);
    assert Steps(c, 9, 11, status) == c2;
    var c3 := Pushad(c2);
    PushadMeaning(c2);
    assert Steps(c, 9, 12, status) == c3;
    var c4 := Push(c3, c.sg.ds);
    PushIs(c3, c.sg.ds);
    assert Steps(c, 9, 13, status) == c4;
    var c5 := Push(c4, c.sg.es);
    PushIs(c4, c.sg.es);
    assert Steps(c, 9, 14, status) == c5;
    var c6 := Push(c5, c.sg.fs);
    PushIs(c5, c.sg.fs);
    assert Steps(c, 9, 15, status) == c6;
    PushIs(c6, c.sg.gs);
    assert Steps(c, 9, 16, status) == Push(c6, c.sg.gs);
  }

  lemma PushadMeaning(c: Cpu)
    requires 32 <= c.esp
    ensures var p := Pushad(c);
      && p == c.(esp := c.esp - 32, mem := p.mem)
      && PoppedGeneral(p.mem, c.esp - 32) == c.g
      && forall a {:trigger Ld(p.mem, a)} :: a < c.esp - 32 || c.esp <= a ==> Ld(p.mem, a) == Ld(c.mem, a)
  {
    hide Push, St, Ld;
    PushIs(c, c.g.eax);
    var c1 := Push(c, c.g.eax);
    PushIs(c1, c.g.ecx);
    var c2 := Push(c1, c.g.ecx);
    PushIs(c2, c.g.edx);
    var c3 := Push(c2, c.g.edx);
    PushIs(c3, c.g.ebx);
    var c4 := Push(c3, c.g.ebx);
    PushIs(c4, Low(c.esp));
    var c5 := Push(c4, Low(c.esp));
    PushIs(c5, c.g.ebp);
    var c6 := Push(c5, c.g.ebp);
    PushIs(c6, c.g.esi);
    var c7 := Push(c6, c.g.esi);
    PushIs(c7, c.g.edi);
  }

  /** Instructions 16 and 17 record the stack pointer in the thread structure. */
  lemma RecordMeaning(c: Cpu, status: nat)
    requires 0 <= c.esp
    ensures Steps(c, 16, 18, status) == c.(g := c.g.(eax := c.cur), mem := St(c.mem, c.cur, c.esp))
  {
    StepsOne(c, 16, 16, status);
    StepsOne(c, 16, 17, status);
    hide Steps;
    assert Steps(c, 16, 17, status) == SetEax(c, c.cur);
  }

  /**
   After 18 instructions the caller's context lies in the frame just below its argument, the
   thread structure points to it, and no other word of memory has changed.
   */
  lemma SaveMeaning(c: Cpu, status: nat)
    requires CanSave(c)
    ensures var p := Steps(c, 0, SAVED_AT, status);
      && FrameAt(p.mem, c.esp - 64) == CallContext(c, status)
      && Ld(p.mem, c.cur) == c.esp - 64
      && p.esp == c.esp - 64 && p.cur == c.cur
      && forall a {:trigger Ld(p.mem, a)} ::
        a != c.cur && (a < c.esp - 64 || c.esp < a) ==> Ld(p.mem, a) == Ld(c.mem, a)
  {
    hide Steps, WithStatus, St, Ld, FrameAt, FrameGeneral, FrameSegments;
    StepsSplit(c, 0, 9, 18, status);
    PrologueMeaning(c, status);
    var p := Steps(c, 0, 9, status);
    StepsSplit(p, 9, 16, 18, status);
    PushesMeaning(p, status);
    var q := Steps(p, 9, 16, status);
    RecordMeaning(q, status);
    LdSt(q.mem, q.cur, q.esp);
    var r := Steps(q, 16, 18, status);
    FrameIs(q.mem, c.esp - 64);
    FrameDepends(q.mem, r.mem, c.esp - 64);
  }

  lemma FrameIs(m: Mem, s: int)
    ensures FrameAt(m, s) ==
      Context(FrameGeneral(m, s), FrameSegments(m, s), Ld(m, s + 64), Ld(m, s + 60), Ld(m, s + 56), s + 68)
  {
  }

  // ----- restoring -----

  /** From instruction 20 on: whatever context the frame of the new thread holds is what runs afterwards. */
  lemma RestoreMeaning(c: Cpu, status: nat)
    ensures var r := Steps(c, 20, LENGTH, status);
      && ContextOf(r) == FrameAt(c.mem, Ld(c.mem, c.g.eax))
      && r.mem == c.mem && r.cur == c.cur
  {
    hide Steps, WithStatus, Ld, PoppedGeneral;
    forall n | 20 <= n < LENGTH
      ensures Steps(c, 20, n + 1, status) == ExecRestore(Steps(c, 20, n, status), n, status)
    {
      StepsOne(c, 20, n, status);
    }
    StepsOne(c, 20, 20, status);
    var s := Ld(c.mem, c.g.eax);
    var x := FrameAt(c.mem, s);
    var c1 := c.(esp := s);
    assert Steps(c, 20, 21, status) == c1;
    var c2 := c.(esp := s + 4, sg := c.sg.(gs := x.sg.gs));
    assert Steps(c, 20, 22, status) == c2;
    var c3 := c.(esp := s + 8, sg := c2.sg.(fs := x.sg.fs));
    assert Steps(c, 20, 23, status) == c3;
    var c4 := c.(esp := s + 12, sg := c3.sg.(es := x.sg.es));
    assert Steps(c, 20, 24, status) == c4;
    var c5 := c.(esp := s + 16, sg := x.sg);
    assert Steps(c, 20, 25, status) == c5;
    var c6 := c5.(esp := s + 48, g := x.g);
    assert Steps(c, 20, 26, status) == c6;
    assert Steps(c, 20, 27, status) == c6.(esp := s + 56, eflags := WithStatus(c6.eflags, status));
  }

  /** Instructions 18 and 19 make the argument current. */
  lemma ChosenMeaning(c: Cpu, p: Cpu, status: nat)
    requires p.esp == c.esp - 64 && Ld(p.mem, c.esp + 4) == Ld(c.mem, c.esp + 4)
    ensures var t := Ld(c.mem, c.esp + 4);
      Steps(p, 18, 20, status) == p.(g := p.g.(eax := t), cur := t)
  {
    StepsOne(p, 18, 18, status);
    StepsOne(p, 18, 19, status);
    hide Steps;
    assert Steps(p, 18, 19, status) == SetEax(p, Ld(p.mem, p.esp + 68));
  }

  /** The thread that the routine switches to. */
  function Target(c: Cpu): nat {
    Ld(c.mem, c.esp + 4)
  }

  /**
   The whole routine: the caller's context is saved in its frame, and the context in the
   target's frame is what runs afterwards; for the caller itself that is the context just saved.
   No memory changes but the frame and the caller's thread structure.
   */
  lemma SwitchMeaning(c: Cpu, status: nat)
    requires CanSave(c)
    requires var s := Ld(c.mem, Target(c));
      Target(c) != c.cur ==>
        (Target(c) < c.esp - 64 || c.esp < Target(c)) && (s + 68 <= c.esp - 64 || c.esp < s) && !(s <= c.cur < s + 68)
    ensures var r := Steps(c, 0, LENGTH, status);
      && r.cur == Target(c)
      && ContextOf(r) == (if Target(c) == c.cur then CallContext(c, status) else FrameAt(c.mem, Ld(c.mem, Target(c))))
      && FrameAt(r.mem, c.esp - 64) == CallContext(c, status) && Ld(r.mem, c.cur) == c.esp - 64
      && forall a {:trigger Ld(r.mem, a)} ::
        a != c.cur && (a < c.esp - 64 || c.esp < a) ==> Ld(r.mem, a) == Ld(c.mem, a)
  {
    hide Steps, WithStatus, Ld, FrameAt;
    SaveMeaning(c, status);
    var p := Steps(c, 0, SAVED_AT, status);
    ChosenMeaning(c, p, status);
    var q := Steps(p, 18, 20, status);
    StepsSplit(c, 0, 18, LENGTH, status);
    StepsSplit(p, 18, 20, LENGTH, status);
    RestoreMeaning(q, status);
    if Target(c) != c.cur {
      FrameDepends(c.mem, p.mem, Ld(c.mem, Target(c)));
    }
  }

  /** The start-up code saves nothing: it loads the argument and goes straight to instruction 19. */
  function FirstDispatch(c: Cpu, status: nat): Cpu {
    Steps(SetEax(c, Target(c)), 19, LENGTH, status)
  }

  lemma FirstDispatchMeaning(c: Cpu, status: nat)
    ensures var r := FirstDispatch(c, status);
      ContextOf(r) == FrameAt(c.mem, Ld(c.mem, Target(c))) && r.cur == Target(c) && r.mem == c.mem
  {
    hide WithStatus, FrameAt;
    var p := SetEax(c, Target(c));
    StepsSplit(p, 19, 20, LENGTH, status);
    assert Steps(p, 19, 20, status) == p.(cur := p.g.eax);
    hide Steps;
    RestoreMeaning(p.(cur := p.g.eax), status);
  }
}
