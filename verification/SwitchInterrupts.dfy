/**
 An interrupt in the middle of the context switch: the routine runs with interrupts enabled,
 and for five instructions the return address lies below the stack pointer.
 */
module SwitchInterrupts {
  import opened ContextSwitch

  /**
   What an interrupt and its handler leave behind: the flags, the code segment and the address of
   the next instruction just below the stack pointer, and the handler's own words below those.
   Registers and stack pointer are restored.
   */
  function Interrupt(c: Cpu, next: nat, junk: Mem): Cpu {
    c.(mem := St(St(St(c.mem + junk, c.esp - 4, c.eflags), c.esp - 8, c.cs), c.esp - 12, next))
  }

  predicate BelowStack(junk: Mem, esp: int) {
    forall a :: a in junk ==> a < esp - 12
  }

  lemma InterruptIs(c: Cpu, next: nat, junk: Mem)
    requires 12 <= c.esp && BelowStack(junk, c.esp)
    ensures var p := Interrupt(c, next, junk);
      && p == c.(mem := p.mem)
      && Ld(p.mem, c.esp - 4) == c.eflags && Ld(p.mem, c.esp - 8) == c.cs && Ld(p.mem, c.esp - 12) == next
      && forall a {:trigger Ld(p.mem, a)} :: c.esp <= a ==> Ld(p.mem, a) == Ld(c.mem, a)
  {
  }

  /** The stack pointer before instruction n, for a caller that entered with stack pointer e. */
  function EspAt(e: int, n: nat): int {
    if n <= 1 then e else if n <= 4 then e - 4 else if n == 5 then e + 4 else if n <= 7 then e
    else if n == 8 then e - 4 else if n == 9 then e - 8 else if n == 10 then e - 12 else if n == 11 then e - 16
    else if n == 12 then e - 48 else if n == 13 then e - 52 else if n == 14 then e - 56 else if n == 15 then e - 60
    else e - 64
  }

  /** The lowest word that the routine has put to use before instruction n. */
  function Floor(e: int, n: nat): int {
    if n <= 1 then e else if n <= 3 then e - 4 else if n <= 9 then e - 8 else EspAt(e, n)
  }

  /** Same registers, and the same words from b upwards. */
  ghost predicate Agree(p: Cpu, q: Cpu, b: int) {
    && q == p.(mem := q.mem)
    && forall a {:trigger Ld(q.mem, a)} :: b <= a && (a - b) % 4 == 0 ==> Ld(q.mem, a) == Ld(p.mem, a)
  }

  lemma PushAgrees(p: Cpu, q: Cpu, b: int, v: nat)
    requires Agree(p, q, b) && p.esp >= 4
    ensures Agree(Push(p, v), Push(q, v), if p.esp == b then b - 4 else b)
  {
    PushIs(p, v);
    PushIs(q, v);
  }

  lemma PushadAgrees(p: Cpu, q: Cpu)
    requires Agree(p, q, p.esp) && p.esp >= 32
    ensures Agree(Pushad(p), Pushad(q), p.esp - 32)
  {
    hide Push, Agree;
    SameGeneral(p, q);
    PushAgrees(p, q, p.esp, p.g.eax);
    var p1, q1 := Push(p, p.g.eax), Push(q, p.g.eax);
    PushIs(p, p.g.eax);
    PushAgrees(p1, q1, p1.esp, p.g.ecx);
    var p2, q2 := Push(p1, p.g.ecx), Push(q1, p.g.ecx);
    PushIs(p1, p.g.ecx);
    PushAgrees(p2, q2, p2.esp, p.g.edx);
    var p3, q3 := Push(p2, p.g.edx), Push(q2, p.g.edx);
    PushIs(p2, p.g.edx);
    PushAgrees(p3, q3, p3.esp, p.g.ebx);
    var p4, q4 := Push(p3, p.g.ebx), Push(q3, p.g.ebx);
    PushIs(p3, p.g.ebx);
    PushAgrees(p4, q4, p4.esp, Low(p.esp));
    var p5, q5 := Push(p4, Low(p.esp)), Push(q4, Low(p.esp));
    PushIs(p4, Low(p.esp));
    PushAgrees(p5, q5, p5.esp, p.g.ebp);
    var p6, q6 := Push(p5, p.g.ebp), Push(q5, p.g.ebp);
    PushIs(p5, p.g.ebp);
    PushAgrees(p6, q6, p6.esp, p.g.esi);
    var p7, q7 := Push(p6, p.g.esi), Push(q6, p.g.esi);
    PushIs(p6, p.g.esi);
    PushAgrees(p7, q7, p7.esp, p.g.edi);
  }

  lemma SameGeneral(p: Cpu, q: Cpu)
    requires Agree(p, q, p.esp)
    ensures q.g == p.g && q.esp == p.esp
  {
  }

  /** One instruction that starts from agreeing states leaves agreeing states. */
  lemma PrologueAgrees(p: Cpu, q: Cpu, e: int, n: nat, status: nat)
    requires n < 9 && e >= 64 && p.esp == EspAt(e, n) && Agree(p, q, Floor(e, n))
    ensures Agree(ExecPrologue(p, n, status), ExecPrologue(q, n, status), Floor(e, n + 1))
    ensures ExecPrologue(p, n, status).esp == EspAt(e, n + 1)
  {
    hide WithStatus, Ld, St, Push;
    if n == 1 {
      PushIs(p, p.g.eax);
      PushAgrees(p, q, e, p.g.eax);
    } else if n == 3 {
      StoreExtends(p, q, e - 4, p.g.eax);
    } else if n == 5 {
      PushIs(p, p.eflags);
      PushAgrees(p, q, e - 8, p.eflags);
    } else if n == 7 {
      PushIs(p, KERNEL_CS);
      PushAgrees(p, q, e - 8, KERNEL_CS);
    }
  }

  lemma SaveAgrees(p: Cpu, q: Cpu, e: int, n: nat)
    requires 9 <= n < 18 && e >= 64 && p.esp == EspAt(e, n) && Agree(p, q, Floor(e, n))
    ensures Agree(ExecSave(p, n), ExecSave(q, n), Floor(e, n + 1))
    ensures ExecSave(p, n).esp == EspAt(e, n + 1)
  {
    if n == 9 || n == 10 {
      PushAgrees(p, q, p.esp, 0);
    } else if n == 11 {
      PushadAgrees(p, q);
      PushadMeaning(p);
    } else if n == 12 {
      PushAgrees(p, q, p.esp, p.sg.ds);
    } else if n == 13 {
      PushAgrees(p, q, p.esp, p.sg.es);
    } else if n == 14 {
      PushAgrees(p, q, p.esp, p.sg.fs);
    } else if n == 15 {
      PushAgrees(p, q, p.esp, p.sg.gs);
    } else if n == 17 {
      StoreAgrees(p, q, p.esp, p.g.eax, Low(p.esp));
    }
  }

  lemma StoreExtends(p: Cpu, q: Cpu, b: int, v: nat)
    requires Agree(p, q, b) && b >= 4
    ensures Agree(p.(mem := St(p.mem, b - 4, v)), q.(mem := St(q.mem, b - 4, v)), b - 4)
  {
    LdSt(p.mem, b - 4, v);
    LdSt(q.mem, b - 4, v);
  }

  lemma StoreAgrees(p: Cpu, q: Cpu, b: int, at: nat, v: nat)
    requires Agree(p, q, b)
    ensures Agree(p.(mem := St(p.mem, at, v)), q.(mem := St(q.mem, at, v)), b)
  {
    LdSt(p.mem, at, v);
    LdSt(q.mem, at, v);
  }

  lemma {:induction false} StepsAgree(p: Cpu, q: Cpu, e: int, k: nat, n: nat, status: nat)
    requires k <= n <= SAVED_AT && e >= 64 && p.esp == EspAt(e, k) && Agree(p, q, Floor(e, k))
    ensures Agree(Steps(p, k, n, status), Steps(q, k, n, status), Floor(e, n))
    ensures Steps(p, k, n, status).esp == EspAt(e, n)
  {
    hide Agree, ExecPrologue, ExecSave, EspAt, Floor;
    if k < n {
      StepsAgree(p, q, e, k, n - 1, status);
      StepsOne(p, k, n - 1, status);
      StepsOne(q, k, n - 1, status);
      var a, b := Steps(p, k, n - 1, status), Steps(q, k, n - 1, status);
      if n - 1 < 9 {
        PrologueAgrees(a, b, e, n - 1, status);
      } else {
        SaveAgrees(a, b, e, n - 1);
      }
    }
  }

  /** The 18 saving instructions with an interrupt before instruction k. */
  function Interrupted(c: Cpu, k: nat, next: nat, junk: Mem, status: nat): Cpu
    requires k <= SAVED_AT
  {
    Steps(Interrupt(Steps(c, 0, k, status), next, junk), k, SAVED_AT, status)
  }

  /** Instructions 4 to 8 are fetched while the return address lies below the stack pointer. */
  predicate Exposed(k: nat) {
    4 <= k <= 8
  }

  /** Outside the window the handler only overwrites words that the routine has not used yet. */
  lemma OutsideKeeps(c: Cpu, k: nat, next: nat, junk: Mem, status: nat)
    requires CanSave(c) && c.esp >= 76 && k <= SAVED_AT && !Exposed(k)
    requires BelowStack(junk, EspAt(c.esp, k))
    ensures FrameAt(Interrupted(c, k, next, junk, status).mem, c.esp - 64) == CallContext(c, status)
  {
    hide Steps, FrameAt, Interrupt, Exec, CallContext, BelowStack;
    var p := Steps(c, 0, k, status);
    SelfAgrees(c);
    StepsOne(c, 0, 0, status);
    StepsAgree(c, c, c.esp, 0, k, status);
    InterruptIs(p, next, junk);
    var q := Interrupt(p, next, junk);
    StepsAgree(p, q, c.esp, k, SAVED_AT, status);
    StepsSplit(c, 0, k, SAVED_AT, status);
    SaveMeaning(c, status);
    FrameDepends(Steps(c, 0, SAVED_AT, status).mem, Steps(q, k, SAVED_AT, status).mem, c.esp - 64);
  }

  lemma SelfAgrees(c: Cpu)
    ensures Agree(c, c, c.esp)
  {
  }

  /** From instruction 4 on nothing writes the return address's new place any more. */
  lemma {:induction false} ReturnWordStays(q: Cpu, e: int, k: nat, n: nat, status: nat)
    requires 4 <= k <= n <= SAVED_AT && k <= 9 && e >= 76 && q.esp == EspAt(e, k) && q.cur != e - 8
    ensures var r := Steps(q, k, n, status);
      && Ld(r.mem, e - 8) == Ld(q.mem, e - 8)
      && r.esp == EspAt(e, n) && r.cur == q.cur && (n == 17 ==> r.g.eax == r.cur)
  {
    StepsOne(q, k, k, status);
    hide Ld, St, Push, Pushad, WithStatus, Steps;
    if k < n {
      ReturnWordStays(q, e, k, n - 1, status);
      StepsOne(q, k, n - 1, status);
      var a := Steps(q, k, n - 1, status);
      if n - 1 < 9 {
        PrologueLeaves(a, e, n - 1, status);
      } else {
        SaveLeaves(a, e, n - 1);
      }
    }
  }

  lemma PrologueLeaves(a: Cpu, e: int, n: nat, status: nat)
    requires 4 <= n < 9 && e >= 76 && a.esp == EspAt(e, n)
    ensures var r := ExecPrologue(a, n, status);
      Ld(r.mem, e - 8) == Ld(a.mem, e - 8) && r.esp == EspAt(e, n + 1) && r.cur == a.cur
  {
    hide WithStatus;
  }

  lemma SaveLeaves(a: Cpu, e: int, n: nat)
    requires 9 <= n < 18 && e >= 76 && a.esp == EspAt(e, n) && a.cur != e - 8 && (n == 17 ==> a.g.eax == a.cur)
    ensures var r := ExecSave(a, n);
      && Ld(r.mem, e - 8) == Ld(a.mem, e - 8) && r.esp == EspAt(e, n + 1) && r.cur == a.cur
      && (n + 1 == 17 ==> r.g.eax == r.cur)
  {
    if n == 11 {
      PushadMeaning(a);
      hide Pushad;
    } else if n < 16 {
      PushIs(a, 0);
      PushIs(a, if n == 12 then a.sg.ds else if n == 13 then a.sg.es else if n == 14 then a.sg.fs else a.sg.gs);
    }
  }

  /** The word that ends up in the return address's place. */
  lemma InsideLoses(c: Cpu, k: nat, next: nat, junk: Mem, status: nat)
    requires CanSave(c) && c.esp >= 76 && Exposed(k) && BelowStack(junk, EspAt(c.esp, k))
    ensures var p := Steps(c, 0, k, status);
      Ld(Interrupted(c, k, next, junk, status).mem, c.esp - 8) ==
        if k == 4 || k == 8 then p.eflags else if k == 5 then next else p.cs
  {
    hide Steps, Interrupt, Exec, BelowStack, Ld;
    var p := Steps(c, 0, k, status);
    SelfAgrees(c);
    StepsOne(c, 0, 0, status);
    StepsAgree(c, c, c.esp, 0, k, status);
    CurStays(c, k, status);
    InterruptIs(p, next, junk);
    ReturnWordStays(Interrupt(p, next, junk), c.esp, k, SAVED_AT, status);
  }

  /**
   Code segment and current thread do not change before the frame is complete, and of the flags
   only the status bits.
   */
  lemma {:induction false} CurStays(c: Cpu, k: nat, status: nat)
    requires k <= 9
    ensures var p := Steps(c, 0, k, status);
      p.cur == c.cur && p.cs == c.cs && p.eflags == if k == 0 then c.eflags else WithStatus(c.eflags, status)
  {
    hide Ld, St;
    StepsOne(c, 0, 0, status);
    if k > 0 {
      CurStays(c, k - 1, status);
      StepsOne(c, 0, k - 1, status);
      WithStatusTwice(c.eflags, status);
      hide WithStatus, Steps;
    }
  }

  /**
   Seen from inside: an interrupt before instruction k leaves the saved context intact exactly when
   k is none of the instructions 4 to 8. The return address is taken to be none of the flags word,
   the code segment and the interrupted instruction's address.
   */
  lemma InterruptKeepsIff(c: Cpu, k: nat, next: nat, junk: Mem, status: nat)
    requires CanSave(c) && c.esp >= 76 && k <= SAVED_AT && BelowStack(junk, EspAt(c.esp, k))
    requires var ret := Ld(c.mem, c.esp); ret != WithStatus(c.eflags, status) && ret != c.cs && ret != next
    ensures FrameAt(Interrupted(c, k, next, junk, status).mem, c.esp - 64) == CallContext(c, status) <==> !Exposed(k)
  {
    if Exposed(k) {
      InsideLoses(c, k, next, junk, status);
      CurStays(c, k, status);
    } else {
      OutsideKeeps(c, k, next, junk, status);
    }
  }

  /** An interrupt can arrive before instruction k: they are enabled there, and its handler stays below the stack. */
  predicate Admissible(c: Cpu, k: nat, junk: Mem, status: nat) {
    && k <= SAVED_AT
    && InterruptsOn(Steps(c, 0, k, status).eflags) && BelowStack(junk, Steps(c, 0, k, status).esp)
  }

  /** The context that is saved when an interrupt arrives before instruction k of the routine at the given addresses. */
  function SavedWith(c: Cpu, code: seq<nat>, k: nat, junk: Mem, status: nat): Context
    requires k <= SAVED_AT < |code|
  {
    FrameAt(Interrupted(c, k, code[k], junk, status).mem, c.esp - 64)
  }

  /**
   The saved context is right whatever interrupt arrives exactly when the caller has disabled
   interrupts before the call. The return address is taken to lie outside the routine.
   */
  lemma SwitchSafeIff(c: Cpu, code: seq<nat>, status: nat)
    requires CanSave(c) && c.esp >= 76 && SAVED_AT < |code| && Ld(c.mem, c.esp) !in code
    ensures !InterruptsOn(c.eflags) <==>
      forall k: nat, junk :: Admissible(c, k, junk, status) ==>
        SavedWith(c, code, k, junk, status) == CallContext(c, status)
  {
    hide Steps, FrameAt, Interrupted, Ld, InterruptsOn;
    if InterruptsOn(c.eflags) {
      assert Admissible(c, 5, map[], status) by {
        EnabledAt(c, 5, status);
        assert BelowStack(map[], Steps(c, 0, 5, status).esp);
      }
      assert code[5] in code;
      InterruptMoves(c, code, 5, map[], status);
    } else {
      forall k: nat, junk | Admissible(c, k, junk, status)
        ensures SavedWith(c, code, k, junk, status) == CallContext(c, status)
      {
        if Exposed(k) {
          EnabledAt(c, k, status);
        }
        EspIs(c, k, status);
        OutsideKeeps(c, k, code[k], junk, status);
      }
    }
  }

  lemma EspIs(c: Cpu, k: nat, status: nat)
    requires k <= SAVED_AT && c.esp >= 64
    ensures Steps(c, 0, k, status).esp == EspAt(c.esp, k)
  {
    hide Exec;
    SelfAgrees(c);
    StepsOne(c, 0, 0, status);
    StepsAgree(c, c, c.esp, 0, k, status);
  }

  /** The routine neither enables nor disables interrupts. */
  lemma EnabledAt(c: Cpu, k: nat, status: nat)
    requires k <= 9
    ensures InterruptsOn(Steps(c, 0, k, status).eflags) <==> InterruptsOn(c.eflags)
  {
    CurStays(c, k, status);
    WithStatusTwice(c.eflags, status);
    hide Steps, WithStatus;
  }

  /** Before the flags are pushed, the interrupted address lands where the return address has been moved to. */
  lemma InterruptMoves(c: Cpu, code: seq<nat>, k: nat, junk: Mem, status: nat)
    requires CanSave(c) && c.esp >= 76 && SAVED_AT < |code| && k == 5 && Admissible(c, k, junk, status)
    ensures SavedWith(c, code, k, junk, status).eip == code[k]
    ensures CallContext(c, status).eip == Ld(c.mem, c.esp)
  {
    hide Steps, Ld, BelowStack, Interrupted;
    EspIs(c, k, status);
    InsideLoses(c, k, code[k], junk, status);
  }

  /** The addresses of the routine in the example: 28 instructions of four bytes each. */
  function Code(): (code: seq<nat>)
    ensures |code| == LENGTH
  {
    seq(LENGTH, i requires 0 <= i < LENGTH => 4096 + 4 * i)
  }

  /** A caller with interrupts enabled, return address 500, and the thread at 3000 to switch to. */
  function Caller(): Cpu {
    Cpu(General(1, 2, 3, 4, 5, 6, 7), Segments(KERNEL_DS, KERNEL_DS, KERNEL_DS, KERNEL_DS),
        1000, 64, KERNEL_CS, 4096, 2000, map[1000 := 500, 1004 := 3000])
  }

  /** For example: the timer fires before the fifth instruction, and the thread is saved as if it were to
      go on inside the routine, and not at its return address. */
  lemma LostContextExample()
    ensures CanSave(Caller()) && Ld(Caller().mem, Caller().esp) == 500 && 500 !in Code()
    ensures Admissible(Caller(), 5, map[900 := 9], 0)
    ensures SavedWith(Caller(), Code(), 5, map[900 := 9], 0).eip == Code()[5]
    ensures CallContext(Caller(), 0).eip == 500
  {
    hide Steps, Interrupted;
    var c := Caller();
    assert InterruptsOn(c.eflags);
    EnabledAt(c, 5, 0);
    EspIs(c, 5, 0);
    InterruptMoves(c, Code(), 5, map[900 := 9], 0);
  }

  // ----- while the new context is being restored -----

  /** Three ways into the restoring part. */
  lemma FromChoice(p: Cpu, status: nat)
    ensures ContextOf(Steps(p, 18, LENGTH, status)) == FrameAt(p.mem, Ld(p.mem, Ld(p.mem, p.esp + 68)))
    ensures ContextOf(Steps(p, 19, LENGTH, status)) == FrameAt(p.mem, Ld(p.mem, p.g.eax))
    ensures ContextOf(Steps(p, 20, LENGTH, status)) == FrameAt(p.mem, Ld(p.mem, p.g.eax))
  {
    StepsOne(p, 18, 18, status);
    StepsOne(p, 18, 19, status);
    StepsOne(p, 19, 19, status);
    StepsSplit(p, 18, 20, LENGTH, status);
    StepsSplit(p, 19, 20, LENGTH, status);
    hide Steps, Ld, FrameAt;
    var a := SetEax(p, Ld(p.mem, p.esp + 68));
    assert Steps(p, 18, 19, status) == a;
    RestoreMeaning(a.(cur := a.g.eax), status);
    RestoreMeaning(p.(cur := p.g.eax), status);
    RestoreMeaning(p, status);
  }

  /** The new thread's registers are popped from words that an interrupt leaves alone. */
  lemma {:induction false} RestoreAgrees(p: Cpu, q: Cpu, k: nat, n: nat, status: nat)
    requires 21 <= k <= n <= LENGTH && Agree(p, q, p.esp)
    ensures Agree(Steps(p, k, n, status), Steps(q, k, n, status), Steps(p, k, n, status).esp)
  {
    hide Steps, Agree, ExecRestore, ExecSave, ExecPrologue;
    StepsOne(p, k, k, status);
    StepsOne(q, k, k, status);
    if k < n {
      RestoreAgrees(p, q, k, n - 1, status);
      StepsOne(p, k, n - 1, status);
      StepsOne(q, k, n - 1, status);
      PopAgrees(Steps(p, k, n - 1, status), Steps(q, k, n - 1, status), n - 1, status);
    }
  }

  lemma PopAgrees(p: Cpu, q: Cpu, n: nat, status: nat)
    requires 21 <= n < LENGTH && Agree(p, q, p.esp)
    ensures Agree(ExecRestore(p, n, status), ExecRestore(q, n, status), ExecRestore(p, n, status).esp)
  {
    hide Ld, WithStatus;
  }

  /**
   After the frame is complete an interrupt does no harm: the context that ends up running is
   the one that runs without it, provided that the handler stays on the stack it found and that
   the target's thread structure and frame are not on the caller's stack. And no word changes but
   those that the handler uses, so the caller's saved frame stays as it is.
   */
  lemma RestoreUnharmed(c: Cpu, k: nat, next: nat, junk: Mem, lo: int, status: nat)
    requires SAVED_AT <= k < LENGTH
    requires var p := Steps(c, 18, k, status);
      12 <= p.esp && lo <= p.esp - 12 && BelowStack(junk, p.esp) && forall a :: a in junk ==> lo <= a
    requires k <= 20 ==>
      var t := Ld(c.mem, c.esp + 68); var s := Ld(c.mem, t);
      (t < lo || c.esp <= t) && (s + 68 <= lo || c.esp <= s)
    ensures ContextOf(Steps(Interrupt(Steps(c, 18, k, status), next, junk), k, LENGTH, status)) ==
      ContextOf(Steps(c, 18, LENGTH, status))
    ensures
      var p := Steps(c, 18, k, status);
      var m := Steps(Interrupt(p, next, junk), k, LENGTH, status).mem;
      && (forall a {:trigger Ld(m, a)} :: a < lo || p.esp <= a ==> Ld(m, a) == Ld(c.mem, a))
      && (k <= 20 ==> FrameAt(m, c.esp) == FrameAt(c.mem, c.esp))
  {
    EarlyRestore(c, status);
    hide Steps, Ld, FrameAt, Interrupt;
    RestoreWritesNothing(c, 18, k, status);
    RestoreWritesNothing(Interrupt(Steps(c, 18, k, status), next, junk), k, LENGTH, status);
    BelowIs(Steps(c, 18, k, status), next, junk, lo);
    StepsSplit(c, 18, k, LENGTH, status);
    if k <= 20 {
      FrameDepends(Steps(Interrupt(Steps(c, 18, k, status), next, junk), k, LENGTH, status).mem, c.mem, c.esp);
      EarlyUnharmed(c, k, next, junk, lo, status);
    } else {
      hide BelowStack;
      var p := Steps(c, 18, k, status);
      var q := Interrupt(p, next, junk);
      InterruptIs(p, next, junk);
      RestoreAgrees(p, q, k, LENGTH, status);
    }
  }

  /** The restoring part only reads memory. */
  lemma {:induction false} RestoreWritesNothing(c: Cpu, from: nat, n: nat, status: nat)
    requires 18 <= from <= n <= LENGTH
    ensures Steps(c, from, n, status).mem == c.mem
  {
    StepsOne(c, from, from, status);
    if from < n {
      RestoreWritesNothing(c, from, n - 1, status);
      StepsOne(c, from, n - 1, status);
      hide Steps, Ld, WithStatus;
    }
  }

  lemma EarlyUnharmed(c: Cpu, k: nat, next: nat, junk: Mem, lo: int, status: nat)
    requires SAVED_AT <= k <= 20 && 12 <= c.esp && lo <= c.esp - 12
    requires BelowStack(junk, c.esp) && forall a :: a in junk ==> lo <= a
    requires
      var t := Ld(c.mem, c.esp + 68); var s := Ld(c.mem, t);
      (t < lo || c.esp <= t) && (s + 68 <= lo || c.esp <= s)
    ensures ContextOf(Steps(Interrupt(Steps(c, 18, k, status), next, junk), k, LENGTH, status)) ==
      ContextOf(Steps(c, 18, LENGTH, status))
  {
    EarlyRestore(c, status);
    hide Steps, Ld, FrameAt, Interrupt;
    var p := Steps(c, 18, k, status);
    var q := Interrupt(p, next, junk);
    InterruptIs(p, next, junk);
    BelowIs(p, next, junk, lo);
    FromChoice(c, status);
    FromChoice(q, status);
    FrameDepends(c.mem, q.mem, Ld(c.mem, Ld(c.mem, c.esp + 68)));
  }

  lemma BelowIs(c: Cpu, next: nat, junk: Mem, lo: int)
    requires 12 <= c.esp && lo <= c.esp - 12 && forall a :: a in junk ==> lo <= a < c.esp - 12
    ensures forall a {:trigger Ld(Interrupt(c, next, junk).mem, a)} :: a < lo || c.esp <= a ==>
      Ld(Interrupt(c, next, junk).mem, a) == Ld(c.mem, a)
  {
  }

  /** Until instruction 20 neither memory nor the stack pointer changes. */
  lemma EarlyRestore(c: Cpu, status: nat)
    ensures Steps(c, 18, 18, status) == c
    ensures Steps(c, 18, 19, status) == SetEax(c, Ld(c.mem, c.esp + 68))
    ensures Steps(c, 18, 20, status) == SetEax(c, Ld(c.mem, c.esp + 68)).(cur := Ld(c.mem, c.esp + 68))
  {
    StepsOne(c, 18, 18, status);
    StepsOne(c, 18, 19, status);
  }
}
