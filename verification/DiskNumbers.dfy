/**
 The disk in plain numbers: how many bytes a call moves, and which byte of a word goes first. Nothing
 here names the constants of the code.
 */
module DiskNumbers {
  import opened Bytes
  import opened DiskDevice
  import opened DiskProtocol
  import opened ReadyQueue

  /** A word carries the earlier byte of the block in its low half and the later one in its high half. */
  lemma WordInNumbers(lo: byte, hi: byte)
    ensures Join(lo, hi) % 256 == lo as word && Join(lo, hi) / 256 == hi as word
  {
  }

  /** What a finished call moved: a whole block of 512 bytes, in or out. */
  predicate Whole(e: Entry) {
    if e.r.ReadReq? then |e.buf| == 512 else |e.r.data| == 512
  }

  /** Only an unlock adds to the log, and it adds one finished call of the running thread. */
  lemma LogGrows(s: Sys, init: Blocks, holder: Option<ThreadId>, e: Event)
    requires Inv(s, init, holder)
    ensures
      || Step(s, e).log == s.log
      || exists x: Entry :: Step(s, e).log == s.log + [x] && x.t == s.sched.cur && Whole(x)
  {
    hide Replay, LbaOf, Faithful, Sized, Busy, PortIn, PortOut, Finish, DataReady;
    if e.Continue? && PcOf(s).Unlocking? {
      var pc := PcOf(s);
      SizedBlock(Replay(init, s.log), LbaOf(pc.r));
      var x := Entry(s.sched.cur, pc.r, pc.buf);
      assert Whole(x) && Step(s, e).log == s.log + [x];
    }
  }

  lemma {:induction false} LogIsWhole(s: Sys, init: Blocks, holder: Option<ThreadId>, es: seq<Event>, k: nat)
    requires Inv(s, init, holder) && forall i :: 0 <= i < |s.log| ==> Whole(s.log[i])
    ensures k < |Run(s, es).log| ==> Whole(Run(s, es).log[k])
    decreases |es|
  {
    hide Inv, Step;
    if es != [] {
      LogGrows(s, init, holder, es[0]);
      var after := StepInv(s, init, holder, es[0]);
      LogIsWhole(Step(s, es[0]), init, after, es[1..], k);
    }
  }

  /** In every run each finished read has returned 512 bytes and each finished write has stored 512. */
  lemma MovesWholeBlocks(first: ThreadId, blocks: Blocks, es: seq<Event>, k: nat)
    requires Sized(blocks)
    ensures var log := Run(Boot(first, blocks, true), es).log;
      k < |log| ==> if log[k].r.ReadReq? then |log[k].buf| == 512 else |log[k].r.data| == 512
  {
    hide Run, Inv;
    BootInv(first, blocks);
    LogIsWhole(Boot(first, blocks, true), blocks, None, es, k);
  }
}
