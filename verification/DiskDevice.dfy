/**
 The IDE disk as the driver sees it: a command, a busy period, a stream of 16-bit words, a
 cache flush. A command or a word at the wrong moment leaves it confused.
 */
module DiskDevice {
  import opened Bytes

  const BLOCK_BYTES: nat := 512
  const WORDS: nat := 256

  // ----- words -----

  type word = bv16

  /** `_buf[2 * i] | (_buf[2 * i + 1] << 8)` */
  function Join(lo: byte, hi: byte): word {
    (lo as word) | ((hi as word) << 8)
  }

  /** `(unsigned char)tmpw` */
  function Lo(w: word): byte {
    (w & 0xFF) as byte
  }

  /** `(unsigned char)(tmpw >> 8)` */
  function Hi(w: word): byte {
    (w >> 8) as byte
  }

  lemma SplitOfJoin(lo: byte, hi: byte)
    ensures Lo(Join(lo, hi)) == lo && Hi(Join(lo, hi)) == hi
  {
  }

  lemma JoinOfSplit(w: word)
    ensures Join(Lo(w), Hi(w)) == w
  {
  }

  // ----- block numbers -----

  /** What the four address registers carry: 8 + 8 + 8 + 4 bits. */
  function Lba(b: nat): nat {
    b % 256 + 256 * (b / 0x100 % 256) + 0x1_0000 * (b / 0x1_0000 % 256) + 0x100_0000 * (b / 0x100_0000 % 16)
  }

  /** The registers keep the low 28 bits of a block number. */
  lemma LbaIs(b: nat)
    ensures Lba(b) == b % 0x1000_0000
  {
    var q1 := b / 0x100;
    var q2 := q1 / 0x100;
    var q3 := q2 / 0x100;
    DivTwice(b);
    DivTwice(q1);
    DivFour(b);
    Digits(b, q1, q2, q3, q3 / 16);
  }

  lemma DivTwice(b: nat)
    ensures b / 0x1_0000 == b / 0x100 / 0x100
  {
  }

  lemma DivFour(b: nat)
    ensures b / 0x100_0000 == b / 0x1_0000 / 0x100
  {
  }

  /** The digits are each the remainder of the one before. */
  lemma Digits(b: nat, q1: nat, q2: nat, q3: nat, q4: nat)
    requires q1 == b / 0x100 && q2 == q1 / 0x100 && q3 == q2 / 0x100 && q4 == q3 / 16
    ensures b % 0x100 + 0x100 * (q1 % 0x100) + 0x1_0000 * (q2 % 0x100) + 0x100_0000 * (q3 % 16) == b % 0x1000_0000
  {
    var r0, r1, r2, r3 := b % 0x100, q1 % 0x100, q2 % 0x100, q3 % 16;
    var r := r0 + 0x100 * r1 + 0x1_0000 * r2 + 0x100_0000 * r3;
    assert b == 0x100 * q1 + r0 && q1 == 0x100 * q2 + r1 && q2 == 0x100 * q3 + r2 && q3 == 16 * q4 + r3;
    assert b == 0x1000_0000 * q4 + r;
    Remainder(b, q4, r);
  }

  lemma Remainder(b: nat, q: nat, r: nat)
    requires b == 0x1000_0000 * q + r && r < 0x1000_0000
    ensures b % 0x1000_0000 == r
  {
  }

  // ----- the device -----

  type Blocks = map<nat, seq<byte>>

  datatype Phase =
    | Ready
    | Fetching(b: nat)
    | Sending(b: nat, i: nat)
    | Preparing(b: nat)
    | Receiving(b: nat, data: seq<byte>)
    | Latched(b: nat, data: seq<byte>)
    | Committing(b: nat, data: seq<byte>)
    | Confused

  datatype Device = Device(blocks: Blocks, phase: Phase)

  predicate Sized(blocks: Blocks) {
    forall b :: b in blocks ==> |blocks[b]| == BLOCK_BYTES
  }

  function BlockOf(blocks: Blocks, b: nat): seq<byte> {
    if b in blocks then blocks[b] else seq(BLOCK_BYTES, _ => 0)
  }

  /** The BSY bit. */
  predicate Busy(d: Device) {
    d.phase.Fetching? || d.phase.Preparing? || d.phase.Committing?
  }

  /** The DRQ bit with no error. */
  predicate DataReady(d: Device) {
    d.phase.Sending? || d.phase.Receiving?
  }

  function ReadCommand(d: Device, b: nat): Device {
    d.(phase := if d.phase.Ready? then Fetching(Lba(b)) else Confused)
  }

  function WriteCommand(d: Device, b: nat): Device {
    d.(phase := if d.phase.Ready? then Preparing(Lba(b)) else Confused)
  }

  function FlushCommand(d: Device): Device {
    d.(phase := if d.phase.Latched? then Committing(d.phase.b, d.phase.data) else Confused)
  }

  /** The device's own step: whatever it was busy with is done. */
  function Finish(d: Device): Device {
    match d.phase
    case Fetching(b) => d.(phase := Sending(b, 0))
    case Preparing(b) => d.(phase := Receiving(b, []))
    case Committing(b, data) => Device(d.blocks[b := data], Ready)
    case _ => d
  }

  function PortIn(d: Device): (Device, word) {
    if d.phase.Sending? && d.phase.i < WORDS && |BlockOf(d.blocks, d.phase.b)| == BLOCK_BYTES then
      var i := d.phase.i;
      var data := BlockOf(d.blocks, d.phase.b);
      (d.(phase := if i + 1 == WORDS then Ready else Sending(d.phase.b, i + 1)), Join(data[2 * i], data[2 * i + 1]))
    else
      (d.(phase := Confused), 0)
  }

  function PortOut(d: Device, w: word): Device {
    if d.phase.Receiving? && |d.phase.data| + 2 <= BLOCK_BYTES then
      var data := d.phase.data + [Lo(w), Hi(w)];
      d.(phase := if |data| == BLOCK_BYTES then Latched(d.phase.b, data) else Receiving(d.phase.b, data))
    else
      d.(phase := Confused)
  }

  // ----- the transfer loops -----

  class DiskPort {
    var dev: Device

    constructor (d: Device)
      ensures dev == d
    {
      dev := d;
    }

    method Inportw() returns (w: word)
      modifies this
      ensures (dev, w) == PortIn(old(dev))
    {
      var r := PortIn(dev);
      dev := r.0;
      w := r.1;
    }

    method Outportw(w: word)
      modifies this
      ensures dev == PortOut(old(dev), w)
    {
      dev := PortOut(dev, w);
    }

    /** The 256-word loop of read fills the buffer with the block and leaves the device ready. */
    method ReadWords(buf: array<byte>)
      requires buf.Length >= BLOCK_BYTES
      requires dev.phase.Sending? && dev.phase.i == 0 && Sized(dev.blocks)
      modifies this, buf
      ensures dev == old(dev).(phase := Ready)
      ensures buf[..BLOCK_BYTES] == BlockOf(dev.blocks, old(dev).phase.b)
      ensures buf[BLOCK_BYTES..] == old(buf[BLOCK_BYTES..])
    {
      ghost var b := dev.phase.b;
      ghost var data := BlockOf(dev.blocks, b);
      var i := 0;
      while i < WORDS
        invariant i <= WORDS
        invariant dev == old(dev).(phase := if i == WORDS then Ready else Sending(b, i))
        invariant forall k :: 0 <= k < 2 * i ==> buf[k] == data[k]
        invariant buf[BLOCK_BYTES..] == old(buf[BLOCK_BYTES..])
      {
        SplitOfJoin(data[2 * i], data[2 * i + 1]);
        var w := Inportw();
        buf[2 * i] := Lo(w);
        buf[2 * i + 1] := Hi(w);
        i := i + 1;
      }
    }

    /** The 256-word loop of write hands the device exactly the buffer's bytes. */
    method WriteWords(buf: array<byte>)
      requires buf.Length >= BLOCK_BYTES
      requires dev.phase.Receiving? && dev.phase.data == []
      modifies this
      ensures dev == old(dev).(phase := Latched(old(dev).phase.b, buf[..BLOCK_BYTES]))
    {
      ghost var b := dev.phase.b;
      var i := 0;
      while i < WORDS
        invariant i <= WORDS
        invariant dev == old(dev).(phase := if i == WORDS then Latched(b, buf[..2 * i]) else Receiving(b, buf[..2 * i]))
      {
        SplitOfJoin(buf[2 * i], buf[2 * i + 1]);
        assert buf[..2 * i] + [buf[2 * i], buf[2 * i + 1]] == buf[..2 * (i + 1)];
        Outportw(Join(buf[2 * i], buf[2 * i + 1]));
        i := i + 1;
      }
    }
  }
}
