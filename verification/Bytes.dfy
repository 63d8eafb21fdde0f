/**
 Machine bytes and the little-endian words built from them.

 A byte is an 8-bit vector, so the bitmap code can use the same shifts and masks
 as the kernel. The numeric value of a byte is defined through its bits, which
 keeps bit-vector and integer reasoning apart.
 */
module Bytes {
  type byte = bv8

  const TWO32: nat := 0x1_0000_0000

  datatype Option<+T> = None | Some(value: T)

  // ----- one bit of a byte -----

  /** The mask `1 << k`. */
  function Bit(k: nat): byte
    requires k < 8
  {
    if k == 0 then 1 else if k == 1 then 2 else if k == 2 then 4 else if k == 3 then 8
    else if k == 4 then 16 else if k == 5 then 32 else if k == 6 then 64 else 128
  }

  predicate HasBit(x: byte, k: nat)
    requires k < 8
  {
    x & Bit(k) != 0
  }

  function SetBit(x: byte, k: nat): byte
    requires k < 8
  {
    x | Bit(k)
  }

  function ClearBit(x: byte, k: nat): byte
    requires k < 8
  {
    x & !Bit(k)
  }

  /** Setting or clearing one bit of a byte leaves the other seven alone. */
  lemma BitFrame(x: byte, k: nat, j: nat)
    requires k < 8 && j < 8
    ensures HasBit(SetBit(x, k), j) <==> j == k || HasBit(x, j)
    ensures HasBit(ClearBit(x, k), j) <==> j != k && HasBit(x, j)
  {
  }

  lemma ClearUnsetBit(x: byte, k: nat)
    requires k < 8 && !HasBit(x, k)
    ensures ClearBit(x, k) == x
  {
  }

  lemma ZeroHasNoBit(k: nat)
    requires k < 8
    ensures !HasBit(0, k)
  {
  }

  // ----- the value of a byte -----

  function Pow2(k: nat): (p: nat)
    ensures p > 0
  {
    if k == 0 then 1 else 2 * Pow2(k - 1)
  }

  /** The low `width` bits of a number, least significant first. */
  function BitsOf(n: nat, width: nat): (b: seq<bool>)
    ensures |b| == width
  {
    if width == 0 then [] else [n % 2 == 1] + BitsOf(n / 2, width - 1)
  }

  function BitsVal(b: seq<bool>): nat {
    if b == [] then 0 else (if b[0] then 1 else 0) + 2 * BitsVal(b[1..])
  }

  lemma {:induction false} BitsValOf(n: nat, width: nat)
    requires n < Pow2(width)
    ensures BitsVal(BitsOf(n, width)) == n
  {
    if width > 0 {
      BitsValOf(n / 2, width - 1);
    }
  }

  lemma {:induction false} BitsOfVal(b: seq<bool>)
    ensures BitsVal(b) < Pow2(|b|)
    ensures BitsOf(BitsVal(b), |b|) == b
  {
    if b != [] {
      BitsOfVal(b[1..]);
      assert b == [b[0]] + b[1..];
    }
  }

  lemma Pow2Of8()
    ensures Pow2(8) == 256
  {
    assert Pow2(4) == 16;
  }

  function Pack(b: seq<bool>): byte
    requires |b| == 8
  {
    (if b[0] then 1 else 0) | (if b[1] then 2 else 0) | (if b[2] then 4 else 0) | (if b[3] then 8 else 0)
    | (if b[4] then 16 else 0) | (if b[5] then 32 else 0) | (if b[6] then 64 else 0) | (if b[7] then 128 else 0)
  }

  function Unpack(x: byte): (b: seq<bool>)
    ensures |b| == 8
  {
    [x & 1 != 0, x & 2 != 0, x & 4 != 0, x & 8 != 0, x & 16 != 0, x & 32 != 0, x & 64 != 0, x & 128 != 0]
  }

  lemma UnpackPack(b: seq<bool>)
    requires |b| == 8
    ensures Unpack(Pack(b)) == b
  {
  }

  function ByteVal(x: byte): (n: nat)
    ensures n < 256
  {
    BitsOfVal(Unpack(x));
    Pow2Of8();
    BitsVal(Unpack(x))
  }

  function ByteOf(n: nat): byte {
    Pack(BitsOf(n, 8))
  }

  lemma ByteValOf(n: nat)
    requires n < 256
    ensures ByteVal(ByteOf(n)) == n
  {
    UnpackPack(BitsOf(n, 8));
    Pow2Of8();
    BitsValOf(n, 8);
  }

  // ----- 32-bit little-endian words -----

  /** The four bytes of an unsigned int, as `x & 0xFF`, `(x >> 8) & 0xFF`, ... store them. */
  function WordBytes(n: nat): (b: seq<byte>)
    requires n < TWO32
    ensures |b| == 4
  {
    var q1 := n / 256;
    var q2 := q1 / 256;
    var q3 := q2 / 256;
    [ByteOf(n % 256), ByteOf(q1 % 256), ByteOf(q2 % 256), ByteOf(q3)]
  }

  function BytesWord(b: seq<byte>): (n: nat)
    requires |b| == 4
    ensures n < TWO32
  {
    ByteVal(b[0]) + 256 * (ByteVal(b[1]) + 256 * (ByteVal(b[2]) + 256 * ByteVal(b[3])))
  }

  lemma WordRoundTrip(n: nat)
    requires n < TWO32
    ensures BytesWord(WordBytes(n)) == n
  {
    var q1 := n / 256;
    var q2 := q1 / 256;
    ByteValOf(n % 256);
    ByteValOf(q1 % 256);
    ByteValOf(q2 % 256);
    ByteValOf(q2 / 256);
  }

  lemma ZeroWord()
    ensures BytesWord([0, 0, 0, 0]) == 0
  {
    ZeroBits(8);
    assert Unpack(0) == seq(8, _ => false);
  }

  lemma {:induction false} ZeroBits(k: nat)
    ensures BitsVal(seq(k, _ => false)) == 0
  {
    if k > 0 {
      ZeroBits(k - 1);
      assert seq(k, _ => false)[1..] == seq(k - 1, _ => false);
    }
  }
}
