/** Bytes, byte strings and the exclusive or that block chaining needs. */
module ByteStrings {

  type byte = x: int | 0 <= x < 256

  type Bytes = seq<byte>

  /** The block length of the cipher, and of what is padded for it. */
  const BLOCK_SIZE: nat := 16

  function Pow2(n: nat): (p: nat)
    ensures p > 0
  {
    if n == 0 then 1 else 2 * Pow2(n - 1)
  }

  /** Exclusive or of the `n` low bits, from the least significant bit up. */
  function XorBits(n: nat, a: nat, b: nat): (r: nat)
    ensures r < Pow2(n)
  {
    if n == 0 then 0 else (if a % 2 == b % 2 then 0 else 1) + 2 * XorBits(n - 1, a / 2, b / 2)
  }

  lemma {:induction false} XorBitsTwice(n: nat, a: nat, b: nat)
    requires a < Pow2(n)
    ensures XorBits(n, XorBits(n, a, b), b) == a
  {
    if n > 0 {
      var r := XorBits(n, a, b);
      var half := XorBits(n - 1, a / 2, b / 2);
      assert r / 2 == half && r % 2 == (if a % 2 == b % 2 then 0 else 1);
      XorBitsTwice(n - 1, a / 2, b / 2);
    }
  }

  function Bit(a: nat, i: nat): nat {
    if i == 0 then a % 2 else Bit(a / 2, i - 1)
  }

  /** A bit of the result is set exactly where the operands differ. */
  lemma {:induction false} XorBit(n: nat, a: nat, b: nat, i: nat)
    requires i < n
    ensures Bit(XorBits(n, a, b), i) == if Bit(a, i) == Bit(b, i) then 0 else 1
  {
    if i > 0 {
      assert XorBits(n, a, b) / 2 == XorBits(n - 1, a / 2, b / 2);
      XorBit(n - 1, a / 2, b / 2, i - 1);
    }
  }

  function Xor(a: byte, b: byte): byte {
    assert Pow2(8) == 256;
    XorBits(8, a, b)
  }

  /** Exclusive or position by position. */
  function XorBytes(a: Bytes, b: Bytes): (r: Bytes)
    requires |a| == |b|
    ensures |r| == |a|
  {
    seq(|a|, i requires 0 <= i < |a| => Xor(a[i], b[i]))
  }

  /** Every bit of every byte of the result is set exactly where the operands differ. */
  lemma XorBytesBits(a: Bytes, b: Bytes)
    requires |a| == |b|
    ensures forall k, i: nat :: 0 <= k < |a| && i < 8 ==>
              Bit(XorBytes(a, b)[k], i) == if Bit(a[k], i) == Bit(b[k], i) then 0 else 1
  {
    forall k, i: nat | 0 <= k < |a| && i < 8
      ensures Bit(XorBytes(a, b)[k], i) == if Bit(a[k], i) == Bit(b[k], i) then 0 else 1
    {
      XorBit(8, a[k], b[k], i);
    }
  }

  lemma XorBytesTwice(a: Bytes, b: Bytes)
    requires |a| == |b|
    ensures XorBytes(XorBytes(a, b), b) == a
  {
    assert Pow2(8) == 256;
    forall i | 0 <= i < |a| ensures Xor(Xor(a[i], b[i]), b[i]) == a[i] {
      XorBitsTwice(8, a[i], b[i]);
    }
  }
}
