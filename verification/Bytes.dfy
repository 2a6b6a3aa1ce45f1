/** Octets, and bits as the line codes send them, least significant first, or as message fields read them, most
    significant first. */
module Bytes {
  type Byte = bv8

  type Bits = seq<bool>

  function Mask(i: nat): Byte
    requires i < 8
  {
    match i
    case 0 => 0x01
    case 1 => 0x02
    case 2 => 0x04
    case 3 => 0x08
    case 4 => 0x10
    case 5 => 0x20
    case 6 => 0x40
    case _ => 0x80
  }

  /** The lowest `i` bits. */
  function LowMask(i: nat): Byte
    requires i <= 8
  {
    if i == 8 then 0xFF else Mask(i) - 1
  }

  predicate BitOf(b: Byte, i: nat)
    requires i < 8
  {
    b & Mask(i) != 0
  }

  function OctetBits(b: Byte): (bits: seq<bool>)
    ensures |bits| == 8
    ensures forall i :: 0 <= i < 8 ==> bits[i] == BitOf(b, i)
  {
    seq(8, i requires 0 <= i < 8 => BitOf(b, i))
  }

  /** The serial form of a run of octets. */
  function Octets(bytes: seq<Byte>): (bits: seq<bool>)
    ensures |bits| == 8 * |bytes|
  {
    if bytes == [] then [] else OctetBits(bytes[0]) + Octets(bytes[1..])
  }

  lemma {:induction false} OctetsAppend(a: seq<Byte>, b: seq<Byte>)
    ensures Octets(a + b) == Octets(a) + Octets(b)
  {
    hide OctetBits;
    if a == [] {
      assert a + b == b;
    } else {
      OctetsAppend(a[1..], b);
      assert (a + b)[0] == a[0] && (a + b)[1..] == a[1..] + b;
      var x, y, z := OctetBits(a[0]), Octets(a[1..]), Octets(b);
      assert x + (y + z) == (x + y) + z;
    }
  }

  function BitValue(bit: bool): nat {
    if bit then 1 else 0
  }

  /** An unsigned field, most significant bit first. */
  function Value(bits: Bits): nat
    decreases |bits|
  {
    if bits == [] then 0 else 2 * Value(bits[..|bits| - 1]) + BitValue(bits[|bits| - 1])
  }

  function Zeros(n: nat): (zeros: Bits)
    ensures |zeros| == n
  {
    seq(n, _ => false)
  }

  /** An ASCII digit. */
  predicate IsDigit(b: Byte) {
    0x30 <= b <= 0x39
  }

  /** The `i` lowest bits of an octet. */
  function LowBits(b: Byte, i: nat): Byte
    requires i <= 8
  {
    b & LowMask(i)
  }

  lemma MaskedBit(b: Byte, i: nat)
    requires i < 8
    ensures (if BitOf(b, i) then Mask(i) else 0) == b & Mask(i)
  {}

  lemma LowMaskGrows(i: nat)
    requires i < 8
    ensures LowMask(i + 1) == LowMask(i) | Mask(i)
  {}

  lemma Distributes(b: Byte, m: Byte, k: Byte)
    ensures (b & m) | (b & k) == b & (m | k)
  {}

  lemma WholeOctet(b: Byte)
    ensures LowBits(b, 0) == 0 && LowBits(b, 8) == b
  {
    assert LowMask(0) == 0 && LowMask(8) == 0xFF;
    hide LowMask;
  }

  /** Setting one more bit extends the copied low part of an octet. */
  lemma SetBit(b: Byte, i: nat)
    requires i < 8
    ensures LowBits(b, 0) == 0 && LowBits(b, 8) == b
    ensures LowBits(b, i) | (if BitOf(b, i) then Mask(i) else 0) == LowBits(b, i + 1)
  {
    hide Mask, LowMask, BitOf;
    WholeOctet(b);
    MaskedBit(b, i);
    LowMaskGrows(i);
    Distributes(b, LowMask(i), Mask(i));
  }

  lemma MasksMeet(j: nat, k: nat)
    requires j < 8 && k < 8
    ensures Mask(j) & Mask(k) == if j == k then Mask(j) else 0
  {}

  lemma OneMaskedBit(b: Byte, k: nat)
    requires k < 8
    ensures (b & Mask(k) == 0 || b & Mask(k) == Mask(k)) && Mask(k) != 0
  {}

  lemma XorThenMask(b: Byte, m: Byte, n: Byte)
    ensures (b ^ m) & n == (b & n) ^ (m & n) && 0 ^ n == n && n ^ n == 0 && n ^ 0 == n
  {}

  lemma MaskFlips(b: Byte, j: nat, k: nat)
    requires j < 8 && k < 8
    ensures BitOf(b ^ Mask(j), k) == (BitOf(b, k) != (j == k))
  {
    MasksMeet(j, k);
    OneMaskedBit(b, k);
    XorThenMask(b, Mask(j), Mask(k));
    XorThenMask(b, Mask(j), b & Mask(k));
    hide Mask;
  }

  lemma XorBit(a: Byte, b: Byte, i: nat)
    requires i < 8
    ensures BitOf(a ^ b, i) == (BitOf(a, i) != BitOf(b, i))
  {
    OneMaskedBit(a, i);
    OneMaskedBit(b, i);
    XorMasks(a, b, Mask(i));
    hide Mask;
  }

  lemma XorMasks(a: Byte, b: Byte, n: Byte)
    ensures (a ^ b) & n == (a & n) ^ (b & n) && n ^ n == 0 && n ^ 0 == n && 0 ^ n == n && (0 as Byte) ^ 0 == 0
  {}

  lemma ZeroHasNoBit(i: nat)
    requires i < 8
    ensures !BitOf(0, i)
  {}

  lemma SameBits(a: Byte, b: Byte)
    requires forall k: nat :: k < 8 ==> BitOf(a, k) == BitOf(b, k)
    ensures a == b
  {
    assert BitOf(a, 0) == BitOf(b, 0) && BitOf(a, 1) == BitOf(b, 1) && BitOf(a, 2) == BitOf(b, 2)
           && BitOf(a, 3) == BitOf(b, 3) && BitOf(a, 4) == BitOf(b, 4) && BitOf(a, 5) == BitOf(b, 5)
           && BitOf(a, 6) == BitOf(b, 6) && BitOf(a, 7) == BitOf(b, 7);
  }

  lemma SameOctet(a: Byte, b: Byte)
    requires OctetBits(a) == OctetBits(b)
    ensures a == b
  {
    forall k: nat | k < 8
      ensures BitOf(a, k) == BitOf(b, k)
    {
      assert OctetBits(a)[k] == OctetBits(b)[k];
    }
    SameBits(a, b);
  }
}
