/** The CRC is the remainder of a division by x^16 + x^12 + x^5 + 1, octets taken least significant bit first. */
module Crc16Division {
  import opened Bytes
  import opened Division
  import opened Crc16

  /** x^16 + x^12 + x^5 + 1 below its leading term. */
  function Generator(): Bits {
    [false, false, false, true, false, false, false, false, false, false, true, false, false, false, false, true]
  }

  // ---- The register as a polynomial ----

  /** The lowest bit is the coefficient of x^15. */
  function Coefficients(crc: bv16): (p: Bits)
    ensures |p| == 16
  {
    seq(16, i requires 0 <= i < 16 => Has(crc, i))
  }

  predicate Has(crc: bv16, i: nat)
    requires i < 16
  {
    And(crc, Single(i)) != 0
  }

  function And(a: bv16, b: bv16): bv16 {
    a & b
  }

  function Single(i: nat): bv16
    requires i < 16
  {
    match i
    case 0 => 0x0001
    case 1 => 0x0002
    case 2 => 0x0004
    case 3 => 0x0008
    case 4 => 0x0010
    case 5 => 0x0020
    case 6 => 0x0040
    case 7 => 0x0080
    case 8 => 0x0100
    case 9 => 0x0200
    case 10 => 0x0400
    case 11 => 0x0800
    case 12 => 0x1000
    case 13 => 0x2000
    case 14 => 0x4000
    case _ => 0x8000
  }

  function One(bit: bool): bv16 {
    if bit then 1 else 0
  }

  function Feed(crc: bv16, bit: bool): bv16 {
    ShiftOne(crc ^ One(bit))
  }

  function FeedAll(crc: bv16, bits: Bits): bv16
    decreases |bits|
  {
    if bits == [] then crc else FeedAll(Feed(crc, bits[0]), bits[1..])
  }

  // ---- Whole octets are eight bits ----

  function Xor(a: bv16, b: bv16): bv16 {
    a ^ b
  }

  function Half(a: bv16): bv16 {
    a >> 1
  }

  function Low(a: bv16): bool {
    a & 1 != 0
  }

  lemma HalfXor(a: bv16, b: bv16)
    ensures Half(Xor(a, b)) == Xor(Half(a), Half(b)) && Low(Xor(a, b)) == (Low(a) != Low(b))
  {}

  lemma HalfOne(bit: bool)
    ensures Half(One(bit)) == 0 && Low(One(bit)) == bit
  {}

  lemma ShiftIsHalf(a: bv16)
    ensures ShiftOne(a) == Xor(Half(a), if Low(a) then POLY else 0)
  {}

  lemma XorZero(a: bv16)
    ensures Xor(a, 0) == a
  {}

  lemma LinearShift(a: bv16, b: bv16)
    ensures ShiftOne(Xor(a, b)) == Xor(ShiftOne(a), ShiftOne(b))
  {
    ShiftIsHalf(a);
    ShiftIsHalf(b);
    ShiftIsHalf(Xor(a, b));
    HalfXor(a, b);
    var x, y, p := Half(a), Half(b), POLY;
    hide *;
    XorShuffle(x, y, p);
    XorCancels(x, y, p);
    XorZero(x);
    XorZero(y);
    XorZero(Xor(x, y));
  }

  lemma XorShuffle(x: bv16, y: bv16, p: bv16)
    ensures Xor(Xor(x, p), y) == Xor(Xor(x, y), p) && Xor(x, Xor(y, p)) == Xor(Xor(x, y), p)
  {}

  lemma XorCancels(x: bv16, y: bv16, p: bv16)
    ensures Xor(Xor(x, p), Xor(y, p)) == Xor(x, y)
  {
    hide Xor;
    XorShuffle(x, Xor(y, p), p);
    XorShuffle(x, y, p);
    XorTwice(Xor(x, y), p);
  }

  lemma XorTwice(x: bv16, p: bv16)
    ensures Xor(Xor(x, p), p) == x
  {}

  function Upper(y: bv16): bv16 {
    y & 0xFFFE
  }

  lemma LowAndUpper(a: bv16, y: bv16)
    ensures Xor(a, y) == Xor(Xor(a, One(Low(y))), Upper(y))
  {}

  lemma UpperShifts(y: bv16)
    ensures ShiftOne(Upper(y)) == Half(y)
  {}

  lemma FeedIs(crc: bv16, bit: bool)
    ensures Feed(crc, bit) == ShiftOne(Xor(crc, One(bit)))
  {}

  lemma ShiftSplits(crc: bv16, y: bv16)
    ensures ShiftOne(Xor(crc, y)) == Xor(Feed(crc, Low(y)), Half(y))
  {
    hide *;
    LowAndUpper(crc, y);
    LinearShift(Xor(crc, One(Low(y))), Upper(y));
    UpperShifts(y);
    FeedIs(crc, Low(y));
  }

  function ShiftMany(crc: bv16, k: nat): bv16
    decreases k
  {
    if k == 0 then crc else ShiftMany(ShiftOne(crc), k - 1)
  }

  function LowBitsOf(y: bv16, k: nat): Bits
    decreases k
  {
    if k == 0 then [] else [Low(y)] + LowBitsOf(Half(y), k - 1)
  }

  function HalfMany(y: bv16, k: nat): bv16
    decreases k
  {
    if k == 0 then y else HalfMany(Half(y), k - 1)
  }

  lemma {:induction false} ShiftsFeed(crc: bv16, y: bv16, k: nat)
    ensures ShiftMany(Xor(crc, y), k) == Xor(FeedAll(crc, LowBitsOf(y, k)), HalfMany(y, k))
    decreases k
  {
    hide ShiftOne, Xor, Half, Low, Feed;
    if k > 0 {
      ShiftSplits(crc, y);
      ShiftsFeed(Feed(crc, Low(y)), Half(y), k - 1);
      assert LowBitsOf(y, k)[1..] == LowBitsOf(Half(y), k - 1);
    }
  }

  lemma EightShifts(crc: bv16)
    ensures ShiftMany(crc, 8) == ShiftOctet(crc)
  {
    hide ShiftOne;
    var a := ShiftOne(crc);
    assert ShiftMany(crc, 8) == ShiftMany(a, 7);
    var b := ShiftOne(a);
    assert ShiftMany(a, 7) == ShiftMany(b, 6);
    var c := ShiftOne(b);
    assert ShiftMany(b, 6) == ShiftMany(c, 5);
    var d := ShiftOne(c);
    assert ShiftMany(c, 5) == ShiftMany(d, 4);
    var e := ShiftOne(d);
    assert ShiftMany(d, 4) == ShiftMany(e, 3);
    var f := ShiftOne(e);
    assert ShiftMany(e, 3) == ShiftMany(f, 2);
  }

  lemma OctetHalves(b: Byte)
    ensures var y0 := b as bv16; var y1 := Half(y0); var y2 := Half(y1); var y3 := Half(y2); var y4 := Half(y3);
            var y5 := Half(y4); var y6 := Half(y5); var y7 := Half(y6);
            && Low(y0) == BitOf(b, 0) && Low(y1) == BitOf(b, 1) && Low(y2) == BitOf(b, 2) && Low(y3) == BitOf(b, 3)
            && Low(y4) == BitOf(b, 4) && Low(y5) == BitOf(b, 5) && Low(y6) == BitOf(b, 6) && Low(y7) == BitOf(b, 7)
            && Half(y7) == 0
  {}

  lemma {:induction false} LowBitsAt(y: bv16, k: nat, i: nat)
    requires i < k
    ensures |LowBitsOf(y, k)| == k && LowBitsOf(y, k)[i] == Low(HalfMany(y, i))
    decreases k
  {
    hide Half, Low;
    if k > 1 {
      LowBitsAt(Half(y), k - 1, if i == 0 then 0 else i - 1);
    }
  }

  lemma {:induction false} HalfOneMore(y: bv16, k: nat)
    ensures HalfMany(y, k + 1) == Half(HalfMany(y, k))
    decreases k
  {
    hide Half;
    if k > 0 {
      HalfOneMore(Half(y), k - 1);
    }
  }

  lemma HalvesOfOctet(b: Byte, i: nat)
    requires i < 8
    ensures Low(HalfMany(b as bv16, i)) == BitOf(b, i) && HalfMany(b as bv16, 8) == 0
  {
    var y := b as bv16;
    assert HalfMany(y, 0) == y;
    OctetHalves(b);
    hide Half, Low, BitOf, HalfMany;
    HalfOneMore(y, 0);
    HalfOneMore(y, 1);
    HalfOneMore(y, 2);
    HalfOneMore(y, 3);
    HalfOneMore(y, 4);
    HalfOneMore(y, 5);
    HalfOneMore(y, 6);
    HalfOneMore(y, 7);
  }

  lemma {:induction false} OctetComesBy(b: Byte)
    ensures LowBitsOf(b as bv16, 8) == OctetBits(b) && HalfMany(b as bv16, 8) == 0
  {
    hide Half, Low, BitOf, HalfMany, LowBitsOf;
    forall i | 0 <= i < 8
      ensures |LowBitsOf(b as bv16, 8)| == 8 && LowBitsOf(b as bv16, 8)[i] == OctetBits(b)[i]
    {
      LowBitsAt(b as bv16, 8, i);
      HalvesOfOctet(b, i);
    }
    LowBitsAt(b as bv16, 8, 0);
    HalvesOfOctet(b, 0);
  }

  lemma {:induction false} FeedAppend(crc: bv16, a: Bits, b: Bits)
    ensures FeedAll(crc, a + b) == FeedAll(FeedAll(crc, a), b)
    decreases |a|
  {
    hide Feed;
    if a == [] {
      assert a + b == b;
    } else {
      assert (a + b)[0] == a[0] && (a + b)[1..] == a[1..] + b;
      FeedAppend(Feed(crc, a[0]), a[1..], b);
    }
  }

  /** Octet by octet is bit by bit. */
  lemma {:induction false} ReflectedFeeds(crc: bv16, data: seq<Byte>)
    ensures Reflected(crc, data) == FeedAll(crc, Octets(data))
    decreases |data|
  {
    if data != [] {
      var b := data[0];
      ShiftsFeed(crc, b as bv16, 8);
      EightShifts(Xor(crc, b as bv16));
      OctetComesBy(b);
      XorZero(FeedAll(crc, OctetBits(b)));
      var next := ShiftOctet(Xor(crc, b as bv16));
      assert next == FeedAll(crc, OctetBits(b));
      assert Reflected(crc, data) == Reflected(next, data[1..]);
      hide ShiftOctet, FeedAll, OctetBits, Xor, Reflected;
      ReflectedFeeds(next, data[1..]);
      FeedAppend(crc, OctetBits(b), Octets(data[1..]));
    }
  }

  // ---- Feeding bits is dividing ----

  lemma SingleBit(a: bv16, i: nat)
    requires i < 16
    ensures Single(i) != 0 && (And(a, Single(i)) == 0 || And(a, Single(i)) == Single(i))
  {}

  lemma SinglesDouble(i: nat)
    requires i < 15
    ensures Single(i + 1) == Double(Single(i)) && Double(Single(i)) != 0
  {}

  function Double(n: bv16): bv16 {
    n << 1
  }

  lemma AndXor(a: bv16, b: bv16, n: bv16)
    ensures And(Xor(a, b), n) == Xor(And(a, n), And(b, n))
  {}

  lemma XorIsZero(a: bv16, b: bv16)
    ensures Xor(a, b) == 0 <==> a == b
  {}

  lemma HasXor(a: bv16, b: bv16, i: nat)
    requires i < 16
    ensures Has(Xor(a, b), i) == (Has(a, i) != Has(b, i))
  {
    hide And, Xor, Single;
    SingleBit(a, i);
    SingleBit(b, i);
    AndXor(a, b, Single(i));
    XorIsZero(And(a, Single(i)), And(b, Single(i)));
  }

  lemma HalfMasks(a: bv16, n: bv16)
    ensures And(Half(a), n) == Half(And(a, Double(n)))
  {}

  lemma HalfIsZero(a: bv16, n: bv16)
    requires And(a, Double(n)) == 0 || And(a, Double(n)) == Double(n)
    requires Double(n) != 0
    ensures Half(And(a, Double(n))) == 0 <==> And(a, Double(n)) == 0
  {}

  lemma HalfHasNoTop(a: bv16)
    ensures And(Half(a), 0x8000) == 0
  {}

  lemma HasHalf(a: bv16, i: nat)
    requires i < 16
    ensures Has(Half(a), i) <==> i < 15 && Has(a, i + 1)
  {
    if i < 15 {
      hide And, Half, Single, Double;
      SinglesDouble(i);
      SingleBit(a, i + 1);
      HalfMasks(a, Single(i));
      HalfIsZero(a, Single(i));
    } else {
      HalfHasNoTop(a);
    }
  }

  lemma HasPoly(i: nat)
    requires i < 16
    ensures (Has(POLY, i) <==> i == 3 || i == 10 || i == 15) && !Has(0, i) && Has(0xFFFF, i)
  {}

  lemma LowHas(a: bv16)
    ensures Low(a) == Has(a, 0)
  {}

  lemma FeedIsHalf(crc: bv16, bit: bool)
    ensures Feed(crc, bit) == if Low(crc) != bit then Xor(Half(crc), POLY) else Half(crc)
  {
    FeedIs(crc, bit);
    ShiftIsHalf(Xor(crc, One(bit)));
    HalfXor(crc, One(bit));
    HalfOne(bit);
    XorZero(Half(crc));
    hide *;
  }

  lemma GeneratorBits(i: nat)
    requires i < 16
    ensures Generator()[i] <==> i == 3 || i == 10 || i == 15
  {}

  lemma FeedDivides(crc: bv16, bit: bool, i: nat)
    requires i < 16
    ensures Has(Feed(crc, bit), i)
         == ((i < 15 && Has(crc, i + 1)) != ((Has(crc, 0) != bit) && Generator()[i]))
  {
    hide *;
    FeedIsHalf(crc, bit);
    HasHalf(crc, i);
    HasPoly(i);
    LowHas(crc);
    GeneratorBits(i);
    if Low(crc) != bit {
      HasXor(Half(crc), POLY, i);
    }
  }

  /** The polynomial a register stands for with `bits` still to come. */
  function Dividend(crc: bv16, bits: Bits): (p: Bits)
    ensures |p| == |bits| + 16
  {
    AddTo(bits + Zeros(16), Coefficients(crc))
  }

  lemma {:induction false} OneStep(crc: bv16, bits: Bits)
    requires bits != []
    ensures var p, next := Dividend(crc, bits), Dividend(Feed(crc, bits[0]), bits[1..]);
            next == if p[0] then AddTo(p[1..], Generator()) else p[1..]
  {
    var p, next := Dividend(crc, bits), Dividend(Feed(crc, bits[0]), bits[1..]);
    forall i | 0 <= i < 16
      ensures Has(Feed(crc, bits[0]), i) == ((i < 15 && Has(crc, i + 1)) != (p[0] && Generator()[i]))
    {
      FeedDivides(crc, bits[0], i);
    }
    hide Has, Feed, Generator;
    assert (bits + Zeros(16))[1..] == bits[1..] + Zeros(16);
    assert |bits[1..] + Zeros(16)| == |bits| + 15;
  }

  lemma {:induction false} FeedingDivides(crc: bv16, bits: Bits)
    ensures Coefficients(FeedAll(crc, bits)) == Remainder(Dividend(crc, bits), Generator())
    decreases |bits|
  {
    if bits == [] {
      assert Dividend(crc, bits) == Coefficients(crc);
    } else {
      OneStep(crc, bits);
      hide Coefficients, Feed, Dividend, AddTo;
      FeedingDivides(Feed(crc, bits[0]), bits[1..]);
    }
  }

  function Complement(p: Bits): (q: Bits)
    ensures |q| == |p|
  {
    seq(|p|, i requires 0 <= i < |p| => !p[i])
  }

  lemma {:induction false} StartsPlain(data: seq<Byte>)
    ensures Dividend(0, Octets(data)) == Octets(data) + Zeros(16)
  {
    forall i | 0 <= i < 16
      ensures !Has(0, i)
    {
      HasPoly(i);
    }
    hide Has, Octets;
  }

  lemma {:induction false} StartsInverted(data: seq<Byte>)
    ensures var p := Octets(data) + Zeros(16);
            Dividend(0xFFFF, Octets(data)) == Complement(p[..16]) + p[16..]
  {
    forall i | 0 <= i < 16
      ensures Has(0xFFFF, i)
    {
      HasPoly(i);
    }
    hide Has, Octets;
  }

  lemma Inverted(crc: bv16)
    ensures Coefficients(Xor(crc, 0xFFFF)) == Complement(Coefficients(crc))
  {
    forall i | 0 <= i < 16
      ensures Has(Xor(crc, 0xFFFF), i) == !Has(crc, i)
    {
      HasXor(crc, 0xFFFF, i);
      HasPoly(i);
    }
    hide Has, Xor;
  }

  lemma EndsInverted(data: seq<Byte>)
    ensures X25(data) == Xor(Reflected(0xFFFF, data), 0xFFFF)
  {
    hide Reflected;
  }

  /** The check of ACARS blocks: the remainder of the block's bits followed by sixteen zeros. */
  lemma {:induction false} CcittIsRemainder(data: seq<Byte>)
    ensures Coefficients(Ccitt(data)) == Remainder(Octets(data) + Zeros(16), Generator())
  {
    ReflectedFeeds(0, data);
    FeedingDivides(0, Octets(data));
    StartsPlain(data);
    hide Coefficients, Remainder, Dividend, FeedAll, Octets;
  }

  /** The frame check sequence of AX.25: the same with the first sixteen bits and the remainder complemented. */
  lemma {:induction false} X25IsRemainder(data: seq<Byte>)
    ensures var p := Octets(data) + Zeros(16);
            Coefficients(X25(data)) == Complement(Remainder(Complement(p[..16]) + p[16..], Generator()))
  {
    hide *;
    var crc := Reflected(0xFFFF, data);
    EndsInverted(data);
    ReflectedFeeds(0xFFFF, data);
    FeedingDivides(0xFFFF, Octets(data));
    StartsInverted(data);
    Inverted(crc);
  }

  // ---- Known values ----

  lemma OctetFed(crc: bv16, b: Byte, next: bv16, rest: seq<Byte>)
    requires ShiftOctet(crc ^ b as bv16) == next
    ensures Reflected(crc, [b] + rest) == Reflected(next, rest)
  {
    hide ShiftOctet;
    assert ([b] + rest)[1..] == rest;
  }

  function Digits(): seq<Byte> {
    [0x31] + ([0x32] + ([0x33] + ([0x34] + ([0x35] + ([0x36] + ([0x37] + ([0x38] + ([0x39] + []))))))))
  }

  lemma {:induction false} PlainDigits()
    ensures Ccitt(Digits()) == 0x2189
  {
    var d9 := [0x39] + []; var d8 := [0x38] + d9; var d7 := [0x37] + d8; var d6 := [0x36] + d7; var d5 := [0x35] + d6;
    var d4 := [0x34] + d5; var d3 := [0x33] + d4; var d2 := [0x32] + d3;
    OctetFed(0x0000, 0x31, 0x200A, d2);
    OctetFed(0x200A, 0x32, 0xBDEB, d3);
    OctetFed(0xBDEB, 0x33, 0x5A78, d4);
    OctetFed(0x5A78, 0x34, 0x8832, d5);
    OctetFed(0x8832, 0x35, 0x7437, d6);
    OctetFed(0x7437, 0x36, 0x11FD, d7);
    OctetFed(0x11FD, 0x37, 0x6947, d8);
    OctetFed(0x6947, 0x38, 0x8B19, d9);
    OctetFed(0x8B19, 0x39, 0x2189, []);
    assert Reflected(0x2189, []) == 0x2189;
  }

  /** The check values of the nine digits. */
  lemma {:induction false} KnownValues()
    ensures Ccitt(Digits()) == 0x2189 && X25(Digits()) == 0x906E
  {
    PlainDigits();
    var d9 := [0x39] + []; var d8 := [0x38] + d9; var d7 := [0x37] + d8; var d6 := [0x36] + d7; var d5 := [0x35] + d6;
    var d4 := [0x34] + d5; var d3 := [0x33] + d4; var d2 := [0x32] + d3;
    OctetFed(0xFFFF, 0x31, 0x2F8D, d2);
    OctetFed(0x2F8D, 0x32, 0x4D53, d3);
    OctetFed(0x4D53, 0x33, 0x634B, d4);
    OctetFed(0x634B, 0x34, 0x8B13, d5);
    OctetFed(0x8B13, 0x35, 0x44BF, d6);
    OctetFed(0x44BF, 0x36, 0x198D, d7);
    OctetFed(0x198D, 0x37, 0x1AC8, d8);
    OctetFed(0x1AC8, 0x38, 0xF795, d9);
    OctetFed(0xF795, 0x39, 0x6F91, []);
    assert Reflected(0x6F91, []) == 0x6F91;
  }
}
