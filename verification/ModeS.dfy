/** Mode S parity (section 3.1.2.3.3 of ICAO Annex 10 Volume IV) as `fec.rs` computes it. A frame is
    the sequence of its bits, first transmitted first. */
module ModeS {
  import opened Wrappers
  import opened Bytes

  type Reg = bv24

  const POLY: Reg := 0xFFF409
  const TOP: Reg := 0x800000
  const SHORT_BITS: nat := 56
  const LONG_BITS: nat := 112
  const PARITY_BITS: nat := 24

  function Xor(a: Reg, b: Reg): Reg {
    a ^ b
  }

  function Shl(a: Reg): Reg {
    a << 1
  }

  predicate HasTop(a: Reg) {
    a & TOP != 0
  }

  function Step(reg: Reg): Reg {
    if HasTop(reg) then Xor(Shl(reg), POLY) else Shl(reg)
  }

  function In(bit: bool): Reg {
    if bit then TOP else 0
  }

  /** The register after shifting in `bits`, one at a time. */
  function Crc(reg: Reg, bits: Bits): Reg
    decreases |bits|
  {
    if bits == [] then reg else Crc(Step(Xor(reg, In(bits[0]))), bits[1..])
  }

  function Shr(a: Reg): Reg {
    a >> 1
  }

  function PutFirst(bit: bool, rest: Reg): Reg {
    Xor(In(bit), Shr(rest))
  }

  /** Up to 24 bits as a register, first bit on top. */
  function Aligned(bits: Bits): Reg
    decreases |bits|
  {
    if bits == [] then 0 else PutFirst(bits[0], Aligned(bits[1..]))
  }

  predicate FrameLength(n: nat) {
    n == SHORT_BITS || n == LONG_BITS
  }

  /** The parity field with the parity of the rest removed: zero, an interrogator or an address. */
  function OverlayOf(frame: Bits): Reg
    requires |frame| >= PARITY_BITS
  {
    var n := |frame| - PARITY_BITS;
    Xor(Crc(0, frame[..n]), Aligned(frame[n..]))
  }

  function Overlay(frame: Bits): Option<Reg> {
    if FrameLength(|frame|) then Some(OverlayOf(frame)) else None
  }

  // ---- Linearity ----

  lemma XorLaws(a: Reg, b: Reg, c: Reg)
    ensures Xor(a, b) == Xor(b, a)
    ensures Xor(Xor(a, b), c) == Xor(a, Xor(b, c))
    ensures Xor(a, a) == 0 && Xor(a, 0) == a && Xor(0, a) == a
    ensures Xor(Xor(a, b), b) == a
  {
    XorAssociates(a, b, c);
    XorAssociates(a, b, b);
    XorUnits(a, b);
    XorUnits(b, a);
    hide Xor;
  }

  lemma XorAssociates(a: Reg, b: Reg, c: Reg)
    ensures Xor(Xor(a, b), c) == Xor(a, Xor(b, c))
  {
    assert (a ^ b) ^ c == a ^ (b ^ c);
  }

  lemma XorUnits(a: Reg, b: Reg)
    ensures Xor(a, b) == Xor(b, a) && Xor(a, a) == 0 && Xor(a, 0) == a && Xor(0, a) == a
  {}

  lemma XorZero(a: Reg, b: Reg)
    requires Xor(a, b) == 0
    ensures a == b
  {}

  lemma XorExchange(a: Reg, b: Reg, c: Reg, d: Reg)
    ensures Xor(Xor(a, b), Xor(c, d)) == Xor(Xor(a, c), Xor(b, d))
  {
    hide Xor;
    XorLaws(a, b, Xor(c, d));
    XorLaws(b, c, d);
    XorLaws(c, b, d);
    XorLaws(a, c, Xor(b, d));
  }

  lemma ShlXor(a: Reg, b: Reg)
    ensures Shl(Xor(a, b)) == Xor(Shl(a), Shl(b))
    ensures HasTop(Xor(a, b)) == (HasTop(a) != HasTop(b))
  {}

  /** The register step is linear. */
  lemma StepXor(a: Reg, b: Reg)
    ensures Step(Xor(a, b)) == Xor(Step(a), Step(b))
  {
    hide Xor, Shl, HasTop;
    ShlXor(a, b);
    XorLaws(Shl(a), Shl(b), POLY);
    XorLaws(Shl(b), POLY, POLY);
    XorExchange(Shl(a), POLY, Shl(b), POLY);
    XorLaws(POLY, POLY, POLY);
    XorLaws(Xor(Shl(a), Shl(b)), POLY, POLY);
    XorLaws(Shl(a), POLY, Shl(b));
    XorLaws(POLY, Shl(b), POLY);
  }

  /** Two frames bit by bit. */
  function XorBits(x: Bits, y: Bits): (z: Bits)
    requires |x| == |y|
    ensures |z| == |x|
  {
    seq(|x|, i requires 0 <= i < |x| => x[i] != y[i])
  }

  lemma InXor(p: bool, q: bool)
    ensures In(p != q) == Xor(In(p), In(q))
  {}

  lemma {:induction false} CrcXor(a: Reg, b: Reg, x: Bits, y: Bits)
    requires |x| == |y|
    ensures Crc(Xor(a, b), XorBits(x, y)) == Xor(Crc(a, x), Crc(b, y))
    decreases |x|
  {
    hide Xor, Step, In;
    if x != [] {
      InXor(x[0], y[0]);
      XorExchange(a, b, In(x[0]), In(y[0]));
      StepXor(Xor(a, In(x[0])), Xor(b, In(y[0])));
      assert XorBits(x, y)[1..] == XorBits(x[1..], y[1..]);
      CrcXor(Step(Xor(a, In(x[0]))), Step(Xor(b, In(y[0]))), x[1..], y[1..]);
    }
  }

  lemma PutFirstXor(p: bool, q: bool, a: Reg, b: Reg)
    ensures PutFirst(p != q, Xor(a, b)) == Xor(PutFirst(p, a), PutFirst(q, b))
  {
    hide Xor, In, Shr;
    ShrXor(a, b);
    InXor(p, q);
    XorExchange(In(p), In(q), Shr(a), Shr(b));
  }

  lemma ShrXor(a: Reg, b: Reg)
    ensures Shr(Xor(a, b)) == Xor(Shr(a), Shr(b))
  {}

  lemma {:induction false} AlignedXor(x: Bits, y: Bits)
    requires |x| == |y|
    ensures Aligned(XorBits(x, y)) == Xor(Aligned(x), Aligned(y))
    decreases |x|
  {
    if x != [] {
      assert XorBits(x, y)[1..] == XorBits(x[1..], y[1..]);
      AlignedXor(x[1..], y[1..]);
      PutFirstXor(x[0], y[0], Aligned(x[1..]), Aligned(y[1..]));
      hide Xor, PutFirst;
    }
  }

  /** Parity is linear: the overlay of a bitwise sum is the sum of the overlays. */
  lemma OverlayXor(x: Bits, y: Bits)
    requires |x| == |y| >= PARITY_BITS
    ensures OverlayOf(XorBits(x, y)) == Xor(OverlayOf(x), OverlayOf(y))
  {
    XorLaws(0, 0, 0);
    hide Xor, Crc, Aligned;
    var n := |x| - PARITY_BITS;
    assert XorBits(x, y)[..n] == XorBits(x[..n], y[..n]) && XorBits(x, y)[n..] == XorBits(x[n..], y[n..]);
    CrcXor(0, 0, x[..n], y[..n]);
    AlignedXor(x[n..], y[n..]);
    XorExchange(Crc(0, x[..n]), Crc(0, y[..n]), Aligned(x[n..]), Aligned(y[n..]));
  }

  // ---- Flipping bits ----

  function Unit(n: nat, i: nat): Bits {
    seq(n, j => j == i)
  }

  function Flip(frame: Bits, i: nat): (flipped: Bits)
    requires i < |frame|
    ensures |flipped| == |frame|
  {
    frame[i := !frame[i]]
  }

  /** `mode_s_bit_overlays`: what flipping each bit does to the overlay. */
  function BitOverlays(n: nat): (table: seq<Reg>)
    requires n >= PARITY_BITS
    ensures |table| == n
  {
    seq(n, i requires 0 <= i < n => OverlayOf(Unit(n, i)))
  }

  lemma FlipOverlay(frame: Bits, i: nat)
    requires i < |frame| && |frame| >= PARITY_BITS
    ensures OverlayOf(Flip(frame, i)) == Xor(OverlayOf(frame), BitOverlays(|frame|)[i])
  {
    hide OverlayOf, Xor;
    assert Flip(frame, i) == XorBits(frame, Unit(|frame|, i));
    OverlayXor(frame, Unit(|frame|, i));
  }

  function FlipAll(frame: Bits, positions: seq<nat>): (flipped: Bits)
    requires forall k :: 0 <= k < |positions| ==> positions[k] < |frame|
    ensures |flipped| == |frame|
    decreases |positions|
  {
    if positions == [] then frame else FlipAll(Flip(frame, positions[0]), positions[1..])
  }

  /** The overlay accumulated from the table, without touching the frame. */
  function Accumulated(overlay: Reg, table: seq<Reg>, positions: seq<nat>): Reg
    requires forall k :: 0 <= k < |positions| ==> positions[k] < |table|
    decreases |positions|
  {
    if positions == [] then overlay else Accumulated(Xor(overlay, table[positions[0]]), table, positions[1..])
  }

  /** The accumulated overlay is the overlay recomputed on the flipped frame. */
  lemma {:induction false} AccumulatedIsExact(frame: Bits, positions: seq<nat>)
    requires |frame| >= PARITY_BITS
    requires forall k :: 0 <= k < |positions| ==> positions[k] < |frame|
    ensures Accumulated(OverlayOf(frame), BitOverlays(|frame|), positions) == OverlayOf(FlipAll(frame, positions))
    decreases |positions|
  {
    hide OverlayOf, Xor, BitOverlays;
    if positions != [] {
      FlipOverlay(frame, positions[0]);
      AccumulatedIsExact(Flip(frame, positions[0]), positions[1..]);
    }
  }

  lemma {:induction false} FlipAllElsewhere(frame: Bits, positions: seq<nat>, i: nat)
    requires forall k :: 0 <= k < |positions| ==> positions[k] < |frame|
    requires i < |frame| && i !in positions
    ensures FlipAll(frame, positions)[i] == frame[i]
    decreases |positions|
  {
    if positions != [] {
      FlipAllElsewhere(Flip(frame, positions[0]), positions[1..], i);
    }
  }

  // ---- The source's register takes whole octets; it is the same register ----

  function OctetIn(b: Byte): Reg {
    b as Reg << 16
  }

  function Steps(reg: Reg, k: nat): Reg
    decreases k
  {
    if k == 0 then reg else Steps(Step(reg), k - 1)
  }

  function CrcOctets(reg: Reg, data: seq<Byte>): Reg
    decreases |data|
  {
    if data == [] then reg else CrcOctets(Steps(Xor(reg, OctetIn(data[0])), 8), data[1..])
  }

  /** An octet's bits, most significant first. */
  function BitsOf(b: Byte): (bits: Bits)
    ensures |bits| == 8
  {
    [BitOf(b, 7), BitOf(b, 6), BitOf(b, 5), BitOf(b, 4), BitOf(b, 3), BitOf(b, 2), BitOf(b, 1), BitOf(b, 0)]
  }

  function AllBits(data: seq<Byte>): (bits: Bits)
    ensures |bits| == 8 * |data|
  {
    if data == [] then [] else BitsOf(data[0]) + AllBits(data[1..])
  }

  /** Everything but the top bit. */
  function Low(y: Reg): Reg {
    Xor(y, In(HasTop(y)))
  }

  lemma InIsTop(bit: bool)
    ensures HasTop(In(bit)) == bit && Shl(In(bit)) == 0
  {}

  lemma LowHasNoTop(y: Reg)
    ensures !HasTop(Low(y)) && Shl(Low(y)) == Shl(y) && y == Xor(In(HasTop(y)), Low(y))
  {
    hide Xor, Shl, In, HasTop;
    var t := In(HasTop(y));
    InIsTop(HasTop(y));
    ShlXor(y, t);
    XorLaws(Shl(y), 0, 0);
    XorLaws(y, t, t);
    XorLaws(t, Low(y), 0);
  }

  lemma StepAbsorbs(s: Reg, y: Reg)
    ensures Step(Xor(s, y)) == Xor(Step(Xor(s, In(HasTop(y)))), Shl(y))
  {
    hide Xor, Shl, In, HasTop, Low;
    LowHasNoTop(y);
    var t, low := In(HasTop(y)), Low(y);
    XorLaws(s, t, low);
    StepXor(Xor(s, t), low);
  }

  lemma OctetTops(b: Byte)
    ensures var y0 := OctetIn(b);
            var y1 := Shl(y0); var y2 := Shl(y1); var y3 := Shl(y2); var y4 := Shl(y3);
            var y5 := Shl(y4); var y6 := Shl(y5); var y7 := Shl(y6);
            && HasTop(y0) == BitOf(b, 7) && HasTop(y1) == BitOf(b, 6) && HasTop(y2) == BitOf(b, 5)
            && HasTop(y3) == BitOf(b, 4) && HasTop(y4) == BitOf(b, 3) && HasTop(y5) == BitOf(b, 2)
            && HasTop(y6) == BitOf(b, 1) && HasTop(y7) == BitOf(b, 0) && Shl(y7) == 0
  {}

  lemma {:induction false} CrcAppend(reg: Reg, x: Bits, y: Bits)
    ensures Crc(reg, x + y) == Crc(Crc(reg, x), y)
    decreases |x|
  {
    hide Step, Xor, In;
    if x == [] {
      assert x + y == y;
    } else {
      assert (x + y)[0] == x[0] && (x + y)[1..] == x[1..] + y;
      CrcAppend(Step(Xor(reg, In(x[0]))), x[1..], y);
    }
  }

  /** The top bits that come by as `y` is shifted left. */
  function Tops(y: Reg, k: nat): Bits
    decreases k
  {
    if k == 0 then [] else [HasTop(y)] + Tops(Shl(y), k - 1)
  }

  function ShlBy(y: Reg, k: nat): Reg
    decreases k
  {
    if k == 0 then y else ShlBy(Shl(y), k - 1)
  }

  /** Bits waiting in the register come in one by one as it steps. */
  lemma {:induction false} StepsAbsorb(s: Reg, y: Reg, k: nat)
    ensures Steps(Xor(s, y), k) == Xor(Crc(s, Tops(y, k)), ShlBy(y, k))
    decreases k
  {
    hide Step, Xor, Shl, In, HasTop;
    if k > 0 {
      StepAbsorbs(s, y);
      StepsAbsorb(Step(Xor(s, In(HasTop(y)))), Shl(y), k - 1);
      assert Tops(y, k)[1..] == Tops(Shl(y), k - 1);
    }
  }

  lemma {:induction false} TopsAt(y: Reg, k: nat, i: nat)
    requires i < k
    ensures |Tops(y, k)| == k && Tops(y, k)[i] == HasTop(ShlBy(y, i))
    decreases k
  {
    hide Shl, HasTop;
    if k > 1 {
      TopsAt(Shl(y), k - 1, if i == 0 then 0 else i - 1);
    }
  }

  lemma {:induction false} ShlByMore(y: Reg, k: nat)
    ensures ShlBy(y, k + 1) == Shl(ShlBy(y, k))
    decreases k
  {
    hide Shl;
    if k > 0 {
      ShlByMore(Shl(y), k - 1);
    }
  }

  lemma OctetTopAt(b: Byte, i: nat)
    requires i < 8
    ensures HasTop(ShlBy(OctetIn(b), i)) == BitOf(b, 7 - i) && ShlBy(OctetIn(b), 8) == 0
  {
    assert ShlBy(OctetIn(b), 0) == OctetIn(b);
    hide Shl, HasTop, OctetIn, BitOf, ShlBy;
    OctetTops(b);
    var y := OctetIn(b);
    ShlByMore(y, 0);
    ShlByMore(y, 1);
    ShlByMore(y, 2);
    ShlByMore(y, 3);
    ShlByMore(y, 4);
    ShlByMore(y, 5);
    ShlByMore(y, 6);
    ShlByMore(y, 7);
  }

  lemma OctetBitsComeBy(b: Byte)
    ensures Tops(OctetIn(b), 8) == BitsOf(b) && ShlBy(OctetIn(b), 8) == 0
  {
    hide HasTop, OctetIn, BitOf, Tops, ShlBy;
    var tops, bits := Tops(OctetIn(b), 8), BitsOf(b);
    TopsAt(OctetIn(b), 8, 0);
    OctetTopAt(b, 0);
    forall i | 0 <= i < 8
      ensures tops[i] == bits[i]
    {
      TopsAt(OctetIn(b), 8, i);
      OctetTopAt(b, i);
    }
  }

  lemma OneOctet(reg: Reg, b: Byte)
    ensures Steps(Xor(reg, OctetIn(b)), 8) == Crc(reg, BitsOf(b))
  {
    hide Steps, Xor, Crc, BitsOf, OctetIn, Tops, ShlBy;
    StepsAbsorb(reg, OctetIn(b), 8);
    OctetBitsComeBy(b);
    XorLaws(Crc(reg, BitsOf(b)), 0, 0);
  }

  lemma CrcOfNothing(reg: Reg)
    ensures Crc(reg, []) == reg
  {}

  /** Feeding whole octets is feeding their bits. */
  lemma {:induction false} OctetsAreSerial(reg: Reg, data: seq<Byte>)
    ensures CrcOctets(reg, data) == Crc(reg, AllBits(data))
    decreases |data|
  {
    hide Steps, Xor, BitsOf, OctetIn, Crc;
    if data == [] {
      CrcOfNothing(reg);
    } else {
      OneOctet(reg, data[0]);
      CrcAppend(reg, BitsOf(data[0]), AllBits(data[1..]));
      OctetsAreSerial(Crc(reg, BitsOf(data[0])), data[1..]);
    }
  }

  // ---- A zero overlay is a zero remainder ----

  lemma StepInjective(a: Reg, b: Reg)
    requires Step(a) == Step(b)
    ensures a == b
  {
    StepXor(a, b);
    XorUnits(Step(a), Step(b));
    OnlyZeroSteps(Xor(a, b));
    XorZero(a, b);
  }

  lemma OnlyZeroSteps(a: Reg)
    requires Step(a) == 0
    ensures a == 0
  {}

  lemma {:induction false} CrcInjective(a: Reg, b: Reg, x: Bits)
    requires Crc(a, x) == Crc(b, x)
    ensures a == b
    decreases |x|
  {
    hide Xor, Step, In;
    if x != [] {
      var t := In(x[0]);
      CrcInjective(Step(Xor(a, t)), Step(Xor(b, t)), x[1..]);
      StepInjective(Xor(a, t), Xor(b, t));
      XorLaws(a, t, t);
      XorLaws(b, t, t);
    }
  }

  predicate HasLow(a: Reg) {
    a & 1 != 0
  }

  /** The `k` lowest bits are zero. */
  predicate LowClear(a: Reg, k: nat)
    decreases k
  {
    k == 0 || (!HasLow(a) && LowClear(Shr(a), k - 1))
  }

  lemma HasLowXor(a: Reg, b: Reg)
    ensures HasLow(Xor(a, b)) == (HasLow(a) != HasLow(b))
  {}

  lemma {:induction false} LowClearXor(a: Reg, b: Reg, k: nat)
    requires LowClear(a, k) && LowClear(b, k)
    ensures LowClear(Xor(a, b), k)
    decreases k
  {
    hide Xor, Shr, HasLow;
    if k > 0 {
      HasLowXor(a, b);
      ShrXor(a, b);
      LowClearXor(Shr(a), Shr(b), k - 1);
    }
  }

  lemma ZeroIsClear(k: nat)
    ensures LowClear(0, k)
    decreases k
  {
    if k > 0 {
      ZeroIsClear(k - 1);
      assert Shr(0) == 0;
    }
  }

  lemma {:induction false} FewerClear(a: Reg, k: nat, j: nat)
    requires LowClear(a, k) && j <= k
    ensures LowClear(a, j)
    decreases k
  {
    hide Shr, HasLow;
    if 0 < j {
      FewerClear(Shr(a), k - 1, j - 1);
    }
  }

  lemma TopIsClear()
    ensures LowClear(TOP, 23)
  {
    assert LowClear(0x000001, 0);
    assert Shr(0x000002) == 0x000001 && Shr(0x000004) == 0x000002 && Shr(0x000008) == 0x000004;
    assert LowClear(0x000008, 3);
    assert Shr(0x000010) == 0x000008 && Shr(0x000020) == 0x000010 && Shr(0x000040) == 0x000020;
    assert LowClear(0x000040, 6);
    assert Shr(0x000080) == 0x000040 && Shr(0x000100) == 0x000080 && Shr(0x000200) == 0x000100;
    assert LowClear(0x000200, 9);
    assert Shr(0x000400) == 0x000200 && Shr(0x000800) == 0x000400 && Shr(0x001000) == 0x000800;
    assert LowClear(0x001000, 12);
    assert Shr(0x002000) == 0x001000 && Shr(0x004000) == 0x002000 && Shr(0x008000) == 0x004000;
    assert LowClear(0x008000, 15);
    assert Shr(0x010000) == 0x008000 && Shr(0x020000) == 0x010000 && Shr(0x040000) == 0x020000;
    assert LowClear(0x040000, 18);
    assert Shr(0x080000) == 0x040000 && Shr(0x100000) == 0x080000 && Shr(0x200000) == 0x100000;
    assert LowClear(0x200000, 21);
    assert Shr(0x400000) == 0x200000 && Shr(0x800000) == 0x400000;
  }

  lemma {:induction false} AlignedIsClear(bits: Bits)
    requires |bits| <= 24
    ensures LowClear(Aligned(bits), 24 - |bits|)
    decreases |bits|
  {
    hide Shr, HasLow, Xor;
    if bits == [] {
      ZeroIsClear(24);
    } else {
      var k := 24 - |bits|;
      AlignedIsClear(bits[1..]);
      TopIsClear();
      FewerClear(TOP, 23, k);
      ZeroIsClear(k);
      LowClearXor(In(bits[0]), Shr(Aligned(bits[1..])), k);
    }
  }

  lemma ShlUndoesShr(a: Reg)
    requires !HasLow(a)
    ensures Shl(Shr(a)) == a && !HasTop(Shr(a))
  {}

  /** A register that already holds the next bits is shifted out to nothing by them. */
  lemma {:induction false} ShiftsOut(bits: Bits)
    requires |bits| <= 24
    ensures Crc(Aligned(bits), bits) == 0
    decreases |bits|
  {
    hide Shr, Shl, HasLow, HasTop, Xor, In;
    if bits != [] {
      var t, rest := In(bits[0]), Aligned(bits[1..]);
      XorLaws(t, Shr(rest), t);
      XorLaws(Shr(rest), t, t);
      AlignedIsClear(bits[1..]);
      ShlUndoesShr(rest);
      ShiftsOut(bits[1..]);
    }
  }

  /** The whole frame leaves no remainder exactly when the overlay is zero. */
  lemma ZeroOverlay(frame: Bits)
    requires |frame| >= PARITY_BITS
    ensures Crc(0, frame) == 0 <==> OverlayOf(frame) == 0
  {
    hide Crc, Aligned, Xor;
    var n := |frame| - PARITY_BITS;
    var r, p := Crc(0, frame[..n]), frame[n..];
    assert frame == frame[..n] + p;
    CrcAppend(0, frame[..n], p);
    ShiftsOut(p);
    XorLaws(r, r, r);
    if Crc(0, frame) == 0 {
      CrcInjective(r, Aligned(p), p);
    } else if OverlayOf(frame) == 0 {
      XorZero(r, Aligned(p));
    }
  }

  // ---- Single-bit repair ----

  /** The search of `mode_s_fix_single_bit` over the `i` leading bits, last first. */
  function FixIndex(syndrome: Reg, trial: Reg, i: nat): (found: Option<nat>)
    ensures found.Some? ==> found.value < i
    decreases i
  {
    if i == 0 then None
    else if trial == syndrome then Some(i - 1)
    else FixIndex(syndrome, Step(trial), i - 1)
  }

  function FixSingleBit(frame: Bits): (fixed: Option<nat>)
    ensures fixed.Some? ==> fixed.value < |frame|
  {
    if !FrameLength(|frame|) || Crc(0, frame) == 0 then None else FixIndex(Crc(0, frame), POLY, |frame|)
  }

  lemma {:induction false} CrcZeros(reg: Reg, k: nat)
    ensures Crc(reg, Zeros(k)) == Steps(reg, k)
    decreases k
  {
    if k > 0 {
      assert Zeros(k)[1..] == Zeros(k - 1);
      XorUnits(reg, 0);
      hide Step, Xor;
      CrcZeros(Step(reg), k - 1);
    }
  }

  lemma {:induction false} ZeroStays(k: nat)
    ensures Steps(0, k) == 0
    decreases k
  {
    if k > 0 {
      assert Step(0) == 0;
      ZeroStays(k - 1);
    }
  }

  lemma {:induction false} StepsMore(reg: Reg, k: nat)
    ensures Steps(reg, k + 1) == Step(Steps(reg, k))
    decreases k
  {
    hide Step;
    if k > 0 {
      StepsMore(Step(reg), k - 1);
    }
  }

  /** One flipped bit leaves the generator stepped once for each bit after it. */
  lemma UnitRemainder(n: nat, i: nat)
    requires i < n
    ensures Crc(0, Unit(n, i)) == Steps(POLY, n - 1 - i)
  {
    assert Step(Xor(0, In(true))) == POLY;
    var tail := [true] + Zeros(n - 1 - i);
    assert Unit(n, i) == Zeros(i) + tail;
    CrcAppend(0, Zeros(i), tail);
    CrcZeros(0, i);
    ZeroStays(i);
    assert tail[1..] == Zeros(n - 1 - i);
    CrcZeros(POLY, n - 1 - i);
    hide Step, Steps, Zeros, Unit, Xor;
  }

  /** The remainder that flipping bit `j` of `n` adds. */
  function Trial(n: nat, j: nat): Reg
    requires j < n
  {
    Steps(POLY, n - 1 - j)
  }

  lemma FlipRemainder(frame: Bits, i: nat)
    requires i < |frame|
    ensures Crc(0, Flip(frame, i)) == Xor(Crc(0, frame), Trial(|frame|, i))
  {
    XorUnits(0, 0);
    hide Crc, Xor, Steps;
    assert Flip(frame, i) == XorBits(frame, Unit(|frame|, i));
    CrcXor(0, 0, frame, Unit(|frame|, i));
    UnitRemainder(|frame|, i);
  }

  /** The search stops at the last bit whose trial value is the remainder, if there is one. */
  lemma {:induction false} FixIndexSearches(syndrome: Reg, n: nat, i: nat)
    requires i <= n
    ensures var found := FixIndex(syndrome, Steps(POLY, n - i), i);
            && (found.Some? ==> Trial(n, found.value) == syndrome)
            && (found == None ==> forall j :: 0 <= j < i ==> Trial(n, j) != syndrome)
    decreases i
  {
    hide Step, Steps;
    if i > 0 {
      StepsMore(POLY, n - i);
      FixIndexSearches(syndrome, n, i - 1);
    }
  }

  /** Single-bit repair is exact: it answers for a frame that is wrong, with a bit whose flip
      makes it right, and finds one whenever there is one. */
  lemma FixIsExact(frame: Bits)
    requires FrameLength(|frame|)
    ensures var fixed := FixSingleBit(frame);
            && (fixed.Some? ==> OverlayOf(frame) != 0 && OverlayOf(Flip(frame, fixed.value)) == 0)
            && (OverlayOf(frame) != 0 ==>
                  (fixed == None <==> forall j :: 0 <= j < |frame| ==> OverlayOf(Flip(frame, j)) != 0))
  {
    var n, syndrome := |frame|, Crc(0, frame);
    assert Steps(POLY, 0) == POLY;
    hide Crc, OverlayOf, Steps, Xor, Flip, Trial;
    ZeroOverlay(frame);
    FixIndexSearches(syndrome, n, n);
    forall j | 0 <= j < n
      ensures OverlayOf(Flip(frame, j)) == 0 <==> Trial(n, j) == syndrome
    {
      ZeroOverlay(Flip(frame, j));
      FlipRemainder(frame, j);
      XorUnits(syndrome, syndrome);
      if Crc(0, Flip(frame, j)) == 0 {
        XorZero(syndrome, Trial(n, j));
      }
    }
  }

  /** `k` steps from `reg` lead to `end` and never to the generator. */
  predicate AwayFor(reg: Reg, k: nat, end: Reg)
    decreases k
  {
    if k == 0 then reg == end else Step(reg) != POLY && AwayFor(Step(reg), k - 1, end)
  }

  lemma {:induction false} AwayOnward(reg: Reg, j: nat, middle: Reg, k: nat, end: Reg)
    requires AwayFor(reg, j, middle) && AwayFor(middle, k, end)
    ensures AwayFor(reg, j + k, end)
    decreases j
  {
    hide Step;
    if j > 0 {
      AwayOnward(Step(reg), j - 1, middle, k, end);
    }
  }

  lemma {:induction false} AwayMeans(reg: Reg, k: nat, end: Reg, i: nat)
    requires AwayFor(reg, k, end) && 0 < i <= k
    ensures Steps(reg, i) != POLY
    decreases k
  {
    hide Step;
    if i == 1 {
      assert Steps(reg, 1) == Steps(Step(reg), 0) == Step(reg);
    } else {
      AwayMeans(Step(reg), k - 1, end, i - 1);
    }
  }

  /** The generator stepped `8 * n` times. */
  function Mark(n: nat): Reg
    requires n <= 14
  {
    match n
    case 0 => 0xFFF409
    case 1 => 0x0E0D80
    case 2 => 0x0DD441
    case 3 => 0x2BFD53
    case 4 => 0x030ACE
    case 5 => 0xF52612
    case 6 => 0xDC7AF7
    case 7 => 0x7EDA22
    case 8 => 0xD8D449
    case 9 => 0xD05C14
    case 10 => 0x587178
    case 11 => 0x726BD4
    case 12 => 0x696A13
    case 13 => 0x97D5B5
    case _ => 0x2D833C
  }

  /** Eight steps, written out. */
  predicate EightAway(reg: Reg, end: Reg) {
    var a := Step(reg); var b := Step(a); var c := Step(b); var d := Step(c);
    var e := Step(d); var f := Step(e); var g := Step(f); var h := Step(g);
    && a != POLY && b != POLY && c != POLY && d != POLY && e != POLY && f != POLY && g != POLY && h != POLY
    && h == end
  }

  lemma {:induction false} EightIsAway(reg: Reg, end: Reg)
    requires EightAway(reg, end)
    ensures AwayFor(reg, 8, end)
  {
    hide Step;
    var a := Step(reg); var b := Step(a); var c := Step(b); var d := Step(c);
    var e := Step(d); var f := Step(e); var g := Step(f);
    assert AwayFor(end, 0, end);
    assert AwayFor(g, 1, end);
    assert AwayFor(f, 2, end);
    assert AwayFor(e, 3, end);
    assert AwayFor(d, 4, end);
    assert AwayFor(c, 5, end);
    assert AwayFor(b, 6, end);
    assert AwayFor(a, 7, end);
  }

  lemma WalksFromZero(n: nat)
    requires n < 3
    ensures EightAway(Mark(n), Mark(n + 1))
  {
    match n {
      case 0 => assert EightAway(0xFFF409, 0x0E0D80);
      case 1 => assert EightAway(0x0E0D80, 0x0DD441);
      case _ => assert EightAway(0x0DD441, 0x2BFD53);
    }
  }

  lemma WalksFromThree(n: nat)
    requires 3 <= n < 6
    ensures EightAway(Mark(n), Mark(n + 1))
  {
    match n {
      case 3 => assert EightAway(0x2BFD53, 0x030ACE);
      case 4 => assert EightAway(0x030ACE, 0xF52612);
      case _ => assert EightAway(0xF52612, 0xDC7AF7);
    }
  }

  lemma WalksFromSix(n: nat)
    requires 6 <= n < 9
    ensures EightAway(Mark(n), Mark(n + 1))
  {
    match n {
      case 6 => assert EightAway(0xDC7AF7, 0x7EDA22);
      case 7 => assert EightAway(0x7EDA22, 0xD8D449);
      case _ => assert EightAway(0xD8D449, 0xD05C14);
    }
  }

  lemma WalksFromNine(n: nat)
    requires 9 <= n < 12
    ensures EightAway(Mark(n), Mark(n + 1))
  {
    match n {
      case 9 => assert EightAway(0xD05C14, 0x587178);
      case 10 => assert EightAway(0x587178, 0x726BD4);
      case _ => assert EightAway(0x726BD4, 0x696A13);
    }
  }

  lemma WalksFromTwelve(n: nat)
    requires 12 <= n < 14
    ensures EightAway(Mark(n), Mark(n + 1))
  {
    match n {
      case 12 => assert EightAway(0x696A13, 0x97D5B5);
      case _ => assert EightAway(0x97D5B5, 0x2D833C);
    }
  }

  lemma EightSteps(n: nat)
    requires n < 14
    ensures AwayFor(Mark(n), 8, Mark(n + 1))
  {
    hide AwayFor, Mark, EightAway;
    if n < 3 {
      WalksFromZero(n);
    } else if n < 6 {
      WalksFromThree(n);
    } else if n < 9 {
      WalksFromSix(n);
    } else if n < 12 {
      WalksFromNine(n);
    } else {
      WalksFromTwelve(n);
    }
    EightIsAway(Mark(n), Mark(n + 1));
  }

  lemma WalkStarts()
    ensures AwayFor(POLY, 0, Mark(0))
  {}

  /** Over the length of a frame the generator does not come round again. */
  lemma {:induction false} GeneratorWalks(n: nat)
    requires n <= 14
    ensures AwayFor(POLY, 8 * n, Mark(n))
  {
    assert AwayFor(POLY, 0, Mark(0)) by { WalkStarts(); }
    hide AwayFor, Mark, EightAway;
    if n > 0 {
      assert 8 * (n - 1) + 8 == 8 * n;
      GeneratorWalks(n - 1);
      EightSteps(n - 1);
      AwayOnward(POLY, 8 * (n - 1), Mark(n - 1), 8, Mark(n));
    }
  }

  lemma {:induction false} StepsAdd(reg: Reg, j: nat, k: nat)
    ensures Steps(reg, j + k) == Steps(Steps(reg, j), k)
    decreases j
  {
    hide Step;
    if j > 0 {
      StepsAdd(Step(reg), j - 1, k);
    }
  }

  lemma {:induction false} StepsInjective(a: Reg, b: Reg, k: nat)
    requires Steps(a, k) == Steps(b, k)
    ensures a == b
    decreases k
  {
    hide Step;
    if k > 0 {
      StepsInjective(Step(a), Step(b), k - 1);
      StepInjective(a, b);
    }
  }

  /** No two bits of a frame leave the same remainder when flipped. */
  lemma {:induction false} TrialsDiffer(n: nat, i: nat, j: nat)
    requires i < j < n <= LONG_BITS
    ensures Trial(n, i) != Trial(n, j)
  {
    hide Step, Steps, AwayFor;
    var k := j - i;
    StepsAdd(POLY, k, n - 1 - j);
    assert n - 1 - i == k + (n - 1 - j);
    if Trial(n, i) == Trial(n, j) {
      StepsInjective(Steps(POLY, k), POLY, n - 1 - j);
    }
    GeneratorWalks(14);
    AwayMeans(POLY, 112, Mark(14), k);
  }

  /** A good frame with one bit wrong is mended at that very bit. */
  lemma {:induction false} OneErrorIsUndone(frame: Bits, i: nat)
    requires FrameLength(|frame|) && i < |frame| && OverlayOf(frame) == 0
    ensures FixSingleBit(Flip(frame, i)) == Some(i) && Flip(Flip(frame, i), i) == frame
  {
    var n, wrong := |frame|, Flip(frame, i);
    assert Steps(POLY, 0) == POLY;
    assert Flip(wrong, i) == frame;
    hide Crc, OverlayOf, Steps, Xor, Flip, Trial;
    ZeroOverlay(frame);
    FlipRemainder(frame, i);
    XorUnits(0, Trial(n, i));
    var syndrome := Crc(0, wrong);
    assert syndrome == Trial(n, i);
    TrialIsNotZero(n, i);
    FixIndexSearches(syndrome, n, n);
    var found := FixIndex(syndrome, POLY, n);
    assert found.Some?;
    if found.value < i {
      TrialsDiffer(n, found.value, i);
    } else if i < found.value {
      TrialsDiffer(n, i, found.value);
    }
  }

  lemma {:induction false} TrialIsNotZero(n: nat, i: nat)
    requires i < n
    ensures Trial(n, i) != 0
  {
    hide Step, Steps;
    ZeroStays(n - 1 - i);
    if Trial(n, i) == 0 {
      StepsInjective(POLY, 0, n - 1 - i);
    }
  }

  // ---- Every message has a parity field ----

  lemma TopSet(y: Reg)
    requires HasTop(y)
    ensures Xor(TOP, Shr(Shl(y))) == y
  {}

  lemma TopClear(y: Reg)
    requires !HasTop(y)
    ensures Shr(Shl(y)) == y
  {}

  lemma TopComesBack(y: Reg)
    ensures PutFirst(HasTop(y), Shl(y)) == y
  {
    hide HasTop, Shl, Shr, Xor;
    if HasTop(y) {
      TopSet(y);
    } else {
      TopClear(y);
      XorUnits(y, 0);
    }
  }

  lemma {:induction false} AlignedTops(y: Reg, k: nat)
    requires ShlBy(y, k) == 0
    ensures Aligned(Tops(y, k)) == y && |Tops(y, k)| == k
    decreases k
  {
    hide Shl, HasTop, PutFirst;
    if k > 0 {
      AlignedTops(Shl(y), k - 1);
      TopComesBack(y);
      assert Tops(y, k)[1..] == Tops(Shl(y), k - 1);
    }
  }

  lemma {:induction false} ShlByAdd(y: Reg, j: nat, k: nat)
    ensures ShlBy(y, j + k) == ShlBy(ShlBy(y, j), k)
    decreases j
  {
    hide Shl;
    if j > 0 {
      ShlByAdd(Shl(y), j - 1, k);
    }
  }

  function ShlFour(y: Reg): Reg {
    y << 4
  }

  lemma ShlByFour(y: Reg)
    ensures ShlBy(y, 4) == ShlFour(y)
  {
    assert ShlBy(y, 4) == Shl(Shl(Shl(Shl(y))));
  }

  lemma SixFours(y: Reg)
    ensures ShlFour(ShlFour(ShlFour(ShlFour(ShlFour(ShlFour(y)))))) == 0
  {}

  lemma {:induction false} RegisterRunsOut(y: Reg)
    ensures ShlBy(y, 24) == 0
  {
    hide ShlBy, ShlFour;
    var a := ShlFour(y); var b := ShlFour(a); var c := ShlFour(b); var d := ShlFour(c); var e := ShlFour(d);
    SixFours(y);
    ShlByFour(y);
    ShlByFour(a);
    ShlByFour(b);
    ShlByFour(c);
    ShlByFour(d);
    ShlByFour(e);
    ShlByAdd(y, 4, 20);
    ShlByAdd(a, 4, 16);
    ShlByAdd(b, 4, 12);
    ShlByAdd(c, 4, 8);
    ShlByAdd(d, 4, 4);
  }

  /** A message with the parity field that gives it an overlay. */
  function WithOverlay(body: Bits, overlay: Reg): Bits {
    body + Tops(Xor(Crc(0, body), overlay), PARITY_BITS)
  }

  /** Every message can be sent with every overlay, zero among them, and the receiver finds that overlay. */
  lemma {:induction false} OverlayComesBack(body: Bits, overlay: Reg)
    ensures |WithOverlay(body, overlay)| == |body| + PARITY_BITS
    ensures OverlayOf(WithOverlay(body, overlay)) == overlay
  {
    var reg := Xor(Crc(0, body), overlay);
    hide Xor, Crc, Aligned, Tops, ShlBy;
    RegisterRunsOut(reg);
    AlignedTops(reg, PARITY_BITS);
    var frame := WithOverlay(body, overlay);
    assert frame[..|body|] == body && frame[|body|..] == Tops(reg, PARITY_BITS);
    XorLaws(Crc(0, body), Crc(0, body), overlay);
    XorUnits(overlay, 0);
  }
}
