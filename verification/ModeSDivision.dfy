/** The Mode S overlay is the remainder of the frame divided by the generator of section 3.1.2.3.3 of ICAO Annex 10
    Volume IV. */
module ModeSDivision {
  import opened Bytes
  import opened Division
  import opened ModeS

  /** The generator below its leading term x^24, from x^23 down: 0xFFF409. */
  function Generator(): (g: Bits)
    ensures |g| == 24
  {
    [true, true, true, true, true, true, true, true,
     true, true, true, true, false, true, false, false,
     false, false, false, false, true, false, false, true]
  }

  lemma FirstBit(i: nat, rest: Reg, whole: Reg)
    requires i < 24 && Aligned(Generator()[i + 1..]) == rest && PutFirst(Generator()[i], rest) == whole
    ensures Aligned(Generator()[i..]) == whole
  {
    var g := Generator();
    assert g[i..][0] == g[i] && g[i..][1..] == g[i + 1..];
    hide Generator;
  }

  lemma GeneratorFrom20()
    ensures Aligned(Generator()[20..]) == 0x900000
  {
    hide Aligned;
    assert Generator()[24..] == [];
    NothingAligned();
    FirstBit(23, 0x000000, 0x800000);
    FirstBit(22, 0x800000, 0x400000);
    FirstBit(21, 0x400000, 0x200000);
    FirstBit(20, 0x200000, 0x900000);
  }

  lemma GeneratorFrom16()
    ensures Aligned(Generator()[16..]) == 0x090000
  {
    hide Aligned;
    GeneratorFrom20();
    FirstBit(19, 0x900000, 0x480000);
    FirstBit(18, 0x480000, 0x240000);
    FirstBit(17, 0x240000, 0x120000);
    FirstBit(16, 0x120000, 0x090000);
  }

  lemma GeneratorFrom12()
    ensures Aligned(Generator()[12..]) == 0x409000
  {
    hide Aligned;
    GeneratorFrom16();
    FirstBit(15, 0x090000, 0x048000);
    FirstBit(14, 0x048000, 0x024000);
    FirstBit(13, 0x024000, 0x812000);
    FirstBit(12, 0x812000, 0x409000);
  }

  lemma GeneratorFrom8()
    ensures Aligned(Generator()[8..]) == 0xF40900
  {
    hide Aligned;
    GeneratorFrom12();
    FirstBit(11, 0x409000, 0xA04800);
    FirstBit(10, 0xA04800, 0xD02400);
    FirstBit(9, 0xD02400, 0xE81200);
    FirstBit(8, 0xE81200, 0xF40900);
  }

  lemma GeneratorFrom4()
    ensures Aligned(Generator()[4..]) == 0xFF4090
  {
    hide Aligned;
    GeneratorFrom8();
    FirstBit(7, 0xF40900, 0xFA0480);
    FirstBit(6, 0xFA0480, 0xFD0240);
    FirstBit(5, 0xFD0240, 0xFE8120);
    FirstBit(4, 0xFE8120, 0xFF4090);
  }

  lemma GeneratorFrom2()
    ensures Aligned(Generator()[2..]) == 0xFFD024
  {
    hide Aligned;
    GeneratorFrom4();
    FirstBit(3, 0xFF4090, 0xFFA048);
    FirstBit(2, 0xFFA048, 0xFFD024);
  }

  lemma GeneratorFrom0()
    ensures Aligned(Generator()[0..]) == 0xFFF409
  {
    hide Aligned;
    GeneratorFrom2();
    FirstBit(1, 0xFFD024, 0xFFE812);
    FirstBit(0, 0xFFE812, 0xFFF409);
  }

  lemma GeneratorIsPoly()
    ensures Aligned(Generator()) == POLY
  {
    GeneratorFrom0();
    hide Aligned, Generator;
    assert Generator()[0..] == Generator();
  }

  lemma NothingAligned()
    ensures Aligned([]) == 0
  {}

  lemma {:induction false} ZerosAligned(k: nat)
    ensures Aligned(Zeros(k)) == 0
  {
    if k > 0 {
      assert Zeros(k)[1..] == Zeros(k - 1);
      ZerosAligned(k - 1);
      assert Shr(0) == 0 && Xor(0, 0) == 0;
      hide Shr, Xor;
    }
  }

  lemma {:induction false} AlignedPadded(bits: Bits)
    ensures Aligned(bits + [false]) == Aligned(bits)
    decreases |bits|
  {
    if bits == [] {
      assert bits + [false] == Zeros(1);
      ZerosAligned(1);
    } else {
      assert (bits + [false])[0] == bits[0] && (bits + [false])[1..] == bits[1..] + [false];
      AlignedPadded(bits[1..]);
      hide PutFirst;
    }
  }

  /** One more zero steps the overlay once. */
  lemma {:induction false} OverlayStep(p: Bits)
    requires |p| >= 24
    ensures OverlayOf(p + [false]) == Step(OverlayOf(p))
  {
    var n := |p| - 24;
    var q, c, t, y := p + [false], Crc(0, p[..n]), In(p[n]), p[n + 1..];
    assert q[..n + 1] == p[..n] + [p[n]] && q[n + 1..] == y + [false];
    assert p[n..][0] == p[n] && p[n..][1..] == y;
    CrcAppend(0, p[..n], [p[n]]);
    assert Crc(c, [p[n]]) == Step(Xor(c, t)) by { OneCrc(c, p[n]); }
    AlignedPadded(y);
    AlignedIsClear(y);
    var a := Aligned(y);
    assert LowClear(a, 1) by { FewerClear(a, 1, 1); }
    assert Aligned(p[n..]) == Xor(t, Shr(a));
    assert OverlayOf(p) == Xor(c, Xor(t, Shr(a)));
    assert OverlayOf(q) == Xor(Step(Xor(c, t)), a);
    assert Step(Shr(a)) == a by { ClearStep(a); }
    hide OverlayOf, Crc, Aligned, Step, Xor, Shr, In, LowClear;
    XorLaws(c, t, Shr(a));
    StepXor(Xor(c, t), Shr(a));
  }

  lemma OneCrc(c: Reg, bit: bool)
    ensures Crc(c, [bit]) == Step(Xor(c, In(bit)))
  {
    assert [bit][1..] == [];
    hide Step, Xor, In;
  }

  lemma ClearStep(a: Reg)
    requires LowClear(a, 1)
    ensures Step(Shr(a)) == a
  {
    ShlUndoesShr(a);
    hide Shl, Shr, HasTop, Xor;
  }

  lemma {:induction false} OverlayZeros(p: Bits, k: nat)
    requires |p| >= 24
    ensures OverlayOf(p + Zeros(k)) == Steps(OverlayOf(p), k)
    decreases k
  {
    hide OverlayOf, Step;
    if k == 0 {
      assert p + Zeros(0) == p;
    } else {
      OverlayStep(p);
      OverlayZeros(p + [false], k - 1);
      assert p + Zeros(k) == p + [false] + Zeros(k - 1);
    }
  }

  lemma OneSteps()
    ensures Step(Xor(0, In(true))) == POLY && Xor(POLY, 0) == POLY && Xor(0, POLY) == POLY
  {}

  lemma OneOverlay()
    ensures OverlayOf([true] + Zeros(24)) == POLY
  {
    var one := [true] + Zeros(24);
    assert one[..1] == [true] && one[1..] == Zeros(24);
    OneCrc(0, true);
    ZerosAligned(24);
    OneSteps();
    hide Crc, Aligned, Step, Xor, In, Zeros;
  }

  lemma GeneratorOverlay()
    ensures OverlayOf(Generator()) == POLY
  {
    var none: Bits := [];
    assert Generator()[..0] == none && Generator()[0..] == Generator();
    assert Crc(0, none) == 0;
    GeneratorIsPoly();
    OneSteps();
    hide Crc, Aligned, Step, Xor, In, Generator;
  }

  lemma {:induction false} LeadingOne(k: nat)
    ensures OverlayOf([true] + Zeros(24 + k)) == OverlayOf(Generator() + Zeros(k))
  {
    OneOverlay();
    GeneratorOverlay();
    hide OverlayOf, Generator, Steps;
    OverlayZeros([true] + Zeros(24), k);
    OverlayZeros(Generator(), k);
    assert [true] + Zeros(24 + k) == [true] + Zeros(24) + Zeros(k);
  }

  lemma {:induction false} LeadingZero(rest: Bits)
    requires |rest| >= 24
    ensures OverlayOf([false] + rest) == OverlayOf(rest)
  {
    var p, n := [false] + rest, |rest| - 24;
    assert p[..n + 1] == [false] + rest[..n] && p[n + 1..] == rest[n..];
    CrcAppend(0, [false], rest[..n]);
    OneCrc(0, false);
    assert Step(Xor(0, In(false))) == 0;
    hide Crc, Aligned, Xor;
  }

  /** One step of the division leaves the overlay alone. */
  lemma {:induction false} DivisionStep(p: Bits)
    requires |p| >= 25
    ensures OverlayOf(p) == OverlayOf(if p[0] then AddTo(p[1..], Generator()) else p[1..])
  {
    var rest, k := p[1..], |p| - 25;
    LeadingZero(rest);
    if p[0] {
      LeadingOne(k);
      assert p == XorBits([true] + Zeros(24 + k), [false] + rest);
      assert AddTo(rest, Generator()) == XorBits(Generator() + Zeros(k), rest);
      hide OverlayOf, Generator, XorBits, AddTo;
      OverlayXor([true] + Zeros(24 + k), [false] + rest);
      OverlayXor(Generator() + Zeros(k), rest);
    } else {
      assert p == [false] + rest;
    }
  }

  /** The overlay of a frame is its remainder. */
  lemma {:induction false} OverlayIsRemainder(frame: Bits)
    requires |frame| >= 24
    ensures OverlayOf(frame) == Aligned(Remainder(frame, Generator()))
    decreases |frame|
  {
    if |frame| == 24 {
      assert frame[..0] == [] && frame[0..] == frame;
      WholeRemainder(frame);
    } else {
      DivisionStep(frame);
      hide OverlayOf, Aligned, AddTo, Generator;
      OverlayIsRemainder(if frame[0] then AddTo(frame[1..], Generator()) else frame[1..]);
    }
  }

  lemma WholeRemainder(frame: Bits)
    requires |frame| == 24
    ensures Remainder(frame, Generator()) == frame
    ensures Xor(Crc(0, []), Aligned(frame)) == Aligned(frame)
  {
    XorUnits(Aligned(frame), 0);
    hide Xor, Aligned;
  }
}
