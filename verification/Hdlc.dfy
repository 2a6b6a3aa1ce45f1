/** HDLC framing: the transmitter's bit stuffing and flags (`aprs.rs`) and the receiver's
    deframer (`bits.rs`), which recovers every frame from the stuffed bit stream. */
module Hdlc {
  import opened Wrappers
  import opened Bytes
  import opened Crc16

  const FLAG: Byte := 0x7E
  const MIN_FRAME_BYTES: nat := 17
  const MAX_FRAME_BYTES: nat := 330

  type Frame = seq<Byte>

  // ---- Transmit side ----

  function Flags(count: nat): Bits {
    if count == 0 then [] else OctetBits(FLAG) + Flags(count - 1)
  }

  /** What one data bit puts on the line: a zero follows every fifth one in a row, where
      `ones` counts the run already sent. */
  function Sent(bit: bool, ones: nat): Bits {
    if bit && ones == 4 then [true, false] else [bit]
  }

  function NextOnes(bit: bool, ones: nat): (n: nat)
    requires ones < 5
    ensures n < 5
  {
    if !bit || ones == 4 then 0 else ones + 1
  }

  function Stuff(data: Bits, ones: nat): Bits
    requires ones < 5
    decreases |data|
  {
    if data == [] then [] else Sent(data[0], ones) + Stuff(data[1..], NextOnes(data[0], ones))
  }

  /** The run of ones still open after stuffing `data`. */
  function OnesAfter(data: Bits, ones: nat): (n: nat)
    requires ones < 5
    ensures n < 5
    decreases |data|
  {
    if data == [] then ones else OnesAfter(data[1..], NextOnes(data[0], ones))
  }

  /** A frame on the line: its octets and check sequence stuffed, then a closing flag. */
  function FrameBits(frame: Frame): Bits {
    Stuff(Octets(WithFcs(frame)), 0) + Flags(1)
  }

  lemma {:induction false} StuffAppend(a: Bits, b: Bits, ones: nat)
    requires ones < 5
    ensures Stuff(a + b, ones) == Stuff(a, ones) + Stuff(b, OnesAfter(a, ones))
    ensures OnesAfter(a + b, ones) == OnesAfter(b, OnesAfter(a, ones))
    decreases |a|
  {
    hide Sent, NextOnes;
    if a == [] {
      assert a + b == b;
    } else {
      StuffAppend(a[1..], b, NextOnes(a[0], ones));
      assert (a + b)[0] == a[0] && (a + b)[1..] == a[1..] + b;
      var next := NextOnes(a[0], ones);
      assert Sent(a[0], ones) + (Stuff(a[1..], next) + Stuff(b, OnesAfter(a, ones)))
          == (Sent(a[0], ones) + Stuff(a[1..], next)) + Stuff(b, OnesAfter(a, ones));
    }
  }

  method PushStuffed(bits: Bits, bit: bool, ones: nat) returns (bits': Bits, ones': nat)
    requires ones < 5
    ensures bits' == bits + Stuff([bit], ones)
    ensures ones' == OnesAfter([bit], ones)
  {
    bits' := bits + [bit];
    ones' := if bit then ones + 1 else 0;
    if ones' == 5 {
      bits' := bits' + [false];
      ones' := 0;
    }
  }

  lemma {:induction false} FlagsGrow(n: nat)
    ensures Flags(n + 1) == Flags(n) + OctetBits(FLAG)
  {
    hide OctetBits;
    if n > 0 {
      FlagsGrow(n - 1);
      var x, y := OctetBits(FLAG), Flags(n - 1);
      assert x + (y + x) == (x + y) + x;
    }
  }

  method PushFlags(bits: Bits, count: nat) returns (bits': Bits)
    ensures bits' == bits + Flags(count)
  {
    bits' := bits;
    for n := 0 to count
      invariant bits' == bits + Flags(n)
    {
      for i := 0 to 8
        invariant bits' == bits + Flags(n) + OctetBits(FLAG)[..i]
      {
        bits' := bits' + [BitOf(FLAG, i)];
      }
      FlagsGrow(n);
    }
  }

  /** The inner loop of `push_frame`: one octet, least significant bit first. */
  method PushOctet(bits: Bits, octet: Byte, ones: nat) returns (bits': Bits, ones': nat)
    requires ones < 5
    ensures bits' == bits + Stuff(OctetBits(octet), ones)
    ensures ones' == OnesAfter(OctetBits(octet), ones)
  {
    hide Stuff, OnesAfter;
    ghost var line := OctetBits(octet);
    bits', ones' := bits, ones;
    assert line[..0] == [];
    NothingStuffed(ones);
    for i := 0 to 8
      invariant ones' == OnesAfter(line[..i], ones)
      invariant bits' == bits + Stuff(line[..i], ones)
    {
      StuffAppend(line[..i], [line[i]], ones);
      assert line[..i] + [line[i]] == line[..i + 1];
      bits', ones' := PushStuffed(bits', BitOf(octet, i), ones');
    }
    assert line[..8] == line;
  }

  lemma {:induction false} NothingStuffed(ones: nat)
    requires ones < 5
    ensures Stuff([], ones) == [] && OnesAfter([], ones) == ones
  {}

  method PushFrame(bits: Bits, frame: Frame) returns (bits': Bits)
    ensures bits' == bits + FrameBits(frame)
  {
    hide Stuff, OnesAfter, OctetBits, WithFcs;
    var octets := WithFcs(frame);
    bits' := bits;
    var ones := 0;
    assert octets[..0] == [];
    NothingStuffed(0);
    for n := 0 to |octets|
      invariant ones == OnesAfter(Octets(octets[..n]), 0)
      invariant bits' == bits + Stuff(Octets(octets[..n]), 0)
    {
      OctetsAppend(octets[..n], [octets[n]]);
      assert octets[..n] + [octets[n]] == octets[..n + 1];
      assert Octets([octets[n]]) == OctetBits(octets[n]);
      StuffAppend(Octets(octets[..n]), OctetBits(octets[n]), 0);
      bits', ones := PushOctet(bits', octets[n], ones);
    }
    assert octets[..|octets|] == octets;
    bits' := PushFlags(bits', 1);
  }

  // ---- Receive side ----

  /** The deframer's state; `byte` holds the `nbits` low bits collected so far. */
  datatype Deframer = Deframer(ones: nat, byte: Byte, nbits: nat, frame: Frame, inFrame: bool, overflow: bool)

  ghost predicate ValidDeframer(d: Deframer) {
    d.nbits < 8 && d.ones <= 7
  }

  const STARTED := Deframer(0, 0, 0, [], false, false)

  /** Just past a closing flag. */
  const SYNCED := Deframer(0, 0, 0, [], true, false)

  function Discard(d: Deframer): Deframer {
    d.(frame := [], byte := 0, nbits := 0, overflow := false)
  }

  function WithBit(byte: Byte, i: nat, bit: bool): Byte
    requires i < 8
  {
    byte | (if bit then Mask(i) else 0)
  }

  function Append(d: Deframer, bit: bool): (d': Deframer)
    requires d.nbits < 8
    ensures d'.nbits < 8 && d'.ones == d.ones
  {
    if !d.inFrame then d else
    var byte := WithBit(d.byte, d.nbits, bit);
    if d.nbits < 7 then d.(byte := byte, nbits := d.nbits + 1)
    else if |d.frame| == MAX_FRAME_BYTES then d.(overflow := true, byte := 0, nbits := 0)
    else d.(frame := d.frame + [byte], byte := 0, nbits := 0)
  }

  function Close(d: Deframer): (Deframer, Option<Frame>) {
    var keep := d.inFrame && (d.nbits == 5 || d.nbits == 6) && !d.overflow
                && MIN_FRAME_BYTES <= |d.frame| <= MAX_FRAME_BYTES;
    (Discard(d).(ones := 0, inFrame := true), if keep then Some(d.frame) else None)
  }

  function Push(d: Deframer, bit: bool): (r: (Deframer, Option<Frame>))
    requires ValidDeframer(d)
    ensures ValidDeframer(r.0)
  {
    if d.ones <= 4 then (Append(d.(ones := if bit then d.ones + 1 else 0), bit), None)
    else if d.ones == 5 then (d.(ones := if bit then 6 else 0), None)
    else if d.ones == 6 && !bit then Close(d)
    else (Discard(d).(ones := if bit then 7 else 0, inFrame := false), None)
  }

  function Emitted(frame: Option<Frame>): seq<Frame> {
    if frame.Some? then [frame.value] else []
  }

  /** The deframer over a run of bits, and the frames it hands on. */
  function Deframe(d: Deframer, bits: Bits): (r: (Deframer, seq<Frame>))
    requires ValidDeframer(d)
    ensures ValidDeframer(r.0)
    decreases |bits|
  {
    if bits == [] then (d, []) else
    var (d1, frame) := Push(d, bits[0]);
    var (d2, frames) := Deframe(d1, bits[1..]);
    (d2, Emitted(frame) + frames)
  }

  lemma {:induction false} DeframeAppend(d: Deframer, a: Bits, b: Bits)
    requires ValidDeframer(d)
    ensures var (d1, f1) := Deframe(d, a);
            var (d2, f2) := Deframe(d1, b);
            Deframe(d, a + b) == (d2, f1 + f2)
    decreases |a|
  {
    hide Push;
    if a == [] {
      assert a + b == b;
      assert [] + Deframe(d, b).1 == Deframe(d, b).1;
    } else {
      var (d1, frame) := Push(d, a[0]);
      DeframeAppend(d1, a[1..], b);
      assert (a + b)[0] == a[0] && (a + b)[1..] == a[1..] + b;
      var y, z := Deframe(d1, a[1..]).1, Deframe(Deframe(d1, a[1..]).0, b).1;
      assert Emitted(frame) + (y + z) == (Emitted(frame) + y) + z;
    }
  }

  function AppendAll(d: Deframer, data: Bits): (d': Deframer)
    requires d.nbits < 8
    ensures d'.nbits < 8 && d'.ones == d.ones
    decreases |data|
  {
    if data == [] then d else AppendAll(Append(d, data[0]), data[1..])
  }

  lemma {:induction false} AppendKeepsOnes(d: Deframer, bit: bool, ones: nat)
    requires d.nbits < 8
    ensures Append(d.(ones := ones), bit) == Append(d, bit).(ones := ones)
  {
    hide WithBit;
  }

  /** Unstuffing: the deframer collects exactly the bits that were stuffed, and emits nothing. */
  lemma {:induction false} UnstuffsData(d: Deframer, data: Bits)
    requires ValidDeframer(d) && d.ones < 5
    ensures Deframe(d, Stuff(data, d.ones))
         == (AppendAll(d, data).(ones := OnesAfter(data, d.ones)), [])
    decreases |data|
  {
    hide Append, Push, Sent, NextOnes;
    if data == [] {
      assert d == d.(ones := d.ones);
    } else {
      var next := NextOnes(data[0], d.ones);
      var d1 := Append(d, data[0]).(ones := next);
      ReadsOneBit(d, data[0]);
      DeframeAppend(d, Sent(data[0], d.ones), Stuff(data[1..], next));
      UnstuffsData(d1, data[1..]);
      AppendAllKeepsOnes(Append(d, data[0]), data[1..], next);
      var none: seq<Frame> := [];
      assert none + none == none;
      assert Deframe(d, Stuff(data, d.ones)).1 == none;
    }
  }

  lemma {:induction false} ReadsOneBit(d: Deframer, bit: bool)
    requires ValidDeframer(d) && d.ones < 5
    ensures Deframe(d, Sent(bit, d.ones)) == (Append(d, bit).(ones := NextOnes(bit, d.ones)), [])
  {
    hide Append;
    AppendKeepsOnes(d, bit, if bit then d.ones + 1 else 0);
    var sent := Sent(bit, d.ones);
    assert sent[0] == bit;
    ReadsQuietly(d, sent);
    if |sent| == 2 {
      var d1 := Push(d, bit).0;
      ReadsQuietly(d1, sent[1..]);
      assert sent[1..] == [false] && sent[1..][1..] == [];
    } else {
      assert sent[1..] == [];
    }
  }

  lemma {:induction false} AppendAllKeepsOnes(d: Deframer, data: Bits, ones: nat)
    requires d.nbits < 8
    ensures AppendAll(d.(ones := ones), data) == AppendAll(d, data).(ones := ones)
    decreases |data|
  {
    if data != [] {
      AppendKeepsOnes(d, data[0], ones);
      AppendAllKeepsOnes(Append(d, data[0]), data[1..], ones);
    }
  }

  // ---- What the deframer makes of a transmission ----

  /** `i` bits of an octet, appended one at a time, are its `i` low bits. */
  lemma {:induction false} CollectsLowBits(d: Deframer, b: Byte, i: nat)
    requires d.inFrame && d.nbits == 0 && d.byte == 0 && i < 8
    ensures AppendAll(d, OctetBits(b)[..i]) == d.(byte := LowBits(b, i), nbits := i)
  {
    SetBit(b, 0);
    hide Mask, LowBits, BitOf, Append, OctetBits;
    if i == 0 {
      assert d == d.(byte := 0, nbits := 0);
    } else {
      CollectsLowBits(d, b, i - 1);
      var line := OctetBits(b);
      AppendAllLast(d, line, i);
      AppendsLowBit(d.(byte := LowBits(b, i - 1), nbits := i - 1), b);
    }
  }

  lemma {:induction false} AppendAllLast(d: Deframer, data: Bits, i: nat)
    requires d.nbits < 8 && 0 < i <= |data|
    ensures AppendAll(d, data[..i]) == Append(AppendAll(d, data[..i - 1]), data[i - 1])
  {
    hide Append;
    assert data[..i - 1] + [data[i - 1]] == data[..i];
    AppendAllAppend(d, data[..i - 1], [data[i - 1]]);
    var d1 := AppendAll(d, data[..i - 1]);
    assert [data[i - 1]][1..] == [];
    assert AppendAll(d1, [data[i - 1]]) == Append(d1, data[i - 1]);
  }

  lemma {:induction false} AppendsLowBit(d: Deframer, b: Byte)
    requires d.inFrame && d.nbits < 7 && d.byte == LowBits(b, d.nbits)
    ensures Append(d, BitOf(b, d.nbits)) == d.(byte := LowBits(b, d.nbits + 1), nbits := d.nbits + 1)
  {
    SetBit(b, d.nbits);
    hide Mask, LowBits, BitOf;
  }

  lemma {:induction false} AppendAllAppend(d: Deframer, a: Bits, b: Bits)
    requires d.nbits < 8
    ensures AppendAll(d, a + b) == AppendAll(AppendAll(d, a), b)
    decreases |a|
  {
    hide Append;
    if a == [] {
      assert a + b == b;
    } else {
      AppendAllAppend(Append(d, a[0]), a[1..], b);
      assert (a + b)[0] == a[0] && (a + b)[1..] == a[1..] + b;
    }
  }

  lemma {:induction false} CollectsOctet(d: Deframer, b: Byte)
    requires d.inFrame && d.nbits == 0 && d.byte == 0 && |d.frame| < MAX_FRAME_BYTES
    ensures AppendAll(d, OctetBits(b)) == d.(frame := d.frame + [b])
  {
    var line := OctetBits(b);
    CollectsLowBits(d, b, 7);
    AppendAllLast(d, line, 8);
    assert line[..8] == line;
    SetBit(b, 7);
    hide Mask, LowBits, BitOf, OctetBits;
  }

  lemma {:induction false} CollectsOctets(d: Deframer, bytes: seq<Byte>)
    requires d.inFrame && d.nbits == 0 && d.byte == 0 && |d.frame| + |bytes| <= MAX_FRAME_BYTES
    ensures AppendAll(d, Octets(bytes)) == d.(frame := d.frame + bytes)
    decreases |bytes|
  {
    hide Append, OctetBits;
    if bytes == [] {
      assert d.frame + bytes == d.frame;
      assert d == d.(frame := d.frame);
    } else {
      CollectsOctet(d, bytes[0]);
      AppendAllAppend(d, OctetBits(bytes[0]), Octets(bytes[1..]));
      var d1 := d.(frame := d.frame + [bytes[0]]);
      CollectsOctets(d1, bytes[1..]);
      assert d1.frame + bytes[1..] == d.frame + bytes;
    }
  }

  /** One bit of a run, when it completes nothing. */
  lemma {:induction false} ReadsQuietly(d: Deframer, bits: Bits)
    requires ValidDeframer(d) && bits != [] && Push(d, bits[0]).1 == None
    ensures Deframe(d, bits) == Deframe(Push(d, bits[0]).0, bits[1..])
  {
    hide Push;
    var frames := Deframe(Push(d, bits[0]).0, bits[1..]).1;
    assert [] + frames == frames;
  }

  /** The leading zero and five ones of a flag go the way of data. */
  lemma {:induction false} ReadsOnes(d: Deframer, k: nat, rest: Bits) returns (byte: Byte)
    requires ValidDeframer(d) && d.ones + k == 5 && d.nbits + k <= 6
    ensures Deframe(d, Ones(k) + rest) == Deframe(BeforeSixth(d, k, byte), rest)
    decreases k
  {
    if k == 0 {
      byte := d.byte;
      assert Ones(0) + rest == rest;
      assert d == BeforeSixth(d, 0, byte);
    } else {
      var line := Ones(k) + rest;
      var d1 := PushesOne(d);
      hide Push;
      ReadsQuietly(d, line);
      assert line[1..] == Ones(k - 1) + rest;
      hide Deframe;
      byte := ReadsOnes(d1, k - 1, rest);
      assert BeforeSixth(d1, k - 1, byte) == BeforeSixth(d, k, byte);
    }
  }

  lemma {:induction false} PushesOne(d: Deframer) returns (d1: Deframer)
    requires ValidDeframer(d) && d.ones < 5 && d.nbits < 7
    ensures Push(d, true) == (d1, None) && ValidDeframer(d1)
    ensures d1 == BeforeSixth(d, 1, d1.byte).(ones := d.ones + 1)
  {
    hide Mask;
    d1 := Push(d, true).0;
  }

  function BeforeSixth(d: Deframer, k: nat, byte: Byte): Deframer {
    d.(ones := 5, byte := byte, nbits := if d.inFrame then d.nbits + k else d.nbits)
  }

  function Ones(k: nat): (ones: Bits)
    ensures |ones| == k
  {
    seq(k, _ => true)
  }

  /** Six ones after a zero: a flag ends the octets collected so far. */
  lemma {:induction false} FlagCloses(d: Deframer)
    requires ValidDeframer(d) && d.ones < 5 && d.nbits == 0 && !d.overflow
    ensures Deframe(d, OctetBits(FLAG))
         == (SYNCED, if d.inFrame && MIN_FRAME_BYTES <= |d.frame| <= MAX_FRAME_BYTES then [d.frame] else [])
  {
    var line := OctetBits(FLAG);
    assert line == [false] + (Ones(5) + [true, false]);
    hide OctetBits;
    ReadsQuietly(d, line);
    assert line[1..] == Ones(5) + [true, false];
    var d1 := Push(d, false).0;
    var byte := ReadsOnes(d1, 5, [true, false]);
    ClosingPair(BeforeSixth(d1, 5, byte));
  }

  lemma {:induction false} ClosingPair(d: Deframer)
    requires ValidDeframer(d) && d.ones == 5
    ensures Deframe(d, [true, false]) == (Close(d.(ones := 6)).0, Emitted(Close(d.(ones := 6)).1))
  {
    var line := [true, false];
    ReadsQuietly(d, line);
    assert line[1..] == [false] && line[1..][1..] == [];
    var frames := Emitted(Close(d.(ones := 6)).1);
    assert frames + [] == frames;
  }

  /** Any number of flags between frames leaves the deframer synchronised and silent. */
  lemma {:induction false} FlagsAreSilent(d: Deframer, count: nat)
    requires d == SYNCED || (d == STARTED && count > 0)
    ensures Deframe(d, Flags(count)) == (SYNCED, [])
    decreases count
  {
    hide OctetBits;
    if count > 0 {
      FlagCloses(d);
      DeframeAppend(d, OctetBits(FLAG), Flags(count - 1));
      FlagsAreSilent(SYNCED, count - 1);
    }
  }

  /** One transmitted frame comes back whole, check sequence included. */
  lemma {:induction false} FrameComesBack(frame: Frame)
    requires MIN_FRAME_BYTES <= |frame| + 2 <= MAX_FRAME_BYTES
    ensures Deframe(SYNCED, FrameBits(frame)) == (SYNCED, [WithFcs(frame)])
  {
    var octets := WithFcs(frame);
    var data := Octets(octets);
    assert |octets| == |frame| + 2;
    hide WithFcs, OctetBits, Octets;
    UnstuffsData(SYNCED, data);
    CollectsOctets(SYNCED, octets);
    assert [] + octets == octets;
    var d := SYNCED.(frame := octets, ones := OnesAfter(data, 0));
    assert Flags(1) == OctetBits(FLAG) by {
      assert OctetBits(FLAG) + [] == OctetBits(FLAG);
    }
    DeframeAppend(SYNCED, Stuff(data, 0), Flags(1));
    FlagCloses(d);
    assert [] + [octets] == [octets];
  }

  // ---- Six ones in a row occur only inside flags ----

  /** `k` ones start at position `i`. */
  ghost predicate OnesAt(bits: Bits, i: nat, k: nat) {
    i + k <= |bits| && forall j :: i <= j < i + k ==> bits[j]
  }

  /** A zero at `skip - 1` keeps runs of six out of everything before `skip`. */
  lemma {:induction false} NoSixAcross(line: Bits, skip: nat, i: nat)
    requires 0 < skip <= 6 && skip <= |line| && !line[skip - 1]
    requires skip <= i ==> !OnesAt(line[skip..], i - skip, 6)
    ensures !OnesAt(line, i, 6)
  {
    if skip <= i && i + 6 <= |line| {
      assert forall j :: skip <= j < |line| ==> line[skip..][j - skip] == line[j];
    }
  }

  /** Stuffed data never holds six ones in a row, even with the run before it and the zero
      that opens the flag after it. */
  lemma {:induction false} StuffedRuns(data: Bits, ones: nat, i: nat)
    requires ones < 5
    ensures !OnesAt(Guarded(data, ones), i, 6)
    decreases |data|
  {
    if data == [] {
      assert |Guarded(data, ones)| == ones + 1;
    } else {
      hide OnesAt;
      var next, skip := NextOnes(data[0], ones), ones + |Sent(data[0], ones)|;
      GuardedStep(data, ones);
      hide Guarded;
      if data[0] && ones < 4 {
        StuffedRuns(data[1..], next, i);
      } else {
        if skip <= i {
          StuffedRuns(data[1..], 0, i - skip);
        }
        NoSixAcross(Guarded(data, ones), skip, i);
      }
    }
  }

  function Guarded(data: Bits, ones: nat): Bits
    requires ones < 5
  {
    Ones(ones) + Stuff(data, ones) + [false]
  }

  lemma {:induction false} GuardedStep(data: Bits, ones: nat)
    requires ones < 5 && data != []
    ensures var line, next, skip := Guarded(data, ones), NextOnes(data[0], ones), ones + |Sent(data[0], ones)|;
            if data[0] && ones < 4 then
              line == Guarded(data[1..], next)
            else
              next == 0 && skip <= |line| && !line[skip - 1] && line[skip..] == Guarded(data[1..], 0)
  {
    var next := NextOnes(data[0], ones);
    assert Stuff(data, ones) == Sent(data[0], ones) + Stuff(data[1..], next);
    GuardedSplits(ones, Sent(data[0], ones), Stuff(data[1..], next));
    assert data[0] && ones < 4 ==> Ones(ones) + [true] == Ones(ones + 1);
    assert Ones(0) + Stuff(data[1..], 0) == Stuff(data[1..], 0);
    hide Stuff;
  }

  lemma {:induction false} GuardedSplits(ones: nat, sent: Bits, rest: Bits)
    ensures Ones(ones) + (sent + rest) + [false] == Ones(ones) + sent + rest + [false]
    ensures (Ones(ones) + (sent + rest) + [false])[ones + |sent|..] == rest + [false]
    ensures sent != [] ==> (Ones(ones) + (sent + rest) + [false])[ones + |sent| - 1] == sent[|sent| - 1]
  {
    hide Ones;
  }

  lemma FlagBit(i: nat)
    requires i < 8
    ensures OctetBits(FLAG)[i] == (1 <= i <= 6)
  {}

  lemma {:induction false} FlagsLength(n: nat)
    ensures |Flags(n)| == 8 * n
  {
    hide OctetBits;
    if n > 0 {
      FlagsLength(n - 1);
    }
  }

  lemma {:induction false} FlagsAt(n: nat, j: nat)
    requires j < 8 * n
    ensures |Flags(n)| == 8 * n && Flags(n)[j] == (1 <= j % 8 <= 6)
    decreases n
  {
    FlagsLength(n);
    FlagsLength(n - 1);
    assert Flags(n) == OctetBits(FLAG) + Flags(n - 1);
    hide Flags;
    if j < 8 {
      FlagBit(j);
    } else {
      FlagsAt(n - 1, j - 8);
      assert Flags(n)[j] == Flags(n - 1)[j - 8] && (j - 8) % 8 == j % 8;
    }
  }

  /** On the line six ones in a row are the middle of a flag and nothing else. */
  lemma {:induction false} SixOnesOnlyInFlags(data: Bits, n: nat, i: nat)
    requires n > 0
    ensures var stuffed := Stuff(data, 0);
            OnesAt(stuffed + Flags(n), i, 6) <==>
            |stuffed| < i < |stuffed| + 8 * n && (i - |stuffed|) % 8 == 1
  {
    var stuffed := Stuff(data, 0);
    var line := stuffed + Flags(n);
    FlagsAt(n, 0);
    forall k | |stuffed| <= k < |line|
      ensures line[k] == (1 <= (k - |stuffed|) % 8 <= 6)
    {
      FlagsAt(n, k - |stuffed|);
    }
    hide Flags;
    if i <= |stuffed| {
      StuffedRuns(data, 0, i);
      assert Ones(0) + stuffed + [false] == stuffed + [false] <= line;
      NoSixBefore(stuffed, line, i);
    } else {
      SixInFlags(line, |stuffed|, i);
    }
  }

  lemma {:induction false} NoSixBefore(stuffed: Bits, line: Bits, i: nat)
    requires stuffed + [false] <= line && i <= |stuffed|
    requires !OnesAt(stuffed + [false], i, 6)
    ensures !OnesAt(line, i, 6)
  {
    assert !line[|stuffed|];
    assert forall j :: 0 <= j < |stuffed| ==> line[j] == (stuffed + [false])[j];
  }

  lemma {:induction false} SixInFlags(line: Bits, base: nat, i: nat)
    requires base < i && (|line| - base) % 8 == 0
    requires forall k :: base <= k < |line| ==> line[k] == (1 <= (k - base) % 8 <= 6)
    ensures OnesAt(line, i, 6) <==> i < |line| && (i - base) % 8 == 1
  {
    var q, r := (i - base) / 8, (i - base) % 8;
    assert i == base + 8 * q + r;
    if r == 1 && i < |line| {
      forall k | i <= k < i + 6
        ensures k < |line| && line[k]
      {
        assert (k - base) % 8 == k - i + 1;
      }
    } else if i + 6 <= |line| {
      var out := if r == 0 then i else i + 7 - r;
      assert (out - base) % 8 == if r == 0 then 0 else 7;
      assert !line[out];
    }
  }
}
