/** The reflected CCITT CRC of `fec.rs`, which ACARS starts from zero and AX.25 from all ones. */
module Crc16 {
  import opened Bytes

  const POLY: bv16 := 0x8408

  function ShiftOne(crc: bv16): bv16 {
    if crc & 1 != 0 then (crc >> 1) ^ POLY else crc >> 1
  }

  function ShiftOctet(crc: bv16): bv16 {
    ShiftOne(ShiftOne(ShiftOne(ShiftOne(ShiftOne(ShiftOne(ShiftOne(ShiftOne(crc))))))))
  }

  function Reflected(crc: bv16, data: seq<Byte>): bv16
    decreases |data|
  {
    if data == [] then crc else Reflected(ShiftOctet(crc ^ data[0] as bv16), data[1..])
  }

  function Ccitt(data: seq<Byte>): bv16 {
    Reflected(0, data)
  }

  function X25(data: seq<Byte>): bv16 {
    Reflected(0xFFFF, data) ^ 0xFFFF
  }

  function LittleEndian(crc: bv16): (bytes: seq<Byte>)
    ensures |bytes| == 2
  {
    [(crc & 0xFF) as bv8, (crc >> 8) as bv8]
  }

  function FromLittleEndian(lo: Byte, hi: Byte): bv16 {
    (hi as bv16 << 8) | lo as bv16
  }

  lemma {:induction false} ReflectedAppend(crc: bv16, a: seq<Byte>, b: seq<Byte>)
    ensures Reflected(crc, a + b) == Reflected(Reflected(crc, a), b)
    decreases |a|
  {
    hide ShiftOctet;
    if a == [] {
      assert a + b == b;
    } else {
      ReflectedAppend(ShiftOctet(crc ^ a[0] as bv16), a[1..], b);
      assert (a + b)[1..] == a[1..] + b;
    }
  }

  lemma LowOctetShiftsOut(crc: bv16)
    ensures ShiftOctet(crc ^ (crc & 0xFF)) == crc >> 8
  {}

  lemma HighOctetShiftsOut(crc: bv16)
    requires crc < 0x100
    ensures ShiftOctet(crc ^ crc) == 0
  {}

  lemma {:induction false} ReflectedPair(crc: bv16, pair: seq<Byte>)
    requires |pair| == 2
    ensures Reflected(crc, pair) == ShiftOctet(ShiftOctet(crc ^ pair[0] as bv16) ^ pair[1] as bv16)
  {
    hide ShiftOctet;
    assert pair[1..] == [pair[1]] && pair[1..][1..] == [];
    assert Reflected(crc, pair) == Reflected(ShiftOctet(crc ^ pair[0] as bv16), pair[1..]);
  }

  lemma Halves(crc: bv16)
    ensures LittleEndian(crc)[0] as bv16 == crc & 0xFF && LittleEndian(crc)[1] as bv16 == crc >> 8 && crc >> 8 < 0x100
  {}

  lemma {:induction false} OwnOctetsShiftOut(crc: bv16)
    ensures Reflected(crc, LittleEndian(crc)) == 0
  {
    LowOctetShiftsOut(crc);
    Halves(crc);
    HighOctetShiftsOut(crc >> 8);
    ReflectedPair(crc, LittleEndian(crc));
    hide ShiftOctet, Reflected, LittleEndian;
  }

  /** A block followed by its own CRC, low octet first, leaves no residue; this is what lets a
      receiver check a block without knowing its length. */
  lemma CheckOctetsLeaveNoResidue(data: seq<Byte>)
    ensures Ccitt(data + LittleEndian(Ccitt(data))) == 0
  {
    hide ShiftOctet, Reflected, LittleEndian;
    var crc := Ccitt(data);
    ReflectedAppend(0, data, LittleEndian(crc));
    OwnOctetsShiftOut(crc);
  }

  lemma LittleEndianInverts(crc: bv16)
    ensures FromLittleEndian(LittleEndian(crc)[0], LittleEndian(crc)[1]) == crc
  {}

  /** The frame check sequence test of a received frame. */
  predicate FcsOk(frame: seq<Byte>) {
    |frame| >= 3 &&
    X25(frame[..|frame| - 2]) == FromLittleEndian(frame[|frame| - 2], frame[|frame| - 1])
  }

  function WithFcs(frame: seq<Byte>): seq<Byte> {
    frame + LittleEndian(X25(frame))
  }

  lemma WithFcsOk(frame: seq<Byte>)
    requires frame != []
    ensures FcsOk(WithFcs(frame))
  {
    assert WithFcs(frame)[..|frame|] == frame;
    LittleEndianInverts(X25(frame));
  }
}
