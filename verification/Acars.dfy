/** The ACARS bit framer of `acars.rs`: synchronisation with polarity recovery, bounded block
    collection, and the parity and CRC gates. */
module Acars {
  import opened Wrappers
  import opened Bytes
  import opened Crc16

  const SYN: Byte := 0x16
  const SYN_INVERTED: Byte := 0xE9
  const SOH: Byte := 0x01
  const STX: Byte := 0x02
  const ETX: Byte := 0x83
  const ETB: Byte := 0x97
  const ETB_DATA: Byte := 0x17
  const NAK: Byte := 0x15

  const MIN_BLOCK: nat := 13
  const MAX_BLOCK: nat := 240
  const BLOCK_ID: nat := 11
  const BLOCK_START: nat := 12
  const SEQ_LEN: nat := 4
  const FLIGHT_LEN: nat := 6

  datatype State = Hunt | Sync2 | Soh | Text | Crc

  /** The framer's fields. */
  datatype Fields = Fields(reg: Byte, inverted: bool, state: State, bitsToByte: int,
                           block: seq<Byte>, crc: seq<Byte>, crcLen: nat)

  /** The fields of a block as raw octets, parity removed; trimming for display is not modelled. */
  datatype Message = Message(mode: Byte, address: seq<Byte>, ack: Option<Byte>, labelOf: seq<Byte>, blockId: Byte,
                             downlink: bool, seqNo: Option<seq<Byte>>, flight: Option<seq<Byte>>,
                             body: seq<Byte>, more: bool)

  // ---- Decoding a block ----

  predicate Odd(b: Byte) {
    (((((((BitOf(b, 0) != BitOf(b, 1)) != BitOf(b, 2)) != BitOf(b, 3)) != BitOf(b, 4))
       != BitOf(b, 5)) != BitOf(b, 6)) != BitOf(b, 7))
  }

  predicate AllOdd(block: seq<Byte>) {
    forall i :: 0 <= i < |block| ==> Odd(block[i])
  }

  predicate Terminator(b: Byte) {
    b == ETX || b == ETB
  }

  function Stripped(block: seq<Byte>): (text: seq<Byte>)
    ensures |text| == |block|
  {
    seq(|block|, i requires 0 <= i < |block| => block[i] & 0x7F)
  }

  function Parse(block: seq<Byte>): Message
    requires |block| >= MIN_BLOCK
  {
    var text := Stripped(block);
    var downlink := IsDigit(text[BLOCK_ID]);
    var whole := if |text| == MIN_BLOCK then [] else text[BLOCK_START + 1..|text| - 1];
    var numbered := text[BLOCK_START] == STX && downlink && |whole| >= SEQ_LEN + FLIGHT_LEN;
    Message(
      text[0], text[1..8], if text[8] != NAK then Some(text[8]) else None, text[9..11], text[BLOCK_ID], downlink,
      if numbered then Some(whole[..SEQ_LEN]) else None,
      if numbered then Some(whole[SEQ_LEN..SEQ_LEN + FLIGHT_LEN]) else None,
      if text[BLOCK_START] != STX then [] else if numbered then whole[SEQ_LEN + FLIGHT_LEN..] else whole,
      text[|text| - 1] == ETB_DATA)
  }

  function Decode(block: seq<Byte>, crc: seq<Byte>): Option<Message> {
    if |block| < MIN_BLOCK || !AllOdd(block) || Ccitt(block + crc) != 0 then None else Some(Parse(block))
  }

  // ---- The framer as a state machine ----

  const NEW := Fields(0, false, Hunt, 1, [], [0, 0], 0)

  function Restarted(f: Fields): Fields {
    f.(state := Hunt, bitsToByte := 1, block := [], crcLen := 0)
  }

  function Synced(f: Fields, byte: Byte): Fields {
    if byte == SYN_INVERTED then
      f.(inverted := !f.inverted, state := if f.state.Hunt? then Sync2 else f.state, bitsToByte := 8)
    else if byte != SYN then
      if f.state.Hunt? then f.(bitsToByte := 1) else Restarted(f)
    else
      f.(state := if f.state.Hunt? then Sync2 else Soh)
  }

  /** The CRC index stays inside its buffer. */
  predicate Usable(f: Fields) {
    |f.crc| == 2 && (f.state.Crc? ==> f.crcLen < 2)
  }

  /** A whole octet has been shifted in. */
  function OnByte(f: Fields, byte: Byte): (r: (Fields, Option<Message>))
    requires Usable(f)
    ensures Usable(r.0)
  {
    match f.state
    case Hunt => (Synced(f, byte), None)
    case Sync2 => (Synced(f, byte), None)
    case Soh => (if byte == SOH then f.(state := Text, block := []) else Restarted(f), None)
    case Text =>
      var g := f.(block := f.block + [byte]);
      (if Terminator(byte) then g.(state := Crc, crcLen := 0)
       else if |g.block| > MAX_BLOCK then Restarted(g)
       else g, None)
    case Crc =>
      var g := f.(crc := f.crc[f.crcLen := byte], crcLen := f.crcLen + 1);
      if g.crcLen == 2 then (Restarted(g), Decode(g.block, g.crc)) else (g, None)
  }

  function ShiftIn(reg: Byte, bit: bool): Byte {
    (reg >> 1) | (if bit then 0x80 else 0)
  }

  /** One bit from the detector, in whatever polarity it has. */
  function Pushed(f: Fields, raw: bool): (r: (Fields, Option<Message>))
    requires Usable(f)
    ensures Usable(r.0)
  {
    var reg := ShiftIn(f.reg, raw != f.inverted);
    if f.bitsToByte > 1 then (f.(reg := reg, bitsToByte := f.bitsToByte - 1), None)
    else OnByte(f.(reg := reg, bitsToByte := 8), reg)
  }

  class Framer {
    var reg: Byte
    var inverted: bool
    var state: State
    var bitsToByte: int
    var block: seq<Byte>
    const crc: array<Byte>
    var crcLen: nat

    ghost function View(): Fields
      reads this, crc
    {
      Fields(reg, inverted, state, bitsToByte, block, crc[..], crcLen)
    }

    ghost predicate Valid()
      reads this, crc
    {
      Usable(View())
    }

    constructor ()
      ensures Valid() && fresh(crc) && View() == NEW
    {
      reg, inverted, state, bitsToByte := 0, false, Hunt, 1;
      block, crcLen := [], 0;
      crc := new Byte[2](_ => 0);
      new;
      assert crc[..] == [0, 0];
    }

    method Restart()
      modifies this
      ensures View() == Restarted(old(View()))
    {
      state := Hunt;
      bitsToByte := 1;
      block := [];
      crcLen := 0;
    }

    method Sync(byte: Byte)
      requires state.Hunt? || state.Sync2?
      modifies this
      ensures View() == Synced(old(View()), byte)
    {
      if byte == SYN_INVERTED {
        inverted := !inverted;
        state := if state.Hunt? then Sync2 else state;
        bitsToByte := 8;
        return;
      }
      if byte != SYN {
        if state.Hunt? {
          bitsToByte := 1;
        } else {
          Restart();
        }
        return;
      }
      state := if state.Hunt? then Sync2 else Soh;
    }

    method Push(raw: bool) returns (message: Option<Message>)
      requires Valid()
      modifies this, crc
      ensures Valid() && (View(), message) == Pushed(old(View()), raw)
    {
      hide ShiftIn, OnByte;
      message := None;
      var bit := raw != inverted;
      reg := ShiftIn(reg, bit);
      bitsToByte := bitsToByte - 1;
      if bitsToByte > 0 {
        return;
      }
      bitsToByte := 8;
      message := Collect(reg);
    }

    /** The state machine's reaction to a whole octet. */
    method Collect(byte: Byte) returns (message: Option<Message>)
      requires Valid()
      modifies this, crc
      ensures Valid() && (View(), message) == OnByte(old(View()), byte)
    {
      hide Decode;
      message := None;
      match state {
        case Hunt =>
          Sync(byte);
        case Sync2 =>
          Sync(byte);
        case Soh =>
          if byte == SOH {
            state := Text;
            block := [];
          } else {
            Restart();
          }
        case Text =>
          block := block + [byte];
          if byte == ETX || byte == ETB {
            state := Crc;
            crcLen := 0;
          } else if |block| > MAX_BLOCK {
            Restart();
          }
        case Crc =>
          crc[crcLen] := byte;
          assert crc[..] == old(crc[..])[crcLen := byte];
          crcLen := crcLen + 1;
          if crcLen == 2 {
            message := Decode(block, crc[..]);
            Restart();
          }
      }
    }
  }

  // ---- What the framer has read ----

  function Corrected(raw: Bits, inverted: bool): (bits: Bits)
    ensures |bits| == |raw|
  {
    seq(|raw|, i requires 0 <= i < |raw| => raw[i] != inverted)
  }

  /** In the given polarity the last bits of `raw` spell `octets`. */
  ghost predicate EndsWith(raw: Bits, inverted: bool, octets: seq<Byte>) {
    |raw| >= 8 * |octets| && Corrected(raw[|raw| - 8 * |octets|..], inverted) == Octets(octets)
  }

  const HEADER: seq<Byte> := [SYN, SYN, SOH]

  /** Only the last octet of a whole block is a terminator. */
  ghost predicate OneTerminator(block: seq<Byte>) {
    && block != [] && Terminator(block[|block| - 1])
    && Unterminated(block[..|block| - 1])
  }

  ghost predicate Unterminated(block: seq<Byte>) {
    forall i :: 0 <= i < |block| ==> !Terminator(block[i])
  }

  /** The octets read since synchronisation began. */
  ghost function Spelled(f: Fields): seq<Byte>
    requires f.crcLen <= |f.crc|
  {
    match f.state
    case Hunt => []
    case Sync2 => [SYN]
    case Soh => [SYN, SYN]
    case Text => HEADER + f.block
    case Crc => HEADER + f.block + f.crc[..f.crcLen]
  }

  /** The bounds every reachable state keeps. */
  ghost predicate InBounds(f: Fields) {
    && |f.crc| == 2 && f.crcLen <= 2 && 1 <= f.bitsToByte <= 8
    && (f.state.Hunt? ==> f.bitsToByte == 1)
    && (f.state.Text? ==> |f.block| <= MAX_BLOCK && Unterminated(f.block))
    && (f.state.Crc? ==> f.crcLen < 2 && |f.block| <= MAX_BLOCK + 1 && OneTerminator(f.block))
  }

  /** `raw` is everything received, after the eight zeros the register starts with. Its last bits
      are in the register, and before them it spells what the state says has been read. */
  ghost predicate ReadFrom(f: Fields, raw: Bits) {
    && InBounds(f)
    && var partial := 8 - f.bitsToByte;
    && |raw| >= 8
    && Corrected(raw[|raw| - partial..], f.inverted) == OctetBits(f.reg)[f.bitsToByte..]
    && EndsWith(raw[..|raw| - partial], f.inverted, Spelled(f))
  }

  /** The framing an emitted block must have had on the air. */
  ghost predicate Framed(raw: Bits, inverted: bool, block: seq<Byte>, crc: seq<Byte>) {
    && EndsWith(raw, inverted, HEADER + block + crc)
    && |crc| == 2 && MIN_BLOCK <= |block| <= MAX_BLOCK + 1
    && OneTerminator(block) && AllOdd(block) && Ccitt(block + crc) == 0
  }

  lemma ShiftsIn(reg: Byte, bit: bool)
    ensures OctetBits(ShiftIn(reg, bit)) == OctetBits(reg)[1..] + [bit]
  {
    var next := ShiftIn(reg, bit);
    assert BitOf(next, 7) == bit;
    forall i | 0 <= i < 7
      ensures OctetBits(next)[i] == OctetBits(reg)[i + 1]
    {
      BitMovesDown(reg, bit, i);
    }
    hide ShiftIn, BitOf;
  }

  lemma BitMovesDown(reg: Byte, bit: bool, i: nat)
    requires i < 7
    ensures BitOf(ShiftIn(reg, bit), i) == BitOf(reg, i + 1)
  {}

  lemma CorrectedAppend(a: Bits, b: Bits, inverted: bool)
    ensures Corrected(a + b, inverted) == Corrected(a, inverted) + Corrected(b, inverted)
  {}

  /** Eight more bits spell one more octet. */
  lemma SpellsOneMore(base: Bits, last: Bits, inverted: bool, octets: seq<Byte>, b: Byte)
    requires EndsWith(base, inverted, octets) && Corrected(last, inverted) == OctetBits(b)
    ensures EndsWith(base + last, inverted, octets + [b])
  {
    hide OctetBits, Corrected;
    var n := 8 * |octets|;
    assert |last| == |Corrected(last, inverted)| == 8;
    assert (base + last)[|base| - n..] == base[|base| - n..] + last;
    CorrectedAppend(base[|base| - n..], last, inverted);
    OctetsAppend(octets, [b]);
    assert Octets([b]) == OctetBits(b) + Octets([]) == OctetBits(b);
    assert |base + last| - 8 * |octets + [b]| == |base| - n;
  }

  /** Seen in the other polarity, an inverted SYN is a SYN. */
  lemma InvertedSyn(raw: Bits, inverted: bool)
    requires EndsWith(raw, inverted, [SYN_INVERTED])
    ensures EndsWith(raw, !inverted, [SYN])
  {
    assert Octets([SYN_INVERTED]) == OctetBits(SYN_INVERTED) + Octets([]) == OctetBits(SYN_INVERTED);
    assert Octets([SYN]) == OctetBits(SYN) + Octets([]) == OctetBits(SYN);
    var last := raw[|raw| - 8..];
    assert forall i :: 0 <= i < 8 ==> BitOf(SYN, i) == !BitOf(SYN_INVERTED, i);
    hide BitOf, Octets;
    assert Corrected(last, inverted) == OctetBits(SYN_INVERTED);
    assert forall i :: 0 <= i < 8 ==> Corrected(last, !inverted)[i] == !Corrected(last, inverted)[i];
  }

  lemma SpellsSuffix(raw: Bits, inverted: bool, a: seq<Byte>, b: seq<Byte>)
    requires EndsWith(raw, inverted, a + b)
    ensures EndsWith(raw, inverted, b)
  {
    OctetsAppend(a, b);
    var n, m := 8 * |a + b|, 8 * |b|;
    assert raw[|raw| - m..] == raw[|raw| - n..][n - m..];
    assert Corrected(raw[|raw| - m..], inverted) == Corrected(raw[|raw| - n..], inverted)[n - m..];
  }

  /** The last whole octet is in the register. */
  ghost predicate HoldsLast(reg: Byte, inverted: bool, raw: Bits) {
    |raw| >= 8 && Corrected(raw[|raw| - 8..], inverted) == OctetBits(reg)
  }

  /** Hunting restarts with all but the oldest bit of the register still good. */
  lemma HuntReads(f: Fields, raw: Bits)
    requires InBounds(f) && f.state.Hunt? && HoldsLast(f.reg, f.inverted, raw)
    ensures ReadFrom(f, raw)
  {
    assert Corrected(raw[|raw| - 7..], f.inverted) == Corrected(raw[|raw| - 8..], f.inverted)[1..];
    assert Octets([]) == [] == Corrected(raw[|raw| - 7..|raw| - 7], f.inverted);
    assert raw[..|raw| - 7][|raw| - 7..] == [];
  }

  lemma AlignedReads(f: Fields, raw: Bits)
    requires InBounds(f) && f.bitsToByte == 8 && |raw| >= 8
    requires EndsWith(raw, f.inverted, Spelled(f))
    ensures ReadFrom(f, raw)
  {
    assert raw[|raw|..] == [] && OctetBits(f.reg)[8..] == [] && raw[..|raw|] == raw;
  }

  /** An octet completes while the state is `f`'s; the octet is still to be acted on. */
  ghost predicate OctetReady(f: Fields, raw: Bits) {
    && InBounds(if f.state.Hunt? then f.(bitsToByte := 1) else f)
    && f.bitsToByte == 8 && |raw| >= 8 && HoldsLast(f.reg, f.inverted, raw)
    && EndsWith(raw, f.inverted, Spelled(f) + [f.reg])
  }

  lemma SyncKeepsReading(f: Fields, raw: Bits)
    requires OctetReady(f, raw) && (f.state.Hunt? || f.state.Sync2?)
    ensures ReadFrom(Synced(f, f.reg), raw)
  {
    hide EndsWith, HoldsLast;
    var g := Synced(f, f.reg);
    if g.state.Hunt? {
      HuntReads(g, raw);
    } else {
      var before := if f.state.Hunt? then [] else [SYN];
      if f.reg == SYN_INVERTED {
        SpellsSuffix(raw, f.inverted, before, [f.reg]);
        InvertedSyn(raw, f.inverted);
      } else {
        assert Spelled(g) == before + [f.reg];
      }
      AlignedReads(g, raw);
    }
  }

  lemma SohKeepsReading(f: Fields, raw: Bits)
    requires OctetReady(f, raw) && f.state.Soh?
    ensures ReadFrom(OnByte(f, f.reg).0, raw)
  {
    hide EndsWith, HoldsLast, Decode;
    var g := OnByte(f, f.reg).0;
    if g.state.Hunt? {
      HuntReads(g, raw);
    } else {
      assert Spelled(f) + [f.reg] == Spelled(g);
      AlignedReads(g, raw);
    }
  }

  lemma TextKeepsReading(f: Fields, raw: Bits)
    requires OctetReady(f, raw) && f.state.Text?
    ensures ReadFrom(OnByte(f, f.reg).0, raw)
  {
    hide EndsWith, HoldsLast, Decode;
    var g := OnByte(f, f.reg).0;
    if g.state.Hunt? {
      HuntReads(g, raw);
    } else {
      assert Spelled(f) + [f.reg] == Spelled(g);
      assert g.block[..|g.block| - 1] == f.block;
      AlignedReads(g, raw);
    }
  }

  /** A message comes only from a framed block. */
  lemma CrcKeepsReading(f: Fields, raw: Bits)
    requires OctetReady(f, raw) && f.state.Crc?
    ensures var (g, message) := OnByte(f, f.reg);
            && ReadFrom(g, raw)
            && (message.Some? ==> var crc := f.crc[1 := f.reg];
                                  Framed(raw, f.inverted, f.block, crc) && message.value == Parse(f.block))
  {
    hide EndsWith, HoldsLast, AllOdd, Ccitt, Parse, OneTerminator;
    var (g, message) := OnByte(f, f.reg);
    if f.crcLen == 1 {
      HuntReads(g, raw);
      assert f.crc[..1] + [f.reg] == f.crc[1 := f.reg];
      assert Spelled(f) + [f.reg] == HEADER + f.block + f.crc[1 := f.reg];
    } else {
      assert Spelled(f) + [f.reg] == Spelled(g);
      AlignedReads(g, raw);
    }
  }

  lemma OctetKeepsReading(f: Fields, raw: Bits)
    requires OctetReady(f, raw)
    ensures var (g, message) := OnByte(f, f.reg);
            && ReadFrom(g, raw)
            && (message.Some? ==> var crc := f.crc[1 := f.reg];
                                  Framed(raw, f.inverted, f.block, crc) && message.value == Parse(f.block))
  {
    match f.state {
      case Hunt => SyncKeepsReading(f, raw);
      case Sync2 => SyncKeepsReading(f, raw);
      case Soh => SohKeepsReading(f, raw);
      case Text => TextKeepsReading(f, raw);
      case Crc => CrcKeepsReading(f, raw);
    }
    hide ReadFrom, Framed, OctetReady, Parse, Decode;
  }

  lemma BitEnters(reg: Byte, n: nat, inverted: bool, head: Bits, tail: Bits, bit: bool)
    requires 1 <= n <= 8 && |tail| == 8 - n && Corrected(tail, inverted) == OctetBits(reg)[n..]
    ensures Corrected(tail + [bit], inverted) == OctetBits(ShiftIn(reg, bit != inverted))[n - 1..]
  {
    ShiftsIn(reg, bit != inverted);
    CorrectedAppend(tail, [bit], inverted);
    assert Corrected([bit], inverted) == [bit != inverted];
    hide OctetBits, ShiftIn, Corrected;
    var bits := OctetBits(reg);
    assert (bits[1..] + [bit != inverted])[n - 1..] == bits[n..] + [bit != inverted];
  }

  /** One more bit: it joins the register, and the bits before it still spell what they did. */
  lemma BitJoins(f: Fields, raw: Bits, bit: bool)
    requires ReadFrom(f, raw)
    ensures var partial, reg := 8 - f.bitsToByte, ShiftIn(f.reg, bit != f.inverted);
            var after := raw + [bit];
            && after[..|raw| - partial] == raw[..|raw| - partial]
            && Corrected(after[|raw| - partial..], f.inverted) == OctetBits(reg)[f.bitsToByte - 1..]
  {
    hide EndsWith, OctetBits, ShiftIn, Octets, Corrected, OneTerminator, Unterminated;
    var cut := |raw| - (8 - f.bitsToByte);
    assert (raw + [bit])[cut..] == raw[cut..] + [bit];
    BitEnters(f.reg, f.bitsToByte, f.inverted, raw[..cut], raw[cut..], bit);
  }

  lemma OctetCompletes(f: Fields, raw: Bits, bit: bool)
    requires ReadFrom(f, raw) && f.bitsToByte == 1
    ensures var g := f.(reg := ShiftIn(f.reg, bit != f.inverted), bitsToByte := 8);
            EndsWith(raw + [bit], f.inverted, Spelled(f) + [g.reg]) && HoldsLast(g.reg, f.inverted, raw + [bit])
  {
    BitJoins(f, raw, bit);
    var reg, after := ShiftIn(f.reg, bit != f.inverted), raw + [bit];
    var base, last := after[..|raw| - 7], after[|raw| - 7..];
    assert OctetBits(reg)[0..] == OctetBits(reg);
    hide OctetBits, ShiftIn, Octets, Corrected, Spelled, EndsWith, InBounds;
    SpellsOneMore(base, last, f.inverted, Spelled(f), reg);
    assert base + last == after && last == after[|after| - 8..];
  }

  lemma OctetIsReady(f: Fields, raw: Bits, bit: bool)
    requires ReadFrom(f, raw) && f.bitsToByte == 1
    ensures OctetReady(f.(reg := ShiftIn(f.reg, bit != f.inverted), bitsToByte := 8), raw + [bit])
  {
    OctetCompletes(f, raw, bit);
    var g := f.(reg := ShiftIn(f.reg, bit != f.inverted), bitsToByte := 8);
    assert Spelled(g) == Spelled(f);
    hide EndsWith, Spelled, ShiftIn, OctetBits, Corrected, OneTerminator, Unterminated, HoldsLast;
  }

  lemma BitKeepsReading(f: Fields, raw: Bits, bit: bool)
    requires ReadFrom(f, raw)
    ensures var (g, message) := Pushed(f, bit);
            && ReadFrom(g, raw + [bit])
            && (message.Some? ==> var crc := f.crc[1 := g.reg];
                                  Framed(raw + [bit], f.inverted, f.block, crc) && message.value == Parse(f.block))
  {
    hide EndsWith, Framed, Parse, OctetBits, ShiftIn, OnByte, Octets, Corrected, OneTerminator, Unterminated;
    if f.bitsToByte == 1 {
      OctetIsReady(f, raw, bit);
      var g := f.(reg := ShiftIn(f.reg, bit != f.inverted), bitsToByte := 8);
      hide ReadFrom, OctetReady;
      OctetKeepsReading(g, raw + [bit]);
      RegisterKept(g, g.reg);
    } else {
      BitJoins(f, raw, bit);
    }
  }

  lemma RegisterKept(f: Fields, byte: Byte)
    requires Usable(f)
    ensures OnByte(f, byte).0.reg == f.reg
  {
    hide Decode;
  }

  // ---- Soundness over whole runs ----

  function Emitted(message: Option<Message>): seq<Message> {
    if message.Some? then [message.value] else []
  }

  function Run(f: Fields, bits: Bits): (r: (Fields, seq<Message>))
    requires Usable(f)
    ensures Usable(r.0)
    decreases |bits|
  {
    if bits == [] then (f, []) else
    var (f1, message) := Pushed(f, bits[0]);
    var (f2, messages) := Run(f1, bits[1..]);
    (f2, Emitted(message) + messages)
  }

  lemma {:induction false} RunKeepsReading(f: Fields, raw: Bits, bits: Bits)
    requires ReadFrom(f, raw)
    ensures ReadFrom(Run(f, bits).0, raw + bits)
    decreases |bits|
  {
    hide ReadFrom, Pushed, Framed, Parse;
    if bits == [] {
      assert raw + bits == raw;
    } else {
      ReadInBounds(f, raw);
      BitKeepsReading(f, raw, bits[0]);
      RunKeepsReading(Pushed(f, bits[0]).0, raw + [bits[0]], bits[1..]);
      assert raw + [bits[0]] + bits[1..] == raw + bits;
    }
  }

  /** What the register holds before anything has been received. */
  const BLANK: Bits := seq(8, _ => false)

  lemma StartsBlank()
    ensures ReadFrom(NEW, BLANK)
  {
    assert OctetBits(0) == BLANK;
    assert Corrected(BLANK, false) == BLANK;
    HuntReads(NEW, BLANK);
  }

  /** Framing is sound: over any bits at all, when a message is emitted the bits just received
      spell, in one polarity, SYN SYN SOH and a whole block that passes every gate; all but the
      first SYN lie in received bits. The counters stay in range throughout. */
  lemma {:induction false} EmissionsAreFramed(bits: Bits, last: bool)
    ensures var f := Run(NEW, bits).0;
            var (g, message) := Pushed(f, last);
            && InBounds(g)
            && (message.Some? ==>
                  exists crc ::
                    && Framed(BLANK + bits + [last], f.inverted, f.block, crc)
                    && EndsWith(bits + [last], f.inverted, [SYN, SOH] + f.block + crc)
                    && message.value == Parse(f.block))
  {
    hide Run, Pushed, Parse, ReadFrom, Framed, EndsWith;
    StartsBlank();
    RunKeepsReading(NEW, BLANK, bits);
    var f := Run(NEW, bits).0;
    var (g, message) := Pushed(f, last);
    BitKeepsReading(f, BLANK + bits, last);
    ReadInBounds(g, BLANK + bits + [last]);
    if message.Some? {
      var crc := f.crc[1 := g.reg];
      assert BLANK + bits + [last] == BLANK + (bits + [last]);
      FramedInReceived(BLANK, bits + [last], f.inverted, f.block, crc);
    }
  }

  lemma ReadInBounds(f: Fields, raw: Bits)
    requires ReadFrom(f, raw)
    ensures InBounds(f)
  {}

  lemma FramedInReceived(head: Bits, received: Bits, inverted: bool, block: seq<Byte>, crc: seq<Byte>)
    requires |head| == 8 && Framed(head + received, inverted, block, crc)
    ensures EndsWith(received, inverted, [SYN, SOH] + block + crc)
  {
    hide EndsWith, OneTerminator, AllOdd, Ccitt;
    assert HEADER + block + crc == [SYN] + ([SYN, SOH] + block + crc);
    DropFirstOctet(head, received, inverted, SYN, [SYN, SOH] + block + crc);
  }

  lemma DropFirstOctet(head: Bits, received: Bits, inverted: bool, b: Byte, rest: seq<Byte>)
    requires |head| == 8
    requires EndsWith(head + received, inverted, [b] + rest)
    ensures EndsWith(received, inverted, rest)
  {
    SpellsSuffix(head + received, inverted, [b], rest);
    assert (head + received)[|head + received| - 8 * |rest|..] == received[|received| - 8 * |rest|..];
  }

  // ---- Completeness ----

  /** A transmission's bits as the detector delivers them, upright or complemented. */
  function OnAir(octets: seq<Byte>, inverted: bool): Bits {
    Corrected(Octets(octets), inverted)
  }

  ghost predicate ValidBlock(block: seq<Byte>, crc: seq<Byte>) {
    && 13 <= |block| <= 241 && |crc| == 2
    && OneTerminator(block) && AllOdd(block) && Ccitt(block + crc) == 0
  }

  lemma {:induction false} RunAppend(f: Fields, a: Bits, b: Bits)
    requires Usable(f)
    ensures var (f1, m1) := Run(f, a);
            var (f2, m2) := Run(f1, b);
            Run(f, a + b) == (f2, m1 + m2)
    decreases |a|
  {
    hide Pushed;
    if a == [] {
      assert a + b == b;
      assert [] + Run(f, b).1 == Run(f, b).1;
    } else {
      var (f1, message) := Pushed(f, a[0]);
      RunAppend(f1, a[1..], b);
      assert (a + b)[0] == a[0] && (a + b)[1..] == a[1..] + b;
      var y, z := Run(f1, a[1..]).1, Run(Run(f1, a[1..]).0, b).1;
      assert Emitted(message) + (y + z) == (Emitted(message) + y) + z;
    }
  }

  lemma OneShift(f: Fields, raw: bool)
    requires Usable(f) && f.bitsToByte > 1
    ensures Pushed(f, raw) == (f.(reg := ShiftIn(f.reg, raw != f.inverted), bitsToByte := f.bitsToByte - 1), None)
  {
    hide ShiftIn, OnByte;
  }

  lemma {:induction false} RunStep(f: Fields, bits: Bits)
    requires Usable(f) && bits != []
    ensures var (f1, message) := Pushed(f, bits[0]);
            Run(f, bits) == (Run(f1, bits[1..]).0, Emitted(message) + Run(f1, bits[1..]).1)
  {
    hide Pushed;
  }

  /** Bits that only move through the register. */
  ghost predicate Moves(f: Fields, bits: Bits)
    requires Usable(f) && |bits| < 8
  {
    var (g, messages) := Run(f, bits);
    && messages == [] && g == f.(reg := g.reg, bitsToByte := f.bitsToByte - |bits|)
    && OctetBits(g.reg) == OctetBits(f.reg)[|bits|..] + Corrected(bits, f.inverted)
  }

  lemma OneMoreMoves(f: Fields, first: bool, rest: Bits)
    requires Usable(f) && |rest| + 1 < f.bitsToByte <= 8
    requires Moves(f.(reg := ShiftIn(f.reg, first != f.inverted), bitsToByte := f.bitsToByte - 1), rest)
    ensures Moves(f, [first] + rest)
  {
    var bits, bit := [first] + rest, first != f.inverted;
    var f1 := f.(reg := ShiftIn(f.reg, bit), bitsToByte := f.bitsToByte - 1);
    var g := Run(f1, rest).0;
    assert Run(f, bits) == (g, []) by {
      assert bits[1..] == rest && bits[0] == first;
      OneShift(f, first);
      RunStep(f, bits);
      hide Run, Pushed, ShiftIn, OctetBits, Corrected;
      var none: seq<Message> := [];
      assert none + none == none;
    }
    assert OctetBits(g.reg) == OctetBits(f.reg)[|bits|..] + Corrected(bits, f.inverted) by {
      ShiftsIn(f.reg, bit);
      assert Corrected(bits, f.inverted) == [bit] + Corrected(rest, f.inverted);
      hide OctetBits, ShiftIn, Run, Corrected;
      Slides(OctetBits(f.reg), bit, Corrected(rest, f.inverted));
    }
    hide OctetBits, ShiftIn, Run, Corrected;
  }

  lemma NoneMove(f: Fields)
    requires Usable(f)
    ensures Moves(f, [])
  {
    hide OctetBits;
    assert OctetBits(f.reg)[0..] + Corrected([], f.inverted) == OctetBits(f.reg);
  }

  /** Between octet boundaries bits only move through the register. */
  lemma {:induction false} ShiftsThrough(f: Fields, bits: Bits)
    requires Usable(f) && |bits| < f.bitsToByte <= 8
    ensures Moves(f, bits)
    decreases |bits|
  {
    hide Moves, ShiftIn;
    if bits == [] {
      NoneMove(f);
    } else {
      ShiftsThrough(f.(reg := ShiftIn(f.reg, bits[0] != f.inverted), bitsToByte := f.bitsToByte - 1), bits[1..]);
      OneMoreMoves(f, bits[0], bits[1..]);
      assert bits == [bits[0]] + bits[1..];
    }
  }

  lemma TwiceCorrected(octet: Bits, inverted: bool)
    requires |octet| == 8
    ensures var bits := Corrected(octet, inverted);
            Corrected(bits[..7], inverted) + [bits[7] != inverted] == octet
  {}

  lemma Slides(reg: Bits, bit: bool, rest: Bits)
    requires |rest| < |reg|
    ensures (reg[1..] + [bit])[|rest|..] + rest == reg[|rest| + 1..] + ([bit] + rest)
  {}

  /** Seven bits from an octet boundary leave the register one bit short of the octet. */
  lemma RegisterFills(f: Fields, b: Byte)
    requires Usable(f) && f.bitsToByte == 8
    ensures var bits := Corrected(OctetBits(b), f.inverted);
            var (g, messages) := Run(f, bits[..7]);
            && messages == [] && g == f.(reg := g.reg, bitsToByte := 1)
            && ShiftIn(g.reg, bits[7] != f.inverted) == b
  {
    hide OctetBits, ShiftIn, OnByte;
    var bits := Corrected(OctetBits(b), f.inverted);
    ShiftsThrough(f, bits[..7]);
    var g := Run(f, bits[..7]).0;
    var bit := bits[7] != f.inverted;
    ShiftsIn(g.reg, bit);
    TwiceCorrected(OctetBits(b), f.inverted);
    hide Corrected, Run;
    assert OctetBits(g.reg)[1..] == Corrected(bits[..7], f.inverted);
    SameOctet(ShiftIn(g.reg, bit), b);
  }

  /** Eight bits from an octet boundary put exactly the octet they spell before the machine. */
  lemma ReadsOctet(f: Fields, b: Byte)
    requires Usable(f) && f.bitsToByte == 8
    ensures Run(f, Corrected(OctetBits(b), f.inverted))
         == (OnByte(f.(reg := b), b).0, Emitted(OnByte(f.(reg := b), b).1))
  {
    hide OctetBits, ShiftIn, OnByte, Run, Corrected;
    var bits := Corrected(OctetBits(b), f.inverted);
    RegisterFills(f, b);
    assert bits[..7] + [bits[7]] == bits;
    RunAppend(f, bits[..7], [bits[7]]);
    OneBit(Run(f, bits[..7]).0, bits[7]);
    var messages := Emitted(OnByte(f.(reg := b), b).1);
    assert [] + messages == messages;
  }

  lemma OneBit(f: Fields, bit: bool)
    requires Usable(f)
    ensures Run(f, [bit]) == (Pushed(f, bit).0, Emitted(Pushed(f, bit).1))
  {
    hide Pushed;
    assert [bit][1..] == [];
    var messages := Emitted(Pushed(f, bit).1);
    assert messages + [] == messages;
  }

  /** A run of octets in the locked polarity, one reaction after another. */
  function ActAll(f: Fields, octets: seq<Byte>): (r: (Fields, seq<Message>))
    requires Usable(f)
    ensures Usable(r.0)
    decreases |octets|
  {
    if octets == [] then (f, []) else
    var (f1, message) := OnByte(f.(reg := octets[0]), octets[0]);
    var (f2, messages) := ActAll(f1, octets[1..]);
    (f2, Emitted(message) + messages)
  }

  lemma {:induction false} ActAppend(f: Fields, a: seq<Byte>, b: seq<Byte>)
    requires Usable(f)
    ensures var (f1, m1) := ActAll(f, a);
            var (f2, m2) := ActAll(f1, b);
            ActAll(f, a + b) == (f2, m1 + m2)
    decreases |a|
  {
    hide OnByte;
    if a == [] {
      assert a + b == b;
      assert [] + ActAll(f, b).1 == ActAll(f, b).1;
    } else {
      var (f1, message) := OnByte(f.(reg := a[0]), a[0]);
      ActAppend(f1, a[1..], b);
      assert (a + b)[0] == a[0] && (a + b)[1..] == a[1..] + b;
      var y, z := ActAll(f1, a[1..]).1, ActAll(ActAll(f1, a[1..]).0, b).1;
      assert Emitted(message) + (y + z) == (Emitted(message) + y) + z;
    }
  }

  /** After every proper prefix of `octets` the machine is at an octet boundary, polarity kept. */
  ghost predicate StaysLocked(f: Fields, octets: seq<Byte>)
    requires Usable(f)
    decreases |octets|
  {
    octets == [] ||
    (f.bitsToByte == 8 &&
     var g := OnByte(f.(reg := octets[0]), octets[0]).0;
     (|octets| > 1 ==> g.inverted == f.inverted) && StaysLocked(g, octets[1..]))
  }

  /** While it stays locked, the framer reads octets off the air. */
  lemma {:induction false} RunIsAct(f: Fields, octets: seq<Byte>)
    requires Usable(f) && StaysLocked(f, octets)
    ensures Run(f, OnAir(octets, f.inverted)) == ActAll(f, octets)
    decreases |octets|
  {
    hide OnByte, OctetBits;
    if octets == [] {
      assert OnAir(octets, f.inverted) == [];
    } else {
      var b, rest := octets[0], octets[1..];
      var first, later := Corrected(OctetBits(b), f.inverted), OnAir(rest, f.inverted);
      CorrectedAppend(OctetBits(b), Octets(rest), f.inverted);
      ReadsOctet(f, b);
      hide Corrected, Run;
      RunAppend(f, first, later);
      var g := OnByte(f.(reg := b), b).0;
      RunIsAct(g, rest);
      if rest == [] {
        NothingOnAir(f.inverted);
        NothingOnAir(g.inverted);
      }
    }
  }

  lemma NothingOnAir(inverted: bool)
    ensures OnAir([], inverted) == []
  {}

  /** The two check octets end the block and the machine hunts again. */
  lemma ReadsCheckOctets(f: Fields, crc: seq<Byte>)
    requires Usable(f) && f.state.Crc? && f.crcLen == 0 && f.bitsToByte == 8 && |crc| == 2
    ensures StaysLocked(f, crc)
    ensures ActAll(f, crc) == (Fields(crc[1], f.inverted, Hunt, 1, [], crc, 0), Emitted(Decode(f.block, crc)))
  {
    hide Decode;
    var f1 := OnByte(f.(reg := crc[0]), crc[0]).0;
    var f2 := OnByte(f1.(reg := crc[1]), crc[1]).0;
    assert f2.crc == crc;
    assert crc[1..][1..] == [];
    var last := Emitted(Decode(f.block, crc));
    assert [] + (last + []) == last;
    assert StaysLocked(f2, []) && StaysLocked(f1, crc[1..]);
    assert ActAll(f1, crc[1..]) == (f2, last + []);
  }

  /** One octet of a block: it is kept, and a terminator turns to the check octets. */
  lemma TextOctet(f: Fields, b: Byte)
    requires Usable(f) && f.state.Text? && f.bitsToByte == 8 && (Terminator(b) || |f.block| < MAX_BLOCK)
    ensures OnByte(f.(reg := b), b)
         == (if Terminator(b) then f.(reg := b, block := f.block + [b], state := Crc, crcLen := 0)
             else f.(reg := b, block := f.block + [b]), None)
  {
    hide Decode;
  }

  /** One octet of a run. */
  lemma {:induction false} ActStep(f: Fields, octets: seq<Byte>)
    requires Usable(f) && octets != []
    ensures var (f1, message) := OnByte(f.(reg := octets[0]), octets[0]);
            && ActAll(f, octets) == (ActAll(f1, octets[1..]).0, Emitted(message) + ActAll(f1, octets[1..]).1)
            && (f.bitsToByte == 8 && f1.inverted == f.inverted && StaysLocked(f1, octets[1..]) ==> StaysLocked(f, octets))
  {
    hide OnByte;
  }

  lemma TerminatorLast(rest: seq<Byte>)
    requires OneTerminator(rest)
    ensures |rest| == 1 ==> Terminator(rest[0])
    ensures |rest| > 1 ==> !Terminator(rest[0]) && OneTerminator(rest[1..])
  {
    if |rest| > 1 {
      assert rest[..|rest| - 1][0] == rest[0];
      assert rest[1..][..|rest| - 2] == rest[..|rest| - 1][1..];
    }
  }

  /** A silent octet leaves the rest of a run to the state after it. */
  lemma {:induction false} SilentStep(f: Fields, b: Byte, later: seq<Byte>, f1: Fields)
    requires Usable(f) && f.bitsToByte == 8 && OnByte(f.(reg := b), b) == (f1, None) && f1.inverted == f.inverted
    ensures ActAll(f, [b] + later) == ActAll(f1, later)
    ensures StaysLocked(f1, later) ==> StaysLocked(f, [b] + later)
  {
    hide OnByte, ActAll, StaysLocked;
    ActStep(f, [b] + later);
    assert ([b] + later)[1..] == later;
    var messages := ActAll(f1, later).1;
    assert [] + messages == messages;
  }

  lemma ReadsTerminator(f: Fields, b: Byte, crc: seq<Byte>)
    requires Usable(f) && f.state.Text? && f.bitsToByte == 8 && |crc| == 2 && Terminator(b)
    ensures EndsBlock(f, [b], crc)
  {
    hide Decode, OnByte, ActAll, StaysLocked;
    TextOctet(f, b);
    var f1 := OnByte(f.(reg := b), b).0;
    SilentStep(f, b, crc, f1);
    ReadsCheckOctets(f1, crc);
  }

  /** The rest of a block and its check octets end the block and give what decoding makes of it. */
  ghost predicate EndsBlock(f: Fields, rest: seq<Byte>, crc: seq<Byte>)
    requires Usable(f) && |crc| == 2
  {
    && StaysLocked(f, rest + crc)
    && ActAll(f, rest + crc) == (Fields(crc[1], f.inverted, Hunt, 1, [], crc, 0), Emitted(Decode(f.block + rest, crc)))
  }

  lemma ReadsTextOctet(f: Fields, b: Byte, later: seq<Byte>, crc: seq<Byte>)
    requires Usable(f) && f.state.Text? && f.bitsToByte == 8 && !Terminator(b) && |f.block| < MAX_BLOCK && |crc| == 2
    requires EndsBlock(f.(reg := b, block := f.block + [b]), later, crc)
    ensures EndsBlock(f, [b] + later, crc)
  {
    hide OnByte, ActAll, StaysLocked, Decode, Emitted;
    TextOctet(f, b);
    SilentStep(f, b, later + crc, f.(reg := b, block := f.block + [b]));
    assert ([b] + later) + crc == [b] + (later + crc);
    assert (f.block + [b]) + later == f.block + ([b] + later);
  }

  /** From inside a block: the rest of it and its check octets. */
  lemma {:induction false} ReadsRest(f: Fields, rest: seq<Byte>, crc: seq<Byte>)
    requires Usable(f) && f.state.Text? && f.bitsToByte == 8 && |crc| == 2
    requires OneTerminator(rest) && |f.block| + |rest| <= MAX_BLOCK + 1
    ensures EndsBlock(f, rest, crc)
    decreases |rest|
  {
    TerminatorLast(rest);
    var b, later := rest[0], rest[1..];
    assert rest == [b] + later;
    hide OneTerminator;
    if |rest| == 1 {
      assert rest == [b];
      ReadsTerminator(f, b, crc);
    } else {
      hide EndsBlock, Terminator;
      ReadsRest(f.(reg := b, block := f.block + [b]), later, crc);
      ReadsTextOctet(f, b, later, crc);
    }
  }

  /** A second SYN and SOH open an empty block. */
  lemma ReadsHeader(f: Fields, rest: seq<Byte>)
    requires Usable(f) && f.state.Sync2? && f.bitsToByte == 8
    ensures var g := f.(reg := SOH, state := Text, block := []);
            && (StaysLocked(g, rest) ==> StaysLocked(f, [SYN, SOH] + rest))
            && ActAll(f, [SYN, SOH] + rest) == ActAll(g, rest)
  {
    hide Decode;
    var octets := [SYN, SOH] + rest;
    var f1 := OnByte(f.(reg := SYN), SYN).0;
    var g := OnByte(f1.(reg := SOH), SOH).0;
    assert octets[1..] == [SOH] + rest && octets[1..][1..] == rest;
    assert [] + ActAll(g, rest).1 == ActAll(g, rest).1;
    assert ActAll(f1, octets[1..]) == ActAll(g, rest);
  }

  /** Once locked on a SYN: a second SYN, SOH, the block and its check octets. */
  lemma ReadsTransmission(f: Fields, block: seq<Byte>, crc: seq<Byte>)
    requires Usable(f) && f.state.Sync2? && f.bitsToByte == 8 && ValidBlock(block, crc)
    ensures Run(f, OnAir([SYN, SOH] + (block + crc), f.inverted))
         == (Fields(crc[1], f.inverted, Hunt, 1, [], crc, 0), [Parse(block)])
  {
    assert Decode(block, crc) == Some(Parse(block));
    hide Decode, AllOdd, Ccitt, Parse, Run, ActAll, StaysLocked, OnAir, OnByte;
    var g := f.(reg := SOH, state := Text, block := []);
    ReadsRest(g, block, crc);
    assert g.block + block == block;
    ReadsHeader(f, block + crc);
    RunIsAct(f, [SYN, SOH] + (block + crc));
  }

  // ---- Finding the first SYN ----

  predicate SynEither(b: Byte) {
    b == SYN || b == SYN_INVERTED
  }

  function Window(reg: Byte, bits: Bits): Byte
    decreases |bits|
  {
    if bits == [] then reg else Window(ShiftIn(reg, bits[0]), bits[1..])
  }

  /** No SYN in either polarity forms while `bits` move through the register. */
  predicate NoSyn(reg: Byte, bits: Bits)
    decreases |bits|
  {
    bits == [] || (!SynEither(ShiftIn(reg, bits[0])) && NoSyn(ShiftIn(reg, bits[0]), bits[1..]))
  }

  /** Hunting passes over bits that form no SYN. */
  lemma {:induction false} HuntsPast(f: Fields, bits: Bits)
    requires Usable(f) && f.state.Hunt? && f.bitsToByte == 1 && NoSyn(f.reg, bits)
    ensures Run(f, Corrected(bits, f.inverted)) == (f.(reg := Window(f.reg, bits)), [])
    decreases |bits|
  {
    hide ShiftIn;
    var raw := Corrected(bits, f.inverted);
    if bits == [] {
      assert f == f.(reg := f.reg);
    } else {
      assert (raw[0] != f.inverted) == bits[0];
      assert raw[1..] == Corrected(bits[1..], f.inverted);
      var f1 := Pushed(f, raw[0]).0;
      assert f1 == f.(reg := ShiftIn(f.reg, bits[0]));
      HuntsPast(f1, bits[1..]);
      var none: seq<Message> := [];
      assert none + none == none;
    }
  }

  /** The first bit of the SYN does not itself complete one with what the register holds. */
  predicate JunctionClear(f: Fields, inverted: bool) {
    !SynEither(ShiftIn(f.reg, inverted != f.inverted))
  }

  /** The first seven bits of SYN, complemented or not. */
  function SynStart(c: bool): Bits {
    [c, !c, !c, c, !c, c, c]
  }

  lemma WindowSteps(reg: Byte, bits: Bits)
    requires bits != []
    ensures Window(reg, bits) == Window(ShiftIn(reg, bits[0]), bits[1..])
    ensures NoSyn(reg, bits) <==>
            !SynEither(ShiftIn(reg, bits[0])) && NoSyn(ShiftIn(reg, bits[0]), bits[1..])
  {}

  /** Seven bits of SYN form a SYN early only if the very first of them does. */
  lemma SynStartIsClear(reg: Byte, c: bool)
    requires !SynEither(ShiftIn(reg, c))
    ensures NoSyn(reg, SynStart(c))
    ensures ShiftIn(Window(reg, SynStart(c)), c) == if c then SYN_INVERTED else SYN
  {
    var b := SynStart(c);
    var r1 := ShiftIn(reg, c);
    var r2 := ShiftIn(r1, !c);
    var r3 := ShiftIn(r2, !c);
    var r4 := ShiftIn(r3, c);
    var r5 := ShiftIn(r4, !c);
    var r6 := ShiftIn(r5, c);
    var r7 := ShiftIn(r6, c);
    assert !SynEither(r2) && !SynEither(r3) && !SynEither(r4) && !SynEither(r5) && !SynEither(r6) && !SynEither(r7);
    assert ShiftIn(r7, c) == if c then SYN_INVERTED else SYN;
    hide ShiftIn, SynEither;
    WindowSteps(r6, b[6..]);
    WindowSteps(r5, b[5..]);
    WindowSteps(r4, b[4..]);
    WindowSteps(r3, b[3..]);
    WindowSteps(r2, b[2..]);
    WindowSteps(r1, b[1..]);
    WindowSteps(reg, b);
    assert b[6..][1..] == [] && b[5..][1..] == b[6..] && b[4..][1..] == b[5..];
    assert b[3..][1..] == b[4..] && b[2..][1..] == b[3..] && b[1..][1..] == b[2..];
  }

  lemma SynBits(c: bool)
    ensures Corrected(OctetBits(SYN), c) == SynStart(c) + [c]
    ensures OctetBits(if c then SYN_INVERTED else SYN) == SynStart(c) + [c]
  {
    assert OctetBits(SYN) == [false, true, true, false, true, false, false, false];
    assert OctetBits(SYN_INVERTED) == [true, false, false, true, false, true, true, true];
    hide OctetBits;
  }

  /** The first SYN, in either polarity, locks the framer to that polarity. */
  lemma LocksOn(f: Fields, inverted: bool)
    requires Usable(f) && f.state.Hunt? && f.bitsToByte == 1 && JunctionClear(f, inverted)
    ensures var c := inverted != f.inverted;
            Run(f, OnAir([SYN], inverted))
            == (f.(reg := if c then SYN_INVERTED else SYN, inverted := inverted, state := Sync2, bitsToByte := 8), [])
  {
    var c := inverted != f.inverted;
    var raw := Corrected(SynStart(c), f.inverted);
    assert OnAir([SYN], inverted) == raw + [inverted] by {
      assert Octets([SYN]) == OctetBits(SYN) + Octets([]) == OctetBits(SYN);
      SynBits(inverted);
    }
    hide OnAir, Corrected, OctetBits;
    SynStartIsClear(f.reg, c);
    HuntsPast(f, SynStart(c));
    RunAppend(f, raw, [inverted]);
    var g := f.(reg := Window(f.reg, SynStart(c)));
    OneBit(g, inverted);
    hide Run, Window, SynStart, ShiftIn;
  }

  lemma OnAirAppend(a: seq<Byte>, b: seq<Byte>, inverted: bool)
    ensures OnAir(a + b, inverted) == OnAir(a, inverted) + OnAir(b, inverted)
  {
    OctetsAppend(a, b);
    CorrectedAppend(Octets(a), Octets(b), inverted);
  }

  /** Framing is complete and blind to polarity: from any hunting state, whatever polarity was
      stored, a valid transmission sent upright or complemented gives its one message, and the
      framer hunts again. */
  lemma TransmissionIsHeard(f: Fields, inverted: bool, block: seq<Byte>, crc: seq<Byte>)
    requires Usable(f) && f.state.Hunt? && f.bitsToByte == 1 && JunctionClear(f, inverted)
    requires ValidBlock(block, crc)
    ensures Run(f, OnAir(HEADER + block + crc, inverted))
         == (Fields(crc[1], inverted, Hunt, 1, [], crc, 0), [Parse(block)])
  {
    hide Run, OnAir, Parse, AllOdd, Ccitt, JunctionClear;
    var rest := [SYN, SOH] + (block + crc);
    assert HEADER + block + crc == [SYN] + rest;
    OnAirAppend([SYN], rest, inverted);
    LocksOn(f, inverted);
    RunAppend(f, OnAir([SYN], inverted), OnAir(rest, inverted));
    ReadsTransmission(Run(f, OnAir([SYN], inverted)).0, block, crc);
    assert [] + [Parse(block)] == [Parse(block)];
  }

  /** A transmitter that appends the CRC of a well-formed block is always heard. */
  lemma SentBlockIsValid(block: seq<Byte>)
    requires 13 <= |block| <= 241 && OneTerminator(block) && AllOdd(block)
    ensures ValidBlock(block, LittleEndian(Ccitt(block)))
  {
    CheckOctetsLeaveNoResidue(block);
  }

  // ---- The junction condition is exact ----

  /** What a framer one bit early reads across the first two SYNs. */
  const SLIPPED: Byte := 0x0B
  const SYN_MIDDLE: Bits := [true, true, false, true, false, false]

  lemma {:induction false} HeaderBits()
    ensures Octets(HEADER) == OctetBits(SYN) + (OctetBits(SYN) + OctetBits(SOH))
  {
    hide OctetBits;
    assert HEADER == [SYN] + ([SYN] + [SOH]);
    OctetsAppend([SYN], [SYN] + [SOH]);
    OctetsAppend([SYN], [SOH]);
    assert Octets([SYN]) == OctetBits(SYN) + Octets([]) == OctetBits(SYN);
    assert Octets([SOH]) == OctetBits(SOH) + Octets([]) == OctetBits(SOH);
  }

  lemma SlippedHeader(inverted: bool)
    ensures OnAir(HEADER, inverted)
         == [inverted] + (Corrected(OctetBits(SLIPPED), inverted)
                          + (Corrected(SYN_MIDDLE, inverted) + ([inverted] + Corrected(OctetBits(SOH), inverted))))
  {
    HeaderBits();
    assert OctetBits(SYN) == [false, true, true, false, true, false, false, false];
    assert OctetBits(SLIPPED) == [true, true, false, true, false, false, false, false];
    hide OctetBits, Octets;
  }

  lemma MiddleIsClear()
    ensures NoSyn(SLIPPED, SYN_MIDDLE) && ShiftIn(Window(SLIPPED, SYN_MIDDLE), false) == SYN
  {
    var b := SYN_MIDDLE;
    var r1 := ShiftIn(SLIPPED, true);
    var r2 := ShiftIn(r1, true);
    var r3 := ShiftIn(r2, false);
    var r4 := ShiftIn(r3, true);
    var r5 := ShiftIn(r4, false);
    var r6 := ShiftIn(r5, false);
    assert !SynEither(r1) && !SynEither(r2) && !SynEither(r3) && !SynEither(r4) && !SynEither(r5) && !SynEither(r6);
    assert ShiftIn(r6, false) == SYN;
    hide ShiftIn, SynEither;
    WindowSteps(r5, b[5..]);
    WindowSteps(r4, b[4..]);
    WindowSteps(r3, b[3..]);
    WindowSteps(r2, b[2..]);
    WindowSteps(r1, b[1..]);
    WindowSteps(SLIPPED, b);
    assert b[5..][1..] == [] && b[4..][1..] == b[5..] && b[3..][1..] == b[4..];
    assert b[2..][1..] == b[3..] && b[1..][1..] == b[2..];
  }

  /** One bit early, the framer throws the slipped octet away, takes the second SYN for the first
      and then finds SOH where a SYN should be. */
  lemma SlippedRun(f: Fields)
    requires Usable(f) && f.state.Sync2? && f.bitsToByte == 8
    ensures var raw := Corrected(OctetBits(SLIPPED), f.inverted)
                       + (Corrected(SYN_MIDDLE, f.inverted) + ([f.inverted] + Corrected(OctetBits(SOH), f.inverted)));
            Run(f, raw).0.state.Hunt? && Run(f, raw).1 == []
  {
    hide OctetBits, Corrected, Run, Window, NoSyn, ShiftIn;
    var inv := f.inverted;
    var a, b, d := Corrected(OctetBits(SLIPPED), inv), Corrected(SYN_MIDDLE, inv), Corrected(OctetBits(SOH), inv);
    ReadsOctet(f, SLIPPED);
    var f1 := Restarted(f.(reg := SLIPPED));
    assert Run(f, a) == (f1, []);
    MiddleIsClear();
    HuntsPast(f1, SYN_MIDDLE);
    var f2 := f1.(reg := Window(SLIPPED, SYN_MIDDLE));
    OneBit(f2, inv);
    var f3 := f2.(reg := SYN, state := Sync2, bitsToByte := 8);
    assert Run(f2, [inv]) == (f3, []);
    ReadsOctet(f3, SOH);
    RunAppend(f2, [inv], d);
    RunAppend(f1, b, [inv] + d);
    RunAppend(f, a, b + ([inv] + d));
    var none: seq<Message> := [];
    assert none + none == none;
  }

  /** SYN SYN SOH opens a block exactly when the junction is clear; nothing is emitted either way. */
  lemma HeaderOpensBlock(f: Fields, inverted: bool)
    requires Usable(f) && f.state.Hunt? && f.bitsToByte == 1
    ensures Run(f, OnAir(HEADER, inverted)).0.state.Text? <==> JunctionClear(f, inverted)
    ensures Run(f, OnAir(HEADER, inverted)).1 == []
  {
    if JunctionClear(f, inverted) {
      hide Run, OnAir, JunctionClear, OctetBits;
      LocksOn(f, inverted);
      var g := Run(f, OnAir([SYN], inverted)).0;
      ReadsHeader(g, []);
      assert [SYN, SOH] + [] == [SYN, SOH] && HEADER == [SYN] + [SYN, SOH];
      RunIsAct(g, [SYN, SOH]);
      OnAirAppend([SYN], [SYN, SOH], inverted);
      RunAppend(f, OnAir([SYN], inverted), OnAir([SYN, SOH], inverted));
      var none: seq<Message> := [];
      assert none + none == none;
    } else {
      OneBit(f, inverted);
      var g := Pushed(f, inverted).0;
      assert g == f.(reg := g.reg, inverted := inverted, state := Sync2, bitsToByte := 8)
             && Pushed(f, inverted).1 == None;
      hide Run, OnAir, JunctionClear, Pushed, OctetBits, Corrected;
      SlippedHeader(inverted);
      SlippedRun(g);
      var rest := Corrected(OctetBits(SLIPPED), inverted)
                  + (Corrected(SYN_MIDDLE, inverted) + ([inverted] + Corrected(OctetBits(SOH), inverted)));
      RunAppend(f, [inverted], rest);
      var none: seq<Message> := [];
      assert none + none == none;
    }
  }

  /** Reachable, and deaf to the next header: these eight bits leave a register one shift from SYN. */
  lemma HeaderIsMissed()
    ensures var f := Run(NEW, OctetBits(0x2C)).0;
            && f == Fields(0x2C, false, Hunt, 1, [], [0, 0], 0)
            && !Run(f, OnAir(HEADER, false)).0.state.Text?
  {
    PassesThrough();
    var f := Fields(0x2C, false, Hunt, 1, [], [0, 0], 0);
    assert ShiftIn(f.reg, false) == SYN;
    hide Run;
    HeaderOpensBlock(f, false);
  }

  function Hunting(reg: Byte): Fields {
    Fields(reg, false, Hunt, 1, [], [0, 0], 0)
  }

  lemma HuntsOn(reg: Byte, bit: bool, rest: Bits)
    requires ShiftIn(reg, bit) != SYN && ShiftIn(reg, bit) != SYN_INVERTED
    ensures Run(Hunting(reg), [bit] + rest).0 == Run(Hunting(ShiftIn(reg, bit)), rest).0
  {
    assert ([bit] + rest)[1..] == rest;
    hide ShiftIn;
  }

  lemma {:induction false} PassesThrough()
    ensures Run(NEW, OctetBits(0x2C)).0 == Hunting(0x2C)
  {
    var o, i := false, true;
    assert OctetBits(0x2C) == [o] + ([o] + ([i] + ([i] + ([o] + ([i] + ([o] + ([o] + [])))))));
    assert ShiftIn(0x00, o) == 0x00 && ShiftIn(0x00, i) == 0x80 && ShiftIn(0x80, i) == 0xC0;
    assert ShiftIn(0xC0, o) == 0x60 && ShiftIn(0x60, i) == 0xB0 && ShiftIn(0xB0, o) == 0x58 && ShiftIn(0x58, o) == 0x2C;
    hide OctetBits, ShiftIn;
    HuntsOn(0x00, o, [o] + ([i] + ([i] + ([o] + ([i] + ([o] + ([o] + [])))))));
    HuntsOn(0x00, o, [i] + ([i] + ([o] + ([i] + ([o] + ([o] + []))))));
    HuntsOn(0x00, i, [i] + ([o] + ([i] + ([o] + ([o] + [])))));
    HuntsOn(0x80, i, [o] + ([i] + ([o] + ([o] + []))));
    HuntsOn(0xC0, o, [i] + ([o] + ([o] + [])));
    HuntsOn(0x60, i, [o] + ([o] + []));
    HuntsOn(0xB0, o, [o] + []);
    HuntsOn(0x58, o, []);
    assert Run(Hunting(0x2C), []).0 == Hunting(0x2C);
  }
}
