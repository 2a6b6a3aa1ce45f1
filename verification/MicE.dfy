/** Mic-E position reports (chapter 10 of APRS Protocol Reference 1.0.1): the encoder and decoder of
    `aprs.rs`. Characters are their codes, and decoded angles are whole hundredths of a minute. */
module MicE {
  import opened Wrappers
  import opened Products

  const OFFSET: nat := 28
  const CURRENT: nat := 0x60
  const OLD: nat := 0x27
  const CURRENT_BETA: nat := 0x1C
  const OLD_BETA: nat := 0x1D
  const FIELD_LEN: nat := 8

  datatype Bit = Zero | Standard | Custom

  // ---- Encoding ----

  datatype Position = Position(lat: real, lon: real, speed: nat, course: nat, table: nat, code: nat,
                               bits: seq<Bit>, ambiguity: nat, status: seq<nat>)

  ghost predicate Sendable(p: Position) {
    && -90.0 <= p.lat <= 90.0 && -180.0 < p.lon < 180.0 && p.speed <= 799 && p.course <= 360
    && |p.bits| == 3 && p.ambiguity <= 4 && Graphic(p.table) && Graphic(p.code)
  }

  predicate Graphic(c: nat) {
    33 <= c <= 126
  }

  /** Whole hundredths of a minute, 6000 of them to the degree. */
  function Angle(degrees: nat, minutes: nat, hundredths: nat): nat {
    degrees * 6000 + minutes * 100 + hundredths
  }

  /** An angle rounded to hundredths of a minute, its sign dropped. */
  function Hundredths(degrees: real): (total: nat)
    ensures Abs(degrees) <= 90.0 ==> total <= 90 * 6000
  {
    (Abs(degrees) * 6000.0 + 0.5).Floor
  }

  /** Whole degrees, by truncation. */
  function WholeDegrees(degrees: real): (whole: nat)
    ensures whole as real <= Abs(degrees)
  {
    Abs(degrees).Floor
  }

  function Minutes(total: nat): (minutes: nat)
    ensures minutes < 60
  {
    total / 100 % 60
  }

  function Digit(total: nat, i: nat): (d: nat)
    requires i < 6
    ensures d <= 9
  {
    match i
    case 0 => total / 6000 / 10 % 10
    case 1 => total / 6000 % 10
    case 2 => Minutes(total) / 10
    case 3 => Minutes(total) % 10
    case 4 => total % 100 / 10
    case _ => total % 100 % 10
  }

  function Indicator(on: bool): Bit {
    if on then Standard else Zero
  }

  function EncodeChar(digit: nat, bit: Bit, ambiguous: bool): nat {
    match bit
    case Zero => if ambiguous then 'L' as nat else '0' as nat + digit
    case Standard => if ambiguous then 'Z' as nat else 'P' as nat + digit
    case Custom => if ambiguous then 'K' as nat else 'A' as nat + digit
  }

  function Carried(p: Position, i: nat): Bit
    requires |p.bits| == 3 && i < 6
  {
    if i < 3 then p.bits[i]
    else if i == 3 then Indicator(p.lat >= 0.0)
    else if i == 4 then Indicator(!(10 <= WholeDegrees(p.lon) < 100))
    else Indicator(p.lon < 0.0)
  }

  function Destination(p: Position): (chars: seq<nat>)
    requires |p.bits| == 3
    ensures |chars| == 6
  {
    seq(6, i requires 0 <= i < 6 => EncodeChar(Digit(Hundredths(p.lat), i), Carried(p, i), i + p.ambiguity >= 6))
  }

  function DegreesCode(degrees: nat): nat {
    var raw := if degrees <= 9 then degrees + 90
               else if degrees <= 99 then degrees
               else if degrees <= 109 then degrees - 20
               else degrees - 100;
    if raw + OFFSET < 127 then raw + OFFSET else 127
  }

  function MinutesCode(minutes: nat): nat {
    (if minutes < 10 then minutes + 60 else minutes) + OFFSET
  }

  function SpeedCourseCodes(speed: nat, course: nat): (codes: seq<nat>)
    ensures |codes| == 3
  {
    var s := if speed < 799 then speed else 799;
    var c := if course < 360 then course else 360;
    var tens := s / 10;
    [(if tens < 20 then tens + 80 else tens) + OFFSET, s % 10 * 10 + c / 100 + 4 + OFFSET, c % 100 + OFFSET]
  }

  function Info(p: Position): (info: seq<nat>)
    ensures |info| > FIELD_LEN
  {
    var total := Hundredths(p.lon);
    [CURRENT, DegreesCode(WholeDegrees(p.lon)), MinutesCode(Minutes(total)), total % 100 + OFFSET]
    + SpeedCourseCodes(p.speed, p.course) + [p.code, p.table] + p.status
  }

  // ---- Decoding ----

  datatype Message = Emergency | Priority | Special | Committed | Returning | InService | EnRoute | OffDuty
                   | CustomMessage(number: nat)

  datatype DestinationField = DestinationField(lat: nat, north: bool, lonOffset: bool, west: bool, ambiguity: nat,
                                               message: Option<Message>)

  datatype Report = Report(lat: int, lon: int, speed: nat, course: Option<nat>, table: nat, code: nat,
                           message: Option<Message>)

  /** A destination character: its digit unless blanked, its message bit, its indicator. */
  datatype Char = Char(digit: Option<nat>, bit: Bit, indicator: bool)

  function DecodeChar(c: nat): Option<Char> {
    if '0' as nat <= c <= '9' as nat then Some(Char(Some(c - '0' as nat), Zero, false))
    else if 'A' as nat <= c <= 'J' as nat then Some(Char(Some(c - 'A' as nat), Custom, false))
    else if c == 'K' as nat then Some(Char(None, Custom, false))
    else if c == 'L' as nat then Some(Char(None, Zero, false))
    else if 'P' as nat <= c <= 'Y' as nat then Some(Char(Some(c - 'P' as nat), Standard, true))
    else if c == 'Z' as nat then Some(Char(None, Standard, true))
    else None
  }

  /** Digits, bits and indicators read so far, and how many digits were blanked. */
  datatype Read = Read(digits: seq<nat>, bits: seq<Bit>, indicators: seq<bool>, ambiguity: nat)

  /** The next character: message bits come first, then indicators, and no digit may follow a blank. */
  function ReadChar(before: Read, next: nat): Option<Read> {
    var c :- DecodeChar(next);
    if c.digit.Some? && before.ambiguity > 0 then None
    else if |before.digits| >= 3 && c.bit == Custom then None
    else
      Some(Read(before.digits + [if c.digit.Some? then c.digit.value else 0],
                if |before.digits| < 3 then before.bits + [c.bit] else before.bits,
                if |before.digits| < 3 then before.indicators else before.indicators + [c.indicator],
                if c.digit.Some? then before.ambiguity else before.ambiguity + 1))
  }

  function ReadChars(chars: seq<nat>, i: nat): (r: Option<Read>)
    requires i <= |chars|
    ensures r.Some? ==> |r.value.digits| == i && |r.value.bits| + |r.value.indicators| == i
    ensures r.Some? ==> |r.value.bits| == if i < 3 then i else 3
    decreases i
  {
    if i == 0 then Some(Read([], [], [], 0)) else
    var before :- ReadChars(chars, i - 1);
    ReadChar(before, chars[i - 1])
  }

  function BitValue(b: Bit): nat {
    if b == Zero then 0 else 1
  }

  /** The standard messages, from 1. */
  function StandardName(code: nat): Option<Message> {
    match code
    case 1 => Some(Priority)
    case 2 => Some(Special)
    case 3 => Some(Committed)
    case 4 => Some(Returning)
    case 5 => Some(InService)
    case 6 => Some(EnRoute)
    case 7 => Some(OffDuty)
    case _ => None
  }

  function MessageType(bits: seq<Bit>): Option<Message>
    requires |bits| == 3
  {
    var code := 4 * BitValue(bits[0]) + 2 * BitValue(bits[1]) + BitValue(bits[2]);
    if code == 0 then Some(Emergency)
    else if Custom !in bits then StandardName(code)
    else if Standard !in bits then Some(CustomMessage(7 - code))
    else None
  }

  function DecodeDestination(chars: seq<nat>): Option<DestinationField> {
    if |chars| != 6 then None else
    var r :- ReadChars(chars, 6);
    var degrees, minutes := 10 * r.digits[0] + r.digits[1], 10 * r.digits[2] + r.digits[3];
    if degrees > 90 || minutes >= 60 then None
    else Some(DestinationField(Angle(degrees, minutes, 10 * r.digits[4] + r.digits[5]),
                               r.indicators[0], r.indicators[1], r.indicators[2], r.ambiguity, MessageType(r.bits)))
  }

  lemma {:induction false} ReadStops(chars: seq<nat>, i: nat, n: nat)
    requires i <= n <= |chars| && ReadChars(chars, i).None?
    ensures ReadChars(chars, n).None?
    decreases n - i
  {
    if i < n {
      ReadStops(chars, i + 1, n);
    }
  }

  method ReadAllChars(chars: seq<nat>) returns (read: Option<Read>)
    ensures read == ReadChars(chars, |chars|)
  {
    hide DecodeChar;
    var digits: seq<nat>, bits: seq<Bit>, indicators: seq<bool> := [], [], [];
    var ambiguity := 0;
    for i := 0 to |chars|
      invariant |digits| == i && ReadChars(chars, i) == Some(Read(digits, bits, indicators, ambiguity))
    {
      assert ReadChars(chars, i + 1) == ReadChar(Read(digits, bits, indicators, ambiguity), chars[i]);
      if ReadChars(chars, i + 1).None? {
        ReadStops(chars, i + 1, |chars|);
      }
      hide ReadChars;
      var c := DecodeChar(chars[i]);
      if c.None? || (c.value.digit.Some? && ambiguity > 0) || (i >= 3 && c.value.bit == Custom) {
        return None;
      }
      digits := digits + [if c.value.digit.Some? then c.value.digit.value else 0];
      if i < 3 {
        bits := bits + [c.value.bit];
      } else {
        indicators := indicators + [c.value.indicator];
      }
      ambiguity := if c.value.digit.Some? then ambiguity else ambiguity + 1;
    }
    read := Some(Read(digits, bits, indicators, ambiguity));
  }

  method ReadDestination(chars: seq<nat>) returns (d: Option<DestinationField>)
    ensures d == DecodeDestination(chars)
  {
    hide ReadChars, MessageType, Angle;
    if |chars| != 6 {
      return None;
    }
    var read := ReadAllChars(chars);
    if read.None? {
      return None;
    }
    var r := read.value;
    var degrees, minutes := 10 * r.digits[0] + r.digits[1], 10 * r.digits[2] + r.digits[3];
    if degrees > 90 || minutes >= 60 {
      return None;
    }
    d := Some(DestinationField(Angle(degrees, minutes, 10 * r.digits[4] + r.digits[5]),
                               r.indicators[0], r.indicators[1], r.indicators[2], r.ambiguity, MessageType(r.bits)));
  }

  function LongitudeDegrees(raw: nat, offset: bool): Option<nat> {
    if !(10 <= raw <= 99) then None else
    var degrees := if offset then raw + 100 else raw;
    Some(if 180 <= degrees <= 189 then degrees - 80 else if 190 <= degrees <= 199 then degrees - 190 else degrees)
  }

  /** Speed and course; a course of zero is absent and 360 is north. */
  function SpeedCourse(sp: nat, dc: nat, se: nat): Option<(nat, Option<nat>)> {
    if sp > 99 || dc > 99 || se > 99 then None else
    var speed, course := sp * 10 + dc / 10, dc % 10 * 100 + se;
    var s, c := if speed >= 800 then speed - 800 else speed, if course >= 400 then course - 400 else course;
    if c > 360 then None else Some((s, if c == 0 then None else Some(c % 360)))
  }

  function Blank(minutes: nat, hundredths: nat, ambiguity: nat): (nat, nat) {
    (if ambiguity >= 4 then 0 else if ambiguity >= 3 then minutes - minutes % 10 else minutes,
     if ambiguity >= 2 then 0 else if ambiguity >= 1 then hundredths - hundredths % 10 else hundredths)
  }

  function Offset(c: nat): Option<nat> {
    if c < OFFSET then None else Some(c - OFFSET)
  }

  function Signed(magnitude: int, negative: bool): int {
    if negative then -magnitude else magnitude
  }

  function DecodeReport(d: DestinationField, body: seq<nat>): Option<Report> {
    if |body| < FIELD_LEN then None else
    var coded :- Offset(body[1]);
    if !(10 <= coded <= 69) then None else
    var hundredths :- Offset(body[2]);
    if hundredths > 99 then None else
    var raw :- Offset(body[0]);
    var degrees :- LongitudeDegrees(raw, d.lonOffset);
    var (m, h) := Blank(if coded >= 60 then coded - 60 else coded, hundredths, d.ambiguity);
    var sp :- Offset(body[3]);
    var dc :- Offset(body[4]);
    var se :- Offset(body[5]);
    var (speed, course) :- SpeedCourse(sp, dc, se);
    if !Graphic(body[7]) || !Graphic(body[6]) then None else
    var lon := Angle(degrees, m, h);
    Some(Report(Signed(d.lat, !d.north), Signed(lon, d.west), speed, course, body[7], body[6], d.message))
  }

  function Decode(destination: seq<nat>, info: seq<nat>): Option<Report> {
    if info == [] || info[0] !in {CURRENT, OLD, CURRENT_BETA, OLD_BETA} then None else
    var d :- DecodeDestination(destination);
    DecodeReport(d, info[1..])
  }

  // ---- Messages ----

  /** Table 10 of the protocol, bits A, B and C: standard and custom messages, and nothing for a mixture. */
  function MessageTable(a: Bit, b: Bit, c: Bit): Option<Message> {
    match (a, b, c)
    case (Zero, Zero, Zero) => Some(Emergency)
    case (Zero, Zero, Standard) => Some(Priority)
    case (Zero, Standard, Zero) => Some(Special)
    case (Zero, Standard, Standard) => Some(Committed)
    case (Standard, Zero, Zero) => Some(Returning)
    case (Standard, Zero, Standard) => Some(InService)
    case (Standard, Standard, Zero) => Some(EnRoute)
    case (Standard, Standard, Standard) => Some(OffDuty)
    case (Zero, Zero, Custom) => Some(CustomMessage(6))
    case (Zero, Custom, Zero) => Some(CustomMessage(5))
    case (Zero, Custom, Custom) => Some(CustomMessage(4))
    case (Custom, Zero, Zero) => Some(CustomMessage(3))
    case (Custom, Zero, Custom) => Some(CustomMessage(2))
    case (Custom, Custom, Zero) => Some(CustomMessage(1))
    case (Custom, Custom, Custom) => Some(CustomMessage(0))
    case _ => None
  }

  lemma MessageIsTable(bits: seq<Bit>)
    requires |bits| == 3
    ensures MessageType(bits) == MessageTable(bits[0], bits[1], bits[2])
  {
    assert bits == [bits[0], bits[1], bits[2]];
  }

  /** The bits a station sets for a message. */
  function BitsOf(message: Message): (bits: seq<Bit>)
    requires message.CustomMessage? ==> message.number <= 6
    ensures |bits| == 3
  {
    match message
    case Emergency => [Zero, Zero, Zero]
    case Priority => [Zero, Zero, Standard]
    case Special => [Zero, Standard, Zero]
    case Committed => [Zero, Standard, Standard]
    case Returning => [Standard, Zero, Zero]
    case InService => [Standard, Zero, Standard]
    case EnRoute => [Standard, Standard, Zero]
    case OffDuty => [Standard, Standard, Standard]
    case CustomMessage(n) =>
      [if n <= 3 then Custom else Zero, if n == 0 || n == 1 || n == 4 || n == 5 then Custom else Zero,
       if n % 2 == 0 then Custom else Zero]
  }

  lemma MessageComesBack(message: Message)
    requires message.CustomMessage? ==> message.number <= 6
    ensures MessageType(BitsOf(message)) == Some(message)
  {
    MessageIsTable(BitsOf(message));
    hide MessageType;
  }

  /** The bit a destination character carries: digits and L none, P to Z a standard one, A to K a custom one. */
  function BitOfChar(c: nat): Bit {
    if 'P' as nat <= c <= 'Z' as nat then Standard else if 'A' as nat <= c <= 'K' as nat then Custom else Zero
  }

  /** The message of any destination that is read is that of the bits its first three characters carry. */
  lemma {:induction false} DestinationMessage(chars: seq<nat>)
    requires DecodeDestination(chars).Some?
    ensures |chars| == 6
    ensures DecodeDestination(chars).value.message
         == MessageTable(BitOfChar(chars[0]), BitOfChar(chars[1]), BitOfChar(chars[2]))
  {
    hide DecodeChar, MessageType, ReadChar, MessageTable, BitOfChar;
    var r := ReadChars(chars, 6).value;
    BitsRead(chars, 6);
    MessageIsTable(r.bits);
  }

  lemma {:induction false} BitsRead(chars: seq<nat>, i: nat)
    requires i <= |chars| && ReadChars(chars, i).Some?
    ensures forall k :: 0 <= k < i && k < 3 ==> ReadChars(chars, i).value.bits[k] == BitOfChar(chars[k])
    decreases i
  {
    if i > 0 {
      BitsRead(chars, i - 1);
      var before := ReadChars(chars, i - 1).value;
      assert ReadChars(chars, i) == ReadChar(before, chars[i - 1]);
      CharBit(chars[i - 1]);
      hide ReadChars, DecodeChar, BitOfChar;
    }
  }

  lemma CharBit(c: nat)
    requires DecodeChar(c).Some?
    ensures DecodeChar(c).value.bit == BitOfChar(c)
  {}

  // ---- Round trip ----

  /** A coordinate with its last `ambiguity` digits blanked. */
  function Blanked(total: nat, ambiguity: nat): nat {
    var (m, h) := Blank(Minutes(total), total % 100, ambiguity);
    Angle(total / 6000, m, h)
  }

  lemma CharComesBack(digit: nat, bit: Bit, ambiguous: bool)
    requires digit <= 9
    ensures DecodeChar(EncodeChar(digit, bit, ambiguous))
         == Some(Char(if ambiguous then None else Some(digit), bit, bit == Standard))
  {}

  /** The digits a receiver puts together, the blanked ones as zero. */
  ghost function Shown(p: Position, i: nat): nat
    requires i < 6
  {
    if i + p.ambiguity >= 6 then 0 else Digit(Hundredths(p.lat), i)
  }

  ghost function ShownDigits(p: Position, i: nat): seq<nat>
    requires i <= 6
  {
    seq(i, k requires 0 <= k < i => Shown(p, k))
  }

  ghost function ShownIndicators(p: Position, i: nat): seq<bool>
    requires |p.bits| == 3 && i <= 6
  {
    seq(if i < 3 then 0 else i - 3, k requires 0 <= k && k + 3 < i => Carried(p, k + 3) == Standard)
  }

  ghost function ShownTo(p: Position, i: nat): Read
    requires |p.bits| == 3 && i <= 6
  {
    Read(ShownDigits(p, i), p.bits[..if i < 3 then i else 3], ShownIndicators(p, i),
         if i + p.ambiguity <= 6 then 0 else i + p.ambiguity - 6)
  }

  lemma {:induction false} ShownGrows(p: Position, i: nat)
    requires |p.bits| == 3 && p.ambiguity <= 4 && i < 6
    ensures ShownDigits(p, i + 1) == ShownDigits(p, i) + [Shown(p, i)]
    ensures i < 3 ==> p.bits[..i + 1] == p.bits[..i] + [p.bits[i]]
    ensures i < 3 ==> ShownIndicators(p, i) == ShownIndicators(p, i + 1) == []
    ensures i >= 3 ==> ShownIndicators(p, i + 1) == ShownIndicators(p, i) + [Carried(p, i) == Standard]
  {
    hide Shown, Carried;
  }

  lemma {:induction false} SentChar(p: Position, i: nat)
    requires |p.bits| == 3 && p.ambiguity <= 4 && i < 6
    ensures DecodeChar(Destination(p)[i])
         == Some(Char(if i + p.ambiguity >= 6 then None else Some(Shown(p, i)), Carried(p, i), Carried(p, i) == Standard))
    ensures i + p.ambiguity >= 6 ==> Shown(p, i) == 0
    ensures i < 3 ==> Carried(p, i) == p.bits[i]
    ensures i >= 3 ==> Carried(p, i) != Custom
  {
    CharComesBack(Digit(Hundredths(p.lat), i), Carried(p, i), i + p.ambiguity >= 6);
    hide DecodeChar, EncodeChar, Digit, Hundredths, WholeDegrees;
  }

  lemma {:induction false} SentCharIsRead(p: Position, i: nat)
    requires |p.bits| == 3 && p.ambiguity <= 4 && i < 6
    ensures ReadChar(ShownTo(p, i), Destination(p)[i]) == Some(ShownTo(p, i + 1))
  {
    assert |ShownDigits(p, i)| == i;
    hide DecodeChar, ShownDigits, ShownIndicators, Carried, Destination, Shown;
    ShownGrows(p, i);
    SentChar(p, i);
  }

  lemma {:induction false} CharsComeBack(p: Position, i: nat)
    requires |p.bits| == 3 && p.ambiguity <= 4 && i <= 6
    ensures ReadChars(Destination(p), i) == Some(ShownTo(p, i))
    decreases i
  {
    if i == 0 {
      assert ShownDigits(p, 0) == [] && ShownIndicators(p, 0) == [] && p.bits[..0] == [];
    } else {
      hide ShownTo, Destination, ReadChar;
      CharsComeBack(p, i - 1);
      SentCharIsRead(p, i - 1);
    }
  }

  lemma TensAndUnits(n: nat)
    requires n < 100
    ensures n - n % 10 == 10 * (n / 10) && 10 * (n / 10) + n % 10 == n
  {}

  /** The digits of a total, put back together without the blanked ones. */
  lemma {:induction false} DigitsAddUp(p: Position)
    requires |p.bits| == 3 && Hundredths(p.lat) <= 90 * 6000 && p.ambiguity <= 4
    ensures var total := Hundredths(p.lat);
            && 10 * Shown(p, 0) + Shown(p, 1) <= 90
            && 10 * Shown(p, 2) + Shown(p, 3) < 60
            && Angle(10 * Shown(p, 0) + Shown(p, 1), 10 * Shown(p, 2) + Shown(p, 3), 10 * Shown(p, 4) + Shown(p, 5))
               == Blanked(total, p.ambiguity)
  {
    var total := Hundredths(p.lat);
    hide Hundredths;
    assert total / 6000 <= 90;
    TensAndUnits(total / 6000);
    TensAndUnits(Minutes(total));
    TensAndUnits(total % 100);
    hide Minutes, Angle;
    var (m, h) := Blank(Minutes(total), total % 100, p.ambiguity);
    assert 10 * Shown(p, 0) + Shown(p, 1) == total / 6000;
    assert 10 * Shown(p, 2) + Shown(p, 3) == m && 10 * Shown(p, 4) + Shown(p, 5) == h;
  }

  lemma {:induction false} AllShown(p: Position)
    requires |p.bits| == 3
    ensures var r := ShownTo(p, 6);
            && |r.digits| == 6 && (forall i | 0 <= i < 6 :: r.digits[i] == Shown(p, i))
            && |r.indicators| == 3 && r.indicators[0] == (p.lat >= 0.0)
            && r.indicators[1] == !(10 <= WholeDegrees(p.lon) < 100) && r.indicators[2] == (p.lon < 0.0)
            && r.bits == p.bits && r.ambiguity == p.ambiguity
  {
    hide Shown, WholeDegrees;
    assert p.bits[..3] == p.bits;
  }

  lemma {:induction false} ReadsDestination(chars: seq<nat>, r: Read)
    requires |chars| == 6 && ReadChars(chars, 6) == Some(r)
    requires 10 * r.digits[0] + r.digits[1] <= 90 && 10 * r.digits[2] + r.digits[3] < 60
    ensures DecodeDestination(chars) == Some(DestinationField(
              Angle(10 * r.digits[0] + r.digits[1], 10 * r.digits[2] + r.digits[3], 10 * r.digits[4] + r.digits[5]),
              r.indicators[0], r.indicators[1], r.indicators[2], r.ambiguity, MessageType(r.bits)))
  {
    hide ReadChars, MessageType, Angle;
  }

  lemma {:induction false} DestinationComesBack(p: Position)
    requires |p.bits| == 3 && p.ambiguity <= 4 && Abs(p.lat) <= 90.0
    ensures DecodeDestination(Destination(p)) == Some(DestinationField(
              Blanked(Hundredths(p.lat), p.ambiguity), p.lat >= 0.0, !(10 <= WholeDegrees(p.lon) < 100),
              p.lon < 0.0, p.ambiguity, MessageTable(p.bits[0], p.bits[1], p.bits[2])))
  {
    hide Hundredths, Minutes, ReadChars, Destination, WholeDegrees, MessageType, MessageTable, Blank, Shown, ShownTo,
         DecodeDestination,
         Blanked, Abs, Angle;
    MessageIsTable(p.bits);
    CharsComeBack(p, 6);
    AllShown(p);
    DigitsAddUp(p);
    var chars, r := Destination(p), ShownTo(p, 6);
    assert r.digits[0] == Shown(p, 0) && r.digits[1] == Shown(p, 1) && r.digits[2] == Shown(p, 2);
    assert r.digits[3] == Shown(p, 3) && r.digits[4] == Shown(p, 4) && r.digits[5] == Shown(p, 5);
    ReadsDestination(chars, r);
  }

  /** Rounding to hundredths of a minute reaches the next whole degree, which truncation does not. */
  predicate Carries(degrees: real) {
    (Abs(degrees) - Abs(degrees).Floor as real) * 6000.0 >= 5999.5
  }

  lemma CarryIsOneDegree(degrees: real)
    ensures !Carries(degrees) ==> WholeDegrees(degrees) == Hundredths(degrees) / 6000
    ensures Carries(degrees) ==> Hundredths(degrees) == (WholeDegrees(degrees) + 1) * 6000
  {
    var whole := WholeDegrees(degrees);
    var part := (Abs(degrees) - whole as real) * 6000.0;
    assert Abs(degrees) * 6000.0 + 0.5 == (whole * 6000) as real + (part + 0.5);
    assert Hundredths(degrees) == whole * 6000 + (part + 0.5).Floor;
  }

  lemma LongitudeDegreesComeBack(degrees: nat)
    requires degrees < 180
    ensures OFFSET <= DegreesCode(degrees)
    ensures LongitudeDegrees(DegreesCode(degrees) - OFFSET, !(10 <= degrees < 100)) == Some(degrees)
  {}

  lemma SpeedCourseComesBack(speed: nat, course: nat)
    requires speed <= 799 && course <= 360
    ensures var codes := SpeedCourseCodes(speed, course);
            && (forall i | 0 <= i < 3 :: codes[i] >= OFFSET)
            && SpeedCourse(codes[0] - OFFSET, codes[1] - OFFSET, codes[2] - OFFSET)
               == Some((speed, if course == 0 then None else Some(course % 360)))
  {
    var units, hundreds := speed % 10, course / 100;
    assert (units * 10 + hundreds + 4) / 10 == units && (units * 10 + hundreds + 4) % 10 == hundreds + 4;
  }

  lemma {:induction false} ReadsBody(d: DestinationField, body: seq<nat>)
    requires |body| >= FIELD_LEN && body[0] >= OFFSET && body[1] >= OFFSET && body[2] >= OFFSET
    requires body[3] >= OFFSET && body[4] >= OFFSET && body[5] >= OFFSET
    requires 10 <= body[1] - OFFSET <= 69 && body[2] - OFFSET <= 99 && Graphic(body[6]) && Graphic(body[7])
    requires LongitudeDegrees(body[0] - OFFSET, d.lonOffset).Some?
    requires SpeedCourse(body[3] - OFFSET, body[4] - OFFSET, body[5] - OFFSET).Some?
    ensures var degrees := LongitudeDegrees(body[0] - OFFSET, d.lonOffset).value;
            var (speed, course) := SpeedCourse(body[3] - OFFSET, body[4] - OFFSET, body[5] - OFFSET).value;
            var (m, h) := Blank((body[1] - OFFSET) % 60, body[2] - OFFSET, d.ambiguity);
            DecodeReport(d, body) == Some(Report(
              Signed(d.lat, !d.north), Signed(Angle(degrees, m, h), d.west),
              speed, course, body[7], body[6], d.message))
  {
    hide LongitudeDegrees, SpeedCourse, Blank, Signed, Angle;
    assert Offset(body[3]) == Some(body[3] - OFFSET);
    assert (body[1] - OFFSET) % 60 == if body[1] - OFFSET >= 60 then body[1] - OFFSET - 60 else body[1] - OFFSET;
  }

  lemma {:induction false} InfoCodes(p: Position)
    requires Sendable(p)
    ensures var total, body, codes := Hundredths(p.lon), Info(p)[1..], SpeedCourseCodes(p.speed, p.course);
            && |body| >= FIELD_LEN
            && body[0] == DegreesCode(WholeDegrees(p.lon)) && body[1] == MinutesCode(Minutes(total))
            && body[2] == total % 100 + OFFSET && body[6] == p.code && body[7] == p.table
            && body[3] == codes[0] && body[4] == codes[1] && body[5] == codes[2]
  {
    hide Hundredths, Minutes, WholeDegrees, SpeedCourseCodes, DegreesCode, MinutesCode;
  }

  lemma MinutesComeBack(minutes: nat)
    requires minutes < 60
    ensures 10 <= MinutesCode(minutes) - OFFSET <= 69 && (MinutesCode(minutes) - OFFSET) % 60 == minutes
  {}

  /** The fixed part of the information field is read back, whatever the destination said. */
  lemma {:induction false} ReportComesBack(p: Position, d: DestinationField)
    requires Sendable(p) && d.lonOffset == !(10 <= WholeDegrees(p.lon) < 100)
    ensures var total := Hundredths(p.lon);
            var (m, h) := Blank(Minutes(total), total % 100, d.ambiguity);
            DecodeReport(d, Info(p)[1..]) == Some(Report(
              Signed(d.lat, !d.north), Signed(Angle(WholeDegrees(p.lon), m, h), d.west),
              p.speed, if p.course == 0 then None else Some(p.course % 360), p.table, p.code, d.message))
  {
    hide Hundredths, WholeDegrees, SpeedCourse, SpeedCourseCodes, LongitudeDegrees, DegreesCode, Blank, Signed, Info,
         MinutesCode, DecodeReport, Minutes, Angle;
    var body := Info(p)[1..];
    InfoCodes(p);
    LongitudeDegreesComeBack(WholeDegrees(p.lon));
    MinutesComeBack(Minutes(Hundredths(p.lon)));
    SpeedCourseComesBack(p.speed, p.course);
    ReadsBody(d, body);
  }

  lemma InfoIsMarked(p: Position)
    ensures Info(p) != [] && Info(p)[0] == CURRENT
  {}

  lemma DecodesWhole(destination: seq<nat>, info: seq<nat>)
    requires DecodeDestination(destination).Some? && info != [] && info[0] == CURRENT
    ensures Decode(destination, info) == DecodeReport(DecodeDestination(destination).value, info[1..])
  {
    hide DecodeDestination, DecodeReport;
  }

  /** Degrees from truncation with minutes from rounding: a degree short on a carry, exact otherwise. */
  lemma {:induction false} CarryShifts(degrees: real, ambiguity: nat)
    ensures var total := Hundredths(degrees);
            var (m, h) := Blank(Minutes(total), total % 100, ambiguity);
            && (Carries(degrees) ==> Blanked(total, ambiguity) >= 6000)
            && Angle(WholeDegrees(degrees), m, h)
               == Blanked(total, ambiguity) - (if Carries(degrees) then 6000 else 0)
  {
    CarryIsOneDegree(degrees);
    hide Hundredths, WholeDegrees, Carries;
  }

  /** What a receiver makes of a report: everything as sent, the longitude a degree short on a carry. */
  function Reported(p: Position): Report
    requires |p.bits| == 3
  {
    Report(Signed(Blanked(Hundredths(p.lat), p.ambiguity), p.lat < 0.0),
           Signed(Blanked(Hundredths(p.lon), p.ambiguity) - (if Carries(p.lon) then 6000 else 0), p.lon < 0.0),
           p.speed, if p.course == 0 then None else Some(p.course % 360), p.table, p.code,
           MessageTable(p.bits[0], p.bits[1], p.bits[2]))
  }

  /** The report decoded is the one sent. */
  lemma {:induction false} RoundTrip(p: Position)
    requires Sendable(p)
    ensures Carries(p.lon) ==> Blanked(Hundredths(p.lon), p.ambiguity) >= 6000
    ensures Decode(Destination(p), Info(p)) == Some(Reported(p))
  {
    hide Hundredths, Blanked, WholeDegrees, Blank, Minutes, Signed, Destination, Info, MessageType, MessageTable, Carries,
         DecodeReport, DecodeDestination, Decode, Angle;
    DestinationComesBack(p);
    ReportComesBack(p, DecodeDestination(Destination(p)).value);
    InfoIsMarked(p);
    DecodesWhole(Destination(p), Info(p));
    CarryShifts(p.lon, p.ambiguity);
  }

  /** The message sent is the message read. */
  lemma {:induction false} MessageArrives(p: Position, message: Message)
    requires Sendable(p) && (message.CustomMessage? ==> message.number <= 6) && p.bits == BitsOf(message)
    ensures Decode(Destination(p), Info(p)).Some? && Decode(Destination(p), Info(p)).value.message == Some(message)
  {
    MessageComesBack(message);
    MessageIsTable(p.bits);
    hide Destination, Info, Decode, MessageType, MessageTable, BitsOf, Blanked, Hundredths, Carries;
    RoundTrip(p);
  }

  function Step(ambiguity: nat): (step: nat)
    ensures step > 0
  {
    if ambiguity == 0 then 1 else if ambiguity == 1 then 10 else if ambiguity == 2 then 100
    else if ambiguity == 3 then 1000 else 6000
  }

  lemma RemaindersOf(degrees: nat, minutes: nat, hundredths: nat)
    requires minutes < 60 && hundredths < 100
    ensures var total := Angle(degrees, minutes, hundredths);
            && total % 10 == hundredths % 10 && total % 100 == hundredths
            && total % 1000 == minutes % 10 * 100 + hundredths && total % 6000 == minutes * 100 + hundredths
  {
    var total := Angle(degrees, minutes, hundredths);
    assert minutes % 10 * 100 + hundredths < 1000;
    UniqueRemainder(total, 10, 600 * degrees + 10 * minutes + hundredths / 10, hundredths % 10);
    UniqueRemainder(total, 100, 60 * degrees + minutes, hundredths);
    UniqueRemainder(total, 1000, 6 * degrees + minutes / 10, minutes % 10 * 100 + hundredths);
    UniqueRemainder(total, 6000, degrees, minutes * 100 + hundredths);
  }

  lemma TotalIsAngle(total: nat)
    ensures total == Angle(total / 6000, Minutes(total), total % 100)
  {
    assert total / 100 / 60 == total / 6000;
  }

  /** Blanking rounds a coordinate down to a tenth of a minute, a minute, ten minutes or a degree. */
  lemma BlankedIsRoundedDown(total: nat, ambiguity: nat)
    ensures Blanked(total, ambiguity) == total - total % Step(ambiguity)
  {
    var degrees, minutes, hundredths := total / 6000, Minutes(total), total % 100;
    TotalIsAngle(total);
    RemaindersOf(degrees, minutes, hundredths);
    hide Minutes;
  }

  /** The position is the one sent, alike in both coordinates, exactly when the longitude does not carry. */
  lemma {:induction false} PositionIsExact(p: Position)
    requires Sendable(p)
    ensures var r := Decode(Destination(p), Info(p));
            && r.Some?
            && r.value.lat == Signed(Hundredths(p.lat) - Hundredths(p.lat) % Step(p.ambiguity), p.lat < 0.0)
            && (r.value.lon == Signed(Hundredths(p.lon) - Hundredths(p.lon) % Step(p.ambiguity), p.lon < 0.0)
                <==> !Carries(p.lon))
  {
    hide Hundredths, Blanked, Destination, Info, Decode, Carries, MessageTable, Step;
    RoundTrip(p);
    BlankedIsRoundedDown(Hundredths(p.lat), p.ambiguity);
    BlankedIsRoundedDown(Hundredths(p.lon), p.ambiguity);
  }

  ghost predicate OnGrid(degrees: real, k: int) {
    degrees == k as real / 6000.0
  }

  /** A position on whole hundredths of a minute comes back as itself when nothing is blanked. */
  lemma {:induction false} GridRoundTrip(p: Position, lat: int, lon: int)
    requires Sendable(p) && p.ambiguity == 0 && OnGrid(p.lat, lat) && OnGrid(p.lon, lon)
    ensures !Carries(p.lon)
    ensures Decode(Destination(p), Info(p)) == Some(Report(
              lat, lon, p.speed, if p.course == 0 then None else Some(p.course % 360), p.table, p.code,
              MessageTable(p.bits[0], p.bits[1], p.bits[2])))
  {
    GridDoesNotCarry(p.lat, lat);
    GridDoesNotCarry(p.lon, lon);
    NothingBlanked(Hundredths(p.lat));
    NothingBlanked(Hundredths(p.lon));
    hide Hundredths, Blanked, Destination, Info, Decode, Carries, MessageTable, OnGrid, Step, Signed;
    RoundTrip(p);
  }

  lemma NothingBlanked(total: nat)
    ensures Blanked(total, 0) == total
  {
    TotalIsAngle(total);
    hide Minutes, Angle;
  }

  lemma GridDoesNotCarry(degrees: real, k: int)
    requires OnGrid(degrees, k)
    ensures !Carries(degrees) && Signed(Hundredths(degrees), degrees < 0.0) == k
  {
    var n: nat := if k < 0 then -k else k;
    assert Abs(degrees) == n as real / 6000.0;
    var whole := n / 6000;
    assert n as real / 6000.0 == whole as real + (n % 6000) as real / 6000.0;
    assert Abs(degrees).Floor == whole;
  }

  /** A longitude just under ten degrees is read as nine. */
  lemma CarryLosesADegree()
    ensures var p := Position(0.0, 9.99999, 0, 0, '/' as nat, '>' as nat, [Zero, Zero, Zero], 0, []);
            && Sendable(p) && Hundredths(p.lon) == 10 * 6000
            && Decode(Destination(p), Info(p)).Some?
            && Decode(Destination(p), Info(p)).value.lon == 9 * 6000
  {
    var p := Position(0.0, 9.99999, 0, 0, '/' as nat, '>' as nat, [Zero, Zero, Zero], 0, []);
    assert Abs(p.lon).Floor == 9;
    assert Hundredths(p.lon) == 60000 && Carries(p.lon);
    hide Hundredths, Destination, Info, Decode, Carries, MessageTable;
    RoundTrip(p);
    BlankedIsRoundedDown(60000, 0);
  }

  // ---- Altitude ----

  const DATUM: nat := 10000
  const BASE91_MIN: nat := 33
  const BASE91_MAX: nat := 123
  const CLOSE: nat := 125
  const FEET: real := 0.3048

  /** To the nearest integer, halves away from zero. */
  function Round(x: real): (n: int)
    ensures if x >= 0.0 then x - 0.5 < n as real <= x + 0.5 else x - 0.5 <= n as real < x + 0.5
  {
    if x >= 0.0 then (x + 0.5).Floor else -(0.5 - x).Floor
  }

  function AltitudeMetres(feet: int): int {
    Round(feet as real * FEET) + DATUM
  }

  function AltitudeField(feet: int): (field: seq<nat>)
    ensures |field| == 4
  {
    var metres := AltitudeMetres(feet);
    var clamped := if metres < 0 then 0 else if metres > 753570 then 753570 else metres;
    [clamped / 8281 + BASE91_MIN, clamped / 91 % 91 + BASE91_MIN, clamped % 91 + BASE91_MIN, CLOSE]
  }

  /** The status text after its type marker; some markers leave none. */
  function Status(status: seq<nat>): seq<nat> {
    if status != [] && status[0] in {CURRENT, OLD, OLD_BETA} then []
    else if status != [] && status[0] in {'>' as nat, ']' as nat} then status[1..]
    else status
  }

  predicate Base91(c: nat) {
    BASE91_MIN <= c <= BASE91_MAX
  }

  function AltitudeFt(status: seq<nat>): Option<int> {
    ReadAltitude(Status(status))
  }

  function ReadAltitude(field: seq<nat>): Option<int> {
    if |field| < 4 || field[3] != CLOSE then None
    else if !Base91(field[0]) || !Base91(field[1]) || !Base91(field[2]) then None
    else
      var metres := ((field[0] - BASE91_MIN) * 91 + (field[1] - BASE91_MIN)) * 91 + (field[2] - BASE91_MIN);
      Some(Round((metres - DATUM) as real / FEET))
  }

  lemma Base91Digits(n: nat)
    requires n <= 753570
    ensures n / 8281 <= 90 && (n / 8281 * 91 + n / 91 % 91) * 91 + n % 91 == n
  {
    assert n / 8281 == n / 91 / 91;
  }

  /** Converting feet to whole metres and back loses at most two feet. */
  lemma MetresAndBack(feet: int)
    ensures -2 <= Round((AltitudeMetres(feet) - DATUM) as real / FEET) - feet <= 2
  {
    var metres := AltitudeMetres(feet) - DATUM;
    var back := metres as real / FEET;
    assert -0.5 <= metres as real - feet as real * FEET <= 0.5;
    assert -1.65 <= back - feet as real <= 1.65;
  }

  predicate Marker(c: nat) {
    c in {CURRENT, OLD, '>' as nat, ']' as nat}
  }

  ghost predicate Near(read: Option<int>, feet: int) {
    read.Some? && -2 <= read.value - feet <= 2
  }

  lemma {:induction false} FieldIsRead(feet: int, rest: seq<nat>)
    requires 0 <= AltitudeMetres(feet) <= 753570
    ensures Near(ReadAltitude(AltitudeField(feet) + rest), feet)
  {
    var n: nat := AltitudeMetres(feet);
    Base91Digits(n);
    MetresAndBack(feet);
    var field, status := AltitudeField(feet), AltitudeField(feet) + rest;
    assert status[0] == field[0] && status[1] == field[1] && status[2] == field[2] && status[3] == field[3];
    hide AltitudeMetres, Round;
  }

  lemma LeadingDigitIsMarker(feet: int)
    requires 0 <= AltitudeMetres(feet) <= 753570
    ensures Marker(AltitudeField(feet)[0]) <==> AltitudeMetres(feet) / 8281 in {6, 29, 60, 63}
  {
    hide AltitudeMetres;
  }

  /** A field with its first digit taken for a marker is not read: one marker leaves nothing, the other shifts the
      closing brace into the digits. */
  lemma {:induction false} MarkedFieldIsLost(feet: int, rest: seq<nat>)
    requires 0 <= AltitudeMetres(feet) <= 753570 && Marker(AltitudeField(feet)[0])
    ensures AltitudeFt(AltitudeField(feet) + rest) == None
  {
    var field, status := AltitudeField(feet), AltitudeField(feet) + rest;
    assert status[0] == field[0] && status[1..][2] == field[3] == CLOSE;
    hide AltitudeField, AltitudeMetres;
    assert ReadAltitude(status[1..]) == None && ReadAltitude([]) == None;
    hide ReadAltitude;
  }

  /** With the clamp inactive, the field at the head of any status text is read, and within two feet, exactly when its
      first digit does not look like a marker. Behind a one-character marker it always is. */
  lemma {:induction false} AltitudeComesBack(feet: int, rest: seq<nat>)
    requires 0 <= AltitudeMetres(feet) <= 753570
    ensures var read := AltitudeFt(AltitudeField(feet) + rest);
            && (read.Some? <==> AltitudeMetres(feet) / 8281 !in {6, 29, 60, 63})
            && (read.Some? ==> Near(read, feet))
    ensures Near(AltitudeFt(['>' as nat] + (AltitudeField(feet) + rest)), feet)
    ensures Near(AltitudeFt([']' as nat] + (AltitudeField(feet) + rest)), feet)
  {
    var field := AltitudeField(feet);
    FieldIsRead(feet, rest);
    LeadingDigitIsMarker(feet);
    if Marker(field[0]) {
      MarkedFieldIsLost(feet, rest);
    }
    assert (field + rest)[0] == field[0] && field[0] >= BASE91_MIN;
    hide AltitudeField, ReadAltitude, AltitudeMetres;
    assert (['>' as nat] + (field + rest))[1..] == field + rest && ([']' as nat] + (field + rest))[1..] == field + rest;
  }

  /** From about 39.7 km up the first digit can be a marker, and the altitude is lost though the clamp is inactive. */
  lemma HighAltitudeIsLost(rest: seq<nat>)
    ensures 0 <= AltitudeMetres(131000) <= 753570 && AltitudeFt(AltitudeField(131000) + rest) == None
  {
    assert AltitudeMetres(131000) == 49929;
    hide AltitudeMetres;
    AltitudeComesBack(131000, rest);
  }
}
