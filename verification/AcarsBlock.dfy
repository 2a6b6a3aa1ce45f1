/** ACARS blocks as they are written for the air, and what the receiver reads from them. */
module AcarsBlock {
  import opened Wrappers
  import opened Bytes
  import opened Crc16
  import opened Acars

  const ETX_DATA: Byte := 0x03
  const SPACE: Byte := 0x20
  const DOT: Byte := 0x2E

  /** What is sent, as seven-bit octets. */
  datatype Block = Block(mode: Byte, registration: seq<Byte>, ack: Byte, labelOf: seq<Byte>, blockId: Byte,
                         seqNo: Option<seq<Byte>>, flight: Option<seq<Byte>>, text: seq<Byte>, more: bool)

  function OddParity(b: Byte): Byte {
    if Odd(b & 0x7F) then b & 0x7F else (b & 0x7F) | 0x80
  }

  /** Cut or padded to `n` octets. */
  function Padded(s: seq<Byte>, n: nat, pad: Byte): (padded: seq<Byte>)
    ensures |padded| == n
  {
    if |s| >= n then s[..n] else s + seq(n - |s|, _ => pad)
  }

  function PaddedField(s: Option<seq<Byte>>, n: nat): (padded: seq<Byte>)
    ensures |padded| == if s.Some? then n else 0
  {
    if s.Some? then Padded(s.value, n, SPACE) else []
  }

  function Whole(block: Block): seq<Byte> {
    PaddedField(block.seqNo, SEQ_LEN) + PaddedField(block.flight, FLIGHT_LEN) + block.text
  }

  /** Everything before the terminator. */
  function Contents(block: Block): (contents: seq<Byte>)
    ensures |contents| == 13 + |Whole(block)|
  {
    [block.mode] + Padded(block.registration, 7, DOT) + [block.ack] + Padded(block.labelOf, 2, SPACE)
    + [block.blockId, STX] + Whole(block)
  }

  function WithParity(data: seq<Byte>): (sent: seq<Byte>)
    ensures |sent| == |data|
  {
    seq(|data|, i requires 0 <= i < |data| => OddParity(data[i]))
  }

  function BlockBody(block: Block): (body: seq<Byte>)
    ensures |body| == 14 + |Whole(block)|
  {
    WithParity(Contents(block) + [if block.more then ETB_DATA else ETX_DATA])
  }

  function BlockBytes(block: Block): seq<Byte> {
    HEADER + BlockBody(block) + LittleEndian(Ccitt(BlockBody(block)))
  }

  lemma ParityIsOdd(b: Byte)
    ensures Odd(OddParity(b)) && OddParity(b) & 0x7F == b & 0x7F
    ensures Terminator(OddParity(b)) <==> b & 0x7F == ETX_DATA || b & 0x7F == ETB_DATA
  {}

  /** Seven-bit data that is no terminator. */
  predicate Plain(b: Byte) {
    b < 0x80 && b != ETX_DATA && b != ETB_DATA
  }

  ghost predicate Sendable(block: Block) {
    && (forall i :: 0 <= i < |Contents(block)| ==> Plain(Contents(block)[i]))
    && 14 + |Whole(block)| <= 241
  }

  lemma {:induction false} BodyIsWellFormed(block: Block)
    requires Sendable(block)
    ensures AllOdd(BlockBody(block)) && OneTerminator(BlockBody(block))
    ensures 13 <= |BlockBody(block)| <= 241
  {
    var sent := Contents(block) + [if block.more then ETB_DATA else ETX_DATA];
    forall i | 0 <= i < |sent|
      ensures Odd(BlockBody(block)[i])
      ensures Terminator(BlockBody(block)[i]) <==> i == |sent| - 1
    {
      ParityIsOdd(sent[i]);
      assert i < |sent| - 1 ==> Plain(Contents(block)[i]);
      SevenBits(sent[i]);
      hide Odd, OddParity, Contents, Terminator;
    }
    hide Contents, Odd, Terminator;
  }

  lemma SevenBits(b: Byte)
    ensures b < 0x80 ==> b & 0x7F == b
  {}

  lemma {:induction false} ParityComesOff(data: seq<Byte>)
    requires forall i :: 0 <= i < |data| ==> data[i] < 0x80
    ensures Stripped(WithParity(data)) == data
  {
    forall i | 0 <= i < |data|
      ensures Stripped(WithParity(data))[i] == data[i]
    {
      ParityIsOdd(data[i]);
      SevenBits(data[i]);
      hide OddParity;
    }
  }

  /** The fields as the transmitter meant them. */
  function Meant(block: Block): Message {
    Message(block.mode, Padded(block.registration, 7, DOT), if block.ack != NAK then Some(block.ack) else None,
            Padded(block.labelOf, 2, SPACE), block.blockId, IsDigit(block.blockId),
            if block.seqNo.Some? then Some(PaddedField(block.seqNo, SEQ_LEN)) else None,
            if block.flight.Some? then Some(PaddedField(block.flight, FLIGHT_LEN)) else None,
            block.text, block.more)
  }

  /** A downlink whose text field has room for a sequence number and a flight has them; no other block has either. */
  predicate Readable(block: Block) {
    if IsDigit(block.blockId) && |Whole(block)| >= SEQ_LEN + FLIGHT_LEN then block.seqNo.Some? && block.flight.Some?
    else block.seqNo.None? && block.flight.None?
  }

  lemma {:induction false} SplitsContents(block: Block, last: Byte)
    ensures var text := Contents(block) + [last];
            && text[0] == block.mode && text[1..8] == Padded(block.registration, 7, DOT) && text[8] == block.ack
            && text[9..11] == Padded(block.labelOf, 2, SPACE) && text[BLOCK_ID] == block.blockId
            && text[BLOCK_START] == STX && text[BLOCK_START + 1..|text| - 1] == Whole(block) && text[|text| - 1] == last
  {
    hide Padded, Whole;
  }

  /** The receiver takes a number and a flight from any downlink text long enough to hold them. */
  function Taken(block: Block): Message {
    var whole := Whole(block);
    var numbered := IsDigit(block.blockId) && |whole| >= SEQ_LEN + FLIGHT_LEN;
    Meant(block).(seqNo := if numbered then Some(whole[..SEQ_LEN]) else None,
                  flight := if numbered then Some(whole[SEQ_LEN..SEQ_LEN + FLIGHT_LEN]) else None,
                  body := if numbered then whole[SEQ_LEN + FLIGHT_LEN..] else whole)
  }

  lemma {:induction false} ParsesAsTaken(block: Block)
    requires Sendable(block)
    ensures Parse(BlockBody(block)) == Taken(block)
  {
    var last := if block.more then ETB_DATA else ETX_DATA;
    var text := Contents(block) + [last];
    forall i | 0 <= i < |text|
      ensures text[i] < 0x80
    {
      assert i < |text| - 1 ==> Plain(Contents(block)[i]);
    }
    ParityComesOff(text);
    SplitsContents(block, last);
    assert |text| == MIN_BLOCK + 1 + |Whole(block)|;
    hide Stripped, WithParity, Contents, Padded, PaddedField, Whole, IsDigit;
  }

  lemma SplitsWhole(block: Block)
    ensures var whole, seqNo, flight := Whole(block), PaddedField(block.seqNo, SEQ_LEN), PaddedField(block.flight, FLIGHT_LEN);
            && (block.seqNo.Some? && block.flight.Some? ==>
                  |whole| >= SEQ_LEN + FLIGHT_LEN && whole[..SEQ_LEN] == seqNo
                  && whole[SEQ_LEN..SEQ_LEN + FLIGHT_LEN] == flight && whole[SEQ_LEN + FLIGHT_LEN..] == block.text)
            && (block.seqNo.None? && block.flight.None? ==> whole == block.text)
  {
    hide Padded;
  }

  /** A sent block is parsed as meant exactly when it is readable. */
  lemma {:induction false} BlockComesBack(block: Block)
    requires Sendable(block)
    ensures Parse(BlockBody(block)) == Meant(block) <==> Readable(block)
  {
    hide Parse, BlockBody, Sendable, Padded, PaddedField, Whole, IsDigit;
    ParsesAsTaken(block);
    SplitsWhole(block);
  }

  /** A downlink of ten letters and no number or flight. */
  function Unnumbered(): Block {
    Block(0x32, [], 0x41, [], 0x31, None, None, seq(10, i requires 0 <= i < 10 => 0x41 + i as Byte), false)
  }

  /** It can be sent, and is read with a number, a flight and no text. */
  lemma {:induction false} LettersTakenForNumber()
    ensures var block := Unnumbered();
            && Sendable(block)
            && Parse(BlockBody(block))
               == Meant(block).(seqNo := Some(block.text[..4]), flight := Some(block.text[4..]), body := [])
  {
    var block := Unnumbered();
    assert Whole(block) == block.text;
    forall i | 0 <= i < |Contents(block)|
      ensures Plain(Contents(block)[i])
    {
    }
    hide Contents, Padded, PaddedField;
    ParsesAsTaken(block);
    assert block.text[4..10] == block.text[4..] && block.text[10..] == [];
  }

  /** From a hunting framer with a clear junction, in either polarity, a readable block sent whole gives exactly the
      message meant. */
  lemma {:induction false} SentMessageIsHeard(f: Fields, inverted: bool, block: Block)
    requires Usable(f) && f.state.Hunt? && f.bitsToByte == 1 && JunctionClear(f, inverted)
    requires Sendable(block) && Readable(block)
    ensures Run(f, OnAir(BlockBytes(block), inverted)).1 == [Meant(block)]
    ensures Run(f, OnAir(BlockBytes(block), inverted)).0.state.Hunt?
  {
    var body := BlockBody(block);
    var crc := LittleEndian(Ccitt(body));
    hide Parse, Meant, Readable, Sendable, BlockBody, Run, OnAir, JunctionClear, LittleEndian, Ccitt, ValidBlock;
    BodyIsWellFormed(block);
    SentBlockIsValid(body);
    BlockComesBack(block);
    TransmissionIsHeard(f, inverted, body, crc);
  }
}
