/** What an emitted ACARS message says of the octets on the air, in octet numbers. */
module AcarsRead {
  import opened Wrappers
  import opened Bytes
  import opened Crc16
  import opened Acars

  /** How many of the bits from `i` on are set. */
  function Ones(b: Byte, i: nat): nat
    requires i <= 8
    decreases 8 - i
  {
    if i == 8 then 0 else (if BitOf(b, i) then 1 else 0) + Ones(b, i + 1)
  }

  lemma OddIsCounted(b: Byte)
    ensures Odd(b) <==> Ones(b, 0) % 2 == 1
  {
    hide BitOf;
    assert Ones(b, 7) == if BitOf(b, 7) then 1 else 0;
    assert Ones(b, 6) == (if BitOf(b, 6) then 1 else 0) + Ones(b, 7);
    assert Ones(b, 5) == (if BitOf(b, 5) then 1 else 0) + Ones(b, 6);
    assert Ones(b, 4) == (if BitOf(b, 4) then 1 else 0) + Ones(b, 5);
    assert Ones(b, 3) == (if BitOf(b, 3) then 1 else 0) + Ones(b, 4);
    assert Ones(b, 2) == (if BitOf(b, 2) then 1 else 0) + Ones(b, 3);
    assert Ones(b, 1) == (if BitOf(b, 1) then 1 else 0) + Ones(b, 2);
  }

  /** The fields by their places; a number and a flight open the text of a downlink of 24 octets or more. */
  ghost predicate Says(block: seq<Byte>, m: Message) {
    var text, n := Stripped(block), |block|;
    && n >= 13
    && m.mode == text[0] && m.address == text[1..8]
    && m.ack == (if text[8] == 0x15 then None else Some(text[8]))
    && m.labelOf == text[9..11] && m.blockId == text[11] && m.downlink == (0x30 <= text[11] <= 0x39)
    && m.more == (text[n - 1] == 0x17)
    && (text[12] != 0x02 ==> m.seqNo == None && m.flight == None && m.body == [])
    && (text[12] == 0x02 && m.downlink && n >= 24 ==>
          m.seqNo == Some(text[13..17]) && m.flight == Some(text[17..23]) && m.body == text[23..n - 1])
    && (text[12] == 0x02 && !(m.downlink && n >= 24) ==>
          m.seqNo == None && m.flight == None && m.body == if n == 13 then [] else text[13..n - 1])
  }

  lemma PiecesOf(text: seq<Byte>)
    requires |text| >= 24
    ensures var whole := text[13..|text| - 1];
            && |whole| == |text| - 14
            && whole[..4] == text[13..17] && whole[4..10] == text[17..23] && whole[10..] == text[23..|text| - 1]
  {
    var whole := text[13..|text| - 1];
    PieceOf(text, 13, |text| - 1, 0, 4);
    PieceOf(text, 13, |text| - 1, 4, 10);
    PieceOf(text, 13, |text| - 1, 10, |whole|);
    assert whole[10..|whole|] == whole[10..];
  }

  /** A piece of a piece. */
  lemma PieceOf(text: seq<Byte>, from: nat, end: nat, i: nat, j: nat)
    requires i <= j && from + j <= end <= |text|
    ensures text[from..end][i..j] == text[from + i..from + j]
  {
    var piece, same := text[from..end][i..j], text[from + i..from + j];
    assert |piece| == |same| && forall k :: 0 <= k < |same| ==> piece[k] == text[from + i + k] == same[k];
  }

  lemma ParseSays(block: seq<Byte>)
    requires |block| >= 13
    ensures Says(block, Parse(block))
  {
    var text, n := Stripped(block), |block|;
    hide Stripped, IsDigit;
    assert IsDigit(text[11]) <==> 0x30 <= text[11] <= 0x39 by { DigitIs(text[11]); }
    if n >= 24 {
      PiecesOf(text);
    } else if n > 13 {
      assert |text[13..n - 1]| < 10;
    }
  }

  lemma DigitIs(c: Byte)
    ensures IsDigit(c) <==> 0x30 <= c <= 0x39
  {}

  /** A block of 13 to 241 octets of odd parity whose last alone is an ETX or an ETB with parity, and its check octets. */
  ghost predicate GoodBlock(block: seq<Byte>, crc: seq<Byte>) {
    && 13 <= |block| <= 241 && |crc| == 2 && Ccitt(block + crc) == 0
    && (forall i :: 0 <= i < |block| ==> Ones(block[i], 0) % 2 == 1)
    && (forall i :: 0 <= i < |block| ==> ((block[i] == 0x83 || block[i] == 0x97) <==> i == |block| - 1))
  }

  lemma FramedIsGood(raw: Bits, inverted: bool, block: seq<Byte>, crc: seq<Byte>)
    requires Framed(raw, inverted, block, crc)
    ensures GoodBlock(block, crc)
  {
    hide Ones, Odd;
    forall i | 0 <= i < |block|
      ensures Ones(block[i], 0) % 2 == 1 && ((block[i] == 0x83 || block[i] == 0x97) <==> i == |block| - 1)
    {
      OddIsCounted(block[i]);
      assert i < |block| - 1 ==> block[..|block| - 1][i] == block[i];
    }
  }

  ghost predicate Transmitted(received: Bits, block: seq<Byte>, crc: seq<Byte>) {
    exists inverted :: EndsWith(received, inverted, [0x16, 0x01] + block + crc)
  }

  ghost predicate Spells(received: Bits, m: Message) {
    exists block, crc :: GoodBlock(block, crc) && Transmitted(received, block, crc) && Says(block, m)
  }

  /** Whenever a message comes out, the bits just received, upright or complemented, are SYN, SOH, a good block and its
      check octets, and the message is what that block says. */
  lemma {:induction false} MessageIsSpelled(bits: Bits, last: bool)
    ensures var message := Pushed(Run(NEW, bits).0, last).1;
            message.Some? ==> Spells(bits + [last], message.value)
  {
    EmissionsAreFramed(bits, last);
    var f := Run(NEW, bits).0;
    hide Run, Pushed, Parse, Framed, EndsWith, GoodBlock, Says;
    if Pushed(f, last).1.Some? {
      var crc :| Framed(BLANK + bits + [last], f.inverted, f.block, crc)
                 && EndsWith(bits + [last], f.inverted, [SYN, SOH] + f.block + crc);
      FramedIsGood(BLANK + bits + [last], f.inverted, f.block, crc);
      assert |f.block| >= 13 by { GoodIsLong(f.block, crc); }
      ParseSays(f.block);
      assert Transmitted(bits + [last], f.block, crc);
    }
  }

  lemma GoodIsLong(block: seq<Byte>, crc: seq<Byte>)
    requires GoodBlock(block, crc)
    ensures |block| >= 13
  {}
}
