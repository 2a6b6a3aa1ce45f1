/** What the deframer makes of any bits at all: which of them it takes for a frame. */
module HdlcRead {
  import opened Wrappers
  import opened Bytes
  import opened Hdlc

  /** How many ones end a run of bits. */
  function TrailingOnes(bits: Bits): nat
    decreases |bits|
  {
    if bits == [] || !bits[|bits| - 1] then 0 else 1 + TrailingOnes(bits[..|bits| - 1])
  }

  /** The bits of a line but those that follow five ones. */
  function Destuffed(line: Bits): (data: Bits)
    decreases |line|
  {
    if line == [] then [] else
    var before := line[..|line| - 1];
    if TrailingOnes(before) >= 5 then Destuffed(before) else Destuffed(before) + [line[|line| - 1]]
  }

  /** `line` is what came after the last flag: six ones, no more, and a zero; since then nothing has followed six ones. */
  ghost predicate Opened(received: Bits, line: Bits) {
    var n := |received| - |line|;
    && n >= 7 && received[n..] == line && !received[n - 1] && TrailingOnes(received[..n - 1]) == 6
    && forall i :: 0 <= i < |line| ==> TrailingOnes(line[..i]) < 6
  }

  /** The bits since the last flag, unless seven ones have come since. */
  function Line(received: Bits): Option<Bits>
    decreases |received|
  {
    if received == [] then None else
    var before, bit := received[..|received| - 1], received[|received| - 1];
    if TrailingOnes(before) == 6 && !bit then Some([])
    else if TrailingOnes(before) >= 6 then None
    else match Line(before)
      case None => None
      case Some(line) => Some(line + [bit])
  }

  lemma OnesMore(bits: Bits, bit: bool)
    ensures TrailingOnes(bits + [bit]) == if bit then 1 + TrailingOnes(bits) else 0
  {
    assert (bits + [bit])[..|bits|] == bits;
  }

  lemma DestuffedMore(line: Bits, bit: bool)
    ensures Destuffed(line + [bit]) == if TrailingOnes(line) >= 5 then Destuffed(line) else Destuffed(line) + [bit]
  {
    assert (line + [bit])[..|line|] == line;
  }

  lemma LineMore(received: Bits, bit: bool)
    ensures Line(received + [bit]) ==
            if TrailingOnes(received) == 6 && !bit then Some([])
            else if TrailingOnes(received) >= 6 then None
            else match Line(received)
              case None => None
              case Some(line) => Some(line + [bit])
  {
    assert (received + [bit])[..|received|] == received;
  }

  lemma {:induction false} OnesFit(bits: Bits)
    ensures TrailingOnes(bits) <= |bits|
    decreases |bits|
  {
    if bits != [] {
      OnesFit(bits[..|bits| - 1]);
    }
  }

  lemma {:induction false} OnesOfLine(before: Bits, line: Bits)
    requires before != [] && !before[|before| - 1]
    ensures TrailingOnes(before + line) == TrailingOnes(line)
    decreases |line|
  {
    if line == [] {
      assert before + line == before;
    } else {
      assert (before + line)[..|before + line| - 1] == before + line[..|line| - 1];
      OnesOfLine(before, line[..|line| - 1]);
    }
  }

  lemma LineEnds(received: Bits, line: Bits)
    requires Opened(received, line)
    ensures TrailingOnes(received) == TrailingOnes(line)
  {
    var n := |received| - |line|;
    OnesOfLine(received[..n], line);
    assert received[..n] + line == received;
  }

  lemma OpenedMore(received: Bits, line: Bits, bit: bool)
    requires Opened(received, line) && TrailingOnes(received) < 6
    ensures Opened(received + [bit], line + [bit])
  {
    var r, l, n := received + [bit], line + [bit], |received| - |line|;
    assert r[..n - 1] == received[..n - 1];
    LineEnds(received, line);
    forall i | 0 <= i < |l|
      ensures TrailingOnes(l[..i]) < 6
    {
      assert l[..i] == if i < |line| then line[..i] else line;
    }
  }

  lemma OpenedLess(received: Bits, line: Bits, bit: bool)
    requires Opened(received + [bit], line)
    ensures if line == [] then !bit && TrailingOnes(received) == 6
            else line[|line| - 1] == bit && Opened(received, line[..|line| - 1]) && TrailingOnes(received) < 6
  {
    var r, n := received + [bit], |received| + 1 - |line|;
    if line == [] {
      assert r[..n - 1] == received;
    } else {
      var l := line[..|line| - 1];
      assert r[n..][|line| - 1] == bit && received[n..] == l && r[..n - 1] == received[..n - 1];
      forall i | 0 <= i < |l|
        ensures TrailingOnes(l[..i]) < 6
      {
        assert l[..i] == line[..i];
      }
      LineEnds(received, l);
    }
  }

  /** The recursion finds exactly such a line. */
  lemma {:induction false} LineIsExact(received: Bits, line: Bits)
    ensures Line(received) == Some(line) <==> Opened(received, line)
    decreases |received|
  {
    if received != [] {
      var before, bit := received[..|received| - 1], received[|received| - 1];
      assert received == before + [bit];
      LineMore(before, bit);
      hide Line, TrailingOnes;
      if Opened(received, line) {
        OpenedLess(before, line, bit);
        if line != [] {
          LineIsExact(before, line[..|line| - 1]);
          assert line == line[..|line| - 1] + [bit];
        }
      }
      if Line(received) == Some(line) {
        if line == [] {
          OnesFit(before);
        } else {
          var rest := Line(before).value;
          LineIsExact(before, rest);
          OpenedMore(before, rest, bit);
        }
      }
    }
  }

  /** One bit as it is sent, read after a line that leaves `ones` ones open. */
  lemma SentIsUndone(line: Bits, data: Bits, ones: nat, bit: bool)
    requires ones < 5 && Destuffed(line) == data && TrailingOnes(line) == ones
    ensures Destuffed(line + Sent(bit, ones)) == data + [bit]
    ensures TrailingOnes(line + Sent(bit, ones)) == NextOnes(bit, ones)
  {
    OnesMore(line, bit);
    DestuffedMore(line, bit);
    hide Destuffed, TrailingOnes;
    if bit && ones == 4 {
      OnesMore(line + [true], false);
      DestuffedMore(line + [true], false);
      assert line + Sent(bit, ones) == line + [true] + [false];
    }
  }

  /** Leaving out the bits that follow five ones undoes the transmitter's stuffing. */
  lemma {:induction false} StuffingIsUndone(data: Bits)
    ensures Destuffed(Stuff(data, 0)) == data && TrailingOnes(Stuff(data, 0)) == OnesAfter(data, 0)
    decreases |data|
  {
    if data != [] {
      var before, bit := data[..|data| - 1], data[|data| - 1];
      var ones := OnesAfter(before, 0);
      assert data == before + [bit];
      StuffingIsUndone(before);
      StuffAppend(before, [bit], 0);
      OneStuffed(bit, ones);
      hide Stuff, OnesAfter, Destuffed, TrailingOnes, Sent, NextOnes;
      SentIsUndone(Stuff(before, 0), before, ones, bit);
    }
  }

  lemma OneStuffed(bit: bool, ones: nat)
    requires ones < 5
    ensures Stuff([bit], ones) == Sent(bit, ones) && OnesAfter([bit], ones) == NextOnes(bit, ones)
  {
    hide Sent, NextOnes;
    assert [bit][1..] == [];
  }

  // ---- The deframer's state ----

  lemma AppendAllMore(d: Deframer, data: Bits, bit: bool)
    requires d.nbits < 8
    ensures AppendAll(d, data + [bit]) == Append(AppendAll(d, data), bit)
  {
    var more := data + [bit];
    AppendAllLast(d, more, |more|);
    assert more[..|more|] == more && more[..|more| - 1] == data;
  }

  lemma {:induction false} OneMore(received: Bits, bit: bool)
    ensures Deframe(STARTED, received + [bit]).0 == Push(Deframe(STARTED, received).0, bit).0
  {
    DeframeAppend(STARTED, received, [bit]);
    var d := Deframe(STARTED, received).0;
    assert [bit][1..] == [];
    hide Push;
    assert Deframe(d, [bit]).0 == Push(d, bit).0;
  }

  /** The state says how many ones came last and holds the line since the last flag, destuffed. */
  ghost predicate Holds(d: Deframer, received: Bits) {
    && d.ones == (if TrailingOnes(received) < 7 then TrailingOnes(received) else 7)
    && d.inFrame == Line(received).Some?
    && (d.inFrame ==> d == AppendAll(SYNCED, Destuffed(Line(received).value)).(ones := d.ones))
  }

  lemma {:induction false} StepHolds(d: Deframer, received: Bits, bit: bool)
    requires ValidDeframer(d) && Holds(d, received)
    ensures Holds(Push(d, bit).0, received + [bit])
  {
    OnesMore(received, bit);
    LineMore(received, bit);
    if d.inFrame {
      var line := Line(received).value;
      LineIsExact(received, line);
      LineEnds(received, line);
      DestuffedMore(line, bit);
      AppendAllMore(SYNCED, Destuffed(line), bit);
      AppendKeepsOnes(AppendAll(SYNCED, Destuffed(line)), bit, if bit then d.ones + 1 else 0);
    }
    hide TrailingOnes, Line, Destuffed, AppendAll, WithBit;
    if d.ones == 6 && !bit {
      assert Destuffed([]) == [] && AppendAll(SYNCED, []) == SYNCED by { NothingCollected(); }
    }
  }

  lemma NothingCollected()
    ensures Destuffed([]) == [] && AppendAll(SYNCED, []) == SYNCED
  {}

  lemma {:induction false} AlwaysHolds(received: Bits)
    ensures Holds(Deframe(STARTED, received).0, received)
    decreases |received|
  {
    if received != [] {
      var before, bit := received[..|received| - 1], received[|received| - 1];
      assert received == before + [bit];
      AlwaysHolds(before);
      OneMore(before, bit);
      StepHolds(Deframe(STARTED, before).0, before, bit);
      assert Deframe(STARTED, received).0 == Push(Deframe(STARTED, before).0, bit).0;
    }
  }

  // ---- What is collected ----

  ghost predicate Collected(d: Deframer, data: Bits) {
    var n := |data| / 8;
    && d.inFrame && d.nbits == |data| % 8
    && (forall i :: 0 <= i < 8 ==> BitOf(d.byte, i) == (8 * n + i < |data| && data[8 * n + i]))
    && (d.overflow <==> n > 330)
    && (n <= 330 ==> |d.frame| == n && Octets(d.frame) == data[..8 * n])
    && (n > 330 ==> |d.frame| == 330)
  }

  lemma SetsBit(byte: Byte, i: nat, bit: bool, k: nat)
    requires i < 8 && k < 8 && !BitOf(byte, i)
    ensures BitOf(WithBit(byte, i, bit), k) == if k == i then bit else BitOf(byte, k)
  {}

  lemma {:induction false} CollectsOne(d: Deframer, data: Bits, bit: bool)
    requires Collected(d, data)
    ensures Collected(Append(d, bit), data + [bit])
  {
    var more, n := data + [bit], |data| / 8;
    var byte := WithBit(d.byte, d.nbits, bit);
    forall k | 0 <= k < 8
      ensures BitOf(byte, k) == (8 * n + k < |more| && more[8 * n + k])
    {
      SetsBit(d.byte, d.nbits, bit, k);
    }
    forall k | 0 <= k < 8
      ensures !BitOf(0, k)
    {
      ZeroHasNoBit(k);
    }
    hide BitOf, WithBit;
    if d.nbits < 7 {
      assert |more| / 8 == n && |more| % 8 == d.nbits + 1;
      assert more[..8 * n] == data[..8 * n];
    } else {
      assert |more| == 8 * n + 8 && |more| / 8 == n + 1 && |more| % 8 == 0;
      if n < 330 {
        OctetsAppend(d.frame, [byte]);
        OneOctet(byte);
        assert OctetBits(byte) == more[8 * n..];
        assert more == data[..8 * n] + more[8 * n..];
      }
    }
  }

  lemma OneOctet(byte: Byte)
    ensures Octets([byte]) == OctetBits(byte)
  {
    assert [byte][1..] == [];
  }

  lemma {:induction false} CollectsAll(data: Bits)
    ensures Collected(AppendAll(SYNCED, data), data)
    decreases |data|
  {
    if data == [] {
      CollectsNothing();
    } else {
      var before, bit := data[..|data| - 1], data[|data| - 1];
      assert data == before + [bit];
      CollectsAll(before);
      AppendAllMore(SYNCED, before, bit);
      hide Collected, Append, AppendAll;
      CollectsOne(AppendAll(SYNCED, before), before, bit);
    }
  }

  lemma CollectsNothing()
    ensures Collected(AppendAll(SYNCED, []), [])
  {
    forall k | 0 <= k < 8
      ensures !BitOf(0, k)
    {
      ZeroHasNoBit(k);
    }
  }

  // ---- Emissions ----

  /** A line whose destuffed bits are the octets of a frame and the five or six that open a flag. */
  ghost predicate Carries(line: Bits, frame: Frame) {
    var data := Destuffed(line);
    && 17 <= |frame| <= 330 && (|data| == 8 * |frame| + 5 || |data| == 8 * |frame| + 6)
    && data[..8 * |frame|] == Octets(frame)
  }

  ghost predicate Closes(received: Bits, frame: Frame) {
    TrailingOnes(received) == 6 && exists line :: Opened(received, line) && Carries(line, frame)
  }

  /** On any bits, a frame comes out exactly at the zero after six ones that end a line opened by a flag and carrying
      that frame. */
  lemma {:induction false} EmissionIsExact(received: Bits, bit: bool, frame: Frame)
    ensures Push(Deframe(STARTED, received).0, bit).1 == Some(frame) <==> !bit && Closes(received, frame)
  {
    var d := Deframe(STARTED, received).0;
    AlwaysHolds(received);
    forall line
      ensures Line(received) == Some(line) <==> Opened(received, line)
    {
      LineIsExact(received, line);
    }
    hide Deframe, Opened, Line, TrailingOnes;
    if d.inFrame {
      var line := Line(received).value;
      CollectsAll(Destuffed(line));
      EmitsCollected(d, Destuffed(line), bit, frame);
    }
  }

  lemma {:induction false} EmitsCollected(d: Deframer, data: Bits, bit: bool, frame: Frame)
    requires ValidDeframer(d) && Collected(d, data)
    ensures Push(d, bit).1 == Some(frame) <==>
            && d.ones == 6 && !bit && 17 <= |frame| <= 330
            && (|data| == 8 * |frame| + 5 || |data| == 8 * |frame| + 6) && data[..8 * |frame|] == Octets(frame)
  {
    hide BitOf;
    if |data| == 8 * |frame| + 5 || |data| == 8 * |frame| + 6 {
      assert |data| / 8 == |frame|;
      if |frame| <= 330 && data[..8 * |frame|] == Octets(frame) {
        SameOctets(d.frame, frame);
      }
    }
  }

  lemma {:induction false} SameOctets(a: seq<Byte>, b: seq<Byte>)
    requires |a| == |b| && Octets(a) == Octets(b)
    ensures a == b
    decreases |a|
  {
    if a != [] {
      var x, y := OctetBits(a[0]), OctetBits(b[0]);
      assert Octets(a)[..8] == x && Octets(b)[..8] == y;
      assert Octets(a)[8..] == Octets(a[1..]) && Octets(b)[8..] == Octets(b[1..]);
      SameOctets(a[1..], b[1..]);
      SameOctet(a[0], b[0]);
      assert a == [a[0]] + a[1..] && b == [b[0]] + b[1..];
    }
  }
}
