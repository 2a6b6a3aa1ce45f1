/** What the line coder of the APRS transmitter puts on the air, without its register. */
module AprsLine {
  import opened Bytes
  import opened AprsTx

  function ZerosAmong(bits: Bits): nat
    decreases |bits|
  {
    if bits == [] then 0 else (if bits[0] then 0 else 1) + ZerosAmong(bits[1..])
  }

  /** The level a line started low has after `bits`: a zero toggles it. */
  predicate Toggled(bits: Bits) {
    ZerosAmong(bits) % 2 == 1
  }

  /** The symbol `back` places before the end, or low if the line had not started. */
  predicate Earlier(symbols: Bits, back: nat)
    requires back > 0
  {
    back <= |symbols| && symbols[|symbols| - back]
  }

  // ---- The register holds the last symbols ----

  /** The place in the register of the symbol sent `k + 1` symbols ago. */
  function Tap(k: nat): bv32
    requires k < 17
  {
    match k
    case 0 => 0x00001
    case 1 => 0x00002
    case 2 => 0x00004
    case 3 => 0x00008
    case 4 => 0x00010
    case 5 => 0x00020
    case 6 => 0x00040
    case 7 => 0x00080
    case 8 => 0x00100
    case 9 => 0x00200
    case 10 => 0x00400
    case 11 => 0x00800
    case 12 => 0x01000
    case 13 => 0x02000
    case 14 => 0x04000
    case 15 => 0x08000
    case _ => 0x10000
  }

  function And(a: bv32, b: bv32): bv32 {
    a & b
  }

  function Double(a: bv32): bv32 {
    a << 1
  }

  predicate Remembers(reg: bv32, past: Bits) {
    forall k :: 0 <= k < 17 ==> (And(reg, Tap(k)) != 0) == Earlier(past, k + 1)
  }

  lemma TapsDouble(k: nat)
    requires k < 16
    ensures Tap(k + 1) == Double(Tap(k)) && Double(Tap(k)) != 0
  {}

  lemma OneTap(reg: bv32, k: nat)
    requires k < 17
    ensures And(reg, Tap(k)) == 0 || And(reg, Tap(k)) == Tap(k)
  {}

  lemma ShiftedTap(reg: bv32, bit: bool, n: bv32)
    ensures And(Shift(reg, bit), Double(n)) == Double(And(reg, n))
  {}

  lemma FirstTap(reg: bv32, bit: bool)
    ensures And(Shift(reg, bit), 1) != 0 <==> bit
  {}

  lemma DoubleOfNothing()
    ensures Double(0) == 0
  {}

  lemma NextTap(reg: bv32, bit: bool, k: nat)
    requires k < 16
    ensures And(Shift(reg, bit), Tap(k + 1)) != 0 <==> And(reg, Tap(k)) != 0
  {
    hide And, Double, Tap, Shift;
    TapsDouble(k);
    OneTap(reg, k);
    ShiftedTap(reg, bit, Tap(k));
    DoubleOfNothing();
  }

  lemma FeedbackIsTaps(reg: bv32)
    ensures Feedback(reg) <==> (And(reg, Tap(16)) != 0) != (And(reg, Tap(11)) != 0)
  {}

  lemma FirstTapIsOne()
    ensures Tap(0) == 1
  {}

  lemma {:induction false} ShiftRemembers(reg: bv32, past: Bits, bit: bool)
    requires Remembers(reg, past)
    ensures Remembers(Shift(reg, bit), past + [bit])
  {
    hide And, Tap, Shift;
    FirstTap(reg, bit);
    FirstTapIsOne();
    forall k | 0 <= k < 17
      ensures (And(Shift(reg, bit), Tap(k)) != 0) == Earlier(past + [bit], k + 1)
    {
      if k > 0 {
        NextTap(reg, bit, k - 1);
        assert Earlier(past + [bit], k + 1) == Earlier(past, k);
      }
    }
  }

  lemma {:induction false} FeedbackIsEarlier(reg: bv32, past: Bits)
    requires Remembers(reg, past)
    ensures Feedback(reg) == (Earlier(past, 17) != Earlier(past, 12))
  {
    FeedbackIsTaps(reg);
    hide And, Tap, Feedback, Earlier;
  }

  lemma NothingRemembered()
    ensures Remembers(0, [])
  {}

  // ---- The symbols sent ----

  /** The symbol in place `i`, after `past` and from a line at `level`. */
  predicate Scrambled(past: Bits, level: bool, bits: Bits, symbols: Bits, i: nat)
    requires i < |symbols| == |bits|
  {
    var before := past + symbols[..i];
    symbols[i] == ((level != Toggled(bits[..i + 1])) != (Earlier(before, 12) != Earlier(before, 17)))
  }

  lemma {:induction false} ToggledOneMore(bit: bool, rest: Bits)
    ensures Toggled([bit] + rest) == (Toggled(rest) == bit)
  {
    assert ([bit] + rest)[1..] == rest;
    assert ZerosAmong([bit] + rest) == (if bit then 0 else 1) + ZerosAmong(rest);
  }

  lemma PushScrambles(line: Line, past: Bits, bit: bool)
    requires Remembers(line.reg, past)
    ensures var (line1, out) := LinePush(G3ruh9600, line, bit);
            && line1.level == (line.level == bit) && line1.reg == Shift(line.reg, out)
            && out == (line1.level != (Earlier(past, 12) != Earlier(past, 17)))
  {
    FeedbackIsEarlier(line.reg, past);
    hide Feedback, Shift, Remembers, Earlier;
  }

  lemma {:induction false} EncodeScrambles(line: Line, past: Bits, bits: Bits, i: nat)
    requires Remembers(line.reg, past) && i < |bits|
    ensures Scrambled(past, line.level, bits, LineEncode(G3ruh9600, line, bits).1, i)
    decreases |bits|
  {
    PushScrambles(line, past, bits[0]);
    var (line1, out) := LinePush(G3ruh9600, line, bits[0]);
    var symbols, later := LineEncode(G3ruh9600, line, bits).1, LineEncode(G3ruh9600, line1, bits[1..]).1;
    assert symbols == [out] + later;
    hide Feedback, LinePush, LineEncode, Toggled;
    ToggledOneMore(bits[0], []);
    if i == 0 {
      assert bits[..1] == [bits[0]] + [] && past + symbols[..0] == past;
      NoneToggled();
    } else {
      ShiftRemembers(line.reg, past, out);
      hide Remembers, Shift, Earlier;
      EncodeScrambles(line1, past + [out], bits[1..], i - 1);
      assert bits[..i + 1] == [bits[0]] + bits[1..][..i];
      assert past + symbols[..i] == past + [out] + later[..i - 1];
      ToggledOneMore(bits[0], bits[1..][..i]);
    }
  }

  lemma NoneToggled()
    ensures !Toggled([])
  {}

  /** A 9600 baud line sends the toggled level added to its own symbols twelve and seventeen places back. */
  lemma {:induction false} G3ruhIsScrambled(bits: Bits, i: nat)
    requires i < |bits|
    ensures var sent := LineEncode(G3ruh9600, Started(G3ruh9600).line, bits).1;
            sent[i] == (Toggled(bits[..i + 1]) != ((i >= 12 && sent[i - 12]) != (i >= 17 && sent[i - 17])))
  {
    var sent := LineEncode(G3ruh9600, Line(false, 0), bits).1;
    NothingRemembered();
    EncodeScrambles(Line(false, 0), [], bits, i);
    hide LineEncode, Toggled, Remembers;
    assert [] + sent[..i] == sent[..i];
  }

  lemma {:induction false} EncodeToggles(line: Line, bits: Bits, i: nat)
    requires i < |bits|
    ensures LineEncode(Afsk1200, line, bits).1[i] == (line.level != Toggled(bits[..i + 1]))
    decreases |bits|
  {
    var (line1, out) := LinePush(Afsk1200, line, bits[0]);
    var symbols, later := LineEncode(Afsk1200, line, bits).1, LineEncode(Afsk1200, line1, bits[1..]).1;
    assert symbols == [out] + later;
    assert out == line1.level == (line.level == bits[0]);
    hide LinePush, LineEncode, Toggled;
    if i == 0 {
      assert bits[..1] == [bits[0]] + [];
      ToggledOneMore(bits[0], []);
      NoneToggled();
    } else {
      EncodeToggles(line1, bits[1..], i - 1);
      assert bits[..i + 1] == [bits[0]] + bits[1..][..i];
      ToggledOneMore(bits[0], bits[1..][..i]);
    }
  }

  /** A 1200 baud line sends the toggled level itself. */
  lemma {:induction false} AfskIsToggled(bits: Bits, i: nat)
    requires i < |bits|
    ensures LineEncode(Afsk1200, Started(Afsk1200).line, bits).1[i] == Toggled(bits[..i + 1])
  {
    EncodeToggles(Line(false, 0), bits, i);
  }
}
