/** AIS armouring: a payload as six-bit characters, and the reader of IEC 61162-1 they are checked against. */
module Ais {
  import opened Wrappers
  import opened Bytes

  const MAX_PAYLOAD_CHARS: nat := 60
  const HEADER_BITS: nat := 38

  // ---- Armouring ----

  function Shifted(value: nat, places: nat): nat
    decreases places
  {
    if places == 0 then value else 2 * Shifted(value, places - 1)
  }

  function Ceil(n: nat, size: nat): nat
    requires size > 0
  {
    (n + size - 1) / size
  }

  /** The value of the six bits from `6 * group`, the missing ones counted as zero. */
  function Group(bits: Bits, group: nat): nat
    requires 6 * group < |bits|
  {
    var offset := 6 * group;
    var take := if |bits| - offset < 6 then |bits| - offset else 6;
    Shifted(Value(bits[offset..offset + take]), 6 - take)
  }

  function ArmourChar(value: nat): char
    requires value < 64
  {
    var c := value + 48;
    (if c > 87 then c + 8 else c) as char
  }

  function Armour(bits: Bits): (text: string)
    ensures |text| == Ceil(|bits|, 6)
  {
    seq(Ceil(|bits|, 6), group requires 0 <= group < Ceil(|bits|, 6) =>
      GroupFits(bits, group); ArmourChar(Group(bits, group)))
  }

  function Fill(bits: nat): (fill: nat)
    ensures fill < 6 && (bits + fill) % 6 == 0
  {
    (6 - bits % 6) % 6
  }

  lemma {:induction false} ValueFits(bits: Bits, extra: nat)
    requires |bits| + extra == 6
    ensures Shifted(Value(bits), extra) == Value(bits + Zeros(extra)) < 64
  {
    ShiftIsPadding(bits, extra);
    SixValue(bits + Zeros(extra));
  }

  lemma GroupFits(bits: Bits, group: nat)
    requires group < Ceil(|bits|, 6)
    ensures 6 * group < |bits| && Group(bits, group) < 64
  {
    var offset := 6 * group;
    var take := if |bits| - offset < 6 then |bits| - offset else 6;
    ValueFits(bits[offset..offset + take], 6 - take);
  }

  lemma {:induction false} ShiftIsPadding(bits: Bits, n: nat)
    ensures Shifted(Value(bits), n) == Value(bits + Zeros(n))
    decreases n
  {
    if n == 0 {
      assert bits + Zeros(0) == bits;
    } else {
      ShiftIsPadding(bits, n - 1);
      var padded := bits + Zeros(n);
      assert padded[..|padded| - 1] == bits + Zeros(n - 1);
    }
  }

  lemma {:induction false} SixValue(b: Bits)
    requires |b| == 6
    ensures Value(b) == 32 * BitValue(b[0]) + 16 * BitValue(b[1]) + 8 * BitValue(b[2]) + 4 * BitValue(b[3])
                        + 2 * BitValue(b[4]) + BitValue(b[5])
    ensures Value(b) < 64
  {
    assert b[..5][..4] == b[..4] && b[..4][..3] == b[..3] && b[..3][..2] == b[..2] && b[..2][..1] == b[..1];
    assert b[..1][..0] == [];
    assert Value(b[..1]) == BitValue(b[0]);
    assert Value(b[..2]) == 2 * Value(b[..1]) + BitValue(b[1]);
    assert Value(b[..3]) == 2 * Value(b[..2]) + BitValue(b[2]);
    assert Value(b[..4]) == 2 * Value(b[..3]) + BitValue(b[3]);
    assert Value(b[..5]) == 2 * Value(b[..4]) + BitValue(b[4]);
  }

  // ---- Reading armour ----

  function SixBits(v: nat): (bits: Bits)
    ensures |bits| == 6
  {
    [v / 32 % 2 == 1, v / 16 % 2 == 1, v / 8 % 2 == 1, v / 4 % 2 == 1, v / 2 % 2 == 1, v % 2 == 1]
  }

  /** The six bits of an armour character, if it is one. */
  function PlainChar(c: char): Option<Bits> {
    if '0' <= c <= 'W' then Some(SixBits(c as nat - 48))
    else if '`' <= c <= 'w' then Some(SixBits(c as nat - 56))
    else None
  }

  function Plain(text: string): Option<Bits> {
    if text == "" then Some([]) else
    var first :- PlainChar(text[0]);
    var rest :- Plain(text[1..]);
    Some(first + rest)
  }

  lemma SixDigits(a: nat, b: nat, c: nat, d: nat, e: nat, f: nat)
    requires a <= 1 && b <= 1 && c <= 1 && d <= 1 && e <= 1 && f <= 1
    ensures var v := 32 * a + 16 * b + 8 * c + 4 * d + 2 * e + f;
            && v / 32 % 2 == a && v / 16 % 2 == b && v / 8 % 2 == c && v / 4 % 2 == d && v / 2 % 2 == e && v % 2 == f
  {
    var v := 32 * a + 16 * b + 8 * c + 4 * d + 2 * e + f;
    assert v / 32 == a && v / 16 == 2 * a + b && v / 8 == 4 * a + 2 * b + c;
    assert v / 4 == 8 * a + 4 * b + 2 * c + d && v / 2 == 16 * a + 8 * b + 4 * c + 2 * d + e;
  }

  lemma {:induction false} SixBitsComeBack(b: Bits)
    requires |b| == 6
    ensures SixBits(Value(b)) == b
  {
    SixValue(b);
    SixDigits(BitValue(b[0]), BitValue(b[1]), BitValue(b[2]), BitValue(b[3]), BitValue(b[4]), BitValue(b[5]));
    hide Value;
  }

  lemma {:induction false} CharComesBack(b: Bits)
    requires |b| == 6 && Value(b) < 64
    ensures PlainChar(ArmourChar(Value(b))) == Some(b)
  {
    SixBitsComeBack(b);
    hide Value, SixBits;
  }

  lemma {:induction false} FirstGroup(bits: Bits)
    requires bits != []
    ensures var n := if |bits| < 6 then |bits| else 6;
            PlainChar(Armour(bits)[0]) == Some(bits[..n] + Zeros(6 - n))
  {
    var n := if |bits| < 6 then |bits| else 6;
    GroupFits(bits, 0);
    ValueFits(bits[..n], 6 - n);
    assert bits[0..n] == bits[..n];
    CharComesBack(bits[..n] + Zeros(6 - n));
    assert Armour(bits)[0] == ArmourChar(Value(bits[..n] + Zeros(6 - n)));
  }

  lemma {:induction false} NextGroup(bits: Bits, g: nat)
    requires |bits| >= 6 && 6 * g < |bits| - 6
    ensures 6 * (g + 1) < |bits| && Group(bits, g + 1) == Group(bits[6..], g)
  {
    var rest, offset := bits[6..], 6 * g;
    var take := if |rest| - offset < 6 then |rest| - offset else 6;
    assert 6 * (g + 1) == offset + 6;
    assert rest[offset..offset + take] == bits[offset + 6..offset + 6 + take];
  }

  lemma {:induction false} OtherGroups(bits: Bits)
    requires |bits| >= 6
    ensures Armour(bits)[1..] == Armour(bits[6..])
  {
    var rest := bits[6..];
    forall g | 0 <= g < Ceil(|rest|, 6)
      ensures Armour(bits)[g + 1] == Armour(rest)[g]
    {
      GroupFits(rest, g);
      GroupFits(bits, g + 1);
      NextGroup(bits, g);
      hide Group;
    }
  }

  lemma {:induction false} PlainStep(text: string, first: Bits, rest: Bits)
    requires text != "" && PlainChar(text[0]) == Some(first) && Plain(text[1..]) == Some(rest)
    ensures Plain(text) == Some(first + rest)
  {
    hide PlainChar;
  }

  lemma {:induction false} ShortArmourComesBack(bits: Bits)
    requires |bits| < 6
    ensures Plain(Armour(bits)) == Some(bits + Zeros(Fill(|bits|)))
  {
    hide PlainChar, Zeros;
    var zeros := Zeros(Fill(|bits|));
    if bits == [] {
      assert bits + zeros == [];
    } else {
      FirstGroup(bits);
      hide Armour;
      assert Armour(bits)[1..] == "" && bits[..|bits|] == bits;
      PlainStep(Armour(bits), bits + zeros, []);
      assert bits + zeros + [] == bits + zeros;
    }
  }

  lemma FillRepeats(n: nat)
    requires n >= 6
    ensures Fill(n) == Fill(n - 6)
  {}

  /** Reading armour gives the bits back, followed by the fill. */
  lemma {:induction false} ArmourComesBack(bits: Bits)
    ensures Plain(Armour(bits)) == Some(bits + Zeros(Fill(|bits|)))
    decreases |bits|
  {
    hide Armour, PlainChar, Plain, Zeros, Fill;
    if |bits| < 6 {
      ShortArmourComesBack(bits);
    } else {
      var head, tail, zeros := bits[..6], bits[6..], Zeros(Fill(|bits|));
      FillRepeats(|bits|);
      ArmourComesBack(tail);
      FirstGroup(bits);
      OtherGroups(bits);
      assert head + Zeros(0) == head;
      PlainStep(Armour(bits), head, tail + zeros);
      assert head + (tail + zeros) == bits + zeros;
    }
  }
}
