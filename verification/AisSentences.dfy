/** AIVDM sentences: an armoured payload cut into numbered, checksummed lines, a reader that puts them together
    again, and the receiver that numbers its messages. */
module AisSentences {
  import opened Wrappers
  import opened Bytes
  import opened Text
  import opened Ais
  import ModeS

  // ---- One sentence ----

  datatype Sentence = Sentence(total: nat, number: nat, id: string, letter: char, text: string, pad: nat)

  function Parts(s: Sentence): (parts: seq<string>)
    ensures |parts| == 7
  {
    ["AIVDM", Decimal(s.total), Decimal(s.number), s.id, [s.letter], s.text, Decimal(s.pad)]
  }

  function Body(s: Sentence): string {
    Join(Parts(s), ',')
  }

  function Code(c: char): Byte {
    (c as int % 256) as Byte
  }

  function Checksum(body: string): Byte {
    if body == "" then 0 else Checksum(body[..|body| - 1]) ^ Code(body[|body| - 1])
  }

  function HexDigit(v: nat): char
    requires v < 16
  {
    if v < 10 then ('0' as nat + v) as char else ('A' as nat + v - 10) as char
  }

  function Hex(b: Byte): (s: string)
    ensures |s| == 2
  {
    [HexDigit(b as nat / 16), HexDigit(b as nat % 16)]
  }

  function Render(s: Sentence): string {
    "!" + Body(s) + "*" + Hex(Checksum(Body(s)))
  }

  function ReadHexDigit(c: char): Option<nat> {
    if '0' <= c <= '9' then Some(c as nat - '0' as nat)
    else if 'A' <= c <= 'F' then Some(c as nat - 'A' as nat + 10)
    else None
  }

  function ReadHex(s: string): Option<nat>
    requires |s| == 2
  {
    var high :- ReadHexDigit(s[0]);
    var low :- ReadHexDigit(s[1]);
    Some(16 * high + low)
  }

  function ReadParts(parts: seq<string>): Option<Sentence> {
    if |parts| != 7 || parts[0] != "AIVDM" || |parts[4]| != 1 then None else
    var total :- ReadDecimal(parts[1]);
    var number :- ReadDecimal(parts[2]);
    var pad :- ReadDecimal(parts[6]);
    Some(Sentence(total, number, parts[3], parts[4][0], parts[5], pad))
  }

  /** A sentence is read only when its checksum is right. */
  function ReadSentence(line: string): Option<Sentence> {
    if |line| < 4 || line[0] != '!' || line[|line| - 3] != '*' then None else
    var body := line[1..|line| - 3];
    if ReadHex(line[|line| - 2..]) != Some(Checksum(body) as nat) then None
    else ReadParts(Split(body, ','))
  }

  predicate Safe(c: char) {
    c != ',' && c != '\n'
  }

  predicate SafeText(s: string) {
    forall i :: 0 <= i < |s| ==> Safe(s[i])
  }

  ghost predicate Sound(s: Sentence) {
    SafeText(s.id) && Safe(s.letter) && SafeText(s.text)
  }

  lemma HexComesBack(b: Byte)
    ensures ReadHex(Hex(b)) == Some(b as nat)
  {}

  lemma {:induction false} PartsAreSafe(s: Sentence, i: nat)
    requires Sound(s) && i < 7
    ensures SafeText(Parts(s)[i])
  {
    assert SafeText("AIVDM");
    assert SafeText(Decimal(s.total)) && SafeText(Decimal(s.number)) && SafeText(Decimal(s.pad));
    assert SafeText([s.letter]);
    hide SafeText, Decimal;
  }

  lemma {:induction false} PartsAreRead(s: Sentence)
    ensures ReadParts(Parts(s)) == Some(s)
  {
    hide Decimal, ReadDecimal;
    DecimalComesBack(s.total);
    DecimalComesBack(s.number);
    DecimalComesBack(s.pad);
  }

  lemma {:induction false} SentenceIsRead(s: Sentence)
    requires Sound(s)
    ensures ReadSentence(Render(s)) == Some(s)
  {
    var body, line := Body(s), Render(s);
    forall i | 0 <= i < 7
      ensures ',' !in Parts(s)[i]
    {
      PartsAreSafe(s, i);
    }
    SplitUndoesJoin(Parts(s), ',');
    PartsAreRead(s);
    HexComesBack(Checksum(body));
    hide Join, Split, Parts, Checksum, Hex, ReadHex, ReadParts;
    assert line[1..|line| - 3] == body && line[|line| - 2..] == Hex(Checksum(body));
  }

  lemma {:induction false} JoinIsSafe(parts: seq<string>, c: char, sep: char)
    requires parts != [] && c != sep && (forall i :: 0 <= i < |parts| ==> c !in parts[i])
    ensures c !in Join(parts, sep)
  {
    if |parts| > 1 {
      JoinIsSafe(parts[1..], c, sep);
    }
  }

  lemma {:induction false} SentenceIsOneLine(s: Sentence)
    requires Sound(s)
    ensures '\n' !in Render(s)
  {
    forall i | 0 <= i < 7
      ensures '\n' !in Parts(s)[i]
    {
      PartsAreSafe(s, i);
    }
    JoinIsSafe(Parts(s), '\n', ',');
    assert '\n' !in Hex(Checksum(Body(s)));
    hide Body, Hex, Checksum;
  }

  lemma {:induction false} JoinLength(parts: seq<string>, sep: char)
    requires |parts| == 7
    ensures |Join(parts, sep)| == 6 + |parts[0]| + |parts[1]| + |parts[2]| + |parts[3]| + |parts[4]| + |parts[5]| + |parts[6]|
  {
    var p := parts;
    assert p[1..][1..] == p[2..] && p[2..][1..] == p[3..] && p[3..][1..] == p[4..];
    assert p[4..][1..] == p[5..] && p[5..][1..] == p[6..];
    assert |Join(p[6..], sep)| == |p[6]|;
    assert |Join(p[5..], sep)| == |p[5]| + 1 + |Join(p[6..], sep)|;
    assert |Join(p[4..], sep)| == |p[4]| + 1 + |Join(p[5..], sep)|;
    assert |Join(p[3..], sep)| == |p[3]| + 1 + |Join(p[4..], sep)|;
    assert |Join(p[2..], sep)| == |p[2]| + 1 + |Join(p[3..], sep)|;
    assert |Join(p[1..], sep)| == |p[1]| + 1 + |Join(p[2..], sep)|;
  }

  lemma {:induction false} SentenceLength(s: Sentence)
    ensures |Render(s)|
         == 16 + |Decimal(s.total)| + |Decimal(s.number)| + |s.id| + |s.text| + |Decimal(s.pad)|
  {
    JoinLength(Parts(s), ',');
    hide Join, Decimal;
  }

  // ---- The checksum is an exclusive or ----

  /** How many characters have a bit set. */
  function CountBit(body: string, i: nat): nat
    requires i < 8
  {
    if body == "" then 0 else CountBit(body[..|body| - 1], i) + if BitOf(Code(body[|body| - 1]), i) then 1 else 0
  }

  lemma OneMoreCounts(sum: Byte, last: Byte, count: nat, i: nat)
    requires i < 8 && (BitOf(sum, i) <==> count % 2 == 1)
    ensures BitOf(sum ^ last, i) <==> (count + if BitOf(last, i) then 1 else 0) % 2 == 1
  {
    XorBit(sum, last, i);
    hide BitOf;
  }

  lemma {:induction false} ChecksumCounts(body: string, i: nat)
    requires i < 8
    ensures BitOf(Checksum(body), i) <==> CountBit(body, i) % 2 == 1
  {
    hide BitOf, Code;
    if body == "" {
      ZeroHasNoBit(i);
    } else {
      var before, last := body[..|body| - 1], Code(body[|body| - 1]);
      ChecksumCounts(before, i);
      OneMoreCounts(Checksum(before), last, CountBit(before, i), i);
    }
  }

  /** Bit `k` of a hexadecimal digit, upper case. */
  predicate HexBit(c: char, k: nat)
    requires k < 4
  {
    BitOfDigit(if '0' <= c <= '9' then c as int - 48 else c as int - 55, k)
  }

  predicate BitOfDigit(v: int, k: nat)
    requires k < 4
  {
    (if k == 0 then v else if k == 1 then v / 2 else if k == 2 then v / 4 else v / 8) % 2 == 1
  }

  lemma DigitShows(v: nat, k: nat)
    requires v < 16 && k < 4
    ensures HexBit(HexDigit(v), k) <==> BitOfDigit(v, k)
    ensures '0' <= HexDigit(v) <= '9' || 'A' <= HexDigit(v) <= 'F'
  {}

  lemma LowDigit(b: Byte)
    ensures (b & 15) as nat == b as nat % 16 && b & 15 < 16
  {}

  lemma HighDigit(b: Byte)
    ensures (b >> 4) as nat == b as nat / 16 && b >> 4 < 16
  {}

  lemma FirstBit(b: Byte)
    requires b < 16
    ensures b & 1 != 0 <==> b as nat % 2 == 1
  {}

  lemma SecondBit(b: Byte)
    requires b < 16
    ensures b & 2 != 0 <==> b as nat / 2 % 2 == 1
  {}

  lemma ThirdBit(b: Byte)
    requires b < 16
    ensures b & 4 != 0 <==> b as nat / 4 % 2 == 1
  {}

  lemma FourthBit(b: Byte)
    requires b < 16
    ensures b & 8 != 0 <==> b as nat / 8 % 2 == 1
  {}

  lemma NibbleShows(b: Byte, k: nat)
    requires b < 16 && k < 4
    ensures b as nat < 16 && (BitOfDigit(b as nat, k) <==> BitOf(b, k))
  {
    FirstBit(b);
    SecondBit(b);
    ThirdBit(b);
    FourthBit(b);
    SmallOctet(b);
  }

  lemma SmallOctet(b: Byte)
    requires b < 16
    ensures b as nat < 16
  {}

  lemma BitsMove(b: Byte, k: nat)
    requires k < 4
    ensures BitOf(b & 15, k) == BitOf(b, k) && BitOf(b >> 4, k) == BitOf(b, k + 4)
  {}

  lemma LowHexShows(b: Byte, k: nat)
    requires k < 4
    ensures HexBit(Hex(b)[1], k) <==> BitOf(b, k)
  {
    LowDigit(b);
    NibbleShows(b & 15, k);
    BitsMove(b, k);
    DigitShows(b as nat % 16, k);
    hide HexBit, BitOfDigit, BitOf, HexDigit;
  }

  lemma HighHexShows(b: Byte, k: nat)
    requires k < 4
    ensures HexBit(Hex(b)[0], k) <==> BitOf(b, k + 4)
  {
    HighDigit(b);
    NibbleShows(b >> 4, k);
    BitsMove(b, k);
    DigitShows(b as nat / 16, k);
    hide HexBit, BitOfDigit, BitOf, HexDigit;
  }

  lemma HexShows(b: Byte, i: nat)
    requires i < 8
    ensures HexBit(Hex(b)[if i < 4 then 1 else 0], i % 4) <==> BitOf(b, i)
  {
    hide Hex, HexBit, BitOf;
    if i < 4 {
      LowHexShows(b, i);
    } else {
      HighHexShows(b, i - 4);
    }
  }

  /** The two digits that end a sentence are the exclusive or of the characters between its first and its star: each
      bit is set exactly when an odd number of them have it set. */
  lemma {:induction false} ChecksumIsXor(s: Sentence, i: nat)
    requires i < 8
    ensures var line := Render(s);
            && |line| >= 4 && line[0] == '!' && line[|line| - 3] == '*'
            && (HexBit(line[if i < 4 then |line| - 1 else |line| - 2], i % 4)
                <==> CountBit(line[1..|line| - 3], i) % 2 == 1)
  {
    var body, line := Body(s), Render(s);
    ChecksumCounts(body, i);
    HexShows(Checksum(body), i);
    hide Body, Checksum, Hex, HexBit, CountBit, BitOf;
    assert line[1..|line| - 3] == body;
  }

  lemma {:induction false} ChecksumJoins(a: string, b: string)
    ensures Checksum(a + b) == Checksum(a) ^ Checksum(b)
    decreases |b|
  {
    hide Code;
    if b == "" {
      assert a + b == a;
      XorWithZero(Checksum(a));
    } else {
      var n := |b| - 1;
      ChecksumJoins(a, b[..n]);
      assert (a + b)[..|a + b| - 1] == a + b[..n];
      XorAssociates(Checksum(a), Checksum(b[..n]), Code(b[n]));
    }
  }

  lemma XorWithZero(a: Byte)
    ensures a ^ 0 == a && 0 ^ a == a
  {}

  lemma XorAssociates(a: Byte, b: Byte, c: Byte)
    ensures (a ^ b) ^ c == a ^ (b ^ c)
  {}

  lemma XorDiffers(a: Byte, b: Byte, x: Byte, y: Byte)
    requires x != y
    ensures (a ^ x) ^ b != (a ^ y) ^ b
  {}

  lemma CodesDiffer(c: char, d: char)
    requires c != d && c as int < 256 && d as int < 256
    ensures Code(c) != Code(d)
  {
    assert (c as int % 256) == c as int && (d as int % 256) == d as int;
  }

  /** Another character in the body gives another checksum. */
  lemma {:induction false} OneChangeShows(body: string, k: nat, c: char)
    requires k < |body| && c != body[k] && c as int < 256 && body[k] as int < 256
    ensures Checksum(body[k := c]) != Checksum(body)
  {
    var a, b := body[..k], body[k + 1..];
    CodesDiffer(c, body[k]);
    assert body == a + [body[k]] + b && body[k := c] == a + [c] + b;
    ChecksumJoins(a, [body[k]]);
    ChecksumJoins(a, [c]);
    ChecksumJoins(a + [body[k]], b);
    ChecksumJoins(a + [c], b);
    OneCharacter(body[k]);
    OneCharacter(c);
    hide Checksum, Code;
    XorDiffers(Checksum(a), Checksum(b), Code(c), Code(body[k]));
  }

  lemma OneCharacter(c: char)
    ensures Checksum([c]) == Code(c)
  {
    assert [c][..0] == "";
    XorWithZero(Code(c));
  }

  lemma HexDiffers(c: char, d: char, other: char)
    requires c != d
    ensures ReadHex([c, other]) != ReadHex([d, other]) || ReadHex([c, other]) == None
    ensures ReadHex([other, c]) != ReadHex([other, d]) || ReadHex([other, c]) == None
  {}

  /** A sentence with any one character changed to another octet is refused. */
  lemma {:induction false} OneChangeIsRefused(s: Sentence, k: nat, c: char)
    requires k < |Render(s)| && c != Render(s)[k] && c as int < 256 && Render(s)[k] as int < 256
    ensures ReadSentence(Render(s)[k := c]) == None
  {
    var body, line := Body(s), Render(s);
    var n, changed := |line|, line[k := c];
    HexComesBack(Checksum(body));
    assert line[1..n - 3] == body && line[n - 2..] == Hex(Checksum(body));
    if 1 <= k && k + 3 < n {
      OneChangeShows(body, k - 1, c);
      assert changed[1..n - 3] == body[k - 1 := c] && changed[n - 2..] == line[n - 2..];
      OctetsDiffer(Checksum(body), Checksum(body[k - 1 := c]));
    } else if n - 2 <= k {
      assert changed[1..n - 3] == body;
      if k == n - 1 {
        HexDiffers(c, line[k], line[n - 2]);
        assert changed[n - 2..] == [line[n - 2], c] && line[n - 2..] == [line[n - 2], line[k]];
      } else {
        HexDiffers(c, line[k], line[n - 1]);
        assert changed[n - 2..] == [c, line[n - 1]] && line[n - 2..] == [line[k], line[n - 1]];
      }
    }
    hide Body, Checksum, Hex, ReadHex, Split, ReadParts;
  }

  lemma OctetsDiffer(a: Byte, b: Byte)
    requires a != b
    ensures a as nat != b as nat
  {}

  // ---- A whole message ----

  function Chunks(payload: string): nat {
    Ceil(|payload|, MAX_PAYLOAD_CHARS)
  }

  function Chunk(payload: string, i: nat): (text: string)
    requires i < Chunks(payload)
    ensures |text| <= MAX_PAYLOAD_CHARS
  {
    var at := MAX_PAYLOAD_CHARS * i;
    payload[at..if |payload| - at < MAX_PAYLOAD_CHARS then |payload| else at + MAX_PAYLOAD_CHARS]
  }

  function SentenceAt(payload: string, fill: nat, letter: char, id: string, i: nat): Sentence
    requires i < Chunks(payload)
  {
    Sentence(Chunks(payload), i + 1, id, letter, Chunk(payload, i), if i + 1 == Chunks(payload) then fill else 0)
  }

  function GroupId(payload: string, sequence: nat): string {
    if Chunks(payload) > 1 then Decimal(sequence) else ""
  }

  function NextSequence(payload: string, sequence: nat): nat {
    if Chunks(payload) > 1 then (sequence + 1) % 10 else sequence
  }

  function Rendered(payload: string, fill: nat, letter: char, id: string, n: nat): (lines: seq<string>)
    requires n <= Chunks(payload)
    ensures |lines| == n
  {
    seq(n, i requires 0 <= i < n => Render(SentenceAt(payload, fill, letter, id, i)))
  }

  function Lines(text: string): seq<string> {
    if text == "" then [] else Split(text, '\n')
  }

  function Unlines(lines: seq<string>): string {
    if lines == [] then "" else Join(lines, '\n')
  }

  function Sentences(payload: string, fill: nat, letter: char, sequence: nat): string {
    Unlines(Rendered(payload, fill, letter, GroupId(payload, sequence), Chunks(payload)))
  }

  // ---- The reader ----

  function ReadSentences(lines: seq<string>): (r: Option<seq<Sentence>>)
    ensures r.Some? ==> |r.value| == |lines|
  {
    if lines == [] then Some([]) else
    var first :- ReadSentence(lines[0]);
    var rest :- ReadSentences(lines[1..]);
    Some([first] + rest)
  }

  /** One message: numbered from one, the same group and channel throughout, only the last with fill. */
  predicate Complete(sentences: seq<Sentence>) {
    forall i :: 0 <= i < |sentences| ==> InPlace(sentences, i)
  }

  predicate InPlace(sentences: seq<Sentence>, i: nat)
    requires i < |sentences|
  {
    var s := sentences[i];
    && s.total == |sentences| && s.number == i + 1 && s.id == sentences[0].id && s.letter == sentences[0].letter
    && (i + 1 < |sentences| ==> s.pad == 0)
  }

  function Payload(sentences: seq<Sentence>): string {
    if sentences == [] then "" else sentences[0].text + Payload(sentences[1..])
  }

  function Reassemble(nmea: string): Option<Bits> {
    var sentences :- ReadSentences(Lines(nmea));
    if !Complete(sentences) then None else
    var bits :- Plain(Payload(sentences));
    var pad := if sentences == [] then 0 else sentences[|sentences| - 1].pad;
    if pad > |bits| then None else Some(bits[..|bits| - pad])
  }

  function SentencesFrom(payload: string, fill: nat, letter: char, id: string, i: nat): (sentences: seq<Sentence>)
    requires i <= Chunks(payload)
    ensures |sentences| == Chunks(payload) - i
    ensures forall k :: 0 <= k < |sentences| ==> sentences[k] == SentenceAt(payload, fill, letter, id, i + k)
  {
    var n := Chunks(payload) - i;
    seq(n, k requires 0 <= k < n => SentenceAt(payload, fill, letter, id, i + k))
  }

  ghost predicate RenderedAs(sentences: seq<Sentence>, lines: seq<string>) {
    && |lines| == |sentences|
    && forall i :: 0 <= i < |lines| ==> Sound(sentences[i]) && lines[i] == Render(sentences[i])
  }

  lemma {:induction false} AllRead(sentences: seq<Sentence>, lines: seq<string>)
    requires RenderedAs(sentences, lines)
    ensures ReadSentences(lines) == Some(sentences)
    decreases |lines|
  {
    hide Render, ReadSentence, Sound;
    if lines != [] {
      AllRead(sentences[1..], lines[1..]);
      SentenceIsRead(sentences[0]);
      assert [sentences[0]] + sentences[1..] == sentences;
    }
  }

  lemma ChunkAndRest(payload: string, i: nat)
    requires i < Chunks(payload)
    ensures MAX_PAYLOAD_CHARS * i <= |payload|
    ensures i + 1 < Chunks(payload) ==> MAX_PAYLOAD_CHARS * (i + 1) <= |payload|
    ensures payload[MAX_PAYLOAD_CHARS * i..]
         == Chunk(payload, i) + if i + 1 == Chunks(payload) then "" else payload[MAX_PAYLOAD_CHARS * (i + 1)..]
  {
    var at, next := MAX_PAYLOAD_CHARS * i, MAX_PAYLOAD_CHARS * (i + 1);
    assert next == at + MAX_PAYLOAD_CHARS;
    if i + 1 == Chunks(payload) {
      assert payload[at..|payload|] + "" == payload[at..];
    } else {
      assert payload[at..next] + payload[next..] == payload[at..];
    }
  }

  lemma {:induction false} ChunksJoin(payload: string, fill: nat, letter: char, id: string, i: nat)
    requires i <= Chunks(payload)
    ensures i == Chunks(payload) || MAX_PAYLOAD_CHARS * i <= |payload|
    ensures Payload(SentencesFrom(payload, fill, letter, id, i))
         == if i == Chunks(payload) then "" else payload[MAX_PAYLOAD_CHARS * i..]
    decreases Chunks(payload) - i
  {
    if i < Chunks(payload) {
      ChunksJoin(payload, fill, letter, id, i + 1);
      ChunkAndRest(payload, i);
      var all, rest := SentencesFrom(payload, fill, letter, id, i), SentencesFrom(payload, fill, letter, id, i + 1);
      assert all[1..] == rest;
      assert all[0].text == Chunk(payload, i);
      hide SentencesFrom, SentenceAt, Chunk;
    }
  }

  lemma {:induction false} RenderedLines(payload: string, fill: nat, letter: char, id: string)
    requires SafeText(payload) && Safe(letter) && SafeText(id)
    ensures RenderedAs(SentencesFrom(payload, fill, letter, id, 0), Rendered(payload, fill, letter, id, Chunks(payload)))
  {
    var sentences := SentencesFrom(payload, fill, letter, id, 0);
    forall i | 0 <= i < Chunks(payload)
      ensures Sound(sentences[i])
    {
      assert sentences[i].text == Chunk(payload, i);
    }
    hide Render, Sound, SentenceAt;
  }

  lemma {:induction false} LinesComeBack(sentences: seq<Sentence>, lines: seq<string>)
    requires RenderedAs(sentences, lines)
    ensures Lines(Unlines(lines)) == lines
  {
    forall i | 0 <= i < |lines|
      ensures '\n' !in lines[i]
    {
      SentenceIsOneLine(sentences[i]);
    }
    if lines != [] {
      assert |lines[0]| > 0;
      hide Render, Split, Sound;
      SplitUndoesJoin(lines, '\n');
      assert Join(lines, '\n') != "";
    }
  }

  lemma {:induction false} AllInPlace(payload: string, fill: nat, letter: char, id: string)
    ensures Complete(SentencesFrom(payload, fill, letter, id, 0))
  {}

  lemma {:induction false} ArmourIsSafe(bits: Bits)
    ensures SafeText(Armour(bits))
  {
    forall i | 0 <= i < |Armour(bits)|
      ensures Safe(Armour(bits)[i])
    {
      GroupFits(bits, i);
      hide Group;
    }
  }

  /** Reading the sentences of a message back gives the payload bits and nothing else. */
  lemma {:induction false} MessageComesBack(bits: Bits, letter: char, sequence: nat)
    requires Safe(letter)
    ensures Reassemble(Sentences(Armour(bits), Fill(|bits|), letter, sequence)) == Some(bits)
  {
    var text, fill := Armour(bits), Fill(|bits|);
    var id := GroupId(text, sequence);
    var sentences, lines := SentencesFrom(text, fill, letter, id, 0), Rendered(text, fill, letter, id, Chunks(text));
    assert SafeText(id);
    ArmourIsSafe(bits);
    RenderedLines(text, fill, letter, id);
    LinesComeBack(sentences, lines);
    AllRead(sentences, lines);
    AllInPlace(text, fill, letter, id);
    ChunksJoin(text, fill, letter, id, 0);
    assert text[0..] == text;
    ArmourComesBack(bits);
    assert (bits + Zeros(fill))[..|bits|] == bits;
    assert sentences != [] ==> sentences[|sentences| - 1].pad == fill;
    assert text == "" ==> bits == [] && fill == 0;
    hide Armour, Lines, Unlines, ReadSentences, Complete, Plain, Payload, SentencesFrom, Rendered, Zeros, SafeText, Fill;
  }

  /** Sentences stay within eighty characters exactly when there are at most nine of them. */
  lemma {:induction false} SentencesFit(payload: string, fill: nat, letter: char, sequence: nat)
    requires fill < 6 && sequence < 10
    ensures (forall i :: 0 <= i < Chunks(payload) ==>
              |Render(SentenceAt(payload, fill, letter, GroupId(payload, sequence), i))| <= 80)
            <==> Chunks(payload) <= 9
  {
    var id := GroupId(payload, sequence);
    forall i | 0 <= i < Chunks(payload)
      ensures var s := SentenceAt(payload, fill, letter, id, i);
              |Render(s)| == 16 + |Decimal(s.total)| + |Decimal(s.number)| + |s.id| + |s.text| + |Decimal(s.pad)|
      ensures |SentenceAt(payload, fill, letter, id, i).text| <= MAX_PAYLOAD_CHARS
    {
      SentenceLength(SentenceAt(payload, fill, letter, id, i));
    }
    hide Render, Decimal;
    if Chunks(payload) > 9 {
      var s := SentenceAt(payload, fill, letter, id, 0);
      assert |s.text| == 60 && |Decimal(s.total)| >= 2 && |s.id| == 1;
      assert |Render(s)| > 80;
    }
  }

  /** The first sentence of a payload of 541 characters has 81. */
  lemma {:induction false} LongMessagesDoNotFit(payload: string, fill: nat, letter: char, sequence: nat)
    requires |payload| == 541 && sequence < 10
    ensures Chunks(payload) == 10
    ensures |Render(SentenceAt(payload, fill, letter, GroupId(payload, sequence), 0))| == 81
  {
    var s := SentenceAt(payload, fill, letter, GroupId(payload, sequence), 0);
    SentenceLength(s);
    TwoDigits();
    assert |s.text| == 60 && |s.id| == 1 && s.total == 10 && s.number == 1 && s.pad == 0;
    hide Render, Decimal;
  }

  lemma {:induction false} TwoDigits()
    ensures |Decimal(10)| == 2 && |Decimal(1)| == 1 && |Decimal(0)| == 1
  {
    assert |Decimal(1)| == 1;
  }

  // ---- The receiver ----

  datatype Message = Message(kind: nat, mmsi: nat, letter: char, nmea: string)

  const FCS_BYTES: nat := 2

  function PayloadOf(frame: seq<Byte>): seq<Byte>
    requires |frame| >= FCS_BYTES
  {
    frame[..|frame| - FCS_BYTES]
  }

  function Nmea(payload: seq<Byte>, letter: char, sequence: nat): string {
    var bits := ModeS.AllBits(payload);
    Sentences(Armour(bits), Fill(|bits|), letter, sequence)
  }

  function Decode(payload: seq<Byte>, letter: char, nmea: string): Option<Message> {
    var bits := ModeS.AllBits(payload);
    if |bits| < HEADER_BITS then None
    else Some(Message(Value(bits[0..6]), Value(bits[8..38]), letter, nmea))
  }

  function SequenceAfter(frame: seq<Byte>, sequence: nat): nat {
    if |frame| < FCS_BYTES then sequence else NextSequence(Armour(ModeS.AllBits(PayloadOf(frame))), sequence)
  }

  function MessageFrom(frame: seq<Byte>, letter: char, sequence: nat): Option<Message> {
    if |frame| < FCS_BYTES then None
    else Decode(PayloadOf(frame), letter, Nmea(PayloadOf(frame), letter, sequence))
  }

  /** The messages of a run of frames, and the sequence number after it. */
  function Processed(frames: seq<seq<Byte>>, letter: char, sequence: nat): (seq<Message>, nat) {
    if frames == [] then ([], sequence) else
    var (before, now) := Processed(frames[..|frames| - 1], letter, sequence);
    var frame := frames[|frames| - 1];
    var message := MessageFrom(frame, letter, now);
    (if message.Some? then before + [message.value] else before, SequenceAfter(frame, now))
  }

  class AisReceiver {
    var letter: char
    var sequence: nat

    ghost predicate Valid()
      reads this
    {
      sequence < 10 && letter in {'A', 'B'}
    }

    constructor (letter: char)
      requires letter in {'A', 'B'}
      ensures Valid() && this.letter == letter && sequence == 0
    {
      this.letter := letter;
      sequence := 0;
    }

    method Apply(letter: char)
      requires letter in {'A', 'B'} && Valid()
      modifies this`letter
      ensures Valid() && this.letter == letter
    {
      this.letter := letter;
    }

    method WriteSentences(payload: string, fill: nat) returns (out: string)
      requires Valid()
      modifies this`sequence
      ensures Valid() && sequence == NextSequence(payload, old(sequence))
      ensures out == Sentences(payload, fill, letter, old(sequence))
    {
      hide Render, Decimal, Chunk;
      var total := Chunks(payload);
      var id := "";
      if total > 1 {
        id := Decimal(sequence);
        sequence := (sequence + 1) % 10;
      }
      out := "";
      for i := 0 to total
        invariant Valid() && sequence == NextSequence(payload, old(sequence))
        invariant out == Unlines(Rendered(payload, fill, letter, id, i))
      {
        var pad := if i + 1 == total then fill else 0;
        var line := Render(Sentence(total, i + 1, id, letter, Chunk(payload, i), pad));
        MoreLines(payload, fill, letter, id, i);
        if i > 0 {
          out := out + "\n";
        }
        out := out + line;
      }
    }

    method Process(frames: seq<seq<Byte>>) returns (messages: seq<Message>)
      requires Valid()
      modifies this`sequence
      ensures Valid()
      ensures (messages, sequence) == Processed(frames, letter, old(sequence))
    {
      hide Sentences, NextSequence, Armour;
      messages := [];
      for i := 0 to |frames|
        invariant Valid() && (messages, sequence) == Processed(frames[..i], letter, old(sequence))
      {
        assert frames[..i + 1][..i] == frames[..i];
        if |frames[i]| < FCS_BYTES {
          continue;
        }
        var payload := PayloadOf(frames[i]);
        var bits := ModeS.AllBits(payload);
        var nmea := WriteSentences(Armour(bits), Fill(|bits|));
        var message := Decode(payload, letter, nmea);
        if message.Some? {
          messages := messages + [message.value];
        }
      }
      assert frames[..|frames|] == frames;
    }
  }

  lemma {:induction false} MoreLines(payload: string, fill: nat, letter: char, id: string, i: nat)
    requires i < Chunks(payload)
    ensures var lines, line := Rendered(payload, fill, letter, id, i), Render(SentenceAt(payload, fill, letter, id, i));
            Unlines(Rendered(payload, fill, letter, id, i + 1)) == Unlines(lines) + (if i > 0 then "\n" + line else line)
  {
    hide Render, SentenceAt;
    var lines, line := Rendered(payload, fill, letter, id, i), Render(SentenceAt(payload, fill, letter, id, i));
    assert Rendered(payload, fill, letter, id, i + 1) == lines + [line];
    hide Rendered;
    if i > 0 {
      JoinMore(lines, '\n', line);
    } else {
      assert lines + [line] == [line];
    }
  }

  const MAX_FRAME_BYTES: nat := 128

  /** No frame the burst receiver can deliver makes a sentence of more than eighty characters. */
  lemma {:induction false} FramesFit(frame: seq<Byte>, letter: char, sequence: nat)
    requires FCS_BYTES <= |frame| <= MAX_FRAME_BYTES && sequence < 10
    ensures var bits := ModeS.AllBits(PayloadOf(frame));
            var text := Armour(bits);
            && Chunks(text) <= 3
            && forall i :: 0 <= i < Chunks(text) ==>
                 |Render(SentenceAt(text, Fill(|bits|), letter, GroupId(text, sequence), i))| <= 80
  {
    var bits := ModeS.AllBits(PayloadOf(frame));
    assert |bits| <= 1008 && |Armour(bits)| <= 168;
    hide Render, Decimal, Armour, ModeS.AllBits, SentenceAt;
    SentencesFit(Armour(bits), Fill(|bits|), letter, sequence);
  }

  // ---- Whole runs ----

  /** Frames whose payload holds at least a header. */
  function LongEnough(frames: seq<seq<Byte>>): (long: seq<seq<Byte>>)
    ensures forall i :: 0 <= i < |long| ==> |long[i]| >= FCS_BYTES + 5
  {
    if frames == [] then [] else
    var before, frame := LongEnough(frames[..|frames| - 1]), frames[|frames| - 1];
    if |frame| >= FCS_BYTES + 5 then before + [frame] else before
  }

  ghost predicate Carries(message: Message, frame: seq<Byte>, letter: char)
    requires |frame| >= FCS_BYTES + 5
  {
    var bits := ModeS.AllBits(PayloadOf(frame));
    && message.kind == Value(bits[0..6]) && message.mmsi == Value(bits[8..38]) && message.letter == letter
    && Reassemble(message.nmea) == Some(bits)
  }

  lemma {:induction false} MessageCarriesFrame(frame: seq<Byte>, letter: char, sequence: nat)
    requires Safe(letter)
    ensures var message := MessageFrom(frame, letter, sequence);
            && (message.Some? <==> |frame| >= FCS_BYTES + 5)
            && (message.Some? ==> Carries(message.value, frame, letter))
  {
    if |frame| >= FCS_BYTES {
      MessageComesBack(ModeS.AllBits(PayloadOf(frame)), letter, sequence);
    }
    hide Sentences, Reassemble, Armour, Fill, Value, ModeS.AllBits;
  }

  /** Over every run, the messages are the long enough frames in order, each carrying its whole payload. */
  lemma {:induction false} EveryMessageCarriesItsFrame(frames: seq<seq<Byte>>, letter: char, sequence: nat)
    requires Safe(letter)
    ensures var messages, long := Processed(frames, letter, sequence).0, LongEnough(frames);
            && |messages| == |long|
            && forall i :: 0 <= i < |messages| ==> Carries(messages[i], long[i], letter)
  {
    hide MessageFrom, SequenceAfter, Carries;
    if frames != [] {
      var before := frames[..|frames| - 1];
      EveryMessageCarriesItsFrame(before, letter, sequence);
      MessageCarriesFrame(frames[|frames| - 1], letter, Processed(before, letter, sequence).1);
    }
  }

  predicate Grouped(frame: seq<Byte>) {
    |frame| >= FCS_BYTES && Chunks(Armour(ModeS.AllBits(PayloadOf(frame)))) > 1
  }

  function Groups(frames: seq<seq<Byte>>): nat {
    if frames == [] then 0
    else Groups(frames[..|frames| - 1]) + if Grouped(frames[|frames| - 1]) then 1 else 0
  }

  lemma SequenceSteps(frame: seq<Byte>, sequence: nat)
    ensures SequenceAfter(frame, sequence) == if Grouped(frame) then (sequence + 1) % 10 else sequence
  {
    hide Armour, Chunks;
  }

  lemma NextModTen(n: nat)
    ensures (n % 10 + 1) % 10 == (n + 1) % 10
  {}

  lemma {:induction false} SequenceCountsGroups(frames: seq<seq<Byte>>, letter: char, sequence: nat)
    requires sequence < 10
    ensures Processed(frames, letter, sequence).1 == (sequence + Groups(frames)) % 10
  {
    if frames != [] {
      var before, frame := frames[..|frames| - 1], frames[|frames| - 1];
      SequenceCountsGroups(before, letter, sequence);
      hide MessageFrom, Grouped;
      var now := Processed(before, letter, sequence).1;
      SequenceSteps(frame, now);
      assert Processed(frames, letter, sequence).1 == SequenceAfter(frame, now);
      assert Groups(frames) == Groups(before) + if Grouped(frame) then 1 else 0;
      hide SequenceAfter, Processed, Groups;
      NextModTen(sequence + Groups(before));
    }
  }

  lemma {:induction false} GroupsGrow(frames: seq<seq<Byte>>, i: nat, j: nat)
    requires i <= j <= |frames|
    ensures Groups(frames[..i]) <= Groups(frames[..j])
    decreases j
  {
    hide Grouped;
    if i < j {
      GroupsGrow(frames, i, j - 1);
      assert frames[..j][..j - 1] == frames[..j - 1];
    }
  }

  /** Two messages of several sentences that share a group number are ten such messages apart. */
  lemma {:induction false} SameGroupIsTenApart(frames: seq<seq<Byte>>, i: nat, j: nat, letter: char, sequence: nat)
    requires sequence < 10 && i < j < |frames| && Grouped(frames[i])
    requires Processed(frames[..i], letter, sequence).1 == Processed(frames[..j], letter, sequence).1
    ensures Groups(frames[..j]) >= Groups(frames[..i]) + 10
  {
    hide Grouped, Processed;
    SequenceCountsGroups(frames[..i], letter, sequence);
    SequenceCountsGroups(frames[..j], letter, sequence);
    GroupsGrow(frames, i + 1, j);
    assert frames[..i + 1][..i] == frames[..i];
    assert Groups(frames[..i + 1]) == Groups(frames[..i]) + 1;
  }
}
