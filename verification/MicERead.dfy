/** What the Mic-E reader makes of any destination and any text, not only of encoded ones. */
module MicERead {
  import opened Wrappers
  import opened MicE

  /** A digit, plain, custom or standard, or one of the blanks K, L and Z. */
  predicate IsChar(c: nat) {
    48 <= c <= 57 || 65 <= c <= 76 || 80 <= c <= 90
  }

  predicate IsBlank(c: nat) {
    c == 75 || c == 76 || c == 90
  }

  function DigitOf(c: nat): nat {
    if 48 <= c <= 57 then c - 48 else if 65 <= c <= 74 then c - 65 else if 80 <= c <= 89 then c - 80 else 0
  }

  function Blanks(chars: seq<nat>, i: nat): nat
    requires i <= |chars|
  {
    if i == 0 then 0 else Blanks(chars, i - 1) + if IsBlank(chars[i - 1]) then 1 else 0
  }

  /** The first `i` characters can be read: no digit after a blank, and no custom bit from the fourth on. */
  ghost predicate Readable(chars: seq<nat>, i: nat)
    requires i <= |chars|
  {
    && (forall k :: 0 <= k < i ==> IsChar(chars[k]))
    && (forall j, k :: 0 <= j < k < i && IsBlank(chars[j]) ==> IsBlank(chars[k]))
    && (forall k :: 3 <= k < i ==> !(65 <= chars[k] <= 75))
  }

  lemma CharIsRead(c: nat)
    ensures DecodeChar(c).Some? <==> IsChar(c)
    ensures IsChar(c) ==> var r := DecodeChar(c).value;
              && (r.digit.None? <==> IsBlank(c)) && (r.digit.Some? ==> r.digit.value == DigitOf(c))
              && (IsBlank(c) ==> DigitOf(c) == 0)
              && (r.bit == Custom <==> 65 <= c <= 75) && (r.indicator <==> 80 <= c <= 90)
  {}

  lemma {:induction false} BlanksCount(chars: seq<nat>, i: nat)
    requires i <= |chars|
    ensures Blanks(chars, i) == 0 <==> forall k :: 0 <= k < i ==> !IsBlank(chars[k])
  {
    hide IsBlank;
    if i > 0 {
      BlanksCount(chars, i - 1);
    }
  }

  lemma {:induction false} ReadableMore(chars: seq<nat>, i: nat)
    requires i < |chars|
    ensures Readable(chars, i + 1)
       <==> Readable(chars, i) && IsChar(chars[i]) && (Blanks(chars, i) > 0 ==> IsBlank(chars[i]))
            && (i >= 3 ==> !(65 <= chars[i] <= 75))
  {
    BlanksCount(chars, i);
    hide IsBlank, IsChar, Blanks;
    if Readable(chars, i) && (Blanks(chars, i) > 0 ==> IsBlank(chars[i])) && Blanks(chars, i) > 0 {
      assert IsBlank(chars[i]);
    }
  }

  /** What has been read of the first `i` characters. */
  ghost predicate HasRead(chars: seq<nat>, i: nat, r: Read)
    requires i <= |chars|
  {
    && |r.digits| == i && (forall k :: 0 <= k < i ==> r.digits[k] == DigitOf(chars[k]))
    && |r.indicators| == (if i < 3 then 0 else i - 3)
    && (forall k :: 0 <= k < |r.indicators| ==> (r.indicators[k] <==> 80 <= chars[k + 3] <= 90))
    && r.ambiguity == Blanks(chars, i)
  }

  lemma {:induction false} CharsAreRead(chars: seq<nat>, i: nat)
    requires i <= |chars|
    ensures ReadChars(chars, i).Some? <==> Readable(chars, i)
    ensures ReadChars(chars, i).Some? ==> HasRead(chars, i, ReadChars(chars, i).value)
    decreases i
  {
    if i > 0 {
      CharsAreRead(chars, i - 1);
      ReadableMore(chars, i - 1);
      var before := ReadChars(chars, i - 1);
      if before.Some? {
        assert ReadChars(chars, i) == ReadChar(before.value, chars[i - 1]);
        hide ReadChars, Readable;
        NextIsRead(chars, i - 1, before.value);
      }
    }
  }

  lemma {:induction false} NextIsRead(chars: seq<nat>, i: nat, before: Read)
    requires i < |chars| && HasRead(chars, i, before)
    ensures var r := ReadChar(before, chars[i]);
            && (r.Some? <==> IsChar(chars[i]) && (Blanks(chars, i) > 0 ==> IsBlank(chars[i]))
                             && (i >= 3 ==> !(65 <= chars[i] <= 75)))
            && (r.Some? ==> HasRead(chars, i + 1, r.value))
  {
    CharIsRead(chars[i]);
    hide DecodeChar, IsChar, IsBlank, DigitOf;
  }

  /** Every destination: which are read, and as what. */
  lemma {:induction false} DestinationIsExact(chars: seq<nat>)
    ensures var d := DecodeDestination(chars);
            && (d.Some? <==> |chars| == 6 && Readable(chars, 6)
                             && 10 * DigitOf(chars[0]) + DigitOf(chars[1]) <= 90
                             && 10 * DigitOf(chars[2]) + DigitOf(chars[3]) < 60)
            && (d.Some? ==>
                  && d.value.lat == 6000 * (10 * DigitOf(chars[0]) + DigitOf(chars[1]))
                                    + 100 * (10 * DigitOf(chars[2]) + DigitOf(chars[3]))
                                    + 10 * DigitOf(chars[4]) + DigitOf(chars[5])
                  && (d.value.north <==> 80 <= chars[3] <= 90) && (d.value.lonOffset <==> 80 <= chars[4] <= 90)
                  && (d.value.west <==> 80 <= chars[5] <= 90) && d.value.ambiguity == Blanks(chars, 6))
  {
    if |chars| == 6 {
      CharsAreRead(chars, 6);
      hide ReadChars, Readable, DigitOf, Blanks, MessageType;
      if ReadChars(chars, 6).Some? {
        var r := ReadChars(chars, 6).value;
        assert r.digits[0] == DigitOf(chars[0]) && r.digits[1] == DigitOf(chars[1]) && r.digits[2] == DigitOf(chars[2]);
        assert r.digits[3] == DigitOf(chars[3]) && r.digits[4] == DigitOf(chars[4]) && r.digits[5] == DigitOf(chars[5]);
        assert r.indicators[0] == (80 <= chars[3] <= 90) && r.indicators[1] == (80 <= chars[4] <= 90)
               && r.indicators[2] == (80 <= chars[5] <= 90);
        hide HasRead;
        if 10 * r.digits[0] + r.digits[1] <= 90 && 10 * r.digits[2] + r.digits[3] < 60 {
          ReadsDestination(chars, r);
        }
      }
    }
  }

  /** The course a text gives, four hundred taken off from four hundred on. */
  function CourseOf(body: seq<nat>): int
    requires |body| >= 8
  {
    var course: int := (body[4] as int - 28) % 10 * 100 + (body[5] as int - 28);
    if course >= 400 then course - 400 else course
  }

  ghost predicate WithinBounds(body: seq<nat>) {
    && |body| >= 8 && 38 <= body[0] <= 127 && 38 <= body[1] <= 97 && 28 <= body[2] <= 127
    && 28 <= body[3] <= 127 && 28 <= body[4] <= 127 && 28 <= body[5] <= 127
    && 33 <= body[6] <= 126 && 33 <= body[7] <= 126 && CourseOf(body) <= 360
  }

  /** The degrees of a text: from 100 on with the offset, where 180 to 189 mean 100 to 109 and 190 on mean 0 to 9. */
  function DegreesOf(raw: int, offset: bool): int {
    if !offset then raw else if raw < 80 then raw + 100 else if raw < 90 then raw + 20 else raw - 90
  }

  /** Every text: which are read, and the speed, course, symbol and longitude they give. */
  lemma {:induction false} TextIsExact(d: DestinationField, body: seq<nat>)
    ensures var r := DecodeReport(d, body);
            && (r.Some? <==> WithinBounds(body))
            && (r.Some? ==>
                  var speed, course := (body[3] - 28) * 10 + (body[4] - 28) / 10, CourseOf(body);
                  var (m, h) := Blank((body[1] - 28) % 60, body[2] - 28, d.ambiguity);
                  && r.value.speed == (if speed >= 800 then speed - 800 else speed)
                  && r.value.course == (if course == 0 then None else Some(course % 360))
                  && r.value.table == body[7] && r.value.code == body[6] && r.value.message == d.message
                  && r.value.lat == (if d.north then 1 else -1) * d.lat
                  && r.value.lon == (if d.west then -1 else 1) * (DegreesOf(body[0] - 28, d.lonOffset) * 6000 + m * 100 + h))
  {
    if WithinBounds(body) {
      TextIsRead(d, body);
    } else {
      TextIsRefused(d, body);
    }
  }

  /** Every destination and text: a report is read exactly when the text opens with one of the four types, and both
      are read. */
  lemma {:induction false} ReportIsExact(destination: seq<nat>, info: seq<nat>)
    ensures var d := DecodeDestination(destination);
            && (Decode(destination, info).Some? <==>
                  info != [] && info[0] in {0x60, 0x27, 0x1C, 0x1D} && d.Some? && WithinBounds(info[1..]))
            && (Decode(destination, info).Some? ==> Decode(destination, info) == DecodeReport(d.value, info[1..]))
  {
    if info != [] && DecodeDestination(destination).Some? {
      TextIsExact(DecodeDestination(destination).value, info[1..]);
    }
    hide DecodeDestination, DecodeReport, WithinBounds;
  }

  lemma DegreesAreRead(raw: nat, offset: bool)
    requires 10 <= raw <= 99
    ensures LongitudeDegrees(raw, offset) == Some(DegreesOf(raw, offset) as nat)
  {}

  lemma {:induction false} TextIsRead(d: DestinationField, body: seq<nat>)
    requires WithinBounds(body)
    ensures var speed, course := (body[3] - 28) * 10 + (body[4] - 28) / 10, CourseOf(body);
            var (m, h) := Blank((body[1] - 28) % 60, body[2] - 28, d.ambiguity);
            DecodeReport(d, body) == Some(Report(
              (if d.north then 1 else -1) * d.lat,
              (if d.west then -1 else 1) * (DegreesOf(body[0] - 28, d.lonOffset) * 6000 + m * 100 + h),
              if speed >= 800 then speed - 800 else speed, if course == 0 then None else Some(course % 360),
              body[7], body[6], d.message))
  {
    DegreesAreRead(body[0] - 28, d.lonOffset);
    assert SpeedCourse(body[3] - 28, body[4] - 28, body[5] - 28).Some?;
    ReadsBody(d, body);
    hide LongitudeDegrees, DecodeReport, Blank;
  }

  lemma {:induction false} TextIsRefused(d: DestinationField, body: seq<nat>)
    requires !WithinBounds(body)
    ensures DecodeReport(d, body) == None
  {
    hide Blank, Signed, Angle;
  }

  /** Every status text: where its altitude is looked for, and which are one. */
  lemma AltitudeIsExact(status: seq<nat>)
    ensures var at := if status != [] && (status[0] == 62 || status[0] == 93) then 1 else 0;
            AltitudeFt(status).Some? <==>
            && |status| >= at + 4 && status[0] != 96 && status[0] != 39 && status[0] != 29
            && 33 <= status[at] <= 123 && 33 <= status[at + 1] <= 123 && 33 <= status[at + 2] <= 123 && status[at + 3] == 125
  {}
}
