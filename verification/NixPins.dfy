/** The hashes pinned for git dependencies in the Nix package: the parser and printer of the `outputHashes` set and
    the edits the build tool makes to it. */
module NixPins {
  import opened Wrappers
  import opened Text

  const OPEN: string := "outputHashes = {"
  const CLOSE: string := "};"
  const EQUALS: string := " = "
  const REV_MARKER: string := "# git rev "

  datatype Pin = Pin(key: string, rev: Option<string>, hash: string)

  // ---- Reading ----

  datatype Sections = Sections(before: string, block: string, after: string)

  function SplitOutputHashes(text: string): Option<Sections> {
    var (before, rest) :- SplitOnce(text, OPEN);
    var (block, after) :- SplitOnce(rest, CLOSE);
    Some(Sections(before, block, after))
  }

  function Quoted(text: string): Option<string> {
    var t := Trim(text);
    if t != "" && t[0] == '"' then Some(Split(t[1..], '"')[0]) else None
  }

  datatype Line = Revision(rev: string) | Entry(key: string, hash: string) | Other

  function ReadLine(line: string): Line {
    ReadTrimmed(Trim(line))
  }

  function ReadTrimmed(line: string): Line {
    if REV_MARKER <= line then Revision(Trim(line[|REV_MARKER|..])) else
    match SplitOnce(line, EQUALS)
    case None => Other
    case Some((key, value)) =>
      var k, v := Quoted(key), Quoted(value);
      if k.Some? && v.Some? then Entry(k.value, v.value) else Other
  }

  /** The pins of some lines; a revision line belongs to the next pin. */
  function ParseLines(lines: seq<string>, rev: Option<string>): seq<Pin> {
    if lines == [] then [] else
    match ReadLine(lines[0])
    case Revision(recorded) => ParseLines(lines[1..], Some(recorded))
    case Entry(key, hash) => [Pin(key, rev, hash)] + ParseLines(lines[1..], None)
    case Other => ParseLines(lines[1..], rev)
  }

  function Pins(text: string): seq<Pin> {
    match SplitOutputHashes(text)
    case None => []
    case Some(sections) => ParseLines(TextLines(sections.block), None)
  }

  method ReadPins(text: string) returns (pins: seq<Pin>)
    ensures pins == Pins(text)
  {
    hide ReadLine, SplitOutputHashes, TextLines;
    pins := [];
    var sections := SplitOutputHashes(text);
    if sections.None? {
      return;
    }
    var lines := TextLines(sections.value.block);
    var rev: Option<string> := None;
    assert lines[0..] == lines;
    for i := 0 to |lines|
      invariant ParseLines(lines, None) == pins + ParseLines(lines[i..], rev)
    {
      assert lines[i..][1..] == lines[i + 1..];
      match ReadLine(lines[i]) {
        case Revision(recorded) =>
          rev := Some(recorded);
        case Entry(key, hash) =>
          assert pins + ([Pin(key, rev, hash)] + ParseLines(lines[i + 1..], None))
              == (pins + [Pin(key, rev, hash)]) + ParseLines(lines[i + 1..], None);
          pins := pins + [Pin(key, rev, hash)];
          rev := None;
        case Other =>
      }
    }
    assert lines[|lines|..] == [];
    assert pins + [] == pins;
  }

  // ---- Writing ----

  function RevLine(rev: string): string {
    Spaces(6) + (REV_MARKER + rev)
  }

  function EntryLine(key: string, hash: string): string {
    Spaces(6) + EntryText(key, hash)
  }

  function EntryText(key: string, hash: string): string {
    "\"" + key + "\"" + EQUALS + ("\"" + hash + "\";")
  }

  function PinText(pin: Pin): string {
    (if pin.rev.Some? then RevLine(pin.rev.value) + "\n" else "") + (EntryLine(pin.key, pin.hash) + "\n")
  }

  function Body(pins: seq<Pin>): string {
    if pins == [] then "" else PinText(pins[0]) + Body(pins[1..])
  }

  function BlockText(pins: seq<Pin>): string {
    "\n" + (Body(pins) + Spaces(4))
  }

  function RewritePins(text: string, pins: seq<Pin>): Option<string> {
    var sections :- SplitOutputHashes(text);
    Some(sections.before + OPEN + (BlockText(pins) + CLOSE + sections.after))
  }

  // ---- Well-formed pins ----

  /** No line feed and no closing of the set. */
  ghost predicate Clean(s: string) {
    '\n' !in s && !Occurs(s, CLOSE)
  }

  ghost predicate CleanQuoted(s: string) {
    Clean(s) && '"' !in s
  }

  ghost predicate CleanRev(s: string) {
    Clean(s) && s != "" && IsTrimmed(s)
  }

  ghost predicate WellFormed(pin: Pin) {
    && CleanQuoted(pin.key) && !Occurs(pin.key, EQUALS) && CleanQuoted(pin.hash)
    && (pin.rev.Some? ==> CleanRev(pin.rev.value))
  }

  ghost predicate AllWellFormed(pins: seq<Pin>) {
    forall i :: 0 <= i < |pins| ==> WellFormed(pins[i])
  }

  lemma {:induction false} OccursInside(s: string, part: string, pattern: string)
    requires Occurs(s, part) && Occurs(part, pattern)
    ensures Occurs(s, pattern)
  {
    var i: nat :| i <= |s| && OccursAt(s, part, i);
    var j: nat :| j <= |part| && OccursAt(part, pattern, j);
    forall k | 0 <= k < |pattern|
      ensures s[i + j + k] == pattern[k]
    {
      assert s[i + j + k] == s[i..i + |part|][j + k] == part[j + k];
      assert part[j + k] == part[j..j + |pattern|][k];
    }
    assert s[i + j..i + j + |pattern|] == pattern;
    assert OccursAt(s, pattern, i + j);
  }

  lemma {:induction false} CharInside(s: string, part: string, c: char)
    requires Occurs(s, part) && c in part
    ensures c in s
  {
    var i: nat :| i <= |s| && OccursAt(s, part, i);
    var j :| 0 <= j < |part| && part[j] == c;
    assert s[i + j] == part[j];
  }

  lemma {:induction false} CleanInside(s: string, part: string)
    requires Occurs(s, part) && Clean(s)
    ensures Clean(part)
  {
    hide Occurs;
    if Occurs(part, CLOSE) {
      OccursInside(s, part, CLOSE);
    }
    if '\n' in part {
      CharInside(s, part, '\n');
    }
  }

  lemma SliceOccurs(s: string, i: nat, j: nat)
    requires i <= j <= |s|
    ensures Occurs(s, s[i..j])
  {
    assert OccursAt(s, s[i..j], i);
  }

  /** The parts of a split are parts of the text, without the separator. */
  lemma {:induction false} FirstPartInside(s: string, sep: char)
    ensures Split(s, sep)[0] <= s && sep !in Split(s, sep)[0]
  {
    if s != "" {
      FirstPartInside(s[1..], sep);
    }
  }

  lemma {:induction false} QuotedIsClean(s: string)
    requires Clean(s) && Quoted(s).Some?
    ensures CleanQuoted(Quoted(s).value) && Occurs(s, Quoted(s).value)
  {
    hide Occurs, Clean, Split, Trim;
    var t := Trim(s);
    TrimIsTrimmed(s);
    FirstPartInside(t[1..], '"');
    var part := Quoted(s).value;
    assert t[1..][..|part|] == t[1..1 + |part|] == part;
    SliceOccurs(t, 1, 1 + |part|);
    OccursInside(s, t, part);
    CleanInside(s, part);
  }

  lemma {:induction false} EntryIsClean(line: string)
    requires Clean(line) && ReadTrimmed(line).Entry?
    ensures var e := ReadTrimmed(line); CleanQuoted(e.key) && CleanQuoted(e.hash) && !Occurs(e.key, EQUALS)
  {
    hide Clean, Quoted, CleanQuoted, SplitOnce;
    SplitOnceIsFirst(line, EQUALS);
    var (key, value) := SplitOnce(line, EQUALS).value;
    assert line[0..|key|] == key && line[|key| + 3..|line|] == value;
    SliceOccurs(line, 0, |key|);
    SliceOccurs(line, |key| + 3, |line|);
    BeforeFirst(line, EQUALS, key);
    hide Occurs;
    CleanInside(line, key);
    CleanInside(line, value);
    QuotedIsClean(key);
    QuotedIsClean(value);
    if Occurs(Quoted(key).value, EQUALS) {
      OccursInside(key, Quoted(key).value, EQUALS);
    }
  }

  lemma {:induction false} BeforeFirst(s: string, pattern: string, before: string)
    requires pattern != "" && before <= s && OccursFirst(s, pattern, |before|)
    ensures !Occurs(before, pattern)
  {
    forall i: nat | i <= |before|
      ensures !OccursAt(before, pattern, i)
    {
      if OccursAt(before, pattern, i) {
        assert before[i..i + |pattern|] == s[i..i + |pattern|];
        assert OccursAt(s, pattern, i);
      }
    }
  }

  lemma {:induction false} RevIsClean(line: string)
    requires Clean(line) && IsTrimmed(line) && REV_MARKER <= line
    ensures CleanRev(Trim(line[|REV_MARKER|..]))
  {
    var recorded := line[|REV_MARKER|..];
    assert REV_MARKER[|REV_MARKER| - 1] == ' ';
    assert recorded == "" ==> line == REV_MARKER;
    assert recorded != "" && !IsSpace(recorded[|recorded| - 1]);
    hide Clean, IsSpace, Occurs, Trim;
    TrimKeepsLast(recorded);
    TrimIsTrimmed(recorded);
    SliceOccurs(line, |REV_MARKER|, |line|);
    assert line[|REV_MARKER|..|line|] == recorded;
    CleanInside(line, recorded);
    CleanInside(recorded, Trim(recorded));
  }

  lemma {:induction false} TrimKeepsLast(s: string)
    requires s != "" && !IsSpace(s[|s| - 1])
    ensures Trim(s) != ""
  {
    hide IsSpace;
    if IsSpace(s[0]) {
      TrimKeepsLast(s[1..]);
    }
  }

  ghost predicate AllClean(lines: seq<string>) {
    forall i :: 0 <= i < |lines| ==> Clean(lines[i])
  }

  lemma {:induction false} ParsedAreWellFormed(lines: seq<string>, rev: Option<string>)
    requires AllClean(lines) && (rev.Some? ==> CleanRev(rev.value))
    ensures AllWellFormed(ParseLines(lines, rev))
    decreases |lines|
  {
    if lines != [] {
      hide Clean, ReadTrimmed, CleanRev, Trim, CleanQuoted, Occurs;
      var line := Trim(lines[0]);
      TrimIsTrimmed(lines[0]);
      CleanInside(lines[0], line);
      match ReadLine(lines[0])
      case Revision(recorded) =>
        RevisionIsClean(line);
        ParsedAreWellFormed(lines[1..], Some(recorded));
      case Entry(key, hash) =>
        EntryIsClean(line);
        ParsedAreWellFormed(lines[1..], None);
      case Other =>
        ParsedAreWellFormed(lines[1..], rev);
    }
  }

  lemma {:induction false} RevisionIsClean(line: string)
    requires Clean(line) && IsTrimmed(line) && ReadTrimmed(line).Revision?
    ensures CleanRev(ReadTrimmed(line).rev)
  {
    hide Clean, CleanRev, Trim, IsTrimmed, SplitOnce, Quoted;
    RevIsClean(line);
  }

  lemma {:induction false} PartsInside(s: string, sep: char, i: nat)
    requires i < |Split(s, sep)|
    ensures Occurs(s, Split(s, sep)[i]) && sep !in Split(s, sep)[i]
  {
    FirstPartInside(s, sep);
    if i == 0 {
      SliceOccurs(s, 0, |Split(s, sep)[0]|);
      assert s[0..|Split(s, sep)[0]|] == Split(s, sep)[0];
    } else {
      var rest := s[1..];
      var parts := Split(rest, sep);
      var k := if s[0] == sep then i - 1 else i;
      assert Split(s, sep)[i] == parts[k];
      PartsInside(rest, sep, k);
      hide Split, Occurs;
      SliceOccurs(s, 1, |s|);
      assert s[1..|s|] == rest;
      OccursInside(s, rest, parts[k]);
    }
  }

  lemma {:induction false} LinesInside(parts: seq<string>)
    requires parts != [] && AllClean(parts)
    ensures AllClean(LinesOf(parts))
  {
    hide Clean, Occurs;
    if |parts| > 1 {
      LinesInside(parts[1..]);
      var n := |Chop(parts[0])|;
      assert parts[0][0..n] == Chop(parts[0]);
      SliceOccurs(parts[0], 0, n);
      CleanInside(parts[0], Chop(parts[0]));
    }
  }

  lemma {:induction false} BlockLinesAreClean(block: string)
    requires !Occurs(block, CLOSE)
    ensures AllClean(TextLines(block))
  {
    var parts := Split(block, '\n');
    forall i | 0 <= i < |parts|
      ensures Clean(parts[i])
    {
      PartsInside(block, '\n', i);
      hide Occurs, Split;
      if Occurs(parts[i], CLOSE) {
        OccursInside(block, parts[i], CLOSE);
      }
    }
    hide Split, Clean;
    LinesInside(parts);
  }

  /** Whatever the text, the pins read from it are well formed. */
  lemma {:induction false} PinsAreWellFormed(text: string)
    ensures AllWellFormed(Pins(text))
  {
    var r := SplitOutputHashes(text);
    if r.Some? {
      hide SplitOnce, ParseLines, TextLines, Occurs;
      var (before, rest) := SplitOnce(text, OPEN).value;
      SplitOnceIsFirst(rest, CLOSE);
      BeforeFirst(rest, CLOSE, r.value.block);
      BlockLinesAreClean(r.value.block);
      ParsedAreWellFormed(TextLines(r.value.block), None);
    }
  }

  // ---- Printed text is read back ----

  lemma {:induction false} QuotedBack(s: string, rest: string)
    requires '"' !in s && IsTrimmed("\"" + s + "\"" + rest)
    ensures Quoted("\"" + s + "\"" + rest) == Some(s)
  {
    var t := "\"" + s + "\"" + rest;
    TrimNothing(t);
    hide Trim, IsTrimmed, Split;
    SplitFirst(s, '"', rest);
    assert t[1..] == s + ['"'] + rest;
  }

  lemma {:induction false} EqualsInKey(key: string, value: string, i: nat)
    requires i < |key| + 2
    ensures OccursAt("\"" + key + "\"" + EQUALS + value, EQUALS, i) ==> Occurs(key, EQUALS)
  {
    var t := "\"" + key + "\"" + EQUALS + value;
    if OccursAt(t, EQUALS, i) {
      assert t[i] == t[i..i + 3][0] && t[i + 1] == t[i..i + 3][1] && t[i + 2] == t[i..i + 3][2];
      assert t[0] == '"' && t[|key| + 1] == '"';
      assert 1 <= i && i + 3 <= |key| + 1;
      assert key[i - 1..i + 2] == t[i..i + 3];
      assert OccursAt(key, EQUALS, i - 1);
    }
  }

  lemma {:induction false} EntrySplits(key: string, hash: string)
    requires !Occurs(key, EQUALS)
    ensures SplitOnce(EntryText(key, hash), EQUALS) == Some(("\"" + key + "\"", "\"" + hash + "\";"))
  {
    var k, v := "\"" + key + "\"", "\"" + hash + "\";";
    var t := k + EQUALS + v;
    forall i: nat | i < |k|
      ensures !OccursAt(t, EQUALS, i)
    {
      EqualsInKey(key, v, i);
    }
    assert t[|k|..|k| + 3] == EQUALS;
    hide SplitOnce, Occurs;
    FirstIsSplit(t, EQUALS, |k|);
    assert t[..|k|] == k && t[|k| + 3..] == v;
  }

  lemma {:induction false} EntryIsRead(key: string, hash: string, indent: nat)
    requires '"' !in key && '"' !in hash && !Occurs(key, EQUALS)
    ensures ReadLine(Spaces(indent) + EntryText(key, hash)) == Entry(key, hash)
  {
    var t := EntryText(key, hash);
    var k, v := "\"" + key + "\"", "\"" + hash + "\";";
    assert t[0] == '"' && t[|t| - 1] == ';';
    assert !(REV_MARKER <= t);
    assert k == "\"" + key + "\"" + "" && v == "\"" + hash + "\"" + ";";
    hide Occurs, Split, SplitOnce, Quoted;
    TrimIndented(t, indent);
    EntrySplits(key, hash);
    QuotedBack(key, "");
    QuotedBack(hash, ";");
  }

  lemma {:induction false} RevIsRead(rev: string, indent: nat, gap: nat)
    requires rev != "" && IsTrimmed(rev)
    ensures ReadLine(Spaces(indent) + (REV_MARKER + (Spaces(gap) + rev))) == Revision(rev)
  {
    var t := REV_MARKER + (Spaces(gap) + rev);
    assert t[0] == '#' && t[|t| - 1] == rev[|rev| - 1];
    hide Trim, SplitOnce, Quoted;
    TrimIndented(t, indent);
    TrimIndented(rev, gap);
    assert t[|REV_MARKER|..] == Spaces(gap) + rev;
  }

  /** A pin written by hand is read as well as a printed one: a line with its revision, indented anyhow, and a line
      with its key and hash. */
  lemma {:induction false} HandWrittenIsRead(key: string, rev: string, hash: string, i: nat, gap: nat, j: nat)
    requires '"' !in key && '"' !in hash && !Occurs(key, " = ") && rev != "" && IsTrimmed(rev)
    ensures ParseLines([Spaces(i) + ("# git rev " + (Spaces(gap) + rev)),
                        Spaces(j) + ("\"" + key + "\"" + " = " + ("\"" + hash + "\";"))], None)
         == [Pin(key, Some(rev), hash)]
  {
    RevIsRead(rev, i, gap);
    EntryIsRead(key, hash, j);
    hide ReadLine, Occurs;
    var a, b := Spaces(i) + ("# git rev " + (Spaces(gap) + rev)), Spaces(j) + EntryText(key, hash);
    assert [a, b][1..] == [b] && [b][1..] == [];
    assert ParseLines([b], Some(rev)) == [Pin(key, Some(rev), hash)] + ParseLines([], None);
  }

  lemma {:induction false} EntryLineIsLine(key: string, hash: string)
    requires '\n' !in key && '\n' !in hash
    ensures '\n' !in EntryLine(key, hash) && Chop(EntryLine(key, hash)) == EntryLine(key, hash)
  {
    var line := EntryLine(key, hash);
    assert line[|line| - 1] == ';';
  }

  lemma {:induction false} RevLineIsLine(rev: string)
    requires '\n' !in rev && rev != "" && IsTrimmed(rev)
    ensures '\n' !in RevLine(rev) && Chop(RevLine(rev)) == RevLine(rev)
  {
    var line := RevLine(rev);
    assert line[|line| - 1] == rev[|rev| - 1];
  }

  /** A printed pin is read as that pin, whatever comes after it. */
  lemma {:induction false} PinTextIsRead(pin: Pin, rest: string)
    requires WellFormed(pin)
    ensures ParseLines(TextLines(PinText(pin) + rest), None) == [pin] + ParseLines(TextLines(rest), None)
  {
    hide TextLines, ReadLine, Chop, Occurs;
    var entry := EntryLine(pin.key, pin.hash);
    EntryLineIsLine(pin.key, pin.hash);
    EntryIsRead(pin.key, pin.hash, 6);
    FirstLine(entry, rest);
    assert TextLines(entry + "\n" + rest)[1..] == TextLines(rest);
    if pin.rev.Some? {
      var rev := RevLine(pin.rev.value);
      RevLineIsLine(pin.rev.value);
      RevIsRead(pin.rev.value, 6, 0);
      assert Spaces(0) + pin.rev.value == pin.rev.value;
      FirstLine(rev, entry + "\n" + rest);
      assert PinText(pin) + rest == rev + "\n" + (entry + "\n" + rest);
      assert TextLines(PinText(pin) + rest)[1..] == TextLines(entry + "\n" + rest);
    } else {
      assert PinText(pin) + rest == entry + "\n" + rest;
    }
  }

  lemma {:induction false} BlankLinesAreSkipped()
    ensures ParseLines(TextLines(Spaces(4)), None) == []
    ensures ReadLine("") == Other
  {
    var s := Spaces(4);
    assert '\n' !in s;
    SplitAlone(s, '\n');
    assert TextLines(s) == [s];
    assert s == Spaces(4) + "";
    TrimIndented("", 4);
    TrimNothing("");
    assert ReadTrimmed("") == Other;
    hide TextLines, Trim, ReadTrimmed, Split;
    assert [s][1..] == [];
  }

  lemma {:induction false} BodyIsRead(pins: seq<Pin>)
    requires AllWellFormed(pins)
    ensures ParseLines(TextLines(Body(pins) + Spaces(4)), None) == pins
  {
    hide TextLines, ParseLines, WellFormed, PinText, Spaces;
    if pins == [] {
      BlankLinesAreSkipped();
      assert Body(pins) + Spaces(4) == Spaces(4);
    } else {
      BodyIsRead(pins[1..]);
      var rest := Body(pins[1..]) + Spaces(4);
      PinTextIsRead(pins[0], rest);
      assert Body(pins) + Spaces(4) == PinText(pins[0]) + rest;
      assert [pins[0]] + pins[1..] == pins;
    }
  }

  lemma {:induction false} BlockIsRead(pins: seq<Pin>)
    requires AllWellFormed(pins)
    ensures ParseLines(TextLines(BlockText(pins)), None) == pins
  {
    BodyIsRead(pins);
    BlankLinesAreSkipped();
    var rest := Body(pins) + Spaces(4);
    hide TextLines, AllWellFormed, Body, ReadLine;
    assert BlockText(pins) == "" + "\n" + rest;
    FirstLine("", rest);
    assert ([""] + TextLines(rest))[1..] == TextLines(rest);
  }

  // ---- The printed block is found again ----

  ghost predicate Open(s: string) {
    forall i :: 0 <= i < |s| - 1 ==> !Closes(s, i)
  }

  predicate Closes(s: string, i: nat)
    requires i + 1 < |s|
  {
    s[i] == '}' && s[i + 1] == ';'
  }

  lemma {:induction false} OpenMeans(s: string)
    ensures !Occurs(s, CLOSE) ==> Open(s)
  {
    forall i | 0 <= i < |s| - 1
      ensures Closes(s, i) ==> Occurs(s, CLOSE)
    {
      if Closes(s, i) {
        assert s[i..i + 2] == CLOSE;
        assert OccursAt(s, CLOSE, i);
      }
    }
  }

  lemma {:induction false} OpenJoin(a: string, b: string)
    requires Open(a) && Open(b) && (b == "" || b[0] != ';')
    ensures Open(a + b)
  {
    forall i | 0 <= i < |a + b| - 1
      ensures !Closes(a + b, i)
    {
      assert i < |a| - 1 ==> !Closes(a, i);
      assert i >= |a| ==> !Closes(b, i - |a|);
    }
  }

  lemma {:induction false} EntryIsOpen(key: string, hash: string)
    requires Open(key) && Open(hash)
    ensures Open(EntryLine(key, hash) + "\n")
  {
    var a, b, c := Spaces(6) + "\"", "\"" + EQUALS + "\"", "\";\n";
    assert Open(a) && Open(b) && Open(c);
    assert EntryLine(key, hash) + "\n" == a + (key + (b + (hash + c)));
    OpenJoin(hash, c);
    NotSemicolon(b, hash + c);
    OpenBefore(b, hash + c);
    OpenJoin(key, b + (hash + c));
    OpenBefore(a, key + (b + (hash + c)));
  }

  lemma NotSemicolon(a: string, b: string)
    requires a != "" && a[0] != ';'
    ensures (a + b)[0] != ';'
  {}

  /** Text that ends in anything but a brace may be followed by anything. */
  lemma {:induction false} OpenBefore(a: string, b: string)
    requires Open(a) && Open(b) && a != "" && a[|a| - 1] != '}'
    ensures Open(a + b)
  {
    forall i | 0 <= i < |a + b| - 1
      ensures !Closes(a + b, i)
    {
      assert i < |a| - 1 ==> !Closes(a, i);
      assert i >= |a| ==> !Closes(b, i - |a|);
    }
  }

  lemma {:induction false} RevIsOpen(rev: string)
    requires Open(rev)
    ensures Open(RevLine(rev) + "\n")
  {
    var a := Spaces(6) + REV_MARKER;
    assert Open(a) && Open("\n");
    assert RevLine(rev) + "\n" == a + (rev + "\n");
    OpenJoin(rev, "\n");
    OpenBefore(a, rev + "\n");
  }

  lemma {:induction false} BodyIsOpen(pins: seq<Pin>)
    requires AllWellFormed(pins)
    ensures Open(Body(pins))
    ensures Body(pins) == "" || Body(pins)[|Body(pins)| - 1] == '\n'
  {
    if pins != [] {
      var pin := pins[0];
      hide Occurs;
      BodyIsOpen(pins[1..]);
      OpenMeans(pin.key);
      OpenMeans(pin.hash);
      EntryIsOpen(pin.key, pin.hash);
      if pin.rev.Some? {
        OpenMeans(pin.rev.value);
        RevIsOpen(pin.rev.value);
        hide Open, RevLine, EntryLine;
        OpenBefore(RevLine(pin.rev.value) + "\n", EntryLine(pin.key, pin.hash) + "\n");
      } else {
        assert PinText(pin) == EntryLine(pin.key, pin.hash) + "\n";
      }
      hide Open, RevLine, EntryLine;
      OpenBefore(PinText(pin), Body(pins[1..]));
    }
  }

  lemma {:induction false} BlockIsOpen(pins: seq<Pin>)
    requires AllWellFormed(pins)
    ensures Open(BlockText(pins)) && BlockText(pins)[|BlockText(pins)| - 1] == ' '
  {
    BodyIsOpen(pins);
    var body := Body(pins);
    hide Body;
    assert Open(Spaces(4)) && Open("\n");
    OpenJoin(body, Spaces(4));
    OpenBefore("\n", body + Spaces(4));
  }

  lemma CloseAt(t: string, i: nat)
    requires i + 1 < |t|
    ensures OccursAt(t, CLOSE, i) <==> t[i] == '}' && t[i + 1] == ';'
  {
    assert t[i..i + 2] == [t[i], t[i + 1]];
  }

  lemma {:induction false} ClosesAfter(block: string, after: string)
    requires Open(block) && block != "" && block[|block| - 1] == ' '
    ensures SplitOnce(block + CLOSE + after, CLOSE) == Some((block, after))
  {
    var t := block + CLOSE + after;
    forall i: nat | i < |block|
      ensures !OccursAt(t, CLOSE, i)
    {
      CloseAt(t, i);
      assert i < |block| - 1 ==> !Closes(block, i);
    }
    assert t[|block|..|block| + 2] == CLOSE;
    hide SplitOnce, Open;
    FirstIsSplit(t, CLOSE, |block|);
    assert t[..|block|] == block && t[|block| + 2..] == after;
  }

  ghost predicate StandsAt(text: string, s: Sections) {
    && text == s.before + "outputHashes = {" + (s.block + "};" + s.after)
    && OccursFirst(text, "outputHashes = {", |s.before|)
    && OccursFirst(s.block + "};" + s.after, "};", |s.block|)
  }

  lemma {:induction false} SetStands(text: string, s: Sections)
    requires SplitOutputHashes(text) == Some(s)
    ensures StandsAt(text, s)
  {
    SplitOnceIsFirst(text, OPEN);
    SplitOnceIsFirst(SplitOnce(text, OPEN).value.1, CLOSE);
    hide SplitOnce, OccursFirst;
  }

  lemma {:induction false} StandingIsFound(text: string, s: Sections)
    requires StandsAt(text, s)
    ensures SplitOutputHashes(text) == Some(s)
  {
    var rest := s.block + "};" + s.after;
    FirstIsSplit(text, "outputHashes = {", |s.before|);
    FirstIsSplit(rest, "};", |s.block|);
    hide SplitOnce, OccursFirst;
    assert text[..|s.before|] == s.before && text[|s.before| + 16..] == rest;
    assert rest[..|s.block|] == s.block && rest[|s.block| + 2..] == s.after;
  }

  /** The set is what stands between the first opening of one in the text and the first closing after that. */
  lemma {:induction false} SetIsFirst(text: string, s: Sections)
    ensures SplitOutputHashes(text) == Some(s) <==> StandsAt(text, s)
  {
    if SplitOutputHashes(text) == Some(s) {
      SetStands(text, s);
    }
    hide SplitOutputHashes;
    if StandsAt(text, s) {
      StandingIsFound(text, s);
    }
  }

  /** Rewriting keeps the text on both sides of the set. */
  lemma {:induction false} RewriteKeepsSurroundings(text: string, pins: seq<Pin>)
    requires AllWellFormed(pins)
    ensures var r := RewritePins(text, pins);
            && (r.Some? <==> SplitOutputHashes(text).Some?)
            && (r.Some? ==> SplitOutputHashes(r.value)
                             == Some(SplitOutputHashes(text).value.(block := BlockText(pins))))
  {
    if SplitOutputHashes(text).Some? {
      var s := SplitOutputHashes(text).value;
      BlockIsOpen(pins);
      hide SplitOnce, BlockText, AllWellFormed, Open;
      ClosesAfter(BlockText(pins), s.after);
      SplitElsewhere(text, OPEN, BlockText(pins) + CLOSE + s.after);
    }
  }

  lemma {:induction false} WellFormedComesBack(text: string, pins: seq<Pin>)
    requires AllWellFormed(pins) && SplitOutputHashes(text).Some?
    ensures RewritePins(text, pins).Some? && Pins(RewritePins(text, pins).value) == pins
  {
    hide AllWellFormed, ParseLines, BlockText, TextLines, SplitOutputHashes;
    RewriteKeepsSurroundings(text, pins);
    BlockIsRead(pins);
  }

  /** Printed pins are read back exactly when they are well formed. */
  lemma {:induction false} RoundTrip(text: string, pins: seq<Pin>)
    requires SplitOutputHashes(text).Some?
    ensures RewritePins(text, pins).Some?
    ensures Pins(RewritePins(text, pins).value) == pins <==> AllWellFormed(pins)
  {
    hide AllWellFormed, SplitOutputHashes, Pins, BlockText;
    PinsAreWellFormed(RewritePins(text, pins).value);
    if AllWellFormed(pins) {
      WellFormedComesBack(text, pins);
    }
  }
}
