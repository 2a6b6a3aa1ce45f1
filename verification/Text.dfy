/** Splitting, joining, searching and trimming text, and decimal numbers. */
module Text {
  import opened Wrappers

  function Split(s: string, sep: char): (parts: seq<string>)
    ensures |parts| >= 1
  {
    if s == "" then [""] else
    var rest := Split(s[1..], sep);
    if s[0] == sep then [""] + rest else [[s[0]] + rest[0]] + rest[1..]
  }

  function Join(parts: seq<string>, sep: char): string
    requires parts != []
  {
    if |parts| == 1 then parts[0] else parts[0] + [sep] + Join(parts[1..], sep)
  }

  lemma {:induction false} SplitAlone(s: string, sep: char)
    requires sep !in s
    ensures Split(s, sep) == [s]
  {
    if s != "" {
      SplitAlone(s[1..], sep);
      assert [s[0]] + s[1..] == s;
    }
  }

  lemma {:induction false} SplitFirst(s: string, sep: char, rest: string)
    requires sep !in s
    ensures Split(s + [sep] + rest, sep) == [s] + Split(rest, sep)
  {
    var all := s + [sep] + rest;
    if s == "" {
      assert all[1..] == rest;
    } else {
      SplitFirst(s[1..], sep, rest);
      assert all[1..] == s[1..] + [sep] + rest;
      assert [s[0]] + s[1..] == s;
      assert ([s[1..]] + Split(rest, sep))[1..] == Split(rest, sep);
    }
  }

  /** Splitting undoes joining when no part holds the separator. */
  lemma {:induction false} SplitUndoesJoin(parts: seq<string>, sep: char)
    requires parts != [] && (forall i :: 0 <= i < |parts| ==> sep !in parts[i])
    ensures Split(Join(parts, sep), sep) == parts
  {
    if |parts| == 1 {
      SplitAlone(parts[0], sep);
    } else {
      SplitUndoesJoin(parts[1..], sep);
      SplitFirst(parts[0], sep, Join(parts[1..], sep));
      assert [parts[0]] + parts[1..] == parts;
    }
  }

  lemma {:induction false} JoinMore(parts: seq<string>, sep: char, last: string)
    requires parts != []
    ensures Join(parts + [last], sep) == Join(parts, sep) + [sep] + last
  {
    var all := parts + [last];
    assert all[0] == parts[0] && all[1..] == parts[1..] + [last];
    if |parts| > 1 {
      JoinMore(parts[1..], sep, last);
    } else {
      assert all[1..] == [last];
    }
  }

  predicate IsDecimal(c: char) {
    '0' <= c <= '9'
  }

  function Decimal(n: nat): (s: string)
    ensures s != "" && forall i :: 0 <= i < |s| ==> IsDecimal(s[i])
    ensures |s| == 1 <==> n <= 9
  {
    var last := ('0' as nat + n % 10) as char;
    if n < 10 then [last] else Decimal(n / 10) + [last]
  }

  function ReadDecimal(s: string): Option<nat> {
    if s == "" then None else
    var c := s[|s| - 1];
    if !IsDecimal(c) then None else
    var digit := c as nat - '0' as nat;
    if |s| == 1 then Some(digit) else
    var high :- ReadDecimal(s[..|s| - 1]);
    Some(10 * high + digit)
  }

  lemma {:induction false} DecimalComesBack(n: nat)
    ensures ReadDecimal(Decimal(n)) == Some(n)
  {
    if n >= 10 {
      DecimalComesBack(n / 10);
      var s := Decimal(n);
      assert s[..|s| - 1] == Decimal(n / 10);
    }
  }

  // ---- Searching ----

  predicate OccursAt(s: string, pattern: string, i: nat) {
    i + |pattern| <= |s| && s[i..i + |pattern|] == pattern
  }

  predicate Occurs(s: string, pattern: string) {
    exists i: nat | i <= |s| :: OccursAt(s, pattern, i)
  }

  ghost predicate OccursFirst(s: string, pattern: string, at: nat) {
    OccursAt(s, pattern, at) && forall i: nat :: i < at ==> !OccursAt(s, pattern, i)
  }

  /** The text before and after the first occurrence of a pattern. */
  function SplitOnce(s: string, pattern: string): (r: Option<(string, string)>)
  {
    if pattern <= s then Some(("", s[|pattern|..]))
    else if s == "" then None
    else
      var (before, after) :- SplitOnce(s[1..], pattern);
      Some(([s[0]] + before, after))
  }

  lemma {:induction false} OccursLater(s: string, pattern: string, i: nat)
    requires s != ""
    ensures OccursAt(s, pattern, i + 1) == OccursAt(s[1..], pattern, i)
    ensures OccursAt(s, pattern, 0) == (pattern <= s)
  {
    if i + 1 + |pattern| <= |s| {
      assert s[1..][i..i + |pattern|] == s[i + 1..i + 1 + |pattern|];
    }
  }

  lemma {:induction false} OccursInTail(s: string, pattern: string)
    requires pattern != "" && s != "" && !(pattern <= s)
    ensures Occurs(s, pattern) <==> Occurs(s[1..], pattern)
  {
    hide OccursAt;
    if Occurs(s, pattern) {
      var i: nat :| i <= |s| && OccursAt(s, pattern, i);
      OccursLater(s, pattern, 0);
      OccursLater(s, pattern, i - 1);
    }
    if Occurs(s[1..], pattern) {
      var i: nat :| i <= |s[1..]| && OccursAt(s[1..], pattern, i);
      OccursLater(s, pattern, i);
    }
  }

  lemma {:induction false} FirstInTail(s: string, pattern: string, at: nat)
    requires pattern != "" && s != "" && !(pattern <= s) && OccursFirst(s[1..], pattern, at)
    ensures OccursFirst(s, pattern, at + 1)
  {
    hide OccursAt;
    OccursLater(s, pattern, at);
    forall i: nat | i < at + 1
      ensures !OccursAt(s, pattern, i)
    {
      OccursLater(s, pattern, if i == 0 then 0 else i - 1);
    }
  }

  lemma FoundAtOnce(s: string, pattern: string)
    requires pattern <= s
    ensures OccursFirst(s, pattern, 0) && Occurs(s, pattern) && s == "" + pattern + s[|pattern|..]
  {
    assert OccursAt(s, pattern, 0);
  }

  lemma NothingInEmpty(pattern: string)
    requires pattern != ""
    ensures !Occurs("", pattern)
  {}

  lemma Prepended(s: string, before: string, pattern: string, after: string)
    requires s != "" && s[1..] == before + pattern + after
    ensures s == [s[0]] + before + pattern + after
  {
    assert s == [s[0]] + s[1..];
  }

  /** Splitting finds the first occurrence, and fails exactly when there is none. */
  lemma {:induction false} SplitOnceIsFirst(s: string, pattern: string)
    requires pattern != ""
    ensures var r := SplitOnce(s, pattern);
            && (r.Some? <==> Occurs(s, pattern))
            && (r.Some? ==> s == r.value.0 + pattern + r.value.1 && OccursFirst(s, pattern, |r.value.0|))
    decreases |s|
  {
    hide OccursFirst, Occurs, OccursAt;
    if pattern <= s {
      FoundAtOnce(s, pattern);
    } else if s == "" {
      NothingInEmpty(pattern);
    } else {
      SplitOnceIsFirst(s[1..], pattern);
      OccursInTail(s, pattern);
      var r := SplitOnce(s[1..], pattern);
      if r.Some? {
        var (before, after) := r.value;
        FirstInTail(s, pattern, |before|);
        Prepended(s, before, pattern, after);
      }
    }
  }

  lemma {:induction false} FirstIsSplit(s: string, pattern: string, at: nat)
    requires pattern != "" && OccursFirst(s, pattern, at)
    ensures SplitOnce(s, pattern) == Some((s[..at], s[at + |pattern|..]))
  {
    SplitOnceIsFirst(s, pattern);
    var (before, after) := SplitOnce(s, pattern).value;
    assert !(|before| < at) && !(at < |before|);
    assert s[..at] == before && s[at + |pattern|..] == after;
  }

  /** What follows the first occurrence has no say in where it is. */
  lemma {:induction false} SplitElsewhere(s: string, pattern: string, rest: string)
    requires pattern != "" && SplitOnce(s, pattern).Some?
    ensures var before := SplitOnce(s, pattern).value.0;
            SplitOnce(before + pattern + rest, pattern) == Some((before, rest))
  {
    hide SplitOnce;
    SplitOnceIsFirst(s, pattern);
    var (before, after) := SplitOnce(s, pattern).value;
    var t := before + pattern + rest;
    forall i: nat | i < |before|
      ensures !OccursAt(t, pattern, i)
    {
      assert t[i..i + |pattern|] == s[i..i + |pattern|];
      assert !OccursAt(s, pattern, i);
    }
    assert t[|before|..|before| + |pattern|] == pattern;
    FirstIsSplit(t, pattern, |before|);
    assert t[..|before|] == before && t[|before| + |pattern|..] == rest;
  }

  // ---- Lines and white space ----

  /** Unicode white space. */
  predicate IsSpace(c: char) {
    var n := c as int;
    || 0x09 <= n <= 0x0D || n == 0x20 || n == 0x85 || n == 0xA0 || n == 0x1680 || 0x2000 <= n <= 0x200A
    || n == 0x2028 || n == 0x2029 || n == 0x202F || n == 0x205F || n == 0x3000
  }

  function TrimStart(s: string): string {
    if s != "" && IsSpace(s[0]) then TrimStart(s[1..]) else s
  }

  function TrimEnd(s: string): string {
    if s != "" && IsSpace(s[|s| - 1]) then TrimEnd(s[..|s| - 1]) else s
  }

  function Trim(s: string): string {
    TrimEnd(TrimStart(s))
  }

  predicate IsTrimmed(s: string) {
    s == "" || (!IsSpace(s[0]) && !IsSpace(s[|s| - 1]))
  }

  lemma {:induction false} TrimStartDrops(s: string) returns (i: nat)
    ensures i <= |s| && TrimStart(s) == s[i..]
    ensures TrimStart(s) != "" ==> !IsSpace(TrimStart(s)[0])
  {
    hide IsSpace;
    i := 0;
    if s != "" && IsSpace(s[0]) {
      var k := TrimStartDrops(s[1..]);
      i := k + 1;
      assert s[1..][k..] == s[i..];
    }
  }

  lemma {:induction false} TrimEndDrops(s: string)
    ensures TrimEnd(s) <= s
    ensures TrimEnd(s) != "" ==> !IsSpace(TrimEnd(s)[|TrimEnd(s)| - 1])
  {
    if s != "" && IsSpace(s[|s| - 1]) {
      TrimEndDrops(s[..|s| - 1]);
    }
  }

  /** Trimming leaves a part of the text with no space at either end. */
  lemma {:induction false} TrimIsTrimmed(s: string)
    ensures IsTrimmed(Trim(s)) && Occurs(s, Trim(s))
  {
    hide IsSpace, Occurs;
    var t := TrimStart(s);
    var i := TrimStartDrops(s);
    TrimEndDrops(t);
    hide TrimStart, TrimEnd;
    TailPrefixOccurs(s, i, Trim(s));
  }

  lemma TailPrefixOccurs(s: string, i: nat, part: string)
    requires i <= |s| && part <= s[i..]
    ensures Occurs(s, part)
  {
    assert s[i..][..|part|] == s[i..i + |part|];
    assert OccursAt(s, part, i);
  }

  lemma {:induction false} TrimNothing(s: string)
    requires IsTrimmed(s)
    ensures Trim(s) == s
  {}

  lemma {:induction false} TrimIndented(s: string, n: nat)
    requires IsTrimmed(s)
    ensures Trim(Spaces(n) + s) == s
  {
    if n == 0 {
      assert Spaces(0) + s == s;
      TrimNothing(s);
    } else {
      var t := Spaces(n) + s;
      assert t[1..] == Spaces(n - 1) + s && t[0] == ' ';
      TrimIndented(s, n - 1);
      assert TrimStart(t) == TrimStart(t[1..]);
    }
  }

  function Spaces(n: nat): string {
    seq(n, _ => ' ')
  }

  /** A line without its carriage return. */
  function Chop(line: string): string {
    if line != "" && line[|line| - 1] == '\r' then line[..|line| - 1] else line
  }

  /** The lines of text split at line feeds: a last line with no line feed counts unless it is empty. */
  function LinesOf(parts: seq<string>): seq<string>
    requires parts != []
  {
    if |parts| > 1 then [Chop(parts[0])] + LinesOf(parts[1..])
    else if parts[0] == "" then []
    else parts
  }

  function TextLines(s: string): seq<string> {
    LinesOf(Split(s, '\n'))
  }

  lemma {:induction false} FirstLine(line: string, rest: string)
    requires '\n' !in line && Chop(line) == line
    ensures TextLines(line + "\n" + rest) == [line] + TextLines(rest)
  {
    SplitFirst(line, '\n', rest);
    var parts := Split(rest, '\n');
    assert ([line] + parts)[1..] == parts;
    hide Split;
  }
}
