/** Keeping the pinned hashes in step with the lock file: seeding, replacing, recording and checking pins. */
module NixRevisions {
  import opened Wrappers
  import opened Text
  import opened NixPins

  /** The placeholder hash: the base-64 form of thirty-two zero octets. */
  function FakeHash(): string {
    "sha256-" + seq(43, _ => 'A') + "="
  }

  datatype GitSource = GitSource(name: string, rev: string, packages: seq<string>)

  predicate Holds(source: GitSource, key: string) {
    key in source.packages
  }

  /** The first source that holds a key. */
  function Holder(sources: seq<GitSource>, key: string): (source: Option<GitSource>)
    ensures source.Some? ==> source.value in sources && Holds(source.value, key)
    ensures source.None? ==> forall i :: 0 <= i < |sources| ==> !Holds(sources[i], key)
  {
    if sources == [] then None
    else if Holds(sources[0], key) then Some(sources[0])
    else Holder(sources[1..], key)
  }

  predicate IsPinned(pins: seq<Pin>, source: GitSource) {
    exists i :: 0 <= i < |pins| && Holds(source, pins[i].key)
  }

  // ---- The edits, on pins ----

  function Seed(pins: seq<Pin>, sources: seq<GitSource>): Option<seq<Pin>>
    decreases |sources|
  {
    if sources == [] then Some(pins)
    else if IsPinned(pins, sources[0]) then Seed(pins, sources[1..])
    else if sources[0].packages == [] then None
    else Seed(pins + [Pin(sources[0].packages[0], Some(sources[0].rev), FakeHash())], sources[1..])
  }

  function WithRev(pin: Pin, sources: seq<GitSource>): Pin {
    match Holder(sources, pin.key)
    case Some(source) => pin.(rev := Some(source.rev))
    case None => pin
  }

  function Record(pins: seq<Pin>, sources: seq<GitSource>): (recorded: seq<Pin>)
    ensures |recorded| == |pins|
  {
    seq(|pins|, i requires 0 <= i < |pins| => WithRev(pins[i], sources))
  }

  /** The first pin with a key, or the number of pins. */
  function IndexOf(pins: seq<Pin>, key: string): (i: nat)
    ensures i <= |pins| && (i < |pins| ==> pins[i].key == key)
    ensures forall k :: 0 <= k < i ==> pins[k].key != key
  {
    if pins == [] then 0 else if pins[0].key == key then 0 else 1 + IndexOf(pins[1..], key)
  }

  function Replace(pins: seq<Pin>, key: string, hash: string): Option<seq<Pin>> {
    var i := IndexOf(pins, key);
    if i == |pins| then None else Some(pins[i := pins[i].(hash := hash)])
  }

  // ---- The edits, on text ----

  function SeedPins(text: string, sources: seq<GitSource>): Option<string> {
    var pins :- Seed(Pins(text), sources);
    RewritePins(text, pins)
  }

  function RecordRevisions(text: string, sources: seq<GitSource>): Option<string> {
    RewritePins(text, Record(Pins(text), sources))
  }

  function ReplaceOutputHash(text: string, key: string, hash: string): Option<string> {
    var pins :- Replace(Pins(text), key, hash);
    RewritePins(text, pins)
  }

  method WriteSeeded(text: string, sources: seq<GitSource>) returns (seeded: Option<string>)
    ensures seeded == SeedPins(text, sources)
  {
    hide RewritePins, IsPinned;
    var pins := ReadPins(text);
    assert sources[0..] == sources;
    for i := 0 to |sources|
      invariant Seed(Pins(text), sources) == Seed(pins, sources[i..])
    {
      assert sources[i..][1..] == sources[i + 1..];
      if IsPinned(pins, sources[i]) {
        continue;
      }
      if sources[i].packages == [] {
        return None;
      }
      pins := pins + [Pin(sources[i].packages[0], Some(sources[i].rev), FakeHash())];
    }
    seeded := RewritePins(text, pins);
  }

  method WriteRecorded(text: string, sources: seq<GitSource>) returns (recorded: Option<string>)
    ensures recorded == RecordRevisions(text, sources)
  {
    hide RewritePins, WithRev;
    var pins := ReadPins(text);
    ghost var was := pins;
    for i := 0 to |pins|
      invariant |pins| == |was|
      invariant forall k :: 0 <= k < |pins| ==> pins[k] == if k < i then WithRev(was[k], sources) else was[k]
    {
      pins := pins[i := WithRev(pins[i], sources)];
    }
    assert pins == Record(was, sources);
    recorded := RewritePins(text, pins);
  }

  method WriteReplaced(text: string, key: string, hash: string) returns (replaced: Option<string>)
    ensures replaced == ReplaceOutputHash(text, key, hash)
  {
    hide RewritePins;
    var pins := ReadPins(text);
    for i := 0 to |pins|
      invariant forall k :: 0 <= k < i ==> pins[k].key != key
    {
      if pins[i].key == key {
        assert IndexOf(pins, key) == i;
        pins := pins[i := pins[i].(hash := hash)];
        return RewritePins(text, pins);
      }
    }
    replaced := None;
  }

  // ---- Checking ----

  predicate UpToDate(pin: Pin, sources: seq<GitSource>) {
    var source := Holder(sources, pin.key);
    source.Some? && pin.rev == Some(source.value.rev)
  }

  predicate CheckRevisions(text: string, sources: seq<GitSource>) {
    && (forall i :: 0 <= i < |sources| ==> IsPinned(Pins(text), sources[i]))
    && (forall i :: 0 <= i < |Pins(text)| ==> UpToDate(Pins(text)[i], sources))
  }

  method Check(text: string, sources: seq<GitSource>) returns (ok: bool)
    ensures ok == CheckRevisions(text, sources)
  {
    hide IsPinned, UpToDate, Pins;
    var pins := ReadPins(text);
    for i := 0 to |sources|
      invariant forall k :: 0 <= k < i ==> IsPinned(pins, sources[k])
    {
      if !IsPinned(pins, sources[i]) {
        return false;
      }
    }
    for i := 0 to |pins|
      invariant forall k :: 0 <= k < i ==> UpToDate(pins[k], sources)
    {
      if !UpToDate(pins[i], sources) {
        return false;
      }
    }
    ok := true;
  }

  // ---- What the edits keep ----

  /** The first source that takes the package `key` from git. */
  ghost predicate TakenFrom(sources: seq<GitSource>, key: string, i: int) {
    && 0 <= i < |sources| && key in sources[i].packages
    && forall j :: 0 <= j < i ==> key !in sources[j].packages
  }

  lemma {:induction false} HolderIsFirst(sources: seq<GitSource>, key: string)
    ensures forall i :: TakenFrom(sources, key, i) ==> Holder(sources, key) == Some(sources[i])
    ensures Holder(sources, key).Some? ==> exists i :: TakenFrom(sources, key, i)
  {
    if sources != [] {
      var rest := sources[1..];
      HolderIsFirst(rest, key);
      forall i | TakenFrom(sources, key, i)
        ensures Holder(sources, key) == Some(sources[i])
      {
        assert i > 0 ==> key !in sources[0].packages;
        assert forall j :: 0 <= j < i - 1 ==> rest[j] == sources[j + 1];
        assert i > 0 ==> TakenFrom(rest, key, i - 1);
      }
      if key in sources[0].packages {
        assert TakenFrom(sources, key, 0);
      } else if Holder(rest, key).Some? {
        var i :| TakenFrom(rest, key, i);
        assert forall j :: 1 <= j < i + 1 ==> sources[j] == rest[j - 1];
        assert TakenFrom(sources, key, i + 1);
      }
    }
  }

  ghost predicate AtItsCommit(pin: Pin, sources: seq<GitSource>) {
    exists i :: TakenFrom(sources, pin.key, i) && pin.rev == Some(sources[i].rev)
  }

  lemma {:induction false} UpToDateIsExact(pin: Pin, sources: seq<GitSource>)
    ensures UpToDate(pin, sources) <==> AtItsCommit(pin, sources)
  {
    HolderIsFirst(sources, pin.key);
    hide Holder, TakenFrom;
  }

  ghost predicate HasPin(pins: seq<Pin>, source: GitSource) {
    exists k :: 0 <= k < |pins| && pins[k].key in source.packages
  }

  /** The check passes exactly when every source has a pin and every pin was taken at the commit of the first source
      its package comes from. */
  lemma {:induction false} CheckIsExact(text: string, sources: seq<GitSource>)
    ensures CheckRevisions(text, sources) <==>
            && (forall i :: 0 <= i < |sources| ==> HasPin(Pins(text), sources[i]))
            && (forall k :: 0 <= k < |Pins(text)| ==> AtItsCommit(Pins(text)[k], sources))
  {
    hide UpToDate, AtItsCommit, Pins;
    forall pin: Pin
      ensures UpToDate(pin, sources) <==> AtItsCommit(pin, sources)
    {
      UpToDateIsExact(pin, sources);
    }
    forall source
      ensures IsPinned(Pins(text), source) <==> HasPin(Pins(text), source)
    {
      if IsPinned(Pins(text), source) {
        var k :| 0 <= k < |Pins(text)| && Holds(source, Pins(text)[k].key);
        assert Pins(text)[k].key in source.packages;
      }
      if HasPin(Pins(text), source) {
        var k :| 0 <= k < |Pins(text)| && Pins(text)[k].key in source.packages;
        assert Holds(source, Pins(text)[k].key);
      }
    }
    hide IsPinned, HasPin;
  }

  /** Recording gives a pin the commit of the first source its package comes from, and leaves a pin without one. */
  lemma {:induction false} RecordIsExact(pins: seq<Pin>, sources: seq<GitSource>, k: nat)
    requires k < |pins|
    ensures var pin, recorded := pins[k], Record(pins, sources)[k];
            && (forall i :: TakenFrom(sources, pin.key, i) ==> recorded == Pin(pin.key, Some(sources[i].rev), pin.hash))
            && ((forall i :: !TakenFrom(sources, pin.key, i)) ==> recorded == pin)
  {
    var pin := pins[k];
    HolderIsFirst(sources, pin.key);
    assert Record(pins, sources)[k] == WithRev(pin, sources);
    hide Holder, TakenFrom;
    if Holder(sources, pin.key).Some? {
      var i :| TakenFrom(sources, pin.key, i);
    }
  }

  ghost predicate AddedFor(seeded: seq<Pin>, k: int, sources: seq<GitSource>, i: int)
    requires 0 <= k < |seeded|
  {
    && 0 <= i < |sources| && sources[i].packages != []
    && !HasPin(seeded[..k], sources[i])
    && seeded[k].key == sources[i].packages[0] && seeded[k].rev == Some(sources[i].rev)
    && IsPlaceholder(seeded[k].hash)
  }

  /** `sha256-`, forty-three times A and an equals sign. */
  ghost predicate IsPlaceholder(hash: string) {
    && |hash| == 51 && hash[..7] == "sha256-" && hash[50] == '='
    && forall k :: 7 <= k < 50 ==> hash[k] == 'A'
  }

  lemma FakeHashIsPlaceholder()
    ensures IsPlaceholder(FakeHash())
  {}

  /** Every pin added by seeding is a placeholder for a source that had none, named after its first package. */
  lemma {:induction false} SeededIsExact(pins: seq<Pin>, sources: seq<GitSource>, k: nat)
    requires Seed(pins, sources).Some? && |pins| <= k < |Seed(pins, sources).value|
    ensures exists i :: AddedFor(Seed(pins, sources).value, k, sources, i)
    decreases |sources|
  {
    SeedKeepsPins(pins, sources);
    var seeded, source := Seed(pins, sources).value, sources[0];
    FakeHashIsPlaceholder();
    hide FakeHash;
    if IsPinned(pins, source) {
      SeededIsExact(pins, sources[1..], k);
      var i :| AddedFor(seeded, k, sources[1..], i);
      assert AddedFor(seeded, k, sources, i + 1);
    } else {
      var pin := Pin(source.packages[0], Some(source.rev), FakeHash());
      SeedKeepsPins(pins + [pin], sources[1..]);
      if k == |pins| {
        assert seeded[..k] == pins && seeded[k] == (pins + [pin])[k] == pin;
        assert forall j :: 0 <= j < |pins| ==> !Holds(source, pins[j].key);
        assert AddedFor(seeded, k, sources, 0);
      } else {
        SeededIsExact(pins + [pin], sources[1..], k);
        var i :| AddedFor(seeded, k, sources[1..], i);
        assert AddedFor(seeded, k, sources, i + 1);
      }
    }
  }

  ghost predicate WellFormedSource(source: GitSource) {
    CleanRev(source.rev) && forall i :: 0 <= i < |source.packages| ==> IsKey(source.packages[i])
  }

  ghost predicate IsKey(key: string) {
    CleanQuoted(key) && !Occurs(key, EQUALS)
  }

  ghost predicate WellFormedSources(sources: seq<GitSource>) {
    forall i :: 0 <= i < |sources| ==> WellFormedSource(sources[i])
  }

  lemma CloseHasBrace(s: string)
    ensures Occurs(s, CLOSE) ==> '}' in s
  {
    if Occurs(s, CLOSE) {
      var i: nat :| i <= |s| && OccursAt(s, CLOSE, i);
      assert s[i] == s[i..i + 2][0];
    }
  }

  lemma FakeHashIsClean()
    ensures CleanQuoted(FakeHash())
  {
    CloseHasBrace(FakeHash());
  }

  lemma {:induction false} SeedKeepsPins(pins: seq<Pin>, sources: seq<GitSource>)
    requires Seed(pins, sources).Some?
    ensures pins <= Seed(pins, sources).value
    decreases |sources|
  {
    hide IsPinned;
    if sources != [] {
      var edited := if IsPinned(pins, sources[0]) then pins
                  else pins + [Pin(sources[0].packages[0], Some(sources[0].rev), FakeHash())];
      SeedKeepsPins(edited, sources[1..]);
    }
  }

  lemma IsPinnedGrows(pins: seq<Pin>, more: seq<Pin>, source: GitSource)
    requires pins <= more && IsPinned(pins, source)
    ensures IsPinned(more, source)
  {
    var i :| 0 <= i < |pins| && Holds(source, pins[i].key);
    assert more[i] == pins[i];
  }

  /** After seeding every source has a pin. */
  lemma {:induction false} SeedPinsAll(pins: seq<Pin>, sources: seq<GitSource>, i: nat)
    requires Seed(pins, sources).Some? && i < |sources|
    ensures IsPinned(Seed(pins, sources).value, sources[i])
    decreases |sources|
  {
    var source := sources[0];
    var more := if IsPinned(pins, source) then pins else pins + [Pin(source.packages[0], Some(source.rev), FakeHash())];
    assert IsPinned(more, source) by {
      assert !IsPinned(pins, source) ==> Holds(source, more[|pins|].key);
    }
    hide IsPinned;
    if i == 0 {
      SeedKeepsPins(more, sources[1..]);
      IsPinnedGrows(more, Seed(pins, sources).value, source);
    } else {
      SeedPinsAll(more, sources[1..], i - 1);
    }
  }

  ghost predicate Held(pin: Pin, sources: seq<GitSource>) {
    Holder(sources, pin.key).Some?
  }

  ghost predicate NoneStale(pins: seq<Pin>, sources: seq<GitSource>) {
    forall i :: 0 <= i < |pins| ==> Held(pins[i], sources)
  }

  /** Every seeded pin is well formed and belongs to a source of `all`. */
  lemma {:induction false} SeededPins(pins: seq<Pin>, sources: seq<GitSource>, all: seq<GitSource>)
    requires Seed(pins, sources).Some? && WellFormedSources(sources) && AllWellFormed(pins)
    requires forall i :: 0 <= i < |sources| ==> sources[i] in all
    ensures AllWellFormed(Seed(pins, sources).value)
    ensures NoneStale(Seed(pins, sources).value, all) <==> NoneStale(pins, all)
    decreases |sources|
  {
    if sources != [] {
      var source := sources[0];
      if IsPinned(pins, source) {
        hide IsPinned, WellFormedSource, Held, WellFormed;
        SeededPins(pins, sources[1..], all);
      } else {
        var pin := Pin(source.packages[0], Some(source.rev), FakeHash());
        assert IsKey(source.packages[0]);
        FakeHashIsClean();
        assert WellFormed(pin);
        assert Held(pin, all) by { assert Holds(source, pin.key); }
        hide IsPinned, WellFormedSource, Held, WellFormed, IsKey, CleanRev;
        assert NoneStale(pins + [pin], all) <==> NoneStale(pins, all) by { StaleMore(pins, pin, all); }
        SeededPins(pins + [pin], sources[1..], all);
      }
    }
  }

  lemma StaleMore(pins: seq<Pin>, pin: Pin, all: seq<GitSource>)
    requires Held(pin, all)
    ensures NoneStale(pins + [pin], all) <==> NoneStale(pins, all)
  {
    hide Held;
    var more := pins + [pin];
    forall i | 0 <= i < |pins|
      ensures more[i] == pins[i]
    {
    }
  }

  lemma {:induction false} RecordedPins(pins: seq<Pin>, sources: seq<GitSource>)
    requires AllWellFormed(pins) && WellFormedSources(sources)
    ensures AllWellFormed(Record(pins, sources))
  {
    forall i | 0 <= i < |pins|
      ensures WellFormed(WithRev(pins[i], sources))
    {
      var source := Holder(sources, pins[i].key);
      assert source.Some? ==> WellFormedSource(source.value);
      hide CleanQuoted, CleanRev, IsKey, Holder;
    }
  }

  /** One edit of a replacement step: the first pin with the key takes the hash, and nothing else changes. */
  lemma {:induction false} ReplaceChangesOneHash(text: string, key: string, hash: string)
    ensures var i, edited := IndexOf(Pins(text), key), ReplaceOutputHash(text, key, hash);
            && (edited.Some? <==> SplitOutputHashes(text).Some? && exists k :: 0 <= k < |Pins(text)| && Pins(text)[k].key == key)
            && (edited.Some? ==> i < |Pins(text)|)
            && (edited.Some? ==>
                  (Pins(edited.value) == Pins(text)[i := Pins(text)[i].(hash := hash)] <==> CleanQuoted(hash)))
            && (edited.Some? && CleanQuoted(hash) ==> SameAround(text, edited.value))
  {
    hide SplitOutputHashes, CleanQuoted, Occurs, ParseLines, BlockText;
    PinsAreWellFormed(text);
    var pins, i := Pins(text), IndexOf(Pins(text), key);
    NoneWithoutBlock(text);
    if i < |pins| {
      var after := pins[i := pins[i].(hash := hash)];
      ReplacedWellFormed(pins, i, hash);
      hide WellFormed, AllWellFormed, Pins;
      if SplitOutputHashes(text).Some? {
        RoundTrip(text, after);
        if CleanQuoted(hash) {
          RewriteKeepsSurroundings(text, after);
        }
      }
    }
  }

  ghost predicate SameAround(text: string, edited: string) {
    var a, b := SplitOutputHashes(text), SplitOutputHashes(edited);
    a.Some? && b.Some? && a.value.before == b.value.before && a.value.after == b.value.after
  }

  lemma NoneWithoutBlock(text: string)
    ensures SplitOutputHashes(text).None? ==> Pins(text) == []
  {}

  lemma {:induction false} ReplacedWellFormed(pins: seq<Pin>, i: nat, hash: string)
    requires i < |pins| && AllWellFormed(pins)
    ensures AllWellFormed(pins[i := pins[i].(hash := hash)]) <==> CleanQuoted(hash)
  {
    var after := pins[i := pins[i].(hash := hash)];
    assert WellFormed(after[i]) <==> CleanQuoted(hash);
    hide WellFormed, CleanQuoted;
    forall k | 0 <= k < |pins| && k != i
      ensures WellFormed(after[k])
    {
      assert after[k] == pins[k];
    }
  }

  // ---- A whole run ----

  datatype Edit = Edit(key: string, hash: string)

  /** The replacements of a run, each on the text the one before it wrote. */
  function ReplaceAll(text: string, edits: seq<Edit>): Option<string>
    decreases |edits|
  {
    if edits == [] then Some(text) else
    var edited :- ReplaceOutputHash(text, edits[0].key, edits[0].hash);
    ReplaceAll(edited, edits[1..])
  }

  /** With nothing taken from git there is nothing to write. */
  function TakeHashes(text: string, sources: seq<GitSource>, edits: seq<Edit>): Option<string> {
    if sources == [] then Some(text) else Taken(text, sources, edits)
  }

  function Taken(text: string, sources: seq<GitSource>, edits: seq<Edit>): Option<string> {
    var seeded :- SeedPins(text, sources);
    var replaced :- ReplaceAll(seeded, edits);
    RecordRevisions(replaced, sources)
  }

  ghost predicate SameKeys(a: seq<Pin>, b: seq<Pin>) {
    |a| == |b| && forall i :: 0 <= i < |a| ==> a[i].key == b[i].key
  }

  ghost predicate CleanEdits(edits: seq<Edit>) {
    forall i :: 0 <= i < |edits| ==> CleanQuoted(edits[i].hash)
  }

  lemma SameKeysAlike(a: seq<Pin>, b: seq<Pin>, sources: seq<GitSource>)
    requires SameKeys(a, b)
    ensures NoneStale(a, sources) <==> NoneStale(b, sources)
    ensures forall source :: IsPinned(a, source) <==> IsPinned(b, source)
  {
    assert NoneStale(a, sources) ==> forall i :: 0 <= i < |b| ==> Held(a[i], sources);
    assert NoneStale(b, sources) ==> forall i :: 0 <= i < |a| ==> Held(b[i], sources);
    forall source
      ensures IsPinned(a, source) <==> IsPinned(b, source)
    {
      assert IsPinned(a, source) ==> exists i :: 0 <= i < |b| && Holds(source, b[i].key) by {
        if IsPinned(a, source) {
          var i :| 0 <= i < |a| && Holds(source, a[i].key);
          assert Holds(source, b[i].key);
        }
      }
      if IsPinned(b, source) {
        var i :| 0 <= i < |b| && Holds(source, b[i].key);
        assert Holds(source, a[i].key);
      }
    }
  }

  lemma {:induction false} ReplaceAllKeepsKeys(text: string, edits: seq<Edit>)
    requires CleanEdits(edits) && ReplaceAll(text, edits).Some? && SplitOutputHashes(text).Some?
    ensures SameKeys(Pins(text), Pins(ReplaceAll(text, edits).value))
    ensures SameAround(text, ReplaceAll(text, edits).value)
    decreases |edits|
  {
    hide SplitOutputHashes, CleanQuoted, Pins, ReplaceOutputHash;
    if edits != [] {
      ReplaceChangesOneHash(text, edits[0].key, edits[0].hash);
      ReplaceAllKeepsKeys(ReplaceOutputHash(text, edits[0].key, edits[0].hash).value, edits[1..]);
    }
  }

  lemma {:induction false} RecordBringsUpToDate(pins: seq<Pin>, sources: seq<GitSource>)
    ensures var recorded := Record(pins, sources);
            && SameKeys(pins, recorded)
            && ((forall i :: 0 <= i < |recorded| ==> UpToDate(recorded[i], sources)) <==> NoneStale(pins, sources))
  {
    var recorded := Record(pins, sources);
    forall i | 0 <= i < |pins|
      ensures recorded[i].key == pins[i].key && (UpToDate(recorded[i], sources) <==> Held(pins[i], sources))
    {
    }
    hide UpToDate, Held, Record, WithRev;
  }

  lemma {:induction false} SeededText(text: string, sources: seq<GitSource>)
    requires WellFormedSources(sources) && SeedPins(text, sources).Some?
    ensures SplitOutputHashes(text).Some? && Seed(Pins(text), sources).Some?
    ensures Pins(SeedPins(text, sources).value) == Seed(Pins(text), sources).value
    ensures SameAround(text, SeedPins(text, sources).value)
    ensures NoneStale(Seed(Pins(text), sources).value, sources) <==> NoneStale(Pins(text), sources)
  {
    PinsAreWellFormed(text);
    hide SplitOutputHashes, Pins, Seed, WellFormedSource, WellFormed, Held, BlockText;
    var pins := Seed(Pins(text), sources).value;
    assert forall i :: 0 <= i < |sources| ==> sources[i] in sources;
    SeededPins(Pins(text), sources, sources);
    RoundTrip(text, pins);
    RewriteKeepsSurroundings(text, pins);
  }

  lemma {:induction false} RecordedText(text: string, sources: seq<GitSource>)
    requires WellFormedSources(sources) && SplitOutputHashes(text).Some?
    ensures RecordRevisions(text, sources).Some?
    ensures Pins(RecordRevisions(text, sources).value) == Record(Pins(text), sources)
    ensures SameAround(text, RecordRevisions(text, sources).value)
  {
    PinsAreWellFormed(text);
    hide SplitOutputHashes, Pins, Record, WellFormedSource, WellFormed, BlockText;
    RecordedPins(Pins(text), sources);
    RoundTrip(text, Record(Pins(text), sources));
    RewriteKeepsSurroundings(text, Record(Pins(text), sources));
  }

  lemma NothingHeld(pins: seq<Pin>)
    ensures (forall i :: 0 <= i < |pins| ==> UpToDate(pins[i], [])) <==> NoneStale(pins, [])
  {
    assert forall i :: 0 <= i < |pins| ==> !UpToDate(pins[i], []) && !Held(pins[i], []);
  }

  lemma {:induction false} CheckPassesAfterTaking(text: string, sources: seq<GitSource>, edits: seq<Edit>)
    requires WellFormedSources(sources) && CleanEdits(edits) && Taken(text, sources, edits).Some?
    ensures var taken := Taken(text, sources, edits).value;
            && (CheckRevisions(taken, sources) <==> NoneStale(Pins(text), sources))
            && SameAround(text, taken)
  {
    hide SplitOutputHashes, Pins, Record, WellFormedSources, CleanEdits, UpToDate, IsPinned, NoneStale, Seed, SameKeys,
         ReplaceAll, RecordRevisions, SeedPins;
    var seeded := SeedPins(text, sources).value;
    SeededText(text, sources);
    forall i | 0 <= i < |sources|
      ensures IsPinned(Pins(seeded), sources[i])
    {
      SeedPinsAll(Pins(text), sources, i);
    }
    ReplaceAllKeepsKeys(seeded, edits);
    var replaced := ReplaceAll(seeded, edits).value;
    SameKeysAlike(Pins(seeded), Pins(replaced), sources);
    RecordedText(replaced, sources);
    RecordBringsUpToDate(Pins(replaced), sources);
    SameKeysAlike(Pins(replaced), Record(Pins(replaced), sources), sources);
  }

  /** After a whole run the check passes exactly when the package pinned nothing the lock file had dropped. */
  lemma {:induction false} CheckPassesAfterRun(text: string, sources: seq<GitSource>, edits: seq<Edit>)
    requires WellFormedSources(sources) && CleanEdits(edits) && TakeHashes(text, sources, edits).Some?
    ensures var taken := TakeHashes(text, sources, edits).value;
            && (CheckRevisions(taken, sources) <==> NoneStale(Pins(text), sources))
            && (if sources == [] then taken == text else SameAround(text, taken))
  {
    if sources == [] {
      NothingHeld(Pins(text));
    } else {
      CheckPassesAfterTaking(text, sources, edits);
    }
  }
}
