/** The git dependencies a Cargo lock file names, gathered by repository and commit. */
module LockFile {
  import opened Wrappers
  import opened Text
  import opened NixPins
  import opened NixRevisions

  const PACKAGE: string := "[[package]]"

  datatype GitPackage = GitPackage(repo: string, rev: string, key: string)

  // ---- Reading one package ----

  /** The pieces between the occurrences of a pattern. */
  function SplitAll(s: string, pattern: string): (pieces: seq<string>)
    requires pattern != ""
    ensures pieces != []
    decreases |s|
  {
    SplitOnceIsFirst(s, pattern);
    match SplitOnce(s, pattern)
    case None => [s]
    case Some((before, after)) => [before] + SplitAll(after, pattern)
  }

  function FirstWithPrefix(lines: seq<string>, prefix: string): Option<string> {
    if lines == [] then None
    else if prefix <= lines[0] then Some(lines[0][|prefix|..])
    else FirstWithPrefix(lines[1..], prefix)
  }

  function Field(block: string, name: string): Option<string> {
    var rest :- FirstWithPrefix(TextLines(block), name + " = \"");
    Some(Split(rest, '"')[0])
  }

  /** Text without any copies of a suffix. */
  function TrimSuffix(s: string, suffix: string): string
    requires suffix != ""
    decreases |s|
  {
    if |suffix| <= |s| && s[|s| - |suffix|..] == suffix then TrimSuffix(s[..|s| - |suffix|], suffix) else s
  }

  function RepoName(url: string): string {
    var path := TrimSuffix(TrimSuffix(Split(url, '?')[0], "/"), ".git");
    var parts := Split(path, '/');
    parts[|parts| - 1]
  }

  function ReadPackage(block: string): Option<GitPackage> {
    var name :- Field(block, "name");
    var version :- Field(block, "version");
    var source :- Field(block, "source");
    if !("git+" <= source) then None else
    var (url, rev) :- SplitOnce(source[4..], "#");
    Some(GitPackage(RepoName(url), rev, name + "-" + version))
  }

  /** The git packages of some blocks, in order. */
  function GitPackages(blocks: seq<string>): seq<GitPackage> {
    if blocks == [] then [] else
    var before := GitPackages(blocks[..|blocks| - 1]);
    match ReadPackage(blocks[|blocks| - 1])
    case None => before
    case Some(package) => before + [package]
  }

  // ---- Gathering ----

  predicate From(source: GitSource, package: GitPackage) {
    source.name == package.repo && source.rev == package.rev
  }

  /** The first source for a package, or the number of sources. */
  function SourceOf(sources: seq<GitSource>, package: GitPackage): (i: nat)
    ensures i <= |sources| && (i < |sources| ==> From(sources[i], package))
    ensures forall k :: 0 <= k < i ==> !From(sources[k], package)
  {
    if sources == [] || From(sources[0], package) then 0 else 1 + SourceOf(sources[1..], package)
  }

  function Added(sources: seq<GitSource>, package: GitPackage): seq<GitSource> {
    var i := SourceOf(sources, package);
    if i < |sources| then sources[i := sources[i].(packages := sources[i].packages + [package.key])]
    else sources + [GitSource(package.repo, package.rev, [package.key])]
  }

  function Gathered(packages: seq<GitPackage>): seq<GitSource> {
    if packages == [] then [] else Added(Gathered(packages[..|packages| - 1]), packages[|packages| - 1])
  }

  function GitSources(lock: string): seq<GitSource> {
    Gathered(GitPackages(SplitAll(lock, PACKAGE)[1..]))
  }

  method Add(sources: seq<GitSource>, package: GitPackage) returns (added: seq<GitSource>)
    ensures added == Added(sources, package)
  {
    for i := 0 to |sources|
      invariant forall k :: 0 <= k < i ==> !From(sources[k], package)
    {
      if From(sources[i], package) {
        assert SourceOf(sources, package) == i;
        return sources[i := sources[i].(packages := sources[i].packages + [package.key])];
      }
    }
    added := sources + [GitSource(package.repo, package.rev, [package.key])];
  }

  method ReadGitSources(lock: string) returns (sources: seq<GitSource>)
    ensures sources == GitSources(lock)
  {
    hide ReadPackage, SplitAll, Added;
    var blocks := SplitAll(lock, PACKAGE)[1..];
    sources := [];
    for i := 0 to |blocks|
      invariant sources == Gathered(GitPackages(blocks[..i]))
    {
      assert blocks[..i + 1][..i] == blocks[..i];
      var found := ReadPackage(blocks[i]);
      if found.None? {
        continue;
      }
      ghost var before := GitPackages(blocks[..i]);
      assert (before + [found.value])[..|before|] == before;
      sources := Add(sources, found.value);
    }
    assert blocks[..|blocks|] == blocks;
  }

  /** The keys of the packages taken from one commit of one repository, in order. */
  function KeysOf(packages: seq<GitPackage>, name: string, rev: string): seq<string> {
    if packages == [] then [] else
    var before, last := KeysOf(packages[..|packages| - 1], name, rev), packages[|packages| - 1];
    if last.repo == name && last.rev == rev then before + [last.key] else before
  }

  ghost predicate Faithful(sources: seq<GitSource>, packages: seq<GitPackage>) {
    && (forall i :: 0 <= i < |sources| ==> IsWhole(sources[i], packages))
    && (forall i, j :: 0 <= i < j < |sources| ==> !SameCommit(sources[i], sources[j]))
    && (forall k :: 0 <= k < |packages| ==> HasSource(sources, packages[k]))
  }

  ghost predicate IsWhole(source: GitSource, packages: seq<GitPackage>) {
    source.packages == KeysOf(packages, source.name, source.rev) != []
  }

  ghost predicate SameCommit(a: GitSource, b: GitSource) {
    a.name == b.name && a.rev == b.rev
  }

  ghost predicate HasSource(sources: seq<GitSource>, package: GitPackage) {
    exists i :: 0 <= i < |sources| && From(sources[i], package)
  }

  lemma {:induction false} NoKeysYet(sources: seq<GitSource>, packages: seq<GitPackage>, package: GitPackage)
    requires forall k :: 0 <= k < |packages| ==> HasSource(sources, packages[k])
    requires forall i :: 0 <= i < |sources| ==> !From(sources[i], package)
    ensures KeysOf(packages, package.repo, package.rev) == []
    decreases |packages|
  {
    if packages != [] {
      var before, last := packages[..|packages| - 1], packages[|packages| - 1];
      assert forall k :: 0 <= k < |before| ==> before[k] == packages[k];
      NoKeysYet(sources, before, package);
      assert HasSource(sources, last);
    }
  }

  lemma {:induction false} KeysMore(packages: seq<GitPackage>, last: GitPackage, name: string, rev: string)
    ensures KeysOf(packages + [last], name, rev)
         == KeysOf(packages, name, rev) + if last.repo == name && last.rev == rev then [last.key] else []
  {
    assert (packages + [last])[..|packages|] == packages;
  }

  lemma {:induction false} AddedIsFaithful(sources: seq<GitSource>, packages: seq<GitPackage>, package: GitPackage)
    requires Faithful(sources, packages)
    ensures Faithful(Added(sources, package), packages + [package])
  {
    var at, after, all := SourceOf(sources, package), Added(sources, package), packages + [package];
    if at == |sources| {
      NoKeysYet(sources, packages, package);
    }
    hide SourceOf, KeysOf, HasSource;
    forall i | 0 <= i < |after|
      ensures IsWhole(after[i], all)
    {
      KeysMore(packages, package, after[i].name, after[i].rev);
      assert i < |sources| ==> IsWhole(sources[i], packages);
      assert i < |sources| && i != at && at < |sources| ==> !SameCommit(sources[i], sources[at]) by {
        assert i < at && at < |sources| ==> !SameCommit(sources[i], sources[at]);
        assert at < i && i < |sources| ==> !SameCommit(sources[at], sources[i]);
      }
    }
    forall i, j | 0 <= i < j < |after|
      ensures !SameCommit(after[i], after[j])
    {
      assert j < |sources| ==> !SameCommit(sources[i], sources[j]);
    }
    SourcesKept(sources, packages, package);
  }

  lemma {:induction false} SourcesKept(sources: seq<GitSource>, packages: seq<GitPackage>, package: GitPackage)
    requires forall k :: 0 <= k < |packages| ==> HasSource(sources, packages[k])
    ensures forall k :: 0 <= k <= |packages| ==> HasSource(Added(sources, package), (packages + [package])[k])
  {
    var after, all := Added(sources, package), packages + [package];
    forall k | 0 <= k <= |packages|
      ensures HasSource(after, all[k])
    {
      if k < |packages| {
        assert HasSource(sources, packages[k]);
        var i :| 0 <= i < |sources| && From(sources[i], packages[k]);
        assert From(after[i], all[k]);
      } else {
        assert From(after[SourceOf(sources, package)], package);
      }
    }
  }

  /** Sources are distinct commits, each with all of its packages in order, and no git package is lost. */
  lemma {:induction false} GatheredIsFaithful(packages: seq<GitPackage>)
    ensures Faithful(Gathered(packages), packages)
  {
    hide Added, Faithful;
    if packages == [] {
      assert Faithful([], []) by { NothingIsFaithful(); }
    } else {
      var before := packages[..|packages| - 1];
      GatheredIsFaithful(before);
      AddedIsFaithful(Gathered(before), before, packages[|packages| - 1]);
      assert before + [packages[|packages| - 1]] == packages;
    }
  }

  lemma NothingIsFaithful()
    ensures Faithful([], [])
  {}

  // ---- Taking the hashes of a lock file ----

  lemma {:induction false} SeedNeedsPackages(pins: seq<Pin>, sources: seq<GitSource>)
    requires forall i :: 0 <= i < |sources| ==> sources[i].packages != []
    ensures Seed(pins, sources).Some?
    decreases |sources|
  {
    hide IsPinned;
    if sources != [] {
      var source := sources[0];
      SeedNeedsPackages(if IsPinned(pins, source) then pins
                        else pins + [Pin(source.packages[0], Some(source.rev), FakeHash())], sources[1..]);
    }
  }

  /** With the sources of a lock file, taking the hashes can only fail for want of a set to write or a pin to
      replace, and when it is done the check passes exactly when nothing pinned had left the lock file. */
  lemma {:induction false} LockedRun(text: string, lock: string, edits: seq<Edit>)
    requires WellFormedSources(GitSources(lock)) && CleanEdits(edits)
    ensures SeedPins(text, GitSources(lock)).Some? <==> SplitOutputHashes(text).Some?
    ensures var taken := TakeHashes(text, GitSources(lock), edits);
            && (edits == [] && SplitOutputHashes(text).Some? ==> taken.Some?)
            && (taken.Some? ==>
                  (CheckRevisions(taken.value, GitSources(lock)) <==> NoneStale(Pins(text), GitSources(lock))))
  {
    var packages := GitPackages(SplitAll(lock, PACKAGE)[1..]);
    var sources := GitSources(lock);
    GatheredIsFaithful(packages);
    forall i | 0 <= i < |sources|
      ensures sources[i].packages != []
    {
      assert IsWhole(sources[i], packages);
    }
    SeedNeedsPackages(Pins(text), sources);
    hide GitSources, SplitOutputHashes, CheckRevisions, NoneStale, Seed, Pins, WellFormedSources, CleanEdits, RecordRevisions;
    if SplitOutputHashes(text).Some? {
      RewriteSucceeds(text, Seed(Pins(text), sources).value);
      SeededText(text, sources);
      if edits == [] {
        RecordedText(SeedPins(text, sources).value, sources);
      }
    } else {
      RewriteSucceeds(text, Seed(Pins(text), sources).value);
    }
    if TakeHashes(text, sources, edits).Some? {
      CheckPassesAfterRun(text, sources, edits);
    }
  }

  lemma RewriteSucceeds(text: string, pins: seq<Pin>)
    ensures RewritePins(text, pins).Some? <==> SplitOutputHashes(text).Some?
  {}
}
