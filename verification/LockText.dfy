/** Lock files as Cargo writes them, and that the git packages read from one are the ones written. */
module LockText {
  import opened Wrappers
  import opened Text
  import opened NixRevisions
  import opened LockFile

  /** A repository's address: `repo` is the name it is known by, with the endings hosts allow. */
  datatype Url = Url(base: string, repo: string, git: bool, slash: bool, query: Option<string>)

  datatype Source = Git(url: Url, rev: string) | Elsewhere(from: string) | Local

  /** One package: its name, version and source, and whatever lines follow. */
  datatype Entry = Entry(name: string, version: string, source: Source, rest: seq<string>)

  function PathText(u: Url): string {
    u.base + "/" + u.repo + (if u.git then ".git" else "") + (if u.slash then "/" else "")
  }

  function UrlText(u: Url): string {
    PathText(u) + match u.query case None => "" case Some(query) => "?" + query
  }

  function GitText(u: Url, rev: string): string {
    "git+" + UrlText(u) + "#" + rev
  }

  function FieldLine(name: string, value: string): string {
    name + " = \"" + value + "\""
  }

  function SourceLines(source: Source): seq<string> {
    match source
    case Git(url, rev) => [FieldLine("source", GitText(url, rev))]
    case Elsewhere(from) => [FieldLine("source", from)]
    case Local => []
  }

  function EntryLines(e: Entry): seq<string> {
    [FieldLine("name", e.name), FieldLine("version", e.version)] + SourceLines(e.source) + e.rest
  }

  function Unlines(lines: seq<string>): string {
    if lines == [] then "" else lines[0] + "\n" + Unlines(lines[1..])
  }

  function EntryText(e: Entry): string {
    "\n" + Unlines(EntryLines(e))
  }

  function Blocks(entries: seq<Entry>): string {
    if entries == [] then "" else "[[package]]" + EntryText(entries[0]) + Blocks(entries[1..])
  }

  function LockOf(header: string, entries: seq<Entry>): string {
    header + Blocks(entries)
  }

  // ---- What can be written ----

  ghost predicate Plain(s: string) {
    '"' !in s && '\n' !in s
  }

  ghost predicate EndsIn(s: string, suffix: string) {
    |suffix| <= |s| && s[|s| - |suffix|..] == suffix
  }

  ghost predicate GoodUrl(u: Url) {
    && Plain(u.base) && '#' !in u.base && '?' !in u.base
    && Plain(u.repo) && '#' !in u.repo && '?' !in u.repo && '/' !in u.repo && u.repo != "" && !EndsIn(u.repo, ".git")
    && (u.query.Some? ==> Plain(u.query.value) && '#' !in u.query.value)
  }

  ghost predicate GoodLine(line: string) {
    '\n' !in line && Chop(line) == line
  }

  ghost predicate GoodEntry(e: Entry) {
    && Plain(e.name) && Plain(e.version)
    && (match e.source
        case Git(url, rev) => GoodUrl(url) && Plain(rev)
        case Elsewhere(from) => Plain(from) && !("git+" <= from)
        case Local => forall k :: 0 <= k < |e.rest| ==> !("source = \"" <= e.rest[k]))
    && (forall k :: 0 <= k < |e.rest| ==> GoodLine(e.rest[k]))
    && !Occurs(EntryText(e), PACKAGE)
  }

  /** The git package an entry stands for. */
  function Meant(e: Entry): Option<GitPackage> {
    match e.source
    case Git(url, rev) => Some(GitPackage(url.repo, rev, e.name + "-" + e.version))
    case _ => None
  }

  function AllMeant(entries: seq<Entry>): seq<GitPackage> {
    if entries == [] then [] else
    (match Meant(entries[0]) case None => [] case Some(package) => [package]) + AllMeant(entries[1..])
  }

  // ---- Lines ----

  lemma {:induction false} LinesComeBack(lines: seq<string>)
    requires forall k :: 0 <= k < |lines| ==> GoodLine(lines[k])
    ensures TextLines(Unlines(lines)) == lines
  {
    if lines == [] {
      NoLines();
    } else {
      LinesComeBack(lines[1..]);
      FirstLine(lines[0], Unlines(lines[1..]));
      hide TextLines, Chop;
      assert lines == [lines[0]] + lines[1..];
    }
  }

  lemma NoLines()
    ensures TextLines("") == []
  {}

  lemma {:induction false} EntryLinesComeBack(e: Entry)
    requires forall k :: 0 <= k < |EntryLines(e)| ==> GoodLine(EntryLines(e)[k])
    ensures TextLines(EntryText(e)) == [""] + EntryLines(e)
  {
    LinesComeBack(EntryLines(e));
    FirstLine("", Unlines(EntryLines(e)));
    hide TextLines, EntryLines, Unlines;
    assert "" + "\n" + Unlines(EntryLines(e)) == EntryText(e);
  }

  lemma FieldLineIsGood(name: string, value: string)
    requires '\n' !in name && '\n' !in value
    ensures GoodLine(FieldLine(name, value))
  {}

  lemma {:induction false} PrefixAt(lines: seq<string>, prefix: string, k: nat)
    requires k < |lines| && prefix <= lines[k] && forall j :: 0 <= j < k ==> !(prefix <= lines[j])
    ensures FirstWithPrefix(lines, prefix) == Some(lines[k][|prefix|..])
  {
    if k > 0 {
      PrefixAt(lines[1..], prefix, k - 1);
    }
  }

  lemma {:induction false} NoPrefix(lines: seq<string>, prefix: string)
    requires forall j :: 0 <= j < |lines| ==> !(prefix <= lines[j])
    ensures FirstWithPrefix(lines, prefix) == None
  {
    if lines != [] {
      NoPrefix(lines[1..], prefix);
    }
  }

  lemma {:induction false} FieldComesBack(block: string, lines: seq<string>, name: string, value: string, k: nat)
    requires TextLines(block) == lines && k < |lines| && lines[k] == FieldLine(name, value) && '"' !in value
    requires forall j :: 0 <= j < k ==> !(name + " = \"" <= lines[j])
    ensures Field(block, name) == Some(value)
  {
    hide TextLines, FirstWithPrefix;
    var prefix := name + " = \"";
    assert lines[k] == prefix + (value + "\"");
    PrefixAt(lines, prefix, k);
    assert lines[k][|prefix|..] == value + "\"" == value + ['"'] + "";
    SplitFirst(value, '"', "");
    hide Split;
  }

  // ---- Addresses ----

  lemma {:induction false} MarkSplits(a: string, c: char, b: string)
    requires c !in a
    ensures SplitOnce(a + [c] + b, [c]) == Some((a, b))
  {
    var s := a + [c] + b;
    if a == "" {
      assert s[1..] == b;
    } else {
      assert s[0] == a[0] && s[1..] == a[1..] + [c] + b;
      MarkSplits(a[1..], c, b);
      assert [a[0]] + a[1..] == a;
    }
  }

  lemma {:induction false} TrimOne(s: string, suffix: string)
    requires suffix != "" && !EndsIn(s, suffix)
    ensures TrimSuffix(s, suffix) == s && TrimSuffix(s + suffix, suffix) == s
  {
    var t := s + suffix;
    assert t[|t| - |suffix|..] == suffix && t[..|t| - |suffix|] == s;
    assert TrimSuffix(t, suffix) == TrimSuffix(s, suffix);
  }

  lemma DoesNotEnd(base: string, repo: string)
    requires '/' !in repo && repo != "" && !EndsIn(repo, ".git")
    ensures !EndsIn(base + "/" + repo, "/") && !EndsIn(base + "/" + repo, ".git")
    ensures !EndsIn(base + "/" + repo + ".git", "/")
  {
    var s := base + "/" + repo;
    assert s[|s| - 1..] == [repo[|repo| - 1]];
    assert (s + ".git")[|s| + 3..] == "t";
    if |repo| < 4 {
      assert |s| >= 4 ==> s[|s| - 4..][3 - |repo|] == '/';
    } else {
      assert s[|s| - 4..] == repo[|repo| - 4..];
    }
  }

  lemma {:induction false} LastOfPath(base: string, repo: string)
    requires '/' !in repo
    ensures var parts := Split(base + "/" + repo, '/'); parts[|parts| - 1] == repo
    decreases |base|
  {
    var s := base + "/" + repo;
    if base == "" {
      assert s == "" + ['/'] + repo;
      SplitFirst("", '/', repo);
      SplitAlone(repo, '/');
    } else {
      assert s[0] == base[0] && s[1..] == base[1..] + "/" + repo;
      LastOfPath(base[1..], repo);
      LastTwo(base[1..], repo);
    }
  }

  lemma {:induction false} LastTwo(base: string, repo: string)
    ensures |Split(base + "/" + repo, '/')| >= 2
    decreases |base|
  {
    var s := base + "/" + repo;
    if base == "" {
      assert s == "" + ['/'] + repo;
      SplitFirst("", '/', repo);
    } else {
      assert s[0] == base[0] && s[1..] == base[1..] + "/" + repo;
      LastTwo(base[1..], repo);
    }
  }

  lemma {:induction false} BeforeQuery(u: Url)
    requires GoodUrl(u)
    ensures Split(UrlText(u), '?')[0] == PathText(u)
  {
    var path := PathText(u);
    assert '?' !in path;
    match u.query {
      case None =>
        assert UrlText(u) == path;
        SplitAlone(path, '?');
      case Some(query) =>
        assert UrlText(u) == path + ['?'] + query;
        SplitFirst(path, '?', query);
    }
  }

  lemma {:induction false} RepoComesBack(u: Url)
    requires GoodUrl(u)
    ensures RepoName(UrlText(u)) == u.repo
  {
    BeforeQuery(u);
    DoesNotEnd(u.base, u.repo);
    hide UrlText, TrimSuffix;
    var plain := u.base + "/" + u.repo;
    var named := plain + if u.git then ".git" else "";
    assert PathText(u) == named + if u.slash then "/" else "";
    assert plain + "" == plain && named + "" == named;
    TrimOne(named, "/");
    TrimOne(plain, ".git");
    LastOfPath(u.base, u.repo);
    hide Split, PathText;
  }

  // ---- Packages ----

  lemma {:induction false} FieldLinesDiffer(value: string)
    ensures !("version = \"" <= FieldLine("name", value)) && !("source = \"" <= FieldLine("name", value))
    ensures !("source = \"" <= FieldLine("version", value))
  {
    assert FieldLine("name", value)[0] == 'n' && FieldLine("version", value)[0] == 'v';
  }

  lemma {:induction false} EntryLinesAreGood(e: Entry)
    requires GoodEntry(e)
    ensures forall k :: 0 <= k < |EntryLines(e)| ==> GoodLine(EntryLines(e)[k])
  {
    FieldLineIsGood("name", e.name);
    FieldLineIsGood("version", e.version);
    match e.source {
      case Git(url, rev) => FieldLineIsGood("source", GitText(url, rev));
      case Elsewhere(from) => FieldLineIsGood("source", from);
      case Local =>
    }
    hide GoodLine, FieldLine;
  }

  lemma {:induction false} NameAndVersion(e: Entry)
    requires GoodEntry(e)
    ensures Field(EntryText(e), "name") == Some(e.name) && Field(EntryText(e), "version") == Some(e.version)
    ensures e.source.Local? ==> Field(EntryText(e), "source") == None
  {
    EntryLinesAreGood(e);
    EntryLinesComeBack(e);
    var block, lines := EntryText(e), [""] + EntryLines(e);
    assert lines[1] == FieldLine("name", e.name) && lines[2] == FieldLine("version", e.version);
    FieldLinesDiffer(e.name);
    FieldLinesDiffer(e.version);
    assert '"' !in e.name && '"' !in e.version;
    assert e.source.Local? ==> lines == ["", FieldLine("name", e.name), FieldLine("version", e.version)] + e.rest;
    hide FieldLine, GoodLine, EntryText, TextLines, Unlines;
    assert "name" + " = \"" == "name = \"" && "version" + " = \"" == "version = \"" && "source" + " = \"" == "source = \"";
    FieldComesBack(block, lines, "name", e.name, 1);
    FieldComesBack(block, lines, "version", e.version, 2);
    if e.source.Local? {
      NoPrefix(lines, "source = \"");
    }
  }

  lemma {:induction false} SourceIsRead(e: Entry, source: string)
    requires GoodEntry(e) && '"' !in source && SourceLines(e.source) == [FieldLine("source", source)]
    ensures Field(EntryText(e), "source") == Some(source)
  {
    EntryLinesAreGood(e);
    EntryLinesComeBack(e);
    var block, lines := EntryText(e), [""] + EntryLines(e);
    assert lines[1] == FieldLine("name", e.name) && lines[2] == FieldLine("version", e.version);
    assert lines[3] == FieldLine("source", source);
    FieldLinesDiffer(e.name);
    FieldLinesDiffer(e.version);
    hide FieldLine, GoodLine, EntryText, TextLines, Unlines, EntryLines;
    assert "source" + " = \"" == "source = \"";
    FieldComesBack(block, lines, "source", source, 3);
  }

  lemma {:induction false} GitSourceIsRead(url: Url, rev: string)
    requires GoodUrl(url) && Plain(rev)
    ensures var source := GitText(url, rev);
            && '"' !in source && "git+" <= source && SplitOnce(source[4..], "#") == Some((UrlText(url), rev))
  {
    var text, source := UrlText(url), GitText(url, rev);
    assert '"' !in text && '#' !in text;
    hide UrlText;
    assert source[4..] == text + ['#'] + rev;
    MarkSplits(text, '#', rev);
  }

  lemma GitFields(block: string, name: string, version: string, source: string, url: string, rev: string)
    requires Field(block, "name") == Some(name) && Field(block, "version") == Some(version)
    requires Field(block, "source") == Some(source)
    requires "git+" <= source && SplitOnce(source[4..], "#") == Some((url, rev))
    ensures ReadPackage(block) == Some(GitPackage(RepoName(url), rev, name + "-" + version))
  {
    hide Field, SplitOnce, RepoName;
  }

  lemma OtherFields(block: string)
    requires Field(block, "source").Some? ==> !("git+" <= Field(block, "source").value)
    ensures ReadPackage(block) == None
  {
    hide Field, SplitOnce, RepoName;
  }

  /** A package is read from its entry as the package it is. */
  lemma {:induction false} PackageIsRead(e: Entry)
    requires GoodEntry(e)
    ensures ReadPackage(EntryText(e)) == Meant(e)
  {
    NameAndVersion(e);
    hide EntryText, Field, RepoName, UrlText, GitText, SplitOnce, GoodUrl, ReadPackage, FieldLine, Occurs, GoodLine;
    match e.source {
      case Git(url, rev) =>
        GitSourceIsRead(url, rev);
        RepoComesBack(url);
        SourceIsRead(e, GitText(url, rev));
        GitFields(EntryText(e), e.name, e.version, GitText(url, rev), UrlText(url), rev);
      case Elsewhere(from) =>
        SourceIsRead(e, from);
        OtherFields(EntryText(e));
      case Local =>
        OtherFields(EntryText(e));
    }
  }

  // ---- Whole files ----

  /** The mark between packages does not overlap itself, so it is not found across the end of a block. */
  lemma {:induction false} BlockEnds(block: string, rest: string)
    requires !Occurs(block, "[[package]]")
    ensures SplitOnce(block + "[[package]]" + rest, "[[package]]") == Some((block, rest))
  {
    var mark := "[[package]]";
    var s := block + mark + rest;
    forall i: nat | i < |block|
      ensures !OccursAt(s, mark, i)
    {
      assert !OccursAt(block, mark, i);
      if i + 11 <= |block| {
        assert s[i..i + 11] == block[i..i + 11];
      } else {
        MarkStartsOnce(s, i, |block|);
      }
    }
    assert s[|block|..|block| + 11] == mark;
    FirstIsSplit(s, mark, |block|);
    assert s[..|block|] == block && s[|block| + 11..] == rest;
  }

  lemma MarkStartsOnce(s: string, i: nat, n: nat)
    requires i < n < i + 11 && OccursAt(s, "[[package]]", n)
    ensures !OccursAt(s, "[[package]]", i)
  {
    var mark := "[[package]]";
    assert s[n..n + 11][0] == s[n] && s[n..n + 11][1] == s[n + 1] && s[n..n + 11][2] == s[n + 2];
    assert s[i..i + 11][n - i] == s[n];
    assert n - i < 10 ==> s[i..i + 11][n - i + 1] == s[n + 1];
    assert mark[n - i] == '[' ==> n - i == 1;
  }

  lemma {:induction false} LastBlock(block: string)
    requires !Occurs(block, "[[package]]")
    ensures SplitAll(block, "[[package]]") == [block]
  {
    SplitOnceIsFirst(block, "[[package]]");
    hide SplitOnce, Occurs;
  }

  function Texts(entries: seq<Entry>): seq<string> {
    if entries == [] then [] else [EntryText(entries[0])] + Texts(entries[1..])
  }

  lemma {:induction false} BlocksComeBack(first: string, entries: seq<Entry>)
    requires !Occurs(first, "[[package]]") && forall k :: 0 <= k < |entries| ==> GoodEntry(entries[k])
    ensures SplitAll(LockOf(first, entries), "[[package]]") == [first] + Texts(entries)
    decreases |entries|
  {
    hide Occurs, SplitOnce, EntryText;
    if entries == [] {
      assert LockOf(first, entries) == first;
      LastBlock(first);
    } else {
      assert GoodEntry(entries[0]);
      var rest := LockOf(EntryText(entries[0]), entries[1..]);
      assert LockOf(first, entries) == first + "[[package]]" + rest;
      BlockEnds(first, rest);
      BlocksComeBack(EntryText(entries[0]), entries[1..]);
    }
  }

  lemma {:induction false} GitPackagesMore(block: string, blocks: seq<string>)
    ensures GitPackages([block] + blocks)
         == (match ReadPackage(block) case None => [] case Some(package) => [package]) + GitPackages(blocks)
    decreases |blocks|
  {
    hide ReadPackage;
    var all := [block] + blocks;
    if blocks == [] {
      assert all[..|all| - 1] == [];
    } else {
      assert all[..|all| - 1] == [block] + blocks[..|blocks| - 1];
      GitPackagesMore(block, blocks[..|blocks| - 1]);
    }
  }

  lemma {:induction false} PackagesAreRead(entries: seq<Entry>)
    requires forall k :: 0 <= k < |entries| ==> GoodEntry(entries[k])
    ensures GitPackages(Texts(entries)) == AllMeant(entries)
  {
    hide GoodEntry, ReadPackage, EntryText, Meant;
    if entries != [] {
      PackageIsRead(entries[0]);
      GitPackagesMore(EntryText(entries[0]), Texts(entries[1..]));
      PackagesAreRead(entries[1..]);
    }
  }

  /** What is read from a lock file is what it was written for: the git packages of its entries in order, gathered
      into distinct commits with all of their packages. */
  lemma {:induction false} LockIsRead(header: string, entries: seq<Entry>)
    requires !Occurs(header, "[[package]]") && forall k :: 0 <= k < |entries| ==> GoodEntry(entries[k])
    ensures var sources := GitSources(LockOf(header, entries));
            sources == Gathered(AllMeant(entries)) && Faithful(sources, AllMeant(entries))
  {
    BlocksComeBack(header, entries);
    PackagesAreRead(entries);
    GatheredIsFaithful(AllMeant(entries));
    hide SplitAll, GitPackages, Gathered, Faithful, LockOf, GoodEntry, Texts;
    assert ([header] + Texts(entries))[1..] == Texts(entries);
  }
}
