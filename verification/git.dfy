/** The Git adapter: support detection, branch and tag listing through
    `git ls-remote`, and the clone-or-update checkout. */
module Git {
  import opened Wrappers
  import opened Text
  import opened Process
  import opened Execution
  import opened RevisionMaps

  /** Environment overrides that make Git fail instead of asking for
      credentials. */
  const Environment: map<string, string> := map["GIT_TERMINAL_PROMPT" := "0", "GIT_ASKPASS" := "echo"]

  const VersionCheck: Invocation := Invocation(GitVersion, None, None)

  function LsRemote(kind: RefKind, url: string): Invocation {
    Invocation(GitLsRemote(kind, url), None, Some(Environment))
  }

  function RevParse(directory: string): Invocation {
    Invocation(GitRevParse, Some(directory), None)
  }

  /** A command run inside the work tree, without prompts. */
  function InWorkTree(c: Command, directory: string): Invocation {
    Invocation(c, Some(directory), Some(Environment))
  }

  function Clone(ref: RepositoryRef, version: string): Invocation {
    Invocation(GitClone(version, ref.url, ref.directory), None, Some(Environment))
  }

  /** The commands that reach the remote or change the work tree. */
  predicate NeedsNoPrompt(c: Command) {
    c.GitLsRemote? || c.GitFetch? || c.GitCheckout? || c.GitBranch? || c.GitPull? || c.GitClone?
  }

  /** Every such command of the trace runs with the prompt-disabling
      environment. */
  predicate PromptsDisabled(trace: seq<Event>) {
    forall i :: 0 <= i < |trace| && trace[i].Execute? && NeedsNoPrompt(trace[i].invocation.command) ==>
      trace[i].invocation.environment == Some(Environment)
  }

  // ---------------------------------------------------------------------
  // Support detection

  /** URLs that are Git repositories by their shape alone, the
      case-insensitive pattern `(^git://|\.git$|git(?:olite)?@|//git\.|//github.com/)`.
      The dot of `github.com` is unescaped, so it matches any character but a
      line feed. */
  predicate UrlShape(url: string) {
    || StartsWith(url, Literal("git://"))
    || EndsWith(url, Literal(".git"))
    || Contains(url, Literal("git@"))
    || Contains(url, Literal("gitolite@"))
    || Contains(url, Literal("//git."))
    || Contains(url, Literal("//github") + [Wildcard] + Literal("com/"))
  }

  /** Tool check, then URL shape, then one `ls-remote --heads` probe. */
  function SupportsRepository(url: string, env: Env): (r: Run<bool>)
    ensures 0 < |r.trace| <= 2 && r.trace[0] == Execute(VersionCheck)
    ensures r.value <==> Succeeds(env, VersionCheck) && (UrlShape(url) || Succeeds(env, LsRemote(Heads, url)))
    ensures |r.trace| == 2 <==> Succeeds(env, VersionCheck) && !UrlShape(url)
    ensures |r.trace| == 2 ==> r.trace[1] == Execute(LsRemote(Heads, url))
    ensures PromptsDisabled(r.trace)
  {
    var check := [Execute(VersionCheck)];
    if !Succeeds(env, VersionCheck) then Run(check, false)
    else if UrlShape(url) then Run(check, true)
    else Run(check + [Execute(LsRemote(Heads, url))], Succeeds(env, LsRemote(Heads, url)))
  }

  /** When the URL has a Git shape, the answer does not depend on the
      remote at all: two executors that agree on `git --version` give the
      same run. */
  lemma ShapeNeedsNoRemote(url: string, env1: Env, env2: Env)
    requires UrlShape(url)
    requires env1.run(VersionCheck) == env2.run(VersionCheck)
    ensures SupportsRepository(url, env1) == SupportsRepository(url, env2)
    ensures !Issued(SupportsRepository(url, env1).trace, GitLsRemote(Heads, url))
  {
  }

  /** Every shape mentions `git`, in any case: a URL that does not is only
      ever accepted by asking the remote. */
  lemma UrlShapeMentionsGit(url: string)
    requires UrlShape(url)
    ensures Contains(url, Literal("git"))
  {
    var git := Literal("git");
    if StartsWith(url, Literal("git://")) {
      ContainsWitness(url, 0, Literal("git://"));
      assert Literal("git://")[0..3] == git;
      ContainsSlice(url, Literal("git://"), 0, git);
    } else if EndsWith(url, Literal(".git")) {
      assert Literal(".git")[1..4] == git;
      if MatchesAt(url, |url| - 4, Literal(".git")) {
        ContainsWitness(url, |url| - 4, Literal(".git"));
      } else {
        ContainsWitness(url, |url| - 5, Literal(".git"));
      }
      ContainsSlice(url, Literal(".git"), 1, git);
    } else if Contains(url, Literal("git@")) {
      assert Literal("git@")[0..3] == git;
      ContainsSlice(url, Literal("git@"), 0, git);
    } else if Contains(url, Literal("gitolite@")) {
      assert Literal("gitolite@")[0..3] == git;
      ContainsSlice(url, Literal("gitolite@"), 0, git);
    } else if Contains(url, Literal("//git.")) {
      assert Literal("//git.")[2..5] == git;
      ContainsSlice(url, Literal("//git."), 2, git);
    } else {
      var p := Literal("//github") + [Wildcard] + Literal("com/");
      assert p[2..5] == git;
      ContainsSlice(url, p, 2, git);
    }
  }

  /** The SCP-style URL `git@github.com:accompli/chrono.git`, used by the
      support tests in tests/Adapter/GitAdapterTest.php, is recognised by
      shape. */
  lemma ScpUrlIsGit(env: Env)
    requires Succeeds(env, VersionCheck)
    ensures SupportsRepository("git@github.com:accompli/chrono.git", env)
      == Run([Execute(VersionCheck)], true)
  {
    var url := "git@github.com:accompli/chrono.git";
    LiteralMatchesItself(url, 0, "git@");
    ContainsWitness(url, 0, Literal("git@"));
  }

  // ---------------------------------------------------------------------
  // Listing

  /** `^([a-f0-9]{40})\s+<prefix>(\S+)$` on one output line: the hash and
      the rest of the line after the prefix. */
  function ParseRefLine(line: string, prefix: string): (r: Option<(string, string)>)
    ensures r.Some? ==> IsCommitHash(r.value.0) && 0 < |r.value.1| && NoSpace(r.value.1)
  {
    if |line| < 40 || !IsCommitHash(line[..40]) then None
    else
      var k := SkipSpace(line, 40);
      if k == 40 || !HasAt(line, k, prefix) then None
      else
        var name := line[k + |prefix|..];
        if 0 < |name| && NoSpace(name) then Some((line[..40], name)) else None
  }

  /** The language of the line pattern: hash, white space, prefix, name. */
  predicate RefLine(line: string, hash: string, ws: string, prefix: string, name: string) {
    && line == hash + ws + prefix + name
    && IsCommitHash(hash)
    && 0 < |ws| && AllSpace(ws)
    && 0 < |name| && NoSpace(name)
  }

  /** Whatever the parser accepts is a line of the pattern. */
  lemma ParseRefLineSound(line: string, prefix: string)
    requires ParseRefLine(line, prefix).Some?
    ensures var (hash, name) := ParseRefLine(line, prefix).value;
      exists ws :: RefLine(line, hash, ws, prefix, name)
  {
    var (hash, name) := ParseRefLine(line, prefix).value;
    var k := SkipSpace(line, 40);
    var ws := line[40..k];
    assert line == line[..40] + ws + line[k..k + |prefix|] + line[k + |prefix|..];
    assert RefLine(line, hash, ws, prefix, name);
  }

  /** Every line of the pattern is accepted, with its hash and name: the
      white space before the prefix cannot be cut elsewhere because the
      prefix starts with a non-space character. */
  lemma ParseRefLineComplete(line: string, hash: string, ws: string, prefix: string, name: string)
    requires RefLine(line, hash, ws, prefix, name)
    requires 0 < |prefix| && !IsSpace(prefix[0])
    ensures ParseRefLine(line, prefix) == Some((hash, name))
  {
    assert line[..40] == hash;
    var k := SkipSpace(line, 40);
    assert line[40 + |ws|] == prefix[0];
    assert forall j :: 40 <= j < 40 + |ws| ==> line[j] == ws[j - 40];
    assert k == 40 + |ws|;
    assert line[k..k + |prefix|] == prefix;
    assert line[k + |prefix|..] == name;
  }

  function HeadLine(line: string): (r: Option<(string, string)>)
    ensures r.Some? ==> exists ws :: RefLine(line, r.value.0, ws, "refs/heads/", r.value.1)
  {
    if ParseRefLine(line, "refs/heads/").Some? then
      ParseRefLineSound(line, "refs/heads/");
      ParseRefLine(line, "refs/heads/")
    else None
  }

  /** `^([a-f0-9]{40})\s+refs/tags/(\S+)\^{}$`: only the dereferenced form of
      an annotated tag, named without its `^{}` suffix. */
  function TagLine(line: string): (r: Option<(string, string)>)
    ensures r.Some? ==> IsCommitHash(r.value.0) && 0 < |r.value.1| && NoSpace(r.value.1)
    ensures r.Some? ==> exists ws :: RefLine(line, r.value.0, ws, "refs/tags/", r.value.1 + "^{}")
  {
    match ParseRefLine(line, "refs/tags/")
    case None => None
    case Some((hash, rest)) =>
      if 3 < |rest| && rest[|rest| - 3..] == "^{}" then
        ParseRefLineSound(line, "refs/tags/");
        assert rest[..|rest| - 3] + "^{}" == rest;
        Some((hash, rest[..|rest| - 3]))
      else None
  }

  /** The dereferenced line of an annotated tag is accepted with the tag's
      name, the `^{}` suffix removed. */
  lemma AnnotatedTagLine(line: string, hash: string, ws: string, name: string)
    requires RefLine(line, hash, ws, "refs/tags/", name + "^{}") && 0 < |name|
    ensures TagLine(line) == Some((hash, name))
  {
    var rest := name + "^{}";
    ParseRefLineComplete(line, hash, ws, "refs/tags/", rest);
    assert rest[..|rest| - 3] == name;
    assert rest[|rest| - 3..] == "^{}";
  }

  /** A lightweight tag line, whose name does not end in `^{}`, gives
      nothing. */
  lemma LightweightTagLine(line: string, hash: string, ws: string, name: string)
    requires RefLine(line, hash, ws, "refs/tags/", name)
    requires !(3 < |name| && name[|name| - 3..] == "^{}")
    ensures TagLine(line).None?
  {
    ParseRefLineComplete(line, hash, ws, "refs/tags/", name);
  }

  function HeadEntries(lines: seq<string>): (es: seq<Entry>)
    ensures |es| == |lines| && forall i :: 0 <= i < |lines| ==> es[i] == HeadLine(lines[i])
  {
    seq(|lines|, i requires 0 <= i < |lines| => HeadLine(lines[i]))
  }

  function TagEntries(lines: seq<string>): (es: seq<Entry>)
    ensures |es| == |lines| && forall i :: 0 <= i < |lines| ==> es[i] == TagLine(lines[i])
  {
    seq(|lines|, i requires 0 <= i < |lines| => TagLine(lines[i]))
  }

  /** Entries whose revisions are commit hashes and whose names are single
      non-empty tokens. */
  predicate WellFormed(entries: seq<Entry>) {
    forall i :: 0 <= i < |entries| && entries[i].Some? ==>
      IsCommitHash(entries[i].value.0) && 0 < |entries[i].value.1| && NoSpace(entries[i].value.1)
  }

  /** The map of well-formed entries has hash keys and token names. */
  lemma CollectWellFormed(entries: seq<Entry>)
    requires WellFormed(entries)
    ensures forall h :: h in Collect(entries) ==>
      IsCommitHash(h) && 0 < |Collect(entries)[h]| && NoSpace(Collect(entries)[h])
  {
    var m := Collect(entries);
    CollectLastWins(entries);
    forall h | h in m
      ensures IsCommitHash(h) && 0 < |m[h]| && NoSpace(m[h])
    {
      var i :| LastWith(entries, i, h) && entries[i].value.1 == m[h];
    }
  }

  /** The listing of one `ls-remote`: empty when the command failed, the
      last-wins map of the parsed lines otherwise. */
  function Listing(inv: Invocation, parse: seq<string> -> seq<Entry>, env: Env): seq<Entry> {
    if Succeeds(env, inv) then parse(Lines(env.run(inv).output)) else []
  }

  function GetBranches(url: string, env: Env): (r: Run<RevisionMap>)
    ensures r.trace == [Execute(LsRemote(Heads, url))]
    ensures !Succeeds(env, LsRemote(Heads, url)) ==> r.value == map[]
    ensures Succeeds(env, LsRemote(Heads, url)) ==>
      LastWins(HeadEntries(Lines(env.run(LsRemote(Heads, url)).output)), r.value)
    ensures forall h :: h in r.value ==> IsCommitHash(h) && 0 < |r.value[h]| && NoSpace(r.value[h])
    ensures PromptsDisabled(r.trace)
  {
    var entries := Listing(LsRemote(Heads, url), HeadEntries, env);
    CollectWellFormed(entries);
    CollectLastWins(entries);
    Run([Execute(LsRemote(Heads, url))], Collect(entries))
  }

  function GetTags(url: string, env: Env): (r: Run<RevisionMap>)
    ensures r.trace == [Execute(LsRemote(Tags, url))]
    ensures !Succeeds(env, LsRemote(Tags, url)) ==> r.value == map[]
    ensures Succeeds(env, LsRemote(Tags, url)) ==>
      LastWins(TagEntries(Lines(env.run(LsRemote(Tags, url)).output)), r.value)
    ensures forall h :: h in r.value ==> IsCommitHash(h) && 0 < |r.value[h]| && NoSpace(r.value[h])
    ensures PromptsDisabled(r.trace)
  {
    var entries := Listing(LsRemote(Tags, url), TagEntries, env);
    CollectWellFormed(entries);
    CollectLastWins(entries);
    Run([Execute(LsRemote(Tags, url))], Collect(entries))
  }

  /** One line of `git ls-remote` output as the tool prints it: the hash,
      white space, the reference. */
  function RemoteLine(hash: string, prefix: string, name: string): string {
    hash + "        " + prefix + name
  }

  /** The lines of a two-branch listing parse to both branches and a
      skipped empty line. */
  lemma TwoHeadLines(h1: string, n1: string, h2: string, n2: string)
    requires IsCommitHash(h1) && IsCommitHash(h2)
    requires 0 < |n1| && NoSpace(n1) && 0 < |n2| && NoSpace(n2)
    ensures HeadEntries(Lines(RemoteLine(h1, "refs/heads/", n1) + "\n" + RemoteLine(h2, "refs/heads/", n2) + "\n"))
      == [Some((h1, n1)), Some((h2, n2)), None]
  {
    var ws := "        ";
    var l1, l2 := RemoteLine(h1, "refs/heads/", n1), RemoteLine(h2, "refs/heads/", n2);
    assert AllSpace(ws) && !IsSpace('r');
    assert RefLine(l1, h1, ws, "refs/heads/", n1);
    assert RefLine(l2, h2, ws, "refs/heads/", n2);
    assert '\n' !in l1 && '\n' !in l2 by {
      assert IsSpace('\n');
      assert forall k :: 0 <= k < |l1| ==> l1[k] != '\n';
      assert forall k :: 0 <= k < |l2| ==> l2[k] != '\n';
    }
    LinesOfTwo(l1, l2);
    ParseRefLineComplete(l1, h1, ws, "refs/heads/", n1);
    ParseRefLineComplete(l2, h2, ws, "refs/heads/", n2);
    assert HeadLine("") == None;
  }

  /** A listing of two head lines with distinct hashes yields both
      branches; the trailing line feed adds an empty line that matches
      nothing. */
  lemma TwoBranchListing(url: string, env: Env, h1: string, n1: string, h2: string, n2: string)
    requires IsCommitHash(h1) && IsCommitHash(h2) && h1 != h2
    requires 0 < |n1| && NoSpace(n1) && 0 < |n2| && NoSpace(n2)
    requires env.run(LsRemote(Heads, url)) == ExecutionResult(0,
      RemoteLine(h1, "refs/heads/", n1) + "\n" + RemoteLine(h2, "refs/heads/", n2) + "\n", "")
    ensures GetBranches(url, env).value == map[h1 := n1, h2 := n2]
  {
    TwoHeadLines(h1, n1, h2, n2);
    CollectTwo((h1, n1), (h2, n2));
  }

  /** The two commits of the `ls-remote --heads` output in the branch
      listing tests of tests/Adapter/GitAdapterTest.php. */
  const MasterCommit: string := "6f8ce5e29cdcd894d6b7aaeb590e656f9348ac3a"
  const ReleaseCommit: string := "162eb4911ffc5e30496b5ed6c40c5182c1fd22d8"

  lemma MasterCommitIsHash()
    ensures IsCommitHash(MasterCommit)
  {
  }

  lemma ReleaseCommitIsHash()
    ensures IsCommitHash(ReleaseCommit)
  {
  }

  lemma ExampleCommits()
    ensures IsCommitHash(MasterCommit) && IsCommitHash(ReleaseCommit)
    ensures MasterCommit != ReleaseCommit
  {
    MasterCommitIsHash();
    ReleaseCommitIsHash();
    assert MasterCommit[0] != ReleaseCommit[0];
  }

  /** The `ls-remote --heads` output of the adapter's branch listing test
      (tests/Adapter/GitAdapterTest.php): `master` and `1.0`. */
  lemma BranchListingExample(url: string, env: Env)
    requires env.run(LsRemote(Heads, url)) == ExecutionResult(0,
      RemoteLine(MasterCommit, "refs/heads/", "master") + "\n"
      + RemoteLine(ReleaseCommit, "refs/heads/", "1.0") + "\n", "")
    ensures GetBranches(url, env).value == map[MasterCommit := "master", ReleaseCommit := "1.0"]
  {
    ExampleCommits();
    TwoBranchListing(url, env, MasterCommit, "master", ReleaseCommit, "1.0");
  }

  // ---------------------------------------------------------------------
  // Checkout

  /** One of the two phrases occurs at index `i` of `s`. */
  predicate PhraseAt(s: string, i: int) {
    HasAt(s, i, "no branch") || HasAt(s, i, "HEAD detached at")
  }

  /** `^ \*.*(?:no branch|HEAD detached at)` on the whole `git branch`
      output, without the multi-line modifier: the output must start with a
      space and an asterisk, and one of the phrases must follow on that same
      first line. */
  predicate Detached(output: string) {
    HasAt(output, 0, " *")
    && exists i :: 2 <= i <= |output| && '\n' !in output[2..i] && PhraseAt(output, i)
  }

  /** The marker, anything on the same line, one of the two phrases and any
      tail at all: the output is detached and `git pull` is skipped. */
  lemma DetachedOfParts(middle: string, phrase: string, tail: string)
    requires '\n' !in middle
    requires phrase == "no branch" || phrase == "HEAD detached at"
    ensures Detached(" *" + middle + phrase + tail)
  {
    var output := " *" + middle + phrase + tail;
    var i := 2 + |middle|;
    assert output[..2] == " *";
    assert output[2..i] == middle;
    assert output[i..i + |phrase|] == phrase;
    assert PhraseAt(output, i);
  }

  /** Neither phrase spans a line feed. */
  lemma PhrasesHaveNoFeed()
    ensures '\n' !in "no branch" && '\n' !in "HEAD detached at"
  {
  }

  /** An occurrence of `lit` ending at or before `k` is kept by cutting `s`
      at `k`, and one found in the cut string is in `s`. */
  lemma HasAtCut(s: string, k: nat, i: int, lit: string)
    requires k <= |s| && i + |lit| <= k
    ensures HasAt(s, i, lit) <==> HasAt(s[..k], i, lit)
  {
    if 0 <= i {
      assert s[..k][i..i + |lit|] == s[i..i + |lit|];
    }
  }

  /** A prefix of `s` in three consecutive pieces. */
  lemma PrefixInThree(s: string, i: int, j: int)
    requires 2 <= i <= j <= |s|
    ensures s[..j] == s[0..2] + s[2..i] + s[i..j]
  {
    assert s[..i] == s[0..2] + s[2..i];
    assert s[..j] == s[..i] + s[i..j];
  }

  /** No line feed occurs from the start of the output to the end of the
      phrase. */
  lemma NoFeedThroughPhrase(output: string, i: int, lit: string)
    requires HasAt(output, 0, " *")
    requires 2 <= i <= |output| && '\n' !in output[2..i]
    requires HasAt(output, i, lit) && '\n' !in lit
    ensures '\n' !in output[..i + |lit|]
  {
    PrefixInThree(output, i, i + |lit|);
    assert '\n' !in output[0..2] by {
      assert output[0..2] == " *";
    }
  }

  /** The line feed that ends the first line lies after the phrase. */
  lemma PhraseInFirstLine(output: string, i: int, lit: string)
    requires HasAt(output, 0, " *")
    requires 2 <= i <= |output| && '\n' !in output[2..i]
    requires HasAt(output, i, lit) && '\n' !in lit
    ensures i + |lit| <= IndexOf(output, '\n')
  {
    NoFeedThroughPhrase(output, i, lit);
    NoFeedBefore(output, i + |lit|);
  }

  /** A detached output is detached when cut at its first line feed. */
  lemma DetachedFirstLine(output: string)
    requires Detached(output)
    ensures Detached(output[..IndexOf(output, '\n')])
  {
    var k := IndexOf(output, '\n');
    var first := output[..k];
    var i :| 2 <= i <= |output| && '\n' !in output[2..i] && PhraseAt(output, i);
    var lit := if HasAt(output, i, "no branch") then "no branch" else "HEAD detached at";
    PhrasesHaveNoFeed();
    assert HasAt(output, i, lit);
    PhraseInFirstLine(output, i, lit);
    HasAtCut(output, k, i, lit);
    HasAtCut(output, k, 0, " *");
    assert first[2..i] == output[2..i];
    assert PhraseAt(first, i);
  }

  /** A detached first line makes the whole output detached. */
  lemma DetachedFromFirstLine(output: string)
    requires Detached(output[..IndexOf(output, '\n')])
    ensures Detached(output)
  {
    var k := IndexOf(output, '\n');
    var first := output[..k];
    var i :| 2 <= i <= |first| && '\n' !in first[2..i] && PhraseAt(first, i);
    var lit := if HasAt(first, i, "no branch") then "no branch" else "HEAD detached at";
    assert HasAt(first, i, lit);
    HasAtCut(output, k, i, lit);
    HasAtCut(output, k, 0, " *");
    assert first[2..i] == output[2..i];
    assert PhraseAt(output, i);
  }

  /** Only the first line of the `git branch` output decides detachment. */
  lemma DetachedReadsFirstLine(output: string)
    ensures Detached(output) <==> Detached(Lines(output)[0])
  {
    FirstLine(output);
    if Detached(output) {
      DetachedFirstLine(output);
    }
    if Detached(Lines(output)[0]) {
      DetachedFromFirstLine(output);
    }
  }

  /** The directory exists and `git rev-parse --is-inside-work-tree`
      succeeds in it. */
  predicate IsWorkTree(ref: RepositoryRef, env: Env) {
    env.isDirectory(ref.directory) && Succeeds(env, RevParse(ref.directory))
  }

  /** The events of the work-tree test; the second command is only run when
      the directory exists. */
  function WorkTreeProbe(ref: RepositoryRef, env: Env): seq<Event> {
    [IsDirectory(ref.directory)]
    + if env.isDirectory(ref.directory) then [Execute(RevParse(ref.directory))] else []
  }

  /** Updating an existing work tree: fetch and checkout stop at the first
      failure, `git branch` always runs, and `git pull` runs only when all
      of these succeeded and HEAD is not detached. */
  function Update(directory: string, version: string, env: Env): (r: Run<bool>)
    ensures var fetched := Succeeds(env, InWorkTree(GitFetch, directory));
      var switched := fetched && Succeeds(env, InWorkTree(GitCheckout(version), directory));
      var listing := env.run(InWorkTree(GitBranch, directory));
      var pulls := switched && listing.IsSuccessful() && !Detached(listing.output);
      && r.trace == [Execute(InWorkTree(GitFetch, directory))]
                    + (if fetched then [Execute(InWorkTree(GitCheckout(version), directory))] else [])
                    + [Execute(InWorkTree(GitBranch, directory))]
                    + (if pulls then [Execute(InWorkTree(GitPull, directory))] else [])
      && (r.value <==> switched && listing.IsSuccessful()
                       && (pulls ==> Succeeds(env, InWorkTree(GitPull, directory))))
  {
    var fetch, co := InWorkTree(GitFetch, directory), InWorkTree(GitCheckout(version), directory);
    var steps := RunUntilFailure([fetch, co], env);
    assert steps.trace == [Execute(fetch)] + (if Succeeds(env, fetch) then [Execute(co)] else []) by {
      if Succeeds(env, fetch) {
        assert steps.trace[0] == Execute(fetch) && steps.trace[1] == Execute(co);
      }
    }
    assert [fetch, co][0] == fetch && [fetch, co][1] == co;
    assert steps.value <==> Succeeds(env, fetch) && Succeeds(env, co);
    var branch := InWorkTree(GitBranch, directory);
    var listing := env.run(branch);
    var ok := steps.value && listing.IsSuccessful();
    if !Detached(listing.output) && ok then
      var pull := InWorkTree(GitPull, directory);
      Run(steps.trace + [Execute(branch)] + [Execute(pull)], Succeeds(env, pull))
    else
      Run(steps.trace + [Execute(branch)], ok)
  }

  /** The update succeeds exactly when every command it issued succeeded. */
  lemma UpdateSucceeded(directory: string, version: string, env: Env)
    ensures Update(directory, version, env).value <==> AllSucceeded(env, Update(directory, version, env).trace)
  {
    var fetch, co := InWorkTree(GitFetch, directory), InWorkTree(GitCheckout(version), directory);
    var branch, pull := InWorkTree(GitBranch, directory), InWorkTree(GitPull, directory);
    var a := [Execute(fetch)];
    var b := if Succeeds(env, fetch) then [Execute(co)] else [];
    var c := [Execute(branch)];
    var listing := env.run(branch);
    var pulls := Succeeds(env, fetch) && Succeeds(env, co) && listing.IsSuccessful() && !Detached(listing.output);
    var d := if pulls then [Execute(pull)] else [];
    assert Update(directory, version, env).trace == a + b + c + d;
    AllSucceededConcat(env, a + b + c, d);
    AllSucceededConcat(env, a + b, c);
    AllSucceededConcat(env, a, b);
    AllSucceededOne(env, Execute(fetch));
    AllSucceededOne(env, Execute(co));
    AllSucceededOne(env, Execute(branch));
    AllSucceededOne(env, Execute(pull));
  }

  /** Clone into a missing work tree, update an existing one. */
  function Checkout(ref: RepositoryRef, version: string, env: Env): (r: Run<bool>)
    ensures !IsWorkTree(ref, env) ==>
      r == Run(WorkTreeProbe(ref, env) + [Execute(Clone(ref, version))], Succeeds(env, Clone(ref, version)))
    ensures IsWorkTree(ref, env) ==>
      r == Run(WorkTreeProbe(ref, env) + Update(ref.directory, version, env).trace,
               Update(ref.directory, version, env).value)
    ensures r.value <==> AllSucceeded(env, r.trace[|WorkTreeProbe(ref, env)|..])
    ensures PromptsDisabled(r.trace)
  {
    var probe := WorkTreeProbe(ref, env);
    if IsWorkTree(ref, env) then
      var u := Update(ref.directory, version, env);
      UpdateSucceeded(ref.directory, version, env);
      assert (probe + u.trace)[|probe|..] == u.trace;
      Run(probe + u.trace, u.value)
    else
      var c := Clone(ref, version);
      assert (probe + [Execute(c)])[|probe|..] == [Execute(c)];
      assert [Execute(c)][0] == Execute(c);
      Run(probe + [Execute(c)], Succeeds(env, c))
  }

  /** The work-tree test executes no command but `git rev-parse`. */
  lemma ProbeIssuesOnlyRevParse(ref: RepositoryRef, env: Env, x: Command)
    requires x != GitRevParse
    ensures !Issued(WorkTreeProbe(ref, env), x)
    ensures Issued(WorkTreeProbe(ref, env), GitRevParse) <==> env.isDirectory(ref.directory)
  {
    var dir := ref.directory;
    IssuedOne(IsDirectory(dir), x);
    IssuedOne(IsDirectory(dir), GitRevParse);
    if env.isDirectory(dir) {
      IssuedOne(Execute(RevParse(dir)), x);
      IssuedConcat([IsDirectory(dir)], [Execute(RevParse(dir))], x);
      IssuedOne(Execute(RevParse(dir)), GitRevParse);
      IssuedConcat([IsDirectory(dir)], [Execute(RevParse(dir))], GitRevParse);
    } else {
      assert WorkTreeProbe(ref, env) == [IsDirectory(dir)];
    }
  }

  /** The commands an update issues. */
  lemma UpdateIssues(directory: string, version: string, env: Env, x: Command)
    ensures var fetched := Succeeds(env, InWorkTree(GitFetch, directory));
      var switched := fetched && Succeeds(env, InWorkTree(GitCheckout(version), directory));
      var listing := env.run(InWorkTree(GitBranch, directory));
      var pulls := switched && listing.IsSuccessful() && !Detached(listing.output);
      Issued(Update(directory, version, env).trace, x) <==>
        x == GitFetch || x == GitBranch || (x == GitCheckout(version) && fetched) || (x == GitPull && pulls)
  {
    var fetched := Succeeds(env, InWorkTree(GitFetch, directory));
    var switched := fetched && Succeeds(env, InWorkTree(GitCheckout(version), directory));
    var listing := env.run(InWorkTree(GitBranch, directory));
    var pulls := switched && listing.IsSuccessful() && !Detached(listing.output);
    var a := [Execute(InWorkTree(GitFetch, directory))];
    var b := if fetched then [Execute(InWorkTree(GitCheckout(version), directory))] else [];
    var c := [Execute(InWorkTree(GitBranch, directory))];
    var d := if pulls then [Execute(InWorkTree(GitPull, directory))] else [];
    assert Update(directory, version, env).trace == a + b + c + d;
    IssuedConcat(a + b + c, d, x);
    IssuedConcat(a + b, c, x);
    IssuedConcat(a, b, x);
    IssuedOne(a[0], x);
    IssuedOne(c[0], x);
    if fetched { IssuedOne(b[0], x); }
    if pulls { IssuedOne(d[0], x); }
  }

  /** Past the work-tree test, a checkout issues what the update issues,
      or only the clone. */
  lemma CheckoutIssues(ref: RepositoryRef, version: string, env: Env, x: Command)
    requires x != GitRevParse
    ensures Issued(Checkout(ref, version, env).trace, x) <==>
      if IsWorkTree(ref, env) then Issued(Update(ref.directory, version, env).trace, x)
      else x == GitClone(version, ref.url, ref.directory)
  {
    var probe := WorkTreeProbe(ref, env);
    var rest := if IsWorkTree(ref, env) then Update(ref.directory, version, env).trace
                else [Execute(Clone(ref, version))];
    assert Checkout(ref, version, env).trace == probe + rest;
    ProbeIssuesOnlyRevParse(ref, env, x);
    IssuedConcat(probe, rest, x);
    if !IsWorkTree(ref, env) {
      IssuedOne(Execute(Clone(ref, version)), x);
    }
  }

  /** Which commands a checkout issues: a clone exactly when there is no
      work tree; otherwise fetch and `git branch` always, checkout when the
      fetch succeeded, and pull exactly when every earlier step succeeded and
      HEAD is not detached. */
  lemma CheckoutCommands(ref: RepositoryRef, version: string, env: Env)
    ensures var t := Checkout(ref, version, env).trace;
      var dir := ref.directory;
      var fetched := Succeeds(env, InWorkTree(GitFetch, dir));
      var switched := fetched && Succeeds(env, InWorkTree(GitCheckout(version), dir));
      var listing := env.run(InWorkTree(GitBranch, dir));
      && (Issued(t, GitClone(version, ref.url, dir)) <==> !IsWorkTree(ref, env))
      && (Issued(t, GitFetch) <==> IsWorkTree(ref, env))
      && (Issued(t, GitBranch) <==> IsWorkTree(ref, env))
      && (Issued(t, GitCheckout(version)) <==> IsWorkTree(ref, env) && fetched)
      && (Issued(t, GitPull) <==>
            IsWorkTree(ref, env) && switched && listing.IsSuccessful() && !Detached(listing.output))
  {
    var dir := ref.directory;
    var clone := GitClone(version, ref.url, dir);
    CheckoutIssues(ref, version, env, clone);
    CheckoutIssues(ref, version, env, GitFetch);
    CheckoutIssues(ref, version, env, GitBranch);
    CheckoutIssues(ref, version, env, GitCheckout(version));
    CheckoutIssues(ref, version, env, GitPull);
    UpdateIssues(dir, version, env, clone);
    UpdateIssues(dir, version, env, GitFetch);
    UpdateIssues(dir, version, env, GitBranch);
    UpdateIssues(dir, version, env, GitCheckout(version));
    UpdateIssues(dir, version, env, GitPull);
  }
}
