/** The Subversion adapter: support detection, listing of the `trunk`,
    `branches` and `tags` directories, resolution of a version to one of
    them, and the switch-or-checkout of a working copy. */
module Subversion {
  import opened Wrappers
  import opened Text
  import opened Process
  import opened Execution
  import opened RevisionMaps

  const TrunkPath: string := "trunk"
  const BranchesPath: string := "branches"
  const TagsPath: string := "tags"

  const VersionCheck: Invocation := Invocation(SvnVersion, None, None)

  function RemoteInfo(url: string): Invocation {
    Invocation(SvnInfo(Some(url)), None, None)
  }

  function List(url: string): Invocation {
    Invocation(SvnList(url), None, None)
  }

  /** `svn info` inside the working copy. */
  function LocalInfo(directory: string): Invocation {
    Invocation(SvnInfo(None), Some(directory), None)
  }

  function Switch(target: string, directory: string): Invocation {
    Invocation(SvnSwitch(target), Some(directory), None)
  }

  function CheckoutInto(target: string, directory: string): Invocation {
    Invocation(SvnCheckout(target, directory), None, None)
  }

  // ---------------------------------------------------------------------
  // Support detection

  /** URLs that are Subversion repositories by their shape alone, the
      case-insensitive pattern `(^svn://|^svn\+ssh://|svn\.)`. */
  predicate UrlShape(url: string) {
    || StartsWith(url, Literal("svn://"))
    || StartsWith(url, Literal("svn+ssh://"))
    || Contains(url, Literal("svn."))
  }

  /** Every shape mentions `svn`, in any case: a URL that does not is only
      ever accepted by asking the remote. */
  lemma UrlShapeMentionsSvn(url: string)
    requires UrlShape(url)
    ensures Contains(url, Literal("svn"))
  {
    var svn := Literal("svn");
    if StartsWith(url, Literal("svn://")) {
      ContainsWitness(url, 0, Literal("svn://"));
      assert Literal("svn://")[0..3] == svn;
      ContainsSlice(url, Literal("svn://"), 0, svn);
    } else if StartsWith(url, Literal("svn+ssh://")) {
      ContainsWitness(url, 0, Literal("svn+ssh://"));
      assert Literal("svn+ssh://")[0..3] == svn;
      ContainsSlice(url, Literal("svn+ssh://"), 0, svn);
    } else {
      assert Literal("svn.")[0..3] == svn;
      ContainsSlice(url, Literal("svn."), 0, svn);
    }
  }

  /** Tool check, then URL shape, then one `svn info <url>` probe. */
  function SupportsRepository(url: string, env: Env): (r: Run<bool>)
    ensures 0 < |r.trace| <= 2 && r.trace[0] == Execute(VersionCheck)
    ensures r.value <==> Succeeds(env, VersionCheck) && (UrlShape(url) || Succeeds(env, RemoteInfo(url)))
    ensures |r.trace| == 2 <==> Succeeds(env, VersionCheck) && !UrlShape(url)
    ensures |r.trace| == 2 ==> r.trace[1] == Execute(RemoteInfo(url))
  {
    var check := [Execute(VersionCheck)];
    if !Succeeds(env, VersionCheck) then Run(check, false)
    else if UrlShape(url) then Run(check, true)
    else Run(check + [Execute(RemoteInfo(url))], Succeeds(env, RemoteInfo(url)))
  }

  /** When the URL has a Subversion shape, the answer does not depend on the
      remote: two executors that agree on `svn --version` give the same run. */
  lemma ShapeNeedsNoRemote(url: string, env1: Env, env2: Env)
    requires UrlShape(url)
    requires env1.run(VersionCheck) == env2.run(VersionCheck)
    ensures SupportsRepository(url, env1) == SupportsRepository(url, env2)
    ensures !Issued(SupportsRepository(url, env1).trace, SvnInfo(Some(url)))
  {
  }

  // ---------------------------------------------------------------------
  // Listing

  /** `^\s*(\S+).*?(\S+)\s*$` on one output line: the first and the last
      white-space separated token. A line holding one token of two or more
      characters still matches, because the first group gives back its last
      character to the second; a one-character token does not match. */
  function ParseListLine(line: string): (r: Option<(string, string)>)
    ensures r.Some? ==> 0 < |r.value.0| && NoSpace(r.value.0) && 0 < |r.value.1| && NoSpace(r.value.1)
  {
    var p := SkipSpace(line, 0);
    var e := BackOverSpace(line, |line|);
    if e <= p then None
    else
      var x := SkipToken(line, p);
      if e <= x then
        if 2 <= e - p then Some((line[p..e - 1], line[e - 1..e])) else None
      else
        var q := BackOverToken(line, e);
        Some((line[p..x], line[q..e]))
  }

  /** `line` matches the pattern with the first group at `line[p..x]`, the
      lazy middle at `line[x..q]` and the second group at `line[q..y]`. */
  predicate ListMatch(line: string, p: int, x: int, q: int, y: int) {
    && 0 <= p < x <= q < y <= |line|
    && SpaceBetween(line, 0, p) && TokenBetween(line, p, x)
    && '\n' !in line[x..q]
    && TokenBetween(line, q, y) && SpaceBetween(line, y, |line|)
  }

  /** What the parser returns on a line without line feeds is a match of
      the pattern. */
  lemma ParseListLineSound(line: string)
    requires '\n' !in line
    requires ParseListLine(line).Some?
    ensures exists p, x, q, y ::
      ListMatch(line, p, x, q, y) && ParseListLine(line).value == (line[p..x], line[q..y])
  {
    var p := SkipSpace(line, 0);
    var e := BackOverSpace(line, |line|);
    var x := SkipToken(line, p);
    assert p < e;
    if e < |line| {
      assert IsSpace(line[e]);
    }
    if e <= x {
      assert x == e;
      assert '\n' !in line[e - 1..e - 1];
      assert ListMatch(line, p, e - 1, e - 1, e);
    } else {
      var q := BackOverToken(line, e);
      assert x < q;
      assert forall k :: x <= k < q ==> line[x..q][k - x] == line[k];
      assert ListMatch(line, p, x, q, e);
    }
  }

  /** Every match of the pattern is found, and the parser returns the one
      PCRE reports: the longest first group, and for it the longest second
      group (the middle is lazy). */
  lemma ParseListLineComplete(line: string, p: int, x: int, q: int, y: int)
    requires ListMatch(line, p, x, q, y)
    ensures ParseListLine(line).Some?
    ensures x - p <= |ParseListLine(line).value.0|
    ensures x - p == |ParseListLine(line).value.0| ==> y - q <= |ParseListLine(line).value.1|
  {
    var p' := SkipSpace(line, 0);
    var e := BackOverSpace(line, |line|);
    assert !IsSpace(line[p]) && !IsSpace(line[y - 1]);
    assert p' == p;
    assert e == y;
    var x' := SkipToken(line, p);
    assert x <= x';
    if e > x' {
      var q' := BackOverToken(line, e);
      assert q' <= q;
    }
  }

  /** A trunk listing line counts when its last token is `./`, the trunk
      itself, and is labelled `master`. */
  function TrunkEntry(line: string): (e: Entry)
    ensures e.Some? <==> ParseListLine(line).Some? && ParseListLine(line).value.1 == "./"
    ensures e.Some? ==> e.value == (ParseListLine(line).value.0, "master")
  {
    match ParseListLine(line)
    case Some((revision, name)) => if name == "./" then Some((revision, "master")) else None
    case None => None
  }

  function TrunkEntries(lines: seq<string>): (es: seq<Entry>)
    ensures |es| == |lines| && forall i :: 0 <= i < |lines| ==> es[i] == TrunkEntry(lines[i])
  {
    seq(|lines|, i requires 0 <= i < |lines| => TrunkEntry(lines[i]))
  }

  function ListEntries(lines: seq<string>): (es: seq<Entry>)
    ensures |es| == |lines| && forall i :: 0 <= i < |lines| ==> es[i] == ParseListLine(lines[i])
  {
    seq(|lines|, i requires 0 <= i < |lines| => ParseListLine(lines[i]))
  }

  /** The parsed lines of one `svn ls`; a failed listing contributes
      nothing. */
  function Listing(url: string, parse: seq<string> -> seq<Entry>, env: Env): seq<Entry> {
    if Succeeds(env, List(url)) then parse(Lines(env.run(List(url)).output)) else []
  }

  function TrunkListing(url: string, env: Env): seq<Entry> {
    Listing(url + "/" + TrunkPath, TrunkEntries, env)
  }

  function BranchListing(url: string, env: Env): seq<Entry> {
    Listing(url + "/" + BranchesPath, ListEntries, env)
  }

  function TagListing(url: string, env: Env): seq<Entry> {
    Listing(url + "/" + TagsPath, ListEntries, env)
  }

  /** Trunk entries are all labelled `master`. */
  lemma TrunkIsMaster(url: string, env: Env)
    ensures forall k :: k in Collect(TrunkListing(url, env)) ==> Collect(TrunkListing(url, env))[k] == "master"
  {
    var es := TrunkListing(url, env);
    assert forall i :: 0 <= i < |es| && es[i].Some? ==> es[i].value.1 == "master";
    CollectOneName(es, "master");
  }

  /** Both listings run, trunk first; branch entries overwrite trunk
      entries with the same revision. */
  function GetBranches(url: string, env: Env): (r: Run<RevisionMap>)
    ensures r.trace == [Execute(List(url + "/" + TrunkPath)), Execute(List(url + "/" + BranchesPath))]
    ensures r.value == Collect(TrunkListing(url, env)) + Collect(BranchListing(url, env))
    ensures LastWins(TrunkListing(url, env) + BranchListing(url, env), r.value)
  {
    var entries := TrunkListing(url, env) + BranchListing(url, env);
    CollectConcat(TrunkListing(url, env), BranchListing(url, env));
    CollectLastWins(entries);
    Run([Execute(List(url + "/" + TrunkPath)), Execute(List(url + "/" + BranchesPath))], Collect(entries))
  }

  function GetTags(url: string, env: Env): (r: Run<RevisionMap>)
    ensures r.trace == [Execute(List(url + "/" + TagsPath))]
    ensures !Succeeds(env, List(url + "/" + TagsPath)) ==> r.value == map[]
    ensures Succeeds(env, List(url + "/" + TagsPath)) ==>
      LastWins(ListEntries(Lines(env.run(List(url + "/" + TagsPath)).output)), r.value)
  {
    CollectLastWins(TagListing(url, env));
    Run([Execute(List(url + "/" + TagsPath))], Collect(TagListing(url, env)))
  }

  // ---------------------------------------------------------------------
  // Version resolution and checkout

  /** Where in the repository a version lives. */
  datatype VersionPath = AtTrunk | AtBranch(name: string) | AtTag(name: string)

  function VersionUrl(url: string, path: VersionPath): (r: string)
    ensures url + "/" <= r
  {
    match path
    case AtTrunk => url + "/" + TrunkPath
    case AtBranch(name) => url + "/" + BranchesPath + "/" + name
    case AtTag(name) => url + "/" + TagsPath + "/" + name
  }

  /** Distinct version paths give distinct URLs: the trunk, branches and
      tags directories differ in their first two characters. */
  lemma VersionUrlInjective(url: string, a: VersionPath, b: VersionPath)
    requires VersionUrl(url, a) == VersionUrl(url, b)
    ensures a == b
  {
    var n := |url| + 1;
    var ua, ub := VersionUrl(url, a), VersionUrl(url, b);
    assert ua[n] == (if a.AtBranch? then 'b' else 't');
    assert ub[n] == (if b.AtBranch? then 'b' else 't');
    assert ua[n + 1] == (if a.AtBranch? || a.AtTrunk? then 'r' else 'a');
    assert ub[n + 1] == (if b.AtBranch? || b.AtTrunk? then 'r' else 'a');
    if a.AtBranch? && b.AtBranch? {
      var k := |url + "/" + BranchesPath + "/"|;
      assert a.name == ua[k..] && b.name == ub[k..];
    } else if a.AtTag? && b.AtTag? {
      var k := |url + "/" + TagsPath + "/"|;
      assert a.name == ua[k..] && b.name == ub[k..];
    }
  }

  predicate IsTrunkName(version: string) {
    version == "master" || version == TrunkPath
  }

  /** Trunk first, then the live branch names, then the live tag names. */
  function ResolveVersion(url: string, version: string, env: Env): (r: Run<Option<VersionPath>>)
    ensures IsTrunkName(version) ==> r == Run([], Some(AtTrunk))
    ensures !IsTrunkName(version) ==>
      r.trace == GetBranches(url, env).trace
                 + (if r.value == Some(AtBranch(version)) then [] else GetTags(url, env).trace)
    ensures r.value == Some(AtBranch(version)) <==>
      !IsTrunkName(version) && version in GetBranches(url, env).value.Values
    ensures r.value == Some(AtTag(version)) <==>
      !IsTrunkName(version) && version !in GetBranches(url, env).value.Values
      && version in GetTags(url, env).value.Values
    ensures r.value.None? <==>
      !IsTrunkName(version) && version !in GetBranches(url, env).value.Values
      && version !in GetTags(url, env).value.Values
    ensures r.value.Some? ==> r.value.value.AtTrunk? || r.value.value.name == version
  {
    if IsTrunkName(version) then Run([], Some(AtTrunk))
    else
      var branches := GetBranches(url, env);
      if version in branches.value.Values then
        assert branches.trace + [] == branches.trace;
        Run(branches.trace, Some(AtBranch(version)))
      else
        var tags := GetTags(url, env);
        if version in tags.value.Values then Run(branches.trace + tags.trace, Some(AtTag(version)))
        else Run(branches.trace + tags.trace, None)
  }

  /** Every event of `trace` is an `svn ls`. */
  predicate OnlyListings(trace: seq<Event>) {
    forall i :: 0 <= i < |trace| ==> trace[i].Execute? && trace[i].invocation.command.SvnList?
  }

  /** Resolving a version only ever lists the repository: it neither looks
      at the local directory nor changes anything. */
  lemma ResolutionOnlyLists(url: string, version: string, env: Env)
    ensures OnlyListings(ResolveVersion(url, version, env).trace)
    ensures |ResolveVersion(url, version, env).trace| <= 3
  {
    var r := ResolveVersion(url, version, env);
    if !IsTrunkName(version) {
      var b := [Execute(List(url + "/" + TrunkPath)), Execute(List(url + "/" + BranchesPath))];
      var bt := b + [Execute(List(url + "/" + TagsPath))];
      assert r.trace == b || r.trace == bt;
      assert OnlyListings(b) && OnlyListings(bt);
    }
  }

  /** Below trunk, resolution lists trunk and branches, then the tags only
      when the name is not among the live branch names. */
  lemma ResolutionTrace(url: string, version: string, env: Env)
    requires !IsTrunkName(version)
    ensures ResolveVersion(url, version, env).trace
      == GetBranches(url, env).trace
         + (if version in GetBranches(url, env).value.Values then [] else GetTags(url, env).trace)
  {
  }

  /** Below trunk, the tags are listed exactly when the name did not
      resolve to a branch: a branch name costs two `svn ls`, anything else
      three. */
  lemma TagsListedOnlyForNonBranches(url: string, version: string, env: Env)
    requires !IsTrunkName(version)
    ensures var r := ResolveVersion(url, version, env);
      && (Issued(r.trace, SvnList(url + "/" + TagsPath)) <==> r.value != Some(AtBranch(version)))
      && |r.trace| == if r.value == Some(AtBranch(version)) then 2 else 3
  {
    var tags := SvnList(url + "/" + TagsPath);
    var a, b := Execute(List(url + "/" + TrunkPath)), Execute(List(url + "/" + BranchesPath));
    assert url + "/" + TrunkPath != url + "/" + TagsPath && url + "/" + BranchesPath != url + "/" + TagsPath by {
      assert |TrunkPath| != |TagsPath| && |BranchesPath| != |TagsPath|;
    }
    IssuedOne(a, tags);
    IssuedOne(b, tags);
    IssuedConcat([a], [b], tags);
    assert [a] + [b] == GetBranches(url, env).trace;
    IssuedOne(Execute(List(url + "/" + TagsPath)), tags);
    IssuedConcat(GetBranches(url, env).trace, GetTags(url, env).trace, tags);
  }

  /** A name that is both a branch and a tag resolves to the branch, and
      `master` resolves to trunk whatever the listings say. */
  lemma ResolutionPrecedence(url: string, version: string, env: Env)
    ensures IsTrunkName(version) ==> ResolveVersion(url, version, env).value == Some(AtTrunk)
    ensures !IsTrunkName(version) && version in GetBranches(url, env).value.Values ==>
      ResolveVersion(url, version, env).value == Some(AtBranch(version))
  {
  }

  /** The directory exists and `svn info` succeeds in it. */
  predicate IsWorkingCopy(ref: RepositoryRef, env: Env) {
    env.isDirectory(ref.directory) && Succeeds(env, LocalInfo(ref.directory))
  }

  /** The events of the working-copy test; `svn info` only runs when the
      directory exists. */
  function WorkingCopyProbe(ref: RepositoryRef, env: Env): seq<Event> {
    [IsDirectory(ref.directory)]
    + if env.isDirectory(ref.directory) then [Execute(LocalInfo(ref.directory))] else []
  }

  /** Resolve the version; give up when it names nothing; switch an existing
      working copy, check out otherwise. */
  function Checkout(ref: RepositoryRef, version: string, env: Env): (r: Run<bool>)
    ensures var res := ResolveVersion(ref.url, version, env);
      && (res.value.None? ==> r == Run(res.trace, false))
      && (res.value.Some? && IsWorkingCopy(ref, env) ==>
            var sw := Switch(VersionUrl(ref.url, res.value.value), ref.directory);
            r == Run(res.trace + WorkingCopyProbe(ref, env) + [Execute(sw)], Succeeds(env, sw)))
      && (res.value.Some? && !IsWorkingCopy(ref, env) ==>
            var co := CheckoutInto(VersionUrl(ref.url, res.value.value), ref.directory);
            r == Run(res.trace + WorkingCopyProbe(ref, env) + [Execute(co)], Succeeds(env, co)))
  {
    var res := ResolveVersion(ref.url, version, env);
    match res.value
    case None => Run(res.trace, false)
    case Some(path) =>
      var target := VersionUrl(ref.url, path);
      var probe := WorkingCopyProbe(ref, env);
      if IsWorkingCopy(ref, env) then
        var sw := Switch(target, ref.directory);
        Run(res.trace + probe + [Execute(sw)], Succeeds(env, sw))
      else
        var co := CheckoutInto(target, ref.directory);
        Run(res.trace + probe + [Execute(co)], Succeeds(env, co))
  }

  /** A trace of listings issues no other command. */
  lemma ListingsIssueNothingElse(trace: seq<Event>, c: Command)
    requires OnlyListings(trace) && !c.SvnList?
    ensures !Issued(trace, c)
  {
  }

  /** Once a version resolves, the only command a checkout issues besides
      listings and `svn info` is the last one: a switch in a working copy, a
      checkout anywhere else. */
  lemma CheckoutIssues(ref: RepositoryRef, version: string, env: Env, c: Command)
    requires ResolveVersion(ref.url, version, env).value.Some?
    requires !c.SvnList? && !c.SvnInfo?
    ensures var target := VersionUrl(ref.url, ResolveVersion(ref.url, version, env).value.value);
      Issued(Checkout(ref, version, env).trace, c) <==>
        c == if IsWorkingCopy(ref, env) then SvnSwitch(target) else SvnCheckout(target, ref.directory)
  {
    var res := ResolveVersion(ref.url, version, env);
    var target := VersionUrl(ref.url, res.value.value);
    var probe := WorkingCopyProbe(ref, env);
    var last := if IsWorkingCopy(ref, env) then Switch(target, ref.directory) else CheckoutInto(target, ref.directory);
    assert Checkout(ref, version, env).trace == res.trace + probe + [Execute(last)];
    ResolutionOnlyLists(ref.url, version, env);
    ListingsIssueNothingElse(res.trace, c);
    assert !Issued(probe, c);
    IssuedConcat(res.trace, probe, c);
    IssuedConcat(res.trace + probe, [Execute(last)], c);
    IssuedOne(Execute(last), c);
  }

  /** An unresolvable version stops after the listings, before the local
      directory is looked at; otherwise exactly one of `svn switch` (in a
      working copy) and `svn checkout` (anywhere else) is issued, for the
      resolved URL. */
  lemma CheckoutCommands(ref: RepositoryRef, version: string, env: Env)
    ensures var res := ResolveVersion(ref.url, version, env);
      var r := Checkout(ref, version, env);
      && (res.value.None? ==> OnlyListings(r.trace) && !r.value)
      && (res.value.Some? ==>
            var target := VersionUrl(ref.url, res.value.value);
            && (Issued(r.trace, SvnSwitch(target)) <==> IsWorkingCopy(ref, env))
            && (Issued(r.trace, SvnCheckout(target, ref.directory)) <==> !IsWorkingCopy(ref, env)))
  {
    var res := ResolveVersion(ref.url, version, env);
    if res.value.Some? {
      var target := VersionUrl(ref.url, res.value.value);
      CheckoutIssues(ref, version, env, SvnSwitch(target));
      CheckoutIssues(ref, version, env, SvnCheckout(target, ref.directory));
    } else {
      ResolutionOnlyLists(ref.url, version, env);
    }
  }

  /** Checking out the trunk in a working copy lists nothing: after the
      directory test it issues `svn info` and the switch to the trunk, two
      commands in all, and the switch's success is the result. */
  lemma TrunkCheckoutInWorkingCopy(ref: RepositoryRef, version: string, env: Env)
    requires IsTrunkName(version) && IsWorkingCopy(ref, env)
    ensures var sw := Switch(VersionUrl(ref.url, AtTrunk), ref.directory);
      Checkout(ref, version, env)
        == Run([IsDirectory(ref.directory), Execute(LocalInfo(ref.directory)), Execute(sw)],
               Succeeds(env, sw))
  {
  }

  /** The single-token quirk: a line holding one token of two or more
      characters gives the token without its last character as the
      revision and that last character as the name. */
  lemma SingleTokenSplits(line: string, p: int, y: int)
    requires SpaceBetween(line, 0, p) && TokenBetween(line, p, y) && SpaceBetween(line, y, |line|)
    requires p + 2 <= y
    ensures ParseListLine(line) == Some((line[p..y - 1], line[y - 1..y]))
  {
    assert ListMatch(line, p, y - 1, y - 1, y);
    ParseListLineComplete(line, p, y - 1, y - 1, y);
  }

  /** A line of `svn ls --verbose` output: leading blanks, the revision,
      the other columns with the white space around them, and the name. */
  function ColumnLine(lead: string, revision: string, middle: string, name: string): string {
    lead + revision + middle + name
  }

  /** Blanks up to `p`, a token up to `x`, a middle `line[x..q]` that starts
      and ends with white space, and a final token from `q`: the parser
      returns the two tokens. */
  lemma ParseAtColumns(line: string, p: int, x: int, q: int)
    requires 0 <= p < x < q < |line|
    requires SpaceBetween(line, 0, p) && TokenBetween(line, p, x) && TokenBetween(line, q, |line|)
    requires IsSpace(line[x]) && IsSpace(line[q - 1])
    ensures ParseListLine(line) == Some((line[p..x], line[q..]))
  {
    assert !IsSpace(line[p]) && !IsSpace(line[|line| - 1]);
    assert SkipSpace(line, 0) == p;
    assert BackOverSpace(line, |line|) == |line|;
    assert SkipToken(line, p) == x;
    assert BackOverToken(line, |line|) == q;
    assert line[q..|line|] == line[q..];
  }

  /** A well-formed column line gives its revision and its name. */
  lemma ListLineOfColumns(lead: string, revision: string, middle: string, name: string)
    requires AllSpace(lead) && 0 < |revision| && NoSpace(revision)
    requires 0 < |middle| && IsSpace(middle[0]) && IsSpace(middle[|middle| - 1])
    requires 0 < |name| && NoSpace(name)
    ensures ParseListLine(ColumnLine(lead, revision, middle, name)) == Some((revision, name))
  {
    var line := ColumnLine(lead, revision, middle, name);
    var p, x := |lead|, |lead| + |revision|;
    var q := x + |middle|;
    assert forall k :: 0 <= k < p ==> line[k] == lead[k];
    assert forall k :: p <= k < x ==> line[k] == revision[k - p];
    assert forall k :: q <= k < |line| ==> line[k] == name[k - q];
    assert line[x] == middle[0] && line[q - 1] == middle[|middle| - 1];
    assert line[p..x] == revision && line[q..] == name;
    ParseAtColumns(line, p, x, q);
  }

  /** A well-formed trunk column line counts exactly when its name is `./`,
      and then maps its revision to `master`. */
  lemma TrunkLineOfColumns(lead: string, revision: string, middle: string, name: string)
    requires AllSpace(lead) && 0 < |revision| && NoSpace(revision)
    requires 0 < |middle| && IsSpace(middle[0]) && IsSpace(middle[|middle| - 1])
    requires 0 < |name| && NoSpace(name)
    ensures TrunkEntry(ColumnLine(lead, revision, middle, name))
      == if name == "./" then Some((revision, "master")) else None
  {
    ListLineOfColumns(lead, revision, middle, name);
  }

  /** Two column lines with the same revision, then the empty line after
      the final line feed. */
  lemma TwoColumnLines(lead: string, revision: string, middle: string, n1: string, n2: string)
    requires AllSpace(lead) && '\n' !in lead && 0 < |revision| && NoSpace(revision)
    requires 0 < |middle| && IsSpace(middle[0]) && IsSpace(middle[|middle| - 1]) && '\n' !in middle
    requires 0 < |n1| && NoSpace(n1) && 0 < |n2| && NoSpace(n2)
    ensures ListEntries(Lines(ColumnLine(lead, revision, middle, n1) + "\n" + ColumnLine(lead, revision, middle, n2) + "\n"))
      == [Some((revision, n1)), Some((revision, n2)), None]
  {
    var l1, l2 := ColumnLine(lead, revision, middle, n1), ColumnLine(lead, revision, middle, n2);
    assert '\n' !in revision && '\n' !in n1 && '\n' !in n2 by {
      assert IsSpace('\n');
    }
    assert '\n' !in l1 && '\n' !in l2;
    LinesOfTwo(l1, l2);
    ListLineOfColumns(lead, revision, middle, n1);
    ListLineOfColumns(lead, revision, middle, n2);
    assert ParseListLine("") == None;
  }

  /** A trunk listing of `./` and another name at one revision, then the
      empty line after the final line feed: only the first line counts. */
  lemma TwoTrunkLines(lead: string, revision: string, middle: string, other: string)
    requires AllSpace(lead) && '\n' !in lead && 0 < |revision| && NoSpace(revision)
    requires 0 < |middle| && IsSpace(middle[0]) && IsSpace(middle[|middle| - 1]) && '\n' !in middle
    requires 0 < |other| && NoSpace(other) && other != "./"
    ensures TrunkEntries(Lines(ColumnLine(lead, revision, middle, "./") + "\n" + ColumnLine(lead, revision, middle, other) + "\n"))
      == [Some((revision, "master")), None, None]
  {
    var l1, l2 := ColumnLine(lead, revision, middle, "./"), ColumnLine(lead, revision, middle, other);
    assert '\n' !in revision && '\n' !in other && '\n' !in "./" by {
      assert IsSpace('\n');
    }
    assert NoSpace("./");
    assert '\n' !in l1 && '\n' !in l2;
    LinesOfTwo(l1, l2);
    TrunkLineOfColumns(lead, revision, middle, "./");
    TrunkLineOfColumns(lead, revision, middle, other);
    assert ParseListLine("") == None;
  }

  /** With a failed trunk listing, the later line of the branches listing
      overwrites the earlier one at the same revision. */
  lemma SameRevisionListing(url: string, env: Env, lead: string, revision: string, middle: string, n1: string, n2: string)
    requires AllSpace(lead) && '\n' !in lead && 0 < |revision| && NoSpace(revision)
    requires 0 < |middle| && IsSpace(middle[0]) && IsSpace(middle[|middle| - 1]) && '\n' !in middle
    requires 0 < |n1| && NoSpace(n1) && 0 < |n2| && NoSpace(n2)
    requires !Succeeds(env, List(url + "/" + TrunkPath))
    requires env.run(List(url + "/" + BranchesPath)) == ExecutionResult(0,
      ColumnLine(lead, revision, middle, n1) + "\n" + ColumnLine(lead, revision, middle, n2) + "\n", "")
    ensures GetBranches(url, env).value == map[revision := n2]
  {
    TwoColumnLines(lead, revision, middle, n1, n2);
    CollectTwo((revision, n1), (revision, n2));
  }

  /** The columns between the revision and the name in the `svn ls` output
      of tests/Adapter/SubversionAdapterTest.php. */
  const ExampleColumns: string := " niels.ni              nov 22 22:10 "

  /** The branch listing test of tests/Adapter/SubversionAdapterTest.php with a
      failed trunk listing: `./` and `1.0` both at revision 35 give `1.0`. */
  lemma BranchListingExample(url: string, env: Env)
    requires !Succeeds(env, List(url + "/" + TrunkPath))
    requires env.run(List(url + "/" + BranchesPath)) == ExecutionResult(0,
      ColumnLine("     ", "35", ExampleColumns, "./") + "\n" + ColumnLine("     ", "35", ExampleColumns, "1.0") + "\n", "")
    ensures GetBranches(url, env).value == map["35" := "1.0"]
  {
    assert AllSpace("     ") && '\n' !in "     ";
    assert IsSpace(ExampleColumns[0]) && IsSpace(ExampleColumns[|ExampleColumns| - 1]) && '\n' !in ExampleColumns;
    SameRevisionListing(url, env, "     ", "35", ExampleColumns, "./", "1.0");
  }

  /** A trunk listing of `./` and another name at one revision and a
      branches listing of two names at another: the trunk revision maps to
      `master`, the branch revision to the later of its two names. */
  lemma TrunkAndBranchListing(url: string, env: Env, lead: string, middle: string,
                              trunkRevision: string, other: string, branchRevision: string, n1: string, n2: string)
    requires AllSpace(lead) && '\n' !in lead
    requires 0 < |middle| && IsSpace(middle[0]) && IsSpace(middle[|middle| - 1]) && '\n' !in middle
    requires 0 < |trunkRevision| && NoSpace(trunkRevision) && 0 < |branchRevision| && NoSpace(branchRevision)
    requires 0 < |other| && NoSpace(other) && other != "./"
    requires 0 < |n1| && NoSpace(n1) && 0 < |n2| && NoSpace(n2)
    requires env.run(List(url + "/" + TrunkPath)) == ExecutionResult(0,
      ColumnLine(lead, trunkRevision, middle, "./") + "\n" + ColumnLine(lead, trunkRevision, middle, other) + "\n", "")
    requires env.run(List(url + "/" + BranchesPath)) == ExecutionResult(0,
      ColumnLine(lead, branchRevision, middle, n1) + "\n" + ColumnLine(lead, branchRevision, middle, n2) + "\n", "")
    ensures GetBranches(url, env).value == map[trunkRevision := "master"][branchRevision := n2]
  {
    TwoTrunkLines(lead, trunkRevision, middle, other);
    CollectOne((trunkRevision, "master"));
    TwoColumnLines(lead, branchRevision, middle, n1, n2);
    CollectTwo((branchRevision, n1), (branchRevision, n2));
  }

  /** The successful trunk listing test of tests/Adapter/SubversionAdapterTest.php:
      trunk `./` at revision 34 becomes `master`, the trunk's `file` line is
      skipped, and revision 35 of the branches listing ends at `1.0`. */
  lemma TrunkListingExample(url: string, env: Env)
    requires env.run(List(url + "/" + TrunkPath)) == ExecutionResult(0,
      ColumnLine("     ", "34", ExampleColumns, "./") + "\n" + ColumnLine("     ", "34", ExampleColumns, "file") + "\n", "")
    requires env.run(List(url + "/" + BranchesPath)) == ExecutionResult(0,
      ColumnLine("     ", "35", ExampleColumns, "./") + "\n" + ColumnLine("     ", "35", ExampleColumns, "1.0") + "\n", "")
    ensures GetBranches(url, env).value == map["34" := "master", "35" := "1.0"]
  {
    assert AllSpace("     ") && '\n' !in "     ";
    assert IsSpace(ExampleColumns[0]) && IsSpace(ExampleColumns[|ExampleColumns| - 1]) && '\n' !in ExampleColumns;
    TrunkAndBranchListing(url, env, "     ", ExampleColumns, "34", "file", "35", "./", "1.0");
  }
}
