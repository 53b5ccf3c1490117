# chrono: a verified model of the VCS adapters and the repository front end

Chrono gives a PHP application one interface to a version-controlled
repository. The interface can list branches, list tags, and check out a
version. A `Repository` picks the first configured adapter that supports
the repository URL and hands every operation to it. There are two adapters:

- The Git adapter drives `git`.
- The Subversion adapter drives `svn`.

Every command runs through a process executor, which returns an exit code
and the two output streams.

In this model the executor is an oracle, `Execution.Env`. It answers each
command invocation with an `ExecutionResult` and each directory test with a
boolean. Every operation is a pure function. It returns a `Run`: the trace
of what it asked the executor, in order, together with its result. So
statements like "a clone and never a fetch", "pull only when not detached"
or "nothing is probed once an adapter is bound" are ordinary postconditions
about traces.

The modules are:

- `Wrappers`: `Option` and `Result`.
- `Text`: PCRE's white-space class, and scanners over strings. It also has
  case-insensitive literal patterns, in which `.` matches any character
  except a line feed.
- `Process`: the immutable `ExecutionResult` record and its success test.
  It also splits an output into lines, proved to be the inverse of joining
  them.
- `Execution`: the structured `Command` datatype, one constructor per
  command line. It also holds invocations, events, the oracle, traces, and
  "run these commands until one fails".
- `RevisionMaps`: turning parsed output lines into a revision-to-name map
  with PHP array semantics, where the last assignment to a key wins. `Collect`
  is proved against an independent declarative definition (`LastWins`) and
  shown to be unique. Concatenated listings are shown to merge as a
  right-biased union.
- `Git`: the Git adapter.
- `Subversion`: the Subversion adapter.
- `Repository`: probing the adapter list, binding, and delegation.

## Model

| member | source | states |
|---|---|---|
| Process.ResultRecord | src/Process/ProcessExecutionResult.php:40-85 | The exit code, output and error output read back are exactly the constructor's arguments. The result is successful iff the exit code is 0. |
| Process.Lines | src/Adapter/GitAdapter.php:45 | Splitting an output gives at least one line, and no line contains a line feed. |
| Process.JoinLines | src/Adapter/GitAdapter.php:45 | Joining the lines of an output with line feeds gives back the output, so splitting loses nothing. |
| Process.LinesJoin | src/Adapter/GitAdapter.php:45 | Splitting the join of feed-free lines gives back those lines, so the split is the inverse of the join. |
| Execution.RunUntilFailure | src/Adapter/GitAdapter.php:85-98 | Commands run in order and stop right after the first failure. Every command before the last one run succeeded. The result is true iff every command succeeded, and then all of them ran. When the result is false, the last command run failed. |
| Execution.RunUntilFailureSucceeded | src/Adapter/GitAdapter.php:90-98 | The result is true iff every command that was actually run succeeded. |
| RevisionMaps.CollectLastWins | src/Adapter/GitAdapter.php:44-50 | The collected map holds exactly the revisions of the parsed lines. Each revision maps to the name on the last line that carried it. |
| RevisionMaps.LastWinsUnique | src/Adapter/GitAdapter.php:44-50 | At most one map satisfies the last-wins description of a listing, so the collected map is the only such map. |
| RevisionMaps.CollectConcat | src/Adapter/SubversionAdapter.php:62-84 | Collecting two listings in a row gives the first map overridden by the second. |
| RevisionMaps.CollectTwo | src/Adapter/SubversionAdapter.php:76-81 | Two entries and a skipped line give both entries, and the second wins when they share a revision. |
| RevisionMaps.CollectSize | src/Adapter/GitAdapter.php:45-50 | Assigning parsed lines into an empty array never holds more revisions than there were lines. |
| RevisionMaps.CollectOne | src/Adapter/SubversionAdapter.php:66-71 | One entry followed by two skipped lines gives the one-entry map. |
| RevisionMaps.CollectOneName | src/Adapter/SubversionAdapter.php:66-71 | When every parsed line carries the same name, every collected revision maps to that name. |
| Git.SupportsRepository | src/Adapter/GitAdapter.php:17-34 | `git --version` always runs first. If it fails, the answer is false after that one command. A URL of Git shape gives true with no more commands. Otherwise the answer is the success of one `ls-remote --heads`, with prompts disabled. |
| Git.ShapeNeedsNoRemote | src/Adapter/GitAdapter.php:24-26 | For a URL of Git shape, the answer depends only on `git --version` and never issues `ls-remote`. |
| Git.ScpUrlIsGit | src/Adapter/GitAdapter.php:24-26 | `git@github.com:accompli/chrono.git` is accepted by its shape after the version check alone. |
| Git.UrlShapeMentionsGit | src/Adapter/GitAdapter.php:24 | Each of the six URL shapes contains `git`, ignoring case, so a URL without it is accepted only after asking the remote. |
| Git.ParseRefLine | src/Adapter/GitAdapter.php:47-48 | An accepted line yields a 40-character lowercase hexadecimal hash and a non-empty name without white space. |
| Git.ParseRefLineSound | src/Adapter/GitAdapter.php:47 | Every accepted line is hash, white space, prefix, name, with the hash and name returned. |
| Git.ParseRefLineComplete | src/Adapter/GitAdapter.php:47 | Every line of the form hash, white space, prefix, name is accepted with exactly that hash and name. |
| Git.HeadLine | src/Adapter/GitAdapter.php:47 | An accepted head line is a 40-digit hash, white space, `refs/heads/` and a name, with that hash and name returned. |
| Git.TagLine | src/Adapter/GitAdapter.php:67 | An accepted tag line is a 40-digit hash, white space, `refs/tags/`, the returned name and `^{}`, so only dereferenced annotated tags are kept. The name is non-empty and has no white space. |
| Git.AnnotatedTagLine | src/Adapter/GitAdapter.php:67-68 | The dereferenced `^{}` line of an annotated tag is accepted, with the tag name minus the suffix. |
| Git.LightweightTagLine | src/Adapter/GitAdapter.php:67 | A tag line whose name does not end in `^{}` contributes nothing. |
| Git.CollectWellFormed | src/Adapter/GitAdapter.php:41-53 | Listing maps have commit hashes as keys and single non-empty tokens as names. |
| Git.GetBranches | src/Adapter/GitAdapter.php:39-54 | Exactly one `ls-remote --heads` runs, with prompts disabled. A failure gives an empty map. Success gives the last-wins map of the matching head lines, keyed by hash. |
| Git.GetTags | src/Adapter/GitAdapter.php:59-74 | Exactly one `ls-remote --tags` runs, with prompts disabled. A failure gives an empty map. Success gives the last-wins map of the dereferenced tag lines. |
| Git.TwoHeadLines | src/Adapter/GitAdapter.php:45-48 | Two head lines of any hashes and names, each ended by a line feed, parse to their two entries. The empty line after the last line feed parses to nothing. |
| Git.TwoBranchListing | src/Adapter/GitAdapter.php:41-53 | A successful `ls-remote --heads` of two head lines with distinct hashes gives both branches and nothing else. |
| Git.BranchListingExample | tests/Adapter/GitAdapterTest.php:160-161 | The `ls-remote --heads` output of the adapter's branch listing test, `master` and `1.0`, gives the two-entry map that test expects. |
| Git.DetachedOfParts | src/Adapter/GitAdapter.php:103 | ` *`, then anything without a line feed, then `no branch` or `HEAD detached at`, then anything, is a detached output. |
| Git.DetachedFirstLine | src/Adapter/GitAdapter.php:103 | When the output is detached, its first line alone is detached too. |
| Git.DetachedFromFirstLine | src/Adapter/GitAdapter.php:103 | When the first line alone is detached, the whole output is detached. |
| Git.DetachedReadsFirstLine | src/Adapter/GitAdapter.php:103 | The detached-HEAD pattern holds of an output iff it holds of the output's first line. |
| Git.Update | src/Adapter/GitAdapter.php:84-105 | In a work tree, fetch runs, then checkout if fetch succeeded, then `git branch` always. Pull runs iff everything so far succeeded and the branch output is not detached. The result is true iff fetch, checkout and `git branch` succeeded and, when pull ran, pull succeeded too. |
| Git.UpdateSucceeded | src/Adapter/GitAdapter.php:90-105 | The update's result is true iff every command it issued succeeded. |
| Git.Checkout | src/Adapter/GitAdapter.php:79-115 | Outside a work tree there is exactly the probe plus one clone, and the result is the clone's success. Inside one there is the probe followed by the update. Every ls-remote, fetch, checkout, branch, pull and clone command carries the no-prompt environment; the `rev-parse` probe runs without one. |
| Git.ProbeIssuesOnlyRevParse | src/Adapter/GitAdapter.php:84 | The work-tree test issues nothing but `rev-parse`, and issues it iff the directory exists. |
| Git.UpdateIssues | src/Adapter/GitAdapter.php:85-105 | The update issues a command iff it is fetch, `git branch`, checkout when fetch succeeded, or pull when all else succeeded and the output is not detached. Nothing else is issued, a clone included. |
| Git.CheckoutIssues | src/Adapter/GitAdapter.php:84-112 | Apart from `rev-parse`, a checkout issues what the update issues in a work tree, and only the clone anywhere else. |
| Git.CheckoutCommands | src/Adapter/GitAdapter.php:84-112 | A clone is issued iff there is no work tree. Fetch and branch are issued iff there is one. Checkout is issued iff there is a work tree and fetch succeeded. Pull is issued iff the checkout path all succeeded and HEAD is not detached. |
| Subversion.SupportsRepository | src/Adapter/SubversionAdapter.php:38-55 | `svn --version` always runs first. If it fails, the answer is false after that one command. A URL of Subversion shape gives true. Otherwise the answer is the success of one `svn info <url>`. |
| Subversion.ShapeNeedsNoRemote | src/Adapter/SubversionAdapter.php:45-47 | For a URL of Subversion shape, the answer depends only on `svn --version` and never runs `svn info <url>`. |
| Subversion.UrlShapeMentionsSvn | src/Adapter/SubversionAdapter.php:45 | Each of the three URL shapes contains `svn`, ignoring case, so a URL without it is accepted only after asking the remote. |
| Subversion.ParseListLine | src/Adapter/SubversionAdapter.php:68 | Both groups of an accepted line are non-empty and hold no white space. |
| Subversion.ParseListLineSound | src/Adapter/SubversionAdapter.php:68 | On a line without line feeds, whatever the parser returns is a match of `^\s*(\S+).*?(\S+)\s*$`. |
| Subversion.ParseListLineComplete | src/Adapter/SubversionAdapter.php:68 | Every line that matches is accepted. The groups returned are the ones PCRE picks: the longest first group, then the longest second group. |
| Subversion.SingleTokenSplits | src/Adapter/SubversionAdapter.php:68 | A line with a single token of two or more characters splits it into the token minus its last character and that last character. |
| Subversion.ParseAtColumns | src/Adapter/SubversionAdapter.php:68 | Blanks, a first token, a middle that starts and ends with white space, and a final token parse to the two tokens. |
| Subversion.ListLineOfColumns | src/Adapter/SubversionAdapter.php:68 | A line of leading blanks, revision, other columns and name yields that revision and that name. |
| Subversion.TrunkLineOfColumns | src/Adapter/SubversionAdapter.php:68-69 | A well-formed column line of the trunk listing gives its revision and `master` iff its name is `./`, and nothing otherwise. |
| Subversion.TwoTrunkLines | src/Adapter/SubversionAdapter.php:66-71 | A trunk listing of a `./` line and a line with another name, at one revision, yields only the `./` entry. |
| Subversion.TrunkEntry | src/Adapter/SubversionAdapter.php:68-69 | A trunk line counts iff the list pattern matches it and its second group is `./`. It then maps the first group to `master`. |
| Subversion.TrunkIsMaster | src/Adapter/SubversionAdapter.php:64-72 | Every revision taken from the trunk listing maps to `master`. |
| Subversion.GetBranches | src/Adapter/SubversionAdapter.php:60-85 | The trunk listing runs, then the branches listing. The result is the trunk map overridden by the branches map. It is the last-wins map of both listings together, and a failed listing contributes nothing. |
| Subversion.GetTags | src/Adapter/SubversionAdapter.php:90-105 | Exactly one `svn ls` of the tags path runs. A failure gives an empty map. Success gives the last-wins map of the matching lines. |
| Subversion.SameRevisionListing | src/Adapter/SubversionAdapter.php:74-82 | With a failed trunk listing, two branch lines at the same revision leave only the later name. |
| Subversion.BranchListingExample | tests/Adapter/SubversionAdapterTest.php:165-176 | In the branch listing test with a failed trunk listing, `./` and `1.0` at revision 35 give `35 => 1.0`. |
| Subversion.TrunkAndBranchListing | src/Adapter/SubversionAdapter.php:62-84 | A trunk `./` line, a trunk line with another name, and two branch lines at another revision give the trunk revision as `master` and the branch revision as the later name. |
| Subversion.TrunkListingExample | tests/Adapter/SubversionAdapterTest.php:179-190 | In the branch listing test with a successful trunk listing, the result is `34 => master, 35 => 1.0`. |
| Subversion.ResolveVersion | src/Adapter/SubversionAdapter.php:139-153 | `master` and `trunk` resolve to the trunk with no commands. Otherwise a live branch name resolves to the branch. Failing that, a live tag name resolves to the tag, and anything else fails. Every case is stated as an iff. Below trunk, the trace is the two branch listings, followed by the tag listing only when the name is not a branch. |
| Subversion.VersionUrl | src/Adapter/SubversionAdapter.php:141-147 | Every version URL extends the repository URL followed by a slash. |
| Subversion.VersionUrlInjective | src/Adapter/SubversionAdapter.php:141-147 | Distinct resolved paths give distinct URLs, so the URL determines trunk, branch or tag and the name. |
| Subversion.ResolutionTrace | src/Adapter/SubversionAdapter.php:142-147 | Below trunk, the trace is the trunk and branches listings, followed by the tags listing exactly when the name is not among the live branch names. |
| Subversion.TagsListedOnlyForNonBranches | src/Adapter/SubversionAdapter.php:144-146 | Below trunk, the tags are listed iff the name did not resolve to a branch, that is, iff it is not a live branch name. Resolution issues two commands for a branch and three otherwise. |
| Subversion.ResolutionOnlyLists | src/Adapter/SubversionAdapter.php:139-153 | Resolution issues at most three commands, all `svn ls`. It never looks at the directory. |
| Subversion.ResolutionPrecedence | src/Adapter/SubversionAdapter.php:142-147 | A trunk name always wins. A name that is both a branch and a tag resolves to the branch. |
| Subversion.Checkout | src/Adapter/SubversionAdapter.php:110-129 | An unresolved version gives false right after resolution. A working copy gets the directory test, `svn info`, and one switch, whose success is the result. Anything else gets one checkout into the directory, whose success is the result. |
| Subversion.CheckoutIssues | src/Adapter/SubversionAdapter.php:110-129 | Once the version resolves, the only command besides listings and `svn info` is a switch in a working copy or a checkout anywhere else, both to the resolved URL. |
| Subversion.CheckoutCommands | src/Adapter/SubversionAdapter.php:114-126 | An unresolved version issues only listings. Otherwise the switch to the resolved URL is issued iff there is a working copy, and the checkout iff there is not. |
| Subversion.TrunkCheckoutInWorkingCopy | src/Adapter/SubversionAdapter.php:110-129 | Checking out `master` or `trunk` in a working copy lists nothing: the trace is the directory test, `svn info` and the switch to the trunk URL, and the switch's success is the result. |
| Repository.Supports | src/Repository.php:102-103 | Support detection issues one or two commands, all of them inquiries that change nothing. |
| Repository.Probe | src/Repository.php:97-106 | Probing issues only inquiries, and an adapter it finds is built for the repository's own URL and directory. |
| Repository.ProbeFindsFirst | src/Repository.php:97-107 | The result is the adapter of the first usable entry that supports the URL. It is nothing iff no entry does. |
| Repository.ProbeIgnoresUnusable | src/Repository.php:98-100 | Probing the list gives the same trace and result as probing its usable entries alone. |
| Repository.ProbeThroughRejecting | src/Repository.php:97-106 | When no entry of a leading part of the list accepts, probing the whole list first asks everything that part asks, in order, then exactly what probing the rest asks, and finds what the rest finds. |
| Repository.ProbeStopsAtFirst | src/Repository.php:103-105 | Entries after an accepting one are never tried. |
| Repository.Create | src/Repository.php:59-64 | A new repository keeps its URL and directory, has an empty adapter list, and binds nothing. |
| Repository.SetAdapters | src/Repository.php:114-117 | The list is replaced, and the URL, directory and bound adapter are unchanged. |
| Repository.GetAdapter | src/Repository.php:91-107 | A bound adapter is returned without probing. Otherwise the result is the probe of the list. |
| Repository.NoAdapterMessage | src/Repository.php:138 | The error message contains the repository URL. |
| Repository.Initialize | src/Repository.php:134-142 | It fails iff nothing is bound and no entry accepts, with the message naming the URL. Otherwise it binds the first accepting adapter and changes nothing else. With an adapter already bound, it asks nothing. |
| Repository.BindingIsStable | src/Repository.php:91-95 | Initializing a repository that is already initialized asks nothing and returns it unchanged, whatever the executor now answers. |
| Repository.EmptyListFails | src/Repository.php:134-139 | A new repository fails initialization without issuing any command, with the message naming its URL. |
| Repository.SetAdaptersAfterBinding | src/Repository.php:114-117 | Replacing the list after binding does not change which adapter is used. |
| Repository.GetBranches | src/Repository.php:69-74 | The result is initialization, answered by the probing executor, followed by the bound adapter's listing, returned unchanged. A failure to initialize is passed on. |
| Repository.GetTags | src/Repository.php:79-84 | The result is initialization, answered by the probing executor, followed by the bound adapter's tag listing, returned unchanged. A failure to initialize is passed on. |
| Repository.Checkout | src/Repository.php:122-127 | The result is initialization, answered by the probing executor, followed by the bound adapter's checkout of the same version, returned unchanged. |
| Repository.LaterOperationsSkipProbing | src/Repository.php:134-142 | After one successful operation, later operations issue exactly the adapter's own commands, whatever the probing executor would answer. |

## Left out

- Running processes, the timeout, the current directory and `is_dir` are
  I/O in `src/Process/ProcessExecutor.php`. They become the oracle
  `Execution.Env`, which answers one operation's invocations and directory
  tests deterministically. The repository operations take two oracles: one
  for initialization and one for the adapter's own operation. The same
  command asked twice within one of them gets the same answer.
- `ProcessUtils::escapeArgument` is a foreign call. Commands are kept
  structured, so nothing needs escaping.
- `getOutputAsArray` is called but is not part of this model, because its
  definition is missing from `src/Process/ProcessExecutionResult.php`.
  `Process.Lines` splits the output at every line feed, which leaves a final
  empty line after a trailing line feed. That line matches none of the
  patterns, so it cannot change a result.
- The `in_array` lookups in `getRepositoryUrlWithVersionPath` use PHP's loose
  comparison, under which `'1' == '1.0'`. They are modelled as string
  equality.
- PHP turns numeric array keys such as Subversion revisions into integers.
  Keys are kept as strings.
- `class_exists` and `class_implements` are reflective checks. They become
  the `Usable`/`Unusable` tag on adapter-list entries.
- `AbstractAdapter`, `AdapterInterface`, `RepositoryInterface` and
  `ProcessExecutorInterface` hold fields and signatures only. The mock
  adapter of the tests is not modelled.
- A repository is an immutable value. Operations return the repository
  with its adapter bound, and a failed initialization leaves the caller's
  value as it was, with nothing bound.
- Case-insensitive URL matching folds ASCII letters only. Without the `u`
  modifier, PCRE folds bytes; characters beyond ASCII are not folded here.
- Where the tests and the code disagree, the model follows the code. The
  Git checkout always issues `git branch` in a work tree. A Subversion
  checkout of a version that resolves to nothing returns before the
  directory test. Checking out `master` or `trunk` in a working copy issues
  only `svn info` and the switch, two commands, where the test expects
  three.
