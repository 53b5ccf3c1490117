/** The seam between the adapters and the outside world. Commands are kept
    structured (one constructor per command line the adapters issue), the
    process executor becomes an oracle that answers each invocation, and
    every adapter operation returns the trace of what it asked the executor
    together with its result. */
module Execution {
  import opened Wrappers
  import opened Process

  /** A repository: its URL and the local directory of its working copy. */
  datatype RepositoryRef = RepositoryRef(url: string, directory: string)

  /** Which references `git ls-remote` lists. */
  datatype RefKind = Heads | Tags

  /** The command lines the adapters issue, with their arguments unescaped. */
  datatype Command =
    | GitVersion                                                  // git --version
    | GitLsRemote(kind: RefKind, url: string)                     // git ls-remote --heads|--tags <url>
    | GitRevParse                                                 // git rev-parse --is-inside-work-tree
    | GitFetch                                                    // git fetch
    | GitCheckout(version: string)                                // git checkout <version>
    | GitBranch                                                   // git branch
    | GitPull                                                     // git pull
    | GitClone(version: string, url: string, directory: string)   // git clone -b <version> --single-branch <url> <dir>
    | SvnVersion                                                  // svn --version
    | SvnInfo(target: Option<string>)                             // svn info --non-interactive [<url>]
    | SvnList(url: string)                                        // svn ls --non-interactive <url>
    | SvnSwitch(url: string)                                      // svn switch --non-interactive <url>
    | SvnCheckout(url: string, directory: string)                 // svn checkout --non-interactive <url> <dir>

  /** A command together with the working directory and the environment
      variables it is run with; `None` means the executor's default. */
  datatype Invocation = Invocation(
    command: Command,
    workingDirectory: Option<string>,
    environment: Option<map<string, string>>)

  /** What an adapter asks of the executor, in order. */
  datatype Event = Execute(invocation: Invocation) | IsDirectory(path: string)

  /** The executor as seen during one operation: the outcome of every
      invocation and the answer of every directory test. */
  datatype Env = Env(run: Invocation -> ExecutionResult, isDirectory: string -> bool)

  /** An operation's trace of events together with its result. */
  datatype Run<T> = Run(trace: seq<Event>, value: T)

  predicate Succeeds(env: Env, inv: Invocation) {
    env.run(inv).IsSuccessful()
  }

  /** Some event of the trace executes command `c`. */
  predicate Issued(trace: seq<Event>, c: Command) {
    exists i :: 0 <= i < |trace| && trace[i].Execute? && trace[i].invocation.command == c
  }

  lemma IssuedConcat(a: seq<Event>, b: seq<Event>, c: Command)
    ensures Issued(a + b, c) <==> Issued(a, c) || Issued(b, c)
  {
    if Issued(a + b, c) {
      var i :| 0 <= i < |a + b| && (a + b)[i].Execute? && (a + b)[i].invocation.command == c;
      if i < |a| {
        assert a[i] == (a + b)[i];
      } else {
        assert b[i - |a|] == (a + b)[i];
      }
    }
    if Issued(a, c) {
      var i :| 0 <= i < |a| && a[i].Execute? && a[i].invocation.command == c;
      assert (a + b)[i] == a[i];
    }
    if Issued(b, c) {
      var i :| 0 <= i < |b| && b[i].Execute? && b[i].invocation.command == c;
      assert (a + b)[|a| + i] == b[i];
    }
  }

  lemma IssuedOne(e: Event, c: Command)
    ensures Issued([e], c) <==> e.Execute? && e.invocation.command == c
  {
    if e.Execute? && e.invocation.command == c {
      assert [e][0] == e;
    }
  }

  /** Every command the trace executes succeeded. */
  predicate AllSucceeded(env: Env, trace: seq<Event>) {
    forall i :: 0 <= i < |trace| && trace[i].Execute? ==> Succeeds(env, trace[i].invocation)
  }

  lemma AllSucceededConcat(env: Env, a: seq<Event>, b: seq<Event>)
    ensures AllSucceeded(env, a + b) <==> AllSucceeded(env, a) && AllSucceeded(env, b)
  {
    if AllSucceeded(env, a) && AllSucceeded(env, b) {
      forall i | 0 <= i < |a + b| && (a + b)[i].Execute?
        ensures Succeeds(env, (a + b)[i].invocation)
      {
        if i >= |a| {
          assert (a + b)[i] == b[i - |a|];
        }
      }
    }
    if AllSucceeded(env, a + b) {
      forall i | 0 <= i < |a| && a[i].Execute?
        ensures Succeeds(env, a[i].invocation)
      {
        assert (a + b)[i] == a[i];
      }
      forall i | 0 <= i < |b| && b[i].Execute?
        ensures Succeeds(env, b[i].invocation)
      {
        assert (a + b)[|a| + i] == b[i];
      }
    }
  }

  lemma AllSucceededOne(env: Env, e: Event)
    ensures AllSucceeded(env, [e]) <==> (e.Execute? ==> Succeeds(env, e.invocation))
  {
    assert [e][0] == e;
  }

  /** Runs `cmds` in order and stops after the first one that fails. The
      result tells whether all of them succeeded. */
  function RunUntilFailure(cmds: seq<Invocation>, env: Env): (r: Run<bool>)
    ensures |r.trace| <= |cmds|
    ensures forall i :: 0 <= i < |r.trace| ==> r.trace[i] == Execute(cmds[i])
    ensures forall i :: 0 <= i < |r.trace| - 1 ==> Succeeds(env, cmds[i])
    ensures r.value <==> forall i :: 0 <= i < |cmds| ==> Succeeds(env, cmds[i])
    ensures r.value ==> |r.trace| == |cmds|
    ensures !r.value ==> 0 < |r.trace| && !Succeeds(env, cmds[|r.trace| - 1])
  {
    if |cmds| == 0 then Run([], true)
    else if !Succeeds(env, cmds[0]) then Run([Execute(cmds[0])], false)
    else
      var rest := RunUntilFailure(cmds[1..], env);
      var t := [Execute(cmds[0])] + rest.trace;
      assert forall i :: 1 <= i < |cmds| ==> cmds[i] == cmds[1..][i - 1];
      assert forall i :: 1 <= i < |t| ==> t[i] == rest.trace[i - 1];
      Run(t, rest.value)
  }

  /** The result of running until failure is exactly "every command in the
      trace succeeded". */
  lemma RunUntilFailureSucceeded(cmds: seq<Invocation>, env: Env)
    ensures RunUntilFailure(cmds, env).value <==> AllSucceeded(env, RunUntilFailure(cmds, env).trace)
  {
    var r := RunUntilFailure(cmds, env);
    if !r.value {
      var last := |r.trace| - 1;
      assert r.trace[last] == Execute(cmds[last]);
    }
  }
}
