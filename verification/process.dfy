/** The immutable record of one executed command, and the split of a
    command's standard output into lines. */
module Process {

  /** Exit code, standard output and error output of one command, fixed
      when the record is built. */
  datatype ExecutionResult = ExecutionResult(exitCode: int, output: string, errorOutput: string) {

    /** A command succeeded exactly when its exit code is 0. */
    predicate IsSuccessful() {
      exitCode == 0
    }
  }

  /** The accessors give back what the record was built from, and success is
      the exit code being 0. */
  lemma ResultRecord(code: int, output: string, errorOutput: string)
    ensures var r := ExecutionResult(code, output, errorOutput);
      && r.exitCode == code && r.output == output && r.errorOutput == errorOutput
      && (r.IsSuccessful() <==> code == 0)
  {
  }

  /** The index of the first `c` in `s`, or `|s|` when there is none. */
  function IndexOf(s: string, c: char): (k: nat)
    ensures k <= |s|
    ensures forall i :: 0 <= i < k ==> s[i] != c
    ensures k < |s| ==> s[k] == c
  {
    if |s| == 0 || s[0] == c then 0 else 1 + IndexOf(s[1..], c)
  }

  /** The lines of a command's output: `s` cut at every line feed. A final
      line feed leaves a last, empty line. */
  function Lines(s: string): (ls: seq<string>)
    ensures |ls| >= 1
    ensures forall i :: 0 <= i < |ls| ==> '\n' !in ls[i]
    decreases |s|
  {
    var k := IndexOf(s, '\n');
    if k == |s| then [s] else [s[..k]] + Lines(s[k + 1..])
  }

  /** A prefix without line feeds ends no later than the first line. */
  lemma NoFeedBefore(s: string, j: nat)
    requires j <= |s| && '\n' !in s[..j]
    ensures j <= IndexOf(s, '\n')
  {
    forall m | 0 <= m < j
      ensures s[m] != '\n'
    {
      assert s[..j][m] == s[m];
    }
  }

  /** The first line is everything before the first line feed. */
  lemma FirstLine(s: string)
    ensures Lines(s)[0] == s[..IndexOf(s, '\n')]
  {
  }

  /** The lines glued back with line feeds between them. */
  function Join(ls: seq<string>): string
  {
    if |ls| == 0 then "" else if |ls| == 1 then ls[0] else ls[0] + "\n" + Join(ls[1..])
  }

  /** At a line feed `k`, the output is its first line followed by the rest. */
  lemma LinesStep(s: string, k: nat)
    requires k == IndexOf(s, '\n') && k < |s|
    ensures Lines(s) == [s[..k]] + Lines(s[k + 1..])
  {
    var head, tail := s[..k], s[k + 1..];
    assert k != |s|;
    assert Lines(s) == [head] + Lines(tail);
  }

  /** Cutting at a line feed and gluing back with one gives the text back. */
  lemma SplitAtFeed(s: string, k: nat)
    requires k < |s| && s[k] == '\n'
    ensures s[..k] + "\n" + s[k + 1..] == s
  {
  }

  /** Joining a line in front of at least one more puts a line feed between. */
  lemma JoinCons(x: string, rest: seq<string>)
    requires |rest| >= 1
    ensures Join([x] + rest) == x + "\n" + Join(rest)
  {
    assert ([x] + rest)[1..] == rest;
  }

  /** Splitting loses nothing: joining the lines gives the output back. */
  lemma {:induction false} JoinLines(s: string)
    ensures Join(Lines(s)) == s
    decreases |s|
  {
    var k := IndexOf(s, '\n');
    if k < |s| {
      LinesStep(s, k);
      JoinCons(s[..k], Lines(s[k + 1..]));
      JoinLines(s[k + 1..]);
      SplitAtFeed(s, k);
    }
  }

  /** Lines without line feeds are recovered exactly from their join. */
  lemma {:induction false} LinesJoin(ls: seq<string>)
    requires |ls| >= 1
    requires forall i :: 0 <= i < |ls| ==> '\n' !in ls[i]
    ensures Lines(Join(ls)) == ls
  {
    var s := Join(ls);
    var k := IndexOf(s, '\n');
    if |ls| > 1 {
      var rest := Join(ls[1..]);
      assert s == ls[0] + "\n" + rest;
      assert s[|ls[0]|] == '\n';
      assert k == |ls[0]|;
      assert s[..k] == ls[0];
      assert s[k + 1..] == rest;
      LinesJoin(ls[1..]);
    }
  }

  /** Output of two lines, each ended by a line feed, splits into the two
      lines and a final empty one. */
  lemma LinesOfTwo(l1: string, l2: string)
    requires '\n' !in l1 && '\n' !in l2
    ensures Lines(l1 + "\n" + l2 + "\n") == [l1, l2, ""]
  {
    var lines := [l1, l2, ""];
    assert Join(lines) == l1 + "\n" + l2 + "\n" by {
      assert lines[1..] == [l2, ""];
      assert lines[1..][1..] == [""];
      assert Join([l2, ""]) == l2 + "\n" + "";
    }
    LinesJoin(lines);
  }
}
