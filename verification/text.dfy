/** Character classes and regular-expression fragments used to match URLs and
    command output, written as explicit predicates over strings. */
module Text {

  /** PCRE's `\s`: space, tab, line feed, vertical tab, form feed and
      carriage return. */
  predicate IsSpace(c: char) {
    c == ' ' || (9 <= c as int <= 13)
  }

  /** Every character of `s[i..j]` is white space. */
  predicate SpaceBetween(s: string, i: int, j: int) {
    0 <= i <= j <= |s| && forall k :: i <= k < j ==> IsSpace(s[k])
  }

  /** No character of `s[i..j]` is white space (PCRE's `\S` repeated). */
  predicate TokenBetween(s: string, i: int, j: int) {
    0 <= i <= j <= |s| && forall k :: i <= k < j ==> !IsSpace(s[k])
  }

  predicate AllSpace(s: string) {
    SpaceBetween(s, 0, |s|)
  }

  predicate NoSpace(s: string) {
    TokenBetween(s, 0, |s|)
  }

  /** PCRE's `[a-f0-9]`. */
  predicate IsLowerHexDigit(c: char) {
    ('0' <= c <= '9') || ('a' <= c <= 'f')
  }

  /** PCRE's `[a-f0-9]{40}`: a full Git object name in lower case. */
  predicate IsCommitHash(s: string) {
    |s| == 40 && forall i :: 0 <= i < |s| ==> IsLowerHexDigit(s[i])
  }

  /** The end of the run of white space that starts at `i`. */
  function SkipSpace(s: string, i: nat): (j: nat)
    requires i <= |s|
    ensures SpaceBetween(s, i, j)
    ensures j < |s| ==> !IsSpace(s[j])
    decreases |s| - i
  {
    if i == |s| || !IsSpace(s[i]) then i else SkipSpace(s, i + 1)
  }

  /** The end of the run of non-space characters that starts at `i`. */
  function SkipToken(s: string, i: nat): (j: nat)
    requires i <= |s|
    ensures TokenBetween(s, i, j)
    ensures j < |s| ==> IsSpace(s[j])
    decreases |s| - i
  {
    if i == |s| || IsSpace(s[i]) then i else SkipToken(s, i + 1)
  }

  /** The start of the run of white space that ends at `j`. */
  function BackOverSpace(s: string, j: nat): (i: nat)
    requires j <= |s|
    ensures SpaceBetween(s, i, j)
    ensures 0 < i ==> !IsSpace(s[i - 1])
  {
    if j == 0 || !IsSpace(s[j - 1]) then j else BackOverSpace(s, j - 1)
  }

  /** The start of the run of non-space characters that ends at `j`. */
  function BackOverToken(s: string, j: nat): (i: nat)
    requires j <= |s|
    ensures TokenBetween(s, i, j)
    ensures 0 < i ==> IsSpace(s[i - 1])
  {
    if j == 0 || IsSpace(s[j - 1]) then j else BackOverToken(s, j - 1)
  }

  /** `lit` occurs in `s` at index `i`, compared character by character. */
  predicate HasAt(s: string, i: int, lit: string) {
    0 <= i && i + |lit| <= |s| && s[i..i + |lit|] == lit
  }

  /** One position of a case-insensitive pattern: a literal character or
      PCRE's `.` (any character but a line feed). */
  datatype Atom = Char(c: char) | Wildcard

  /** ASCII lower-casing, which is what PCRE's `i` modifier folds without
      the `u` modifier (bytes above 127 are left alone here). */
  function Lower(c: char): char {
    if 'A' <= c <= 'Z' then (c as int + 32) as char else c
  }

  predicate AtomMatches(a: Atom, c: char) {
    match a
    case Char(x) => Lower(x) == Lower(c)
    case Wildcard => c != '\n'
  }

  /** The pattern `p` matches `s` case-insensitively at index `i`. */
  predicate MatchesAt(s: string, i: int, p: seq<Atom>) {
    0 <= i && i + |p| <= |s| && forall k :: 0 <= k < |p| ==> AtomMatches(p[k], s[i + k])
  }

  /** A pattern of literal characters only. */
  function Literal(lit: string): (p: seq<Atom>)
    ensures |p| == |lit|
    ensures forall k :: 0 <= k < |lit| ==> p[k] == Char(lit[k])
  {
    seq(|lit|, k requires 0 <= k < |lit| => Char(lit[k]))
  }

  /** `^p` */
  predicate StartsWith(s: string, p: seq<Atom>) {
    MatchesAt(s, 0, p)
  }

  /** `p` unanchored. */
  predicate Contains(s: string, p: seq<Atom>) {
    exists i :: 0 <= i <= |s| - |p| && MatchesAt(s, i, p)
  }

  /** `p$` without the multi-line or dollar-end-only modifiers: at the very
      end of `s`, or just before a line feed that ends `s`. */
  predicate EndsWith(s: string, p: seq<Atom>) {
    MatchesAt(s, |s| - |p|, p) || (0 < |s| && s[|s| - 1] == '\n' && MatchesAt(s, |s| - 1 - |p|, p))
  }

  /** A pattern that matches at a position is found by `Contains`. */
  lemma ContainsWitness(s: string, i: int, p: seq<Atom>)
    requires MatchesAt(s, i, p)
    ensures Contains(s, p)
  {
  }

  /** A pattern that matches at `i` matches each of its slices at the
      corresponding position. */
  lemma MatchesWithin(s: string, i: int, p: seq<Atom>, j: int, q: seq<Atom>)
    requires MatchesAt(s, i, p)
    requires 0 <= j && j + |q| <= |p| && p[j..j + |q|] == q
    ensures MatchesAt(s, i + j, q)
  {
    forall k | 0 <= k < |q|
      ensures AtomMatches(q[k], s[i + j + k])
    {
      assert q[k] == p[j + k];
    }
  }

  /** A slice of a pattern that occurs somewhere occurs too. */
  lemma ContainsSlice(s: string, p: seq<Atom>, j: int, q: seq<Atom>)
    requires Contains(s, p)
    requires 0 <= j && j + |q| <= |p| && p[j..j + |q|] == q
    ensures Contains(s, q)
  {
    var i :| 0 <= i <= |s| - |p| && MatchesAt(s, i, p);
    MatchesWithin(s, i, p, j, q);
  }

  /** An exact occurrence of a string is also a case-insensitive match of it. */
  lemma {:induction false} LiteralMatchesItself(s: string, i: int, lit: string)
    requires HasAt(s, i, lit)
    ensures MatchesAt(s, i, Literal(lit))
  {
    forall k | 0 <= k < |lit|
      ensures AtomMatches(Literal(lit)[k], s[i + k])
    {
      assert s[i..i + |lit|][k] == s[i + k];
    }
  }
}
