/** Revision maps: from a revision identifier to a branch or tag name. Each
    listing parses its output lines into optional entries and assigns them,
    in order, into an initially empty map, so a later line with the same
    revision overwrites an earlier one. */
module RevisionMaps {
  import opened Wrappers

  /** One parsed output line: `Some((revision, name))` when the line
      matched, `None` when it was skipped. */
  type Entry = Option<(string, string)>

  type RevisionMap = map<string, string>

  /** Entry `i` exists and carries revision `k`. */
  predicate KeyAt(entries: seq<Entry>, i: int, k: string) {
    0 <= i < |entries| && entries[i].Some? && entries[i].value.0 == k
  }

  /** Entry `i` is the last one carrying revision `k`. */
  predicate LastWith(entries: seq<Entry>, i: int, k: string) {
    KeyAt(entries, i, k) && forall j :: i < j < |entries| ==> !KeyAt(entries, j, k)
  }

  /** `m` holds exactly the revisions some entry carries, each mapped to the
      name of the last entry carrying it. */
  ghost predicate LastWins(entries: seq<Entry>, m: RevisionMap) {
    && (forall k :: k in m <==> exists i :: KeyAt(entries, i, k))
    && (forall k :: k in m ==> exists i :: LastWith(entries, i, k) && entries[i].value.1 == m[k])
  }

  /** Assigning one more entry keeps the last-wins description. */
  lemma LastWinsSnoc(entries: seq<Entry>, m: RevisionMap, e: Entry)
    requires LastWins(entries, m)
    ensures LastWins(entries + [e], if e.Some? then m[e.value.0 := e.value.1] else m)
  {
    var es := entries + [e];
    var m' := if e.Some? then m[e.value.0 := e.value.1] else m;
    assert forall i, k :: 0 <= i < |entries| ==> (KeyAt(es, i, k) <==> KeyAt(entries, i, k));
    forall k | k in m'
      ensures exists i :: LastWith(es, i, k) && es[i].value.1 == m'[k]
    {
      if e.Some? && k == e.value.0 {
        assert LastWith(es, |entries|, k);
      } else {
        var i :| LastWith(entries, i, k) && entries[i].value.1 == m[k];
        assert LastWith(es, i, k);
      }
    }
    forall k | exists i :: KeyAt(es, i, k)
      ensures k in m'
    {
      var i :| KeyAt(es, i, k);
      if i < |entries| {
        assert KeyAt(entries, i, k);
      }
    }
  }

  /** The map left after assigning the entries in order. */
  function Collect(entries: seq<Entry>): RevisionMap {
    if |entries| == 0 then map[]
    else
      var m0 := Collect(entries[..|entries| - 1]);
      var e := entries[|entries| - 1];
      if e.Some? then m0[e.value.0 := e.value.1] else m0
  }

  /** A listing never yields more revisions than it has lines. */
  lemma {:induction false} CollectSize(entries: seq<Entry>)
    ensures |Collect(entries)| <= |entries|
    decreases |entries|
  {
    if |entries| > 0 {
      CollectSize(entries[..|entries| - 1]);
    }
  }

  /** When every entry carries the same name, every revision collected maps
      to it. */
  lemma CollectOneName(entries: seq<Entry>, name: string)
    requires forall i :: 0 <= i < |entries| && entries[i].Some? ==> entries[i].value.1 == name
    ensures forall k :: k in Collect(entries) ==> Collect(entries)[k] == name
  {
    CollectLastWins(entries);
    forall k | k in Collect(entries)
      ensures Collect(entries)[k] == name
    {
      var i :| LastWith(entries, i, k) && entries[i].value.1 == Collect(entries)[k];
    }
  }

  /** Assigning the entries in order meets the last-wins description. */
  lemma {:induction false} CollectLastWins(entries: seq<Entry>)
    ensures LastWins(entries, Collect(entries))
    decreases |entries|
  {
    if |entries| > 0 {
      var init := entries[..|entries| - 1];
      var e := entries[|entries| - 1];
      CollectLastWins(init);
      LastWinsSnoc(init, Collect(init), e);
      assert init + [e] == entries;
    }
  }

  /** The last-wins description fixes the map: no other map satisfies it. */
  lemma LastWinsUnique(entries: seq<Entry>, m1: RevisionMap, m2: RevisionMap)
    requires LastWins(entries, m1) && LastWins(entries, m2)
    ensures m1 == m2
  {
    forall k | k in m1
      ensures k in m2 && m1[k] == m2[k]
    {
      var i1 :| LastWith(entries, i1, k) && entries[i1].value.1 == m1[k];
      var i2 :| LastWith(entries, i2, k) && entries[i2].value.1 == m2[k];
      assert i1 == i2;
    }
  }

  /** Listing two outputs one after the other: the second listing's entries
      overwrite the first's where revisions collide. */
  lemma {:induction false} CollectConcat(a: seq<Entry>, b: seq<Entry>)
    ensures Collect(a + b) == Collect(a) + Collect(b)
    decreases |b|
  {
    if |b| == 0 {
      assert a + b == a;
    } else {
      var b0 := b[..|b| - 1];
      var e := b[|b| - 1];
      assert (a + b)[..|a + b| - 1] == a + b0;
      assert (a + b)[|a + b| - 1] == e;
      CollectConcat(a, b0);
    }
  }

  /** Collecting one entry and two skipped lines. */
  lemma CollectOne(a: (string, string))
    ensures Collect([Some(a), None, None]) == map[a.0 := a.1]
  {
    var e1: seq<Entry> := [Some(a)];
    var e2: seq<Entry> := [Some(a), None];
    var e3: seq<Entry> := [Some(a), None, None];
    assert e1[..0] == [];
    assert Collect(e1) == map[a.0 := a.1];
    assert e2[..1] == e1;
    assert Collect(e2) == map[a.0 := a.1];
    assert e3[..2] == e2;
  }

  /** Collecting two entries and one skipped line: the second entry wins
      when both carry the same revision. */
  lemma CollectTwo(a: (string, string), b: (string, string))
    ensures Collect([Some(a), Some(b), None]) == map[a.0 := a.1][b.0 := b.1]
  {
    var e1: seq<Entry> := [Some(a)];
    var e2: seq<Entry> := [Some(a), Some(b)];
    var e3: seq<Entry> := [Some(a), Some(b), None];
    assert e1[..0] == [];
    assert Collect(e1) == map[a.0 := a.1];
    assert e2[..1] == e1;
    assert Collect(e2) == map[a.0 := a.1][b.0 := b.1];
    assert e3[..2] == e2;
  }
}
