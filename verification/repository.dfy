/** The repository front end: it binds the first adapter in its list that
    supports the repository URL, keeps that adapter for good, and hands
    every operation to it. */
module Repository {
  import opened Wrappers
  import opened Execution
  import opened RevisionMaps
  import opened Text
  import Git
  import Subversion

  datatype AdapterKind = GitAdapter | SubversionAdapter

  /** One entry of the configured adapter list: a class that exists and
      implements the adapter interface, or a name that is passed over. */
  datatype AdapterClass = Usable(kind: AdapterKind) | Unusable(name: string)

  /** An adapter instance, constructed for one repository. */
  datatype Adapter = Adapter(kind: AdapterKind, ref: RepositoryRef)

  // ---------------------------------------------------------------------
  // Dispatch to the adapters

  /** A command `supportsRepository` may issue: it only asks. */
  predicate Inspects(c: Command) {
    c.GitVersion? || c.GitLsRemote? || c.SvnVersion? || (c.SvnInfo? && c.target.Some?)
  }

  predicate OnlyInspects(trace: seq<Event>) {
    forall i :: 0 <= i < |trace| ==> trace[i].Execute? && Inspects(trace[i].invocation.command)
  }

  lemma OnlyInspectsConcat(a: seq<Event>, b: seq<Event>)
    requires OnlyInspects(a) && OnlyInspects(b)
    ensures OnlyInspects(a + b)
  {
    forall i | 0 <= i < |a + b|
      ensures (a + b)[i].Execute? && Inspects((a + b)[i].invocation.command)
    {
      if i >= |a| {
        assert (a + b)[i] == b[i - |a|];
      }
    }
  }

  function Supports(a: Adapter, env: Env): (r: Run<bool>)
    ensures 0 < |r.trace| <= 2 && OnlyInspects(r.trace)
  {
    match a.kind
    case GitAdapter => Git.SupportsRepository(a.ref.url, env)
    case SubversionAdapter => Subversion.SupportsRepository(a.ref.url, env)
  }

  function Branches(a: Adapter, env: Env): Run<RevisionMap> {
    match a.kind
    case GitAdapter => Git.GetBranches(a.ref.url, env)
    case SubversionAdapter => Subversion.GetBranches(a.ref.url, env)
  }

  function Tags(a: Adapter, env: Env): Run<RevisionMap> {
    match a.kind
    case GitAdapter => Git.GetTags(a.ref.url, env)
    case SubversionAdapter => Subversion.GetTags(a.ref.url, env)
  }

  function CheckoutWith(a: Adapter, version: string, env: Env): Run<bool> {
    match a.kind
    case GitAdapter => Git.Checkout(a.ref, version, env)
    case SubversionAdapter => Subversion.Checkout(a.ref, version, env)
  }

  // ---------------------------------------------------------------------
  // Probing the adapter list

  /** Entry `c` of the list, instantiated for `ref`, supports it. */
  predicate Accepts(c: AdapterClass, ref: RepositoryRef, env: Env) {
    c.Usable? && Supports(Adapter(c.kind, ref), env).value
  }

  /** Entry `i` is the first of the list that accepts. */
  predicate FirstAccepting(classes: seq<AdapterClass>, ref: RepositoryRef, env: Env, i: int) {
    && 0 <= i < |classes| && Accepts(classes[i], ref, env)
    && forall j :: 0 <= j < i ==> !Accepts(classes[j], ref, env)
  }

  /** No entry of the list accepts. */
  predicate NoneAccept(classes: seq<AdapterClass>, ref: RepositoryRef, env: Env) {
    forall i :: 0 <= i < |classes| ==> !Accepts(classes[i], ref, env)
  }

  /** Try the entries in order, skipping unusable ones, and stop at the
      first that supports the repository. */
  function Probe(classes: seq<AdapterClass>, ref: RepositoryRef, env: Env): (r: Run<Option<Adapter>>)
    ensures r.value.Some? ==> r.value.value.ref == ref
    ensures OnlyInspects(r.trace)
    decreases |classes|
  {
    if |classes| == 0 then Run([], None)
    else
      var rest := Probe(classes[1..], ref, env);
      match classes[0]
      case Unusable(_) => rest
      case Usable(kind) =>
        var s := Supports(Adapter(kind, ref), env);
        if s.value then Run(s.trace, Some(Adapter(kind, ref)))
        else
          OnlyInspectsConcat(s.trace, rest.trace);
          Run(s.trace + rest.trace, rest.value)
  }

  /** The probe finds the adapter of the first accepting entry, and finds
      nothing exactly when no entry accepts. */
  lemma {:induction false} ProbeFindsFirst(classes: seq<AdapterClass>, ref: RepositoryRef, env: Env)
    ensures forall i :: FirstAccepting(classes, ref, env, i) ==>
      Probe(classes, ref, env).value == Some(Adapter(classes[i].kind, ref))
    ensures Probe(classes, ref, env).value.None? <==> NoneAccept(classes, ref, env)
    decreases |classes|
  {
    if |classes| > 0 {
      var tail := classes[1..];
      ProbeFindsFirst(tail, ref, env);
      assert forall i :: 0 < i < |classes| ==> tail[i - 1] == classes[i];
      forall i | FirstAccepting(classes, ref, env, i)
        ensures Probe(classes, ref, env).value == Some(Adapter(classes[i].kind, ref))
      {
        if i > 0 {
          assert FirstAccepting(tail, ref, env, i - 1);
        }
      }
    }
  }

  function UsableOnly(classes: seq<AdapterClass>): (u: seq<AdapterClass>)
    ensures forall i :: 0 <= i < |u| ==> u[i].Usable?
    ensures forall c :: c in u <==> c in classes && c.Usable?
  {
    if |classes| == 0 then []
    else (if classes[0].Usable? then [classes[0]] else []) + UsableOnly(classes[1..])
  }

  /** Unusable entries make no difference to the probe: neither to what it
      asks nor to what it finds. */
  lemma {:induction false} ProbeIgnoresUnusable(classes: seq<AdapterClass>, ref: RepositoryRef, env: Env)
    ensures Probe(UsableOnly(classes), ref, env) == Probe(classes, ref, env)
    decreases |classes|
  {
    if |classes| > 0 {
      var u := UsableOnly(classes[1..]);
      ProbeIgnoresUnusable(classes[1..], ref, env);
      if classes[0].Usable? {
        var v := [classes[0]] + u;
        assert UsableOnly(classes) == v;
        assert v[0] == classes[0] && v[1..] == u;
      } else {
        assert UsableOnly(classes) == u;
      }
    }
  }

  /** Entries after an accepting one are never tried. */
  lemma {:induction false} ProbeStopsAtFirst(classes: seq<AdapterClass>, more: seq<AdapterClass>, ref: RepositoryRef, env: Env)
    requires Probe(classes, ref, env).value.Some?
    ensures Probe(classes + more, ref, env) == Probe(classes, ref, env)
    decreases |classes|
  {
    assert (classes + more)[1..] == classes[1..] + more;
    if !Accepts(classes[0], ref, env) {
      ProbeStopsAtFirst(classes[1..], more, ref, env);
    }
  }

  /** A rejecting entry in front is asked on its own, and then the probe
      goes on with the rest. */
  lemma ProbeSkipsRejecting(c: AdapterClass, rest: seq<AdapterClass>, ref: RepositoryRef, env: Env)
    requires !Accepts(c, ref, env)
    ensures Probe([c] + rest, ref, env).trace == Probe([c], ref, env).trace + Probe(rest, ref, env).trace
    ensures Probe([c] + rest, ref, env).value == Probe(rest, ref, env).value
  {
    assert ([c] + rest)[1..] == rest;
    assert [c][1..] == [];
  }

  /** Entries that all reject are each asked in turn, and the probe then
      carries on with the rest of the list as if it started there. */
  lemma {:induction false} ProbeThroughRejecting(classes: seq<AdapterClass>, more: seq<AdapterClass>, ref: RepositoryRef, env: Env)
    requires NoneAccept(classes, ref, env)
    ensures Probe(classes + more, ref, env).trace == Probe(classes, ref, env).trace + Probe(more, ref, env).trace
    ensures Probe(classes + more, ref, env).value == Probe(more, ref, env).value
    decreases |classes|
  {
    if |classes| == 0 {
      assert classes + more == more;
    } else {
      var c, tail := classes[0], classes[1..];
      assert classes == [c] + tail && classes + more == [c] + (tail + more);
      assert !Accepts(c, ref, env) && NoneAccept(tail, ref, env) by {
        assert forall i :: 0 <= i < |tail| ==> tail[i] == classes[i + 1];
      }
      ProbeThroughRejecting(tail, more, ref, env);
      ProbeSkipsRejecting(c, tail + more, ref, env);
      ProbeSkipsRejecting(c, tail, ref, env);
    }
  }

  // ---------------------------------------------------------------------
  // The repository

  datatype Repo = Repo(ref: RepositoryRef, adapters: seq<AdapterClass>, bound: Option<Adapter>)

  /** A new repository: no adapters configured, none bound. */
  function Create(url: string, directory: string): (r: Repo)
    ensures r.ref.url == url && r.ref.directory == directory
    ensures r.adapters == [] && r.bound.None?
  {
    Repo(RepositoryRef(url, directory), [], None)
  }

  /** Replaces the adapter list and nothing else; a bound adapter stays. */
  function SetAdapters(repo: Repo, adapters: seq<AdapterClass>): (r: Repo)
    ensures r.adapters == adapters
    ensures r.ref == repo.ref && r.bound == repo.bound
  {
    repo.(adapters := adapters)
  }

  /** The bound adapter, or else the first adapter of the list that
      supports the repository. */
  function GetAdapter(repo: Repo, env: Env): (r: Run<Option<Adapter>>)
    ensures repo.bound.Some? ==> r == Run([], repo.bound)
    ensures repo.bound.None? ==> r == Probe(repo.adapters, repo.ref, env)
  {
    if repo.bound.Some? then Run([], repo.bound) else Probe(repo.adapters, repo.ref, env)
  }

  function NoAdapterMessage(url: string): (m: string)
    ensures exists k :: HasAt(m, k, url)
  {
    var prefix := "No adapter found to handle VCS repository \"";
    var m := prefix + url + "\".";
    assert m[|prefix|..|prefix| + |url|] == url;
    assert HasAt(m, |prefix|, url);
    m
  }

  /** Binds an adapter, or fails with the configuration error. */
  function Initialize(repo: Repo, env: Env): (r: Run<Result<Repo>>)
    ensures r.value.Failure? <==> repo.bound.None? && NoneAccept(repo.adapters, repo.ref, env)
    ensures r.value.Failure? ==> r.value.error == NoAdapterMessage(repo.ref.url)
    ensures r.value.Success? ==> r.value.value == repo.(bound := r.value.value.bound) && r.value.value.bound.Some?
    ensures r.value.Success? && repo.bound.None? ==>
      exists i :: FirstAccepting(repo.adapters, repo.ref, env, i) && r.value.value.bound == Some(Adapter(repo.adapters[i].kind, repo.ref))
    ensures repo.bound.Some? ==> r == Run([], Success(repo))
    ensures OnlyInspects(r.trace)
  {
    var a := GetAdapter(repo, env);
    ProbeFindsFirst(repo.adapters, repo.ref, env);
    FirstExists(repo.adapters, repo.ref, env);
    match a.value
    case None => Run(a.trace, Failure(NoAdapterMessage(repo.ref.url)))
    case Some(adapter) => Run(a.trace, Success(repo.(bound := Some(adapter))))
  }

  /** When some entry accepts, there is a first one. */
  lemma {:induction false} FirstExists(classes: seq<AdapterClass>, ref: RepositoryRef, env: Env)
    ensures (exists i :: 0 <= i < |classes| && Accepts(classes[i], ref, env)) ==>
      exists i :: FirstAccepting(classes, ref, env, i)
    decreases |classes|
  {
    if !exists i :: 0 <= i < |classes| && Accepts(classes[i], ref, env) {
    } else if Accepts(classes[0], ref, env) {
      assert FirstAccepting(classes, ref, env, 0);
    } else {
      var i :| 0 <= i < |classes| && Accepts(classes[i], ref, env);
      assert classes[1..][i - 1] == classes[i];
      FirstExists(classes[1..], ref, env);
      var j :| FirstAccepting(classes[1..], ref, env, j);
      assert forall k :: 0 < k <= j ==> classes[1..][k - 1] == classes[k];
      assert FirstAccepting(classes, ref, env, j + 1);
    }
  }

  /** Once bound, the adapter stays: initializing again asks nothing and
      changes nothing, whatever the executor answers now. */
  lemma BindingIsStable(repo: Repo, env: Env, later: Env)
    requires Initialize(repo, env).value.Success?
    ensures Initialize(Initialize(repo, env).value.value, later) == Run([], Initialize(repo, env).value)
  {
  }

  /** A repository with no adapters configured fails every initialization,
      asking nothing, with a message naming its URL. */
  lemma EmptyListFails(url: string, directory: string, env: Env)
    ensures Initialize(Create(url, directory), env) == Run([], Failure(NoAdapterMessage(url)))
  {
  }

  /** Changing the adapter list after binding has no effect. */
  lemma SetAdaptersAfterBinding(repo: Repo, adapters: seq<AdapterClass>, env: Env)
    requires repo.bound.Some?
    ensures Initialize(SetAdapters(repo, adapters), env) == Run([], Success(SetAdapters(repo, adapters)))
    ensures SetAdapters(repo, adapters).bound == repo.bound
  {
  }

  // ---------------------------------------------------------------------
  // Operations: initialize, then delegate to the bound adapter

  /** The trace of initialization followed by the adapter's own trace; the
      repository comes back with its adapter bound. Initialization and the
      adapter's operation are answered by two executors, `probing` and
      `env`: the support probe and the operation may issue the same command
      (Git's `ls-remote --heads`), and the remote may answer it differently
      the second time. */
  function GetBranches(repo: Repo, probing: Env, env: Env): (r: Run<Result<(Repo, RevisionMap)>>)
    ensures var init := Initialize(repo, probing);
      && (init.value.Failure? ==> r == Run(init.trace, Failure(init.value.error)))
      && (init.value.Success? ==>
            var b := Branches(init.value.value.bound.value, env);
            r == Run(init.trace + b.trace, Success((init.value.value, b.value))))
  {
    var init := Initialize(repo, probing);
    match init.value
    case Failure(e) => Run(init.trace, Failure(e))
    case Success(bound) =>
      var b := Branches(bound.bound.value, env);
      Run(init.trace + b.trace, Success((bound, b.value)))
  }

  function GetTags(repo: Repo, probing: Env, env: Env): (r: Run<Result<(Repo, RevisionMap)>>)
    ensures var init := Initialize(repo, probing);
      && (init.value.Failure? ==> r == Run(init.trace, Failure(init.value.error)))
      && (init.value.Success? ==>
            var t := Tags(init.value.value.bound.value, env);
            r == Run(init.trace + t.trace, Success((init.value.value, t.value))))
  {
    var init := Initialize(repo, probing);
    match init.value
    case Failure(e) => Run(init.trace, Failure(e))
    case Success(bound) =>
      var t := Tags(bound.bound.value, env);
      Run(init.trace + t.trace, Success((bound, t.value)))
  }

  function Checkout(repo: Repo, version: string, probing: Env, env: Env): (r: Run<Result<(Repo, bool)>>)
    ensures var init := Initialize(repo, probing);
      && (init.value.Failure? ==> r == Run(init.trace, Failure(init.value.error)))
      && (init.value.Success? ==>
            var c := CheckoutWith(init.value.value.bound.value, version, env);
            r == Run(init.trace + c.trace, Success((init.value.value, c.value))))
  {
    var init := Initialize(repo, probing);
    match init.value
    case Failure(e) => Run(init.trace, Failure(e))
    case Success(bound) =>
      var c := CheckoutWith(bound.bound.value, version, env);
      Run(init.trace + c.trace, Success((bound, c.value)))
  }

  /** After a first successful operation the repository asks its adapter
      directly: later operations probe nothing, whatever the executor that
      would have answered the probe. */
  lemma LaterOperationsSkipProbing(repo: Repo, probing: Env, env: Env, version: string, laterProbing: Env, later: Env)
    requires GetBranches(repo, probing, env).value.Success?
    ensures var bound := GetBranches(repo, probing, env).value.value.0;
      && bound.bound.Some?
      && GetTags(bound, laterProbing, later)
         == Run(Tags(bound.bound.value, later).trace, Success((bound, Tags(bound.bound.value, later).value)))
      && Checkout(bound, version, laterProbing, later).trace == CheckoutWith(bound.bound.value, version, later).trace
  {
    BindingIsStable(repo, probing, laterProbing);
  }
}
