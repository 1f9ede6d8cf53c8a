/** The resolution engine as functions on its state: `resolveRecursive` is
    `Step`, its loop over the dependencies is `StepAll`, and `resolve` is
    `Resolve`. The Java recursion has no bound; here every nested call gets
    one unit of fuel less, and a call that finds no fuel left sets
    `truncated` instead of running. */
module Resolution {
  import opened Outcomes
  import opened Versions

  /** What the recursion calls, as functions: `compareVersions`,
      `downloadJar` of a normalised artifact id and a version (the group id
      it is passed only appears in its exception message),
      `parseDependenciesFromJar` of the jar file it returned, and the two
      renamings of a requested artifact id: the module id the maps are keyed
      by and the artifact id handed to `downloadJar`. The resolver class
      instantiates them with `Versions.Compare`, `Fetching.FetchJar`,
      `Descriptors.DependenciesIn`, `ModuleIds.ModuleIdOf` and
      `ModuleIds.NormaliseArtifactId`; the invariants below hold for any
      comparison that chains. */
  datatype Environment = Environment(
    compare: (string, string) -> Outcome<int>,
    download: (string, string) -> Outcome<string>,
    dependencies: string -> Outcome<seq<Artifact>>,
    moduleId: string -> string,
    normalise: string -> string)

  /** One call of `downloadJar`, for the module `moduleId`, with the
      normalised artifact id. */
  datatype Attempt = Attempt(moduleId: string, artifactId: string, version: string)

  /** The `resolved` and `unResolved` maps, keyed by module id, together with
      the downloads attempted so far and whether some call ran out of fuel. */
  datatype State = State(
    resolved: map<string, Artifact>,
    unresolved: map<string, Artifact>,
    attempts: seq<Attempt>,
    truncated: bool)

  const Initial: State := State(map[], map[], [], false)

  /** The entry recorded for a request, in either map:
      `new Artifact(moduleId, version, groupId)`. */
  function Entry(env: Environment, req: Artifact): (e: Artifact)
    ensures e.artifactId == env.moduleId(req.artifactId)
    ensures e.version == req.version && e.groupId == req.groupId
  {
    Artifact(env.moduleId(req.artifactId), req.version, req.groupId)
  }

  /** The version check before a download: Ok(false) when the module is
      already resolved at the same or a higher version, Ok(true) when it has
      to be downloaded, and a failure when a comparison throws. A module not
      yet resolved has its version probed against "0". */
  function Admit(env: Environment, resolved: map<string, Artifact>, moduleId: string, version: string): (r: Outcome<bool>)
    ensures r.Fail? <==>
      (if moduleId in resolved then env.compare(resolved[moduleId].version, version) else env.compare("0", version)).Fail?
    ensures moduleId in resolved && r.Ok? ==> (r.value <==> env.compare(resolved[moduleId].version, version).value < 0)
    ensures moduleId !in resolved && r.Ok? ==> r.value
  {
    if moduleId in resolved then
      match env.compare(resolved[moduleId].version, version)
      case Fail(f) => Fail(f)
      case Ok(c) => Ok(c < 0)
    else
      match env.compare("0", version)
      case Fail(f) => Fail(f)
      case Ok(_) => Ok(true)
  }

  /** The catch block: the entry goes into `unResolved`, replacing any
      earlier one for the module. */
  function MarkUnresolved(st: State, e: Artifact): (r: State)
    ensures r.resolved == st.resolved && r.attempts == st.attempts && r.truncated == st.truncated
    ensures r.unresolved.Keys == st.unresolved.Keys + {e.artifactId} && r.unresolved[e.artifactId] == e
    ensures forall k :: k in st.unresolved && k != e.artifactId ==> r.unresolved[k] == st.unresolved[k]
  {
    st.(unresolved := st.unresolved[e.artifactId := e])
  }

  /** What every call keeps: no key leaves either map, the log of downloads
      only grows, and a run once cut off stays marked. */
  predicate Extends(before: State, after: State) {
    && before.resolved.Keys <= after.resolved.Keys
    && before.unresolved.Keys <= after.unresolved.Keys
    && before.attempts <= after.attempts
    && (before.truncated ==> after.truncated)
  }

  /** `resolveRecursive(groupId, artifactId, version)`: the `try` block,
      then the loop over the dependencies it yields, each visited with one
      unit of fuel less. */
  function Step(st: State, env: Environment, req: Artifact, fuel: nat): (r: State)
    ensures Extends(st, r)
    decreases fuel, 1
  {
    if fuel == 0 then st.(truncated := true)
    else
      var (st', deps) := TryBlock(st, env, req);
      TryExtends(st, env, req);
      StepAll(st', env, deps, fuel - 1)
  }

  /** The `try` block with its `catch`: the version check, `downloadJar`,
      `resolved.put` and `parseDependenciesFromJar`. Yields the new state
      and the dependencies the loop visits next, none when the block
      returned early or the catch block ran. */
  function TryBlock(st: State, env: Environment, req: Artifact): (r: (State, seq<Artifact>))
    ensures r.0.truncated == st.truncated && |r.0.attempts| <= |st.attempts| + 1
    ensures r.1 != [] ==> r.0.attempts == st.attempts + [Attempt(Entry(env, req).artifactId, env.normalise(req.artifactId), req.version)]
  {
    var entry := Entry(env, req);
    match Admit(env, st.resolved, entry.artifactId, req.version)
    case Fail(_) => (MarkUnresolved(st, entry), [])
    case Ok(download) =>
      if !download then (st, [])
      else
        var actual := env.normalise(req.artifactId);
        var st1 := st.(attempts := st.attempts + [Attempt(entry.artifactId, actual, req.version)]);
        match env.download(actual, req.version)
        case Fail(_) => (MarkUnresolved(st1, entry), [])
        case Ok(jarFile) =>
          var st2 := st1.(resolved := st1.resolved[entry.artifactId := entry]);
          match env.dependencies(jarFile)
          case Fail(_) => (MarkUnresolved(st2, entry), [])
          case Ok(deps) => (st2, deps)
  }

  /** The `try` block keeps what every call keeps, makes at most one
      download attempt, and leaves the requested module in one of the two
      maps; it yields dependencies only after the module went into
      `resolved` at the requested version, so that a nested request for it
      finds it there. */
  lemma TryExtends(st: State, env: Environment, req: Artifact)
    ensures var (st', deps) := TryBlock(st, env, req);
      && Extends(st, st') && st'.truncated == st.truncated && |st'.attempts| <= |st.attempts| + 1
      && (Entry(env, req).artifactId in st'.resolved || Entry(env, req).artifactId in st'.unresolved)
      && (deps != [] ==> Entry(env, req).artifactId in st'.resolved && st'.resolved[Entry(env, req).artifactId] == Entry(env, req))
  {
  }

  /** The loop `for (Artifact dep : dependencies) resolveRecursive(...)`,
      in manifest order. */
  function StepAll(st: State, env: Environment, deps: seq<Artifact>, fuel: nat): (r: State)
    ensures Extends(st, r)
    decreases fuel, |deps| + 2
  {
    if deps == [] then st
    else Step(StepAll(st, env, deps[..|deps| - 1], fuel), env, deps[|deps| - 1], fuel)
  }

  /** `resolved.keySet().forEach(unResolved::remove)`. */
  function Reconcile(st: State): (r: State)
    ensures r.resolved == st.resolved && r.attempts == st.attempts && r.truncated == st.truncated
    ensures r.unresolved.Keys !! r.resolved.Keys
    ensures forall k :: k in st.unresolved && k !in st.resolved ==> k in r.unresolved && r.unresolved[k] == st.unresolved[k]
    ensures r.unresolved.Keys <= st.unresolved.Keys
  {
    st.(unresolved := st.unresolved - st.resolved.Keys)
  }

  /** `resolve(groupId, artifactId, version)`. */
  function Resolve(st: State, env: Environment, req: Artifact, fuel: nat): (r: State)
    ensures r.resolved.Keys !! r.unresolved.Keys
    ensures r.resolved == Step(st, env, req, fuel).resolved && r.attempts == Step(st, env, req, fuel).attempts
    ensures r.truncated == Step(st, env, req, fuel).truncated
  {
    Reconcile(Step(st, env, req, fuel))
  }

  // ---------------------------------------------------------------------
  // Single calls

  /** A module already resolved at the same or a higher version is left
      alone: nothing is downloaded and nothing changes. */
  lemma SkipWhenResolved(st: State, env: Environment, req: Artifact, fuel: nat)
    requires fuel > 0
    requires Entry(env, req).artifactId in st.resolved
    requires env.compare(st.resolved[Entry(env, req).artifactId].version, req.version).Ok?
    requires env.compare(st.resolved[Entry(env, req).artifactId].version, req.version).value >= 0
    ensures Step(st, env, req, fuel) == st
  {
  }

  /** A version the comparison rejects puts the module into `unResolved`,
      with no download and nothing else changed. */
  lemma RejectedVersion(st: State, env: Environment, req: Artifact, fuel: nat)
    requires fuel > 0
    requires Admit(env, st.resolved, Entry(env, req).artifactId, req.version).Fail?
    ensures Step(st, env, req, fuel) == st.(unresolved := st.unresolved[Entry(env, req).artifactId := Entry(env, req)])
  {
  }

  /** A module that passes the version check but cannot be downloaded is
      put into `unResolved` after the one download attempt, and its
      dependencies are not visited. */
  lemma DownloadFailed(st: State, env: Environment, req: Artifact, fuel: nat)
    requires fuel > 0
    requires Admit(env, st.resolved, Entry(env, req).artifactId, req.version) == Ok(true)
    requires env.download(env.normalise(req.artifactId), req.version).Fail?
    ensures Step(st, env, req, fuel) == State(
      st.resolved,
      st.unresolved[Entry(env, req).artifactId := Entry(env, req)],
      st.attempts + [Attempt(Entry(env, req).artifactId, env.normalise(req.artifactId), req.version)],
      st.truncated)
  {
  }

  /** A module whose jar was downloaded is in `resolved` at the requested
      version whatever its dependencies turn out to be; when they cannot be
      read it is in `unResolved` as well and none of them is visited. */
  lemma DependenciesFailed(st: State, env: Environment, req: Artifact, fuel: nat)
    requires fuel > 0
    requires Admit(env, st.resolved, Entry(env, req).artifactId, req.version) == Ok(true)
    requires env.download(env.normalise(req.artifactId), req.version).Ok?
    requires env.dependencies(env.download(env.normalise(req.artifactId), req.version).value).Fail?
    ensures Step(st, env, req, fuel) == State(
      st.resolved[Entry(env, req).artifactId := Entry(env, req)],
      st.unresolved[Entry(env, req).artifactId := Entry(env, req)],
      st.attempts + [Attempt(Entry(env, req).artifactId, env.normalise(req.artifactId), req.version)],
      st.truncated)
  {
  }

  /** A module whose jar was downloaded and read goes into `resolved` at
      the requested version before any of its dependencies is visited; they
      are then visited in manifest order with one unit of fuel less. */
  lemma DownloadSucceeded(st: State, env: Environment, req: Artifact, fuel: nat, jarFile: string, deps: seq<Artifact>)
    requires fuel > 0
    requires Admit(env, st.resolved, Entry(env, req).artifactId, req.version) == Ok(true)
    requires env.download(env.normalise(req.artifactId), req.version) == Ok(jarFile)
    requires env.dependencies(jarFile) == Ok(deps)
    ensures Step(st, env, req, fuel) == StepAll(
      st.(resolved := st.resolved[Entry(env, req).artifactId := Entry(env, req)],
          attempts := st.attempts + [Attempt(Entry(env, req).artifactId, env.normalise(req.artifactId), req.version)]),
      env, deps, fuel - 1)
  {
  }

  /** Why a cycle stops: in the state in which the dependencies are
      visited, a request for the same module at a version the comparison
      puts at or below the one just resolved changes nothing. */
  lemma RevisitStops(st: State, env: Environment, req: Artifact, again: Artifact, fuel: nat)
    requires fuel > 0
    requires env.moduleId(again.artifactId) == env.moduleId(req.artifactId)
    requires env.compare(req.version, again.version).Ok? && env.compare(req.version, again.version).value >= 0
    ensures var st2 := st.(resolved := st.resolved[Entry(env, req).artifactId := Entry(env, req)],
                           attempts := st.attempts + [Attempt(Entry(env, req).artifactId, env.normalise(req.artifactId), req.version)]);
      Step(st2, env, again, fuel) == st2
  {
    var st2 := st.(resolved := st.resolved[Entry(env, req).artifactId := Entry(env, req)],
                   attempts := st.attempts + [Attempt(Entry(env, req).artifactId, env.normalise(req.artifactId), req.version)]);
    assert st2.resolved[Entry(env, again).artifactId] == Entry(env, req);
    SkipWhenResolved(st2, env, again, fuel);
  }

  // ---------------------------------------------------------------------
  // More fuel

  /** A call that was not cut off gives the same state with more fuel: the
      fuel bound changes nothing about a run it does not cut short. */
  lemma {:induction false} StepMoreFuel(st: State, env: Environment, req: Artifact, fuel: nat)
    requires !Step(st, env, req, fuel).truncated
    ensures Step(st, env, req, fuel + 1) == Step(st, env, req, fuel)
    decreases fuel, 1
  {
    if fuel > 0 {
      var (st', deps) := TryBlock(st, env, req);
      StepAllMoreFuel(st', env, deps, fuel - 1);
    }
  }

  /** The same for the loop over the dependencies. */
  lemma {:induction false} StepAllMoreFuel(st: State, env: Environment, deps: seq<Artifact>, fuel: nat)
    requires !StepAll(st, env, deps, fuel).truncated
    ensures StepAll(st, env, deps, fuel + 1) == StepAll(st, env, deps, fuel)
    decreases fuel, |deps| + 2
  {
    if deps != [] {
      var init := deps[..|deps| - 1];
      var mid := StepAll(st, env, init, fuel);
      StepAllMoreFuel(st, env, init, fuel);
      StepMoreFuel(mid, env, deps[|deps| - 1], fuel);
    }
  }

  /** `resolve` with any larger amount of fuel than a run that was not cut
      off gives that run's result. */
  lemma {:induction false} ResolveMoreFuel(st: State, env: Environment, req: Artifact, fuel: nat, more: nat)
    requires !Resolve(st, env, req, fuel).truncated && fuel <= more
    ensures Resolve(st, env, req, more) == Resolve(st, env, req, fuel)
    decreases more - fuel
  {
    if fuel < more {
      StepMoreFuel(st, env, req, fuel);
      ResolveMoreFuel(st, env, req, fuel + 1, more);
    }
  }

  // ---------------------------------------------------------------------
  // What every call keeps

  /** `v1` is strictly below `v2`. */
  predicate Below(env: Environment, v1: string, v2: string) {
    env.compare(v1, v2).Ok? && env.compare(v1, v2).value < 0
  }

  /** Being strictly below chains through `b`. */
  predicate ChainsVia(env: Environment, a: string, b: string, c: string) {
    Below(env, a, b) && Below(env, b, c) ==> Below(env, a, c)
  }

  /** Being strictly below chains, as it does for `compareVersions`
      (`Versions.CompareChain`). */
  ghost predicate Chains(env: Environment) {
    forall a, b, c :: ChainsVia(env, a, b, c)
  }

  /** Every module resolved before is still resolved, with the same entry
      or at a strictly higher version: nothing is ever downgraded. */
  predicate NoLower(env: Environment, before: map<string, Artifact>, after: map<string, Artifact>) {
    forall k :: k in before ==>
      k in after && (after[k] == before[k] || Below(env, before[k].version, after[k].version))
  }

  /** What a call may do to the state: raise or add resolved modules, add
      unresolved ones, log further downloads, and record running out of fuel. */
  predicate Grows(env: Environment, before: State, after: State) {
    && NoLower(env, before.resolved, after.resolved)
    && before.unresolved.Keys <= after.unresolved.Keys
    && before.attempts <= after.attempts
    && (before.truncated ==> after.truncated)
  }

  lemma GrowsTransitive(env: Environment, s1: State, s2: State, s3: State)
    requires Chains(env) && Grows(env, s1, s2) && Grows(env, s2, s3)
    ensures Grows(env, s1, s3)
  {
    forall k | k in s1.resolved
      ensures s3.resolved[k] == s1.resolved[k] || Below(env, s1.resolved[k].version, s3.resolved[k].version)
    {
      assert ChainsVia(env, s1.resolved[k].version, s2.resolved[k].version, s3.resolved[k].version);
    }
  }

  /** Some call of `downloadJar` in `log` was for module `k` at version
      `v` and returned a jar file. */
  predicate Downloaded(log: seq<Attempt>, env: Environment, k: string, v: string)
    decreases |log|
  {
    log != [] &&
      var last := log[|log| - 1];
      || (last.moduleId == k && last.version == v && env.download(last.artifactId, v).Ok?)
      || Downloaded(log[..|log| - 1], env, k, v)
  }

  /** A longer log still holds the download. */
  lemma DownloadedAppend(log: seq<Attempt>, att: Attempt, env: Environment, k: string, v: string)
    requires Downloaded(log, env, k, v)
    ensures Downloaded(log + [att], env, k, v)
  {
    assert (log + [att])[..|log|] == log;
  }

  /** The invariant of both maps: each is keyed by the module id stored in
      its entries, and a module is resolved only at a version whose jar was
      downloaded ("Only add the artefact if it can be downloaded"). */
  predicate Sound(st: State, env: Environment) {
    && (forall k :: k in st.unresolved ==> st.unresolved[k].artifactId == k)
    && (forall k :: k in st.resolved ==> st.resolved[k].artifactId == k)
    && (forall k :: k in st.resolved ==> Downloaded(st.attempts, env, k, st.resolved[k].version))
  }

  /** The catch block keeps the invariant. */
  lemma MarkPreserves(st: State, env: Environment, e: Artifact)
    requires Sound(st, env)
    ensures Grows(env, st, MarkUnresolved(st, e)) && Sound(MarkUnresolved(st, e), env)
  {
  }

  /** Logging a download keeps the invariant. */
  lemma LogPreserves(st: State, env: Environment, att: Attempt)
    requires Sound(st, env)
    ensures Grows(env, st, st.(attempts := st.attempts + [att])) && Sound(st.(attempts := st.attempts + [att]), env)
  {
    forall k | k in st.resolved ensures Downloaded(st.attempts + [att], env, k, st.resolved[k].version) {
      DownloadedAppend(st.attempts, att, env, k, st.resolved[k].version);
    }
  }

  /** `resolved.put` right after a successful download of the same module
      and version keeps the invariant, provided it does not lower the
      version already resolved. */
  lemma PutPreserves(st: State, env: Environment, entry: Artifact)
    requires Sound(st, env) && |st.attempts| > 0
    requires st.attempts[|st.attempts| - 1].moduleId == entry.artifactId
    requires st.attempts[|st.attempts| - 1].version == entry.version
    requires env.download(st.attempts[|st.attempts| - 1].artifactId, entry.version).Ok?
    requires entry.artifactId in st.resolved ==> Below(env, st.resolved[entry.artifactId].version, entry.version)
    ensures Grows(env, st, st.(resolved := st.resolved[entry.artifactId := entry]))
    ensures Sound(st.(resolved := st.resolved[entry.artifactId := entry]), env)
  {
    assert Downloaded(st.attempts, env, entry.artifactId, entry.version);
  }

  /** Running out of fuel keeps the invariant. */
  lemma TruncatePreserves(st: State, env: Environment)
    requires Sound(st, env)
    ensures Grows(env, st, st.(truncated := true)) && Sound(st.(truncated := true), env)
  {
  }

  /** The invariant of `resolveRecursive`, and what it may change. */
  lemma StepPreserves(st: State, env: Environment, req: Artifact, fuel: nat)
    requires Chains(env) && Sound(st, env)
    ensures Grows(env, st, Step(st, env, req, fuel)) && Sound(Step(st, env, req, fuel), env)
  {
    var _ := StepFacts(st, env, req, fuel);
  }

  /** The invariant of the loop over the dependencies. */
  lemma StepAllPreserves(st: State, env: Environment, deps: seq<Artifact>, fuel: nat)
    requires Chains(env) && Sound(st, env)
    ensures Grows(env, st, StepAll(st, env, deps, fuel)) && Sound(StepAll(st, env, deps, fuel), env)
  {
    var _ := StepAllFacts(st, env, deps, fuel);
  }

  /** `StepPreserves`, naming the state a call leaves. */
  lemma {:induction false} StepFacts(st: State, env: Environment, req: Artifact, fuel: nat) returns (after: State)
    requires Chains(env) && Sound(st, env)
    ensures Step(st, env, req, fuel) == after && Grows(env, st, after) && Sound(after, env)
    decreases fuel, 1
  {
    if fuel == 0 {
      after := st.(truncated := true);
      TruncatePreserves(st, env);
    } else {
      after := RunFacts(st, env, req, fuel);
    }
  }

  /** A call with fuel left: the `try` block, then the loop. */
  lemma {:induction false} RunFacts(st: State, env: Environment, req: Artifact, fuel: nat) returns (after: State)
    requires fuel > 0 && Chains(env) && Sound(st, env)
    ensures Called(st, env, req, fuel) == after && Grows(env, st, after) && Sound(after, env)
    decreases fuel, 0
  {
    var st', deps := TryFacts(st, env, req, fuel);
    after := LoopFacts(st, st', env, deps, fuel - 1);
  }

  /** The loop after a `try` block that kept the invariant. */
  lemma {:induction false} LoopFacts(st: State, st': State, env: Environment, deps: seq<Artifact>, fuel: nat)
    returns (after: State)
    requires Chains(env) && Sound(st', env) && Grows(env, st, st')
    ensures Looped(st', env, deps, fuel) == after && Grows(env, st, after) && Sound(after, env)
    decreases fuel, |deps| + 3
  {
    after := StepAllFacts(st', env, deps, fuel);
    GrowsTransitive(env, st, st', after);
  }

  /** `Step` and `StepAll` once more, under names the proofs below use in
      their contracts. They are not recursive themselves, so the solver
      relates a fact about `Called(...)` to one about `Looped(...)` by one
      unfolding each, where stating the same facts about `Step` and
      `StepAll` directly makes it unfold their recursion again and again. */
  function Called(st: State, env: Environment, req: Artifact, fuel: nat): State {
    Step(st, env, req, fuel)
  }

  function Looped(st: State, env: Environment, deps: seq<Artifact>, fuel: nat): State {
    StepAll(st, env, deps, fuel)
  }

  /** `StepAllPreserves`, naming the state the loop leaves. */
  lemma {:induction false} StepAllFacts(st: State, env: Environment, deps: seq<Artifact>, fuel: nat) returns (after: State)
    requires Chains(env) && Sound(st, env)
    ensures StepAll(st, env, deps, fuel) == after && Grows(env, st, after) && Sound(after, env)
    decreases fuel, |deps| + 2
  {
    if deps == [] {
      after := st;
    } else {
      var mid := StepAllFacts(st, env, deps[..|deps| - 1], fuel);
      after := StepFacts(mid, env, deps[|deps| - 1], fuel);
      GrowsTransitive(env, st, mid, after);
    }
  }

  /** The outcome of the `try` block, and its invariant. */
  lemma TryFacts(st: State, env: Environment, req: Artifact, fuel: nat) returns (st': State, deps: seq<Artifact>)
    requires fuel > 0 && Chains(env) && Sound(st, env)
    ensures Called(st, env, req, fuel) == Looped(st', env, deps, fuel - 1)
    ensures Grows(env, st, st') && Sound(st', env)
  {
    st', deps := TryUnfold(st, env, req, fuel);
    TryPreserves(st, env, req);
  }

  /** A call with fuel left is its `try` block followed by the loop. */
  lemma TryUnfold(st: State, env: Environment, req: Artifact, fuel: nat) returns (st': State, deps: seq<Artifact>)
    requires fuel > 0
    ensures (st', deps) == TryBlock(st, env, req)
    ensures Called(st, env, req, fuel) == Looped(st', env, deps, fuel - 1)
  {
    st' := TryBlock(st, env, req).0;
    deps := TryBlock(st, env, req).1;
  }

  /** The invariant of the `try` block. */
  lemma TryPreserves(st: State, env: Environment, req: Artifact)
    requires Chains(env) && Sound(st, env)
    ensures Grows(env, st, TryBlock(st, env, req).0) && Sound(TryBlock(st, env, req).0, env)
  {
    var entry := Entry(env, req);
    var admitted := Admit(env, st.resolved, entry.artifactId, req.version);
    if admitted.Fail? {
      MarkPreserves(st, env, entry);
    } else if !admitted.value {
      assert Grows(env, st, st);
    } else {
      var actual := env.normalise(req.artifactId);
      var st1 := st.(attempts := st.attempts + [Attempt(entry.artifactId, actual, req.version)]);
      LogPreserves(st, env, Attempt(entry.artifactId, actual, req.version));
      var jar := env.download(actual, req.version);
      if jar.Fail? {
        MarkPreserves(st1, env, entry);
        GrowsTransitive(env, st, st1, MarkUnresolved(st1, entry));
      } else {
        PutPreserves(st1, env, entry);
        var st2 := st1.(resolved := st1.resolved[entry.artifactId := entry]);
        GrowsTransitive(env, st, st1, st2);
        if env.dependencies(jar.value).Fail? {
          MarkPreserves(st2, env, entry);
          GrowsTransitive(env, st, st2, MarkUnresolved(st2, entry));
        }
      }
    }
  }

  // ---------------------------------------------------------------------
  // The comparison of the resolver

  /** `compareVersions` chains, so the invariants above hold for the
      resolver's own environment. */
  lemma CompareChains(env: Environment)
    requires forall a, b :: env.compare(a, b) == Compare(a, b)
    ensures Chains(env)
  {
    forall a, b, c ensures ChainsVia(env, a, b, c) {
      if Below(env, a, b) && Below(env, b, c) {
        CompareChain(a, b, c);
      }
    }
  }

  // ---------------------------------------------------------------------
  // Whole runs

  /** Every module a call is made for ends up in one of the two maps,
      unless the call ran out of fuel. */
  lemma StepRecords(st: State, env: Environment, req: Artifact, fuel: nat)
    requires fuel > 0 && Chains(env) && Sound(st, env)
    ensures var after := Step(st, env, req, fuel);
      Entry(env, req).artifactId in after.resolved || Entry(env, req).artifactId in after.unresolved
  {
    var st', deps := TryUnfold(st, env, req, fuel);
    TryRecords(st, env, req);
    TryPreserves(st, env, req);
    var after := LoopFacts(st', st', env, deps, fuel - 1);
    assert Called(st, env, req, fuel) == after;
  }

  /** The `try` block records the module in one of the two maps. */
  lemma TryRecords(st: State, env: Environment, req: Artifact)
    ensures var st' := TryBlock(st, env, req).0;
      Entry(env, req).artifactId in st'.resolved || Entry(env, req).artifactId in st'.unresolved
  {
  }

  /** After `resolve` the two maps are disjoint, both keep their invariant,
      and the requested module is in exactly one of them unless some call
      ran out of fuel. */
  lemma ResolveSound(env: Environment, req: Artifact, fuel: nat)
    requires Chains(env)
    ensures var r := Resolve(Initial, env, req, fuel);
      && Sound(r, env)
      && r.resolved.Keys !! r.unresolved.Keys
      && (fuel > 0 ==> Entry(env, req).artifactId in r.resolved || Entry(env, req).artifactId in r.unresolved)
  {
    var after := StepFacts(Initial, env, req, fuel);
    if fuel > 0 {
      StepRecords(Initial, env, req, fuel);
    }
  }

  /** The artifact cannot be downloaded: it is reported unresolved, and the
      only download attempted is its own. */
  lemma NotFoundAtTop(env: Environment, req: Artifact, fuel: nat)
    requires fuel > 0
    requires env.compare("0", req.version).Ok?
    requires env.download(env.normalise(req.artifactId), req.version).Fail?
    ensures Resolve(Initial, env, req, fuel) ==
      State(map[], map[Entry(env, req).artifactId := Entry(env, req)], [Attempt(Entry(env, req).artifactId, env.normalise(req.artifactId), req.version)], false)
  {
    var e := Entry(env, req);
    var st := State(map[], map[e.artifactId := e], [Attempt(Entry(env, req).artifactId, env.normalise(req.artifactId), req.version)], false);
    var att := Attempt(e.artifactId, env.normalise(req.artifactId), req.version);
    assert Admit(env, Initial.resolved, e.artifactId, req.version) == Ok(true);
    assert Initial.attempts + [att] == [att];
    assert TryBlock(Initial, env, req) == (st, []);
    assert Step(Initial, env, req, fuel) == st;
    assert st.unresolved - st.resolved.Keys == st.unresolved;
  }

  /** A jar that downloads but whose dependencies cannot be read is put in
      both maps by `resolveRecursive`, and `resolve` then reports it as
      resolved only. */
  lemma UnreadableJarIsResolved(env: Environment, req: Artifact, fuel: nat)
    requires fuel > 0
    requires env.compare("0", req.version).Ok?
    requires env.download(env.normalise(req.artifactId), req.version).Ok?
    requires env.dependencies(env.download(env.normalise(req.artifactId), req.version).value).Fail?
    ensures Step(Initial, env, req, fuel).unresolved == map[Entry(env, req).artifactId := Entry(env, req)]
    ensures Resolve(Initial, env, req, fuel) ==
      State(map[Entry(env, req).artifactId := Entry(env, req)], map[], [Attempt(Entry(env, req).artifactId, env.normalise(req.artifactId), req.version)], false)
  {
  }

  /** The loop over a single dependency is one nested call. */
  lemma StepAllOne(st: State, env: Environment, dep: Artifact, fuel: nat)
    ensures StepAll(st, env, [dep], fuel) == Step(st, env, dep, fuel)
  {
    assert [dep][..0] == [];
  }

  /** One more dependency in the loop is one more nested call after the
      others. */
  lemma StepAllNext(st: State, env: Environment, deps: seq<Artifact>, i: nat, mid: State, after: State, fuel: nat)
    requires i < |deps|
    requires mid == StepAll(st, env, deps[..i], fuel) && after == Step(mid, env, deps[i], fuel)
    ensures after == StepAll(st, env, deps[..i + 1], fuel)
  {
    assert deps[..i + 1][..i] == deps[..i];
  }

  /** Two modules that require each other: the second visit of the first
      finds it resolved at the same version and stops, so the recursion
      ends with both resolved and each downloaded once. */
  lemma MutualDependency(env: Environment, a: Artifact, b: Artifact, jarA: string, jarB: string, fuel: nat)
    requires fuel >= 3
    requires env.moduleId(a.artifactId) != env.moduleId(b.artifactId)
    requires env.compare("0", a.version).Ok? && env.compare("0", b.version).Ok?
    requires env.compare(a.version, a.version) == Ok(0)
    requires env.download(env.normalise(a.artifactId), a.version) == Ok(jarA)
    requires env.download(env.normalise(b.artifactId), b.version) == Ok(jarB)
    requires env.dependencies(jarA) == Ok([b]) && env.dependencies(jarB) == Ok([a])
    ensures Resolve(Initial, env, a, fuel) == State(
      map[Entry(env, a).artifactId := Entry(env, a), Entry(env, b).artifactId := Entry(env, b)],
      map[],
      [Attempt(Entry(env, a).artifactId, env.normalise(a.artifactId), a.version),
       Attempt(Entry(env, b).artifactId, env.normalise(b.artifactId), b.version)],
      false)
  {
    var ea, eb := Entry(env, a), Entry(env, b);
    var attA := Attempt(ea.artifactId, env.normalise(a.artifactId), a.version);
    var attB := Attempt(eb.artifactId, env.normalise(b.artifactId), b.version);
    var s1 := State(map[ea.artifactId := ea], map[], [attA], false);
    var s2 := State(map[ea.artifactId := ea, eb.artifactId := eb], map[], [attA, attB], false);
    assert [] + [attA] == [attA];
    assert TryBlock(Initial, env, a) == (s1, [b]);
    assert Step(Initial, env, a, fuel) == StepAll(s1, env, [b], fuel - 1);
    StepAllOne(s1, env, b, fuel - 1);
    assert [attA] + [attB] == [attA, attB];
    assert s1.resolved[eb.artifactId := eb] == s2.resolved;
    assert TryBlock(s1, env, b) == (s2, [a]);
    assert Step(s1, env, b, fuel - 1) == StepAll(s2, env, [a], fuel - 2);
    StepAllOne(s2, env, a, fuel - 2);
    SkipWhenResolved(s2, env, a, fuel - 2);
    assert s2.unresolved - s2.resolved.Keys == s2.unresolved;
  }
}
