/** `OpenmrsModuleResolver`: the two maps it fills in place, and its
    methods `resolve`, `resolveRecursive` and the `try` block of the
    latter, each proved to leave the state that `Resolution` computes for
    the resolver's own environment. */
module Resolver {
  import opened Outcomes
  import opened Versions
  import opened ModuleIds
  import opened Descriptors
  import opened Fetching
  import opened Resolution

  class OpenmrsModuleResolver {
    /** The `resolved` and `unResolved` maps, keyed by module id. */
    var resolved: map<string, Artifact>
    var unResolved: map<string, Artifact>

    /** The calls of `downloadJar` made so far, and whether a nested call
        was cut off for lack of fuel; neither exists in the Java class. */
    ghost var attempts: seq<Attempt>
    ghost var truncated: bool

    /** The Maven environment: which downloads succeed, which files the
        working directory then holds, and what each jar file contains. */
    const fetch: Fetcher
    const store: Store
    const descriptor: string -> Descriptor

    constructor(fetch: Fetcher, store: Store, descriptor: string -> Descriptor)
      ensures Current() == Initial
      ensures this.fetch == fetch && this.store == store && this.descriptor == descriptor
    {
      this.fetch := fetch;
      this.store := store;
      this.descriptor := descriptor;
      resolved := map[];
      unResolved := map[];
      attempts := [];
      truncated := false;
    }

    /** The fields as a `Resolution.State`. */
    ghost function Current(): State
      reads this
    {
      State(resolved, unResolved, attempts, truncated)
    }

    /** The helpers `resolveRecursive` calls, as the models of their Java
        methods. */
    function Env(): (env: Environment)
      ensures env.compare == Compare && env.moduleId == ModuleIdOf && env.normalise == NormaliseArtifactId
    {
      Environment(
        Compare,
        (artifactId, version) => FetchJar(fetch, store, artifactId, version),
        jarFile => DependenciesIn(descriptor(jarFile)),
        ModuleIdOf,
        NormaliseArtifactId)
    }

    /** `resolve(groupId, artifactId, version)`: the recursion, then every
        resolved module is removed from `unResolved`. */
    method Resolve(groupId: string, artifactId: string, version: string, fuel: nat)
      modifies this
      ensures Current() == Resolution.Resolve(old(Current()), Env(), Artifact(artifactId, version, groupId), fuel)
    {
      ResolveRecursive(groupId, artifactId, version, fuel);
      RemoveResolved();
    }

    /** `resolved.keySet().forEach(unResolved::remove)`. */
    method RemoveResolved()
      modifies this
      ensures Current() == Reconcile(old(Current()))
    {
      ghost var before := unResolved;
      var keys := resolved.Keys;
      while keys != {}
        invariant keys <= resolved.Keys
        invariant Current() == old(Current()).(unresolved := before - (resolved.Keys - keys))
        decreases keys
      {
        var k :| k in keys;
        unResolved := unResolved - {k};
        keys := keys - {k};
      }
      assert resolved.Keys - {} == resolved.Keys;
    }

    /** `resolveRecursive(groupId, artifactId, version)`: the `try` block,
        then the loop over the dependencies it yields. */
    method ResolveRecursive(groupId: string, artifactId: string, version: string, fuel: nat)
      modifies this
      ensures Current() == Step(old(Current()), Env(), Artifact(artifactId, version, groupId), fuel)
      decreases fuel, 0
    {
      if fuel == 0 {
        truncated := true;
        return;
      }
      ghost var start := Current();
      var dependencies := TryBlock(groupId, artifactId, version);
      ghost var afterTry, yielded := TryUnfold(start, Env(), Artifact(artifactId, version, groupId), fuel);
      ResolveDependencies(dependencies, fuel - 1);
    }

    /** The loop of `resolveRecursive` over the dependencies the `try`
        block returned, each resolved in turn with one less unit of fuel. */
    method ResolveDependencies(dependencies: seq<Artifact>, fuel: nat)
      modifies this
      ensures Current() == StepAll(old(Current()), Env(), dependencies, fuel)
      decreases fuel, 1
    {
      ghost var start := Current();
      for i := 0 to |dependencies|
        invariant Current() == StepAll(start, Env(), dependencies[..i], fuel)
      {
        var dep := dependencies[i];
        ghost var before := Current();
        ResolveRecursive(dep.groupId, dep.artifactId, dep.version, fuel);
        assert Artifact(dep.artifactId, dep.version, dep.groupId) == dep;
        StepAllNext(start, Env(), dependencies, i, before, Current(), fuel);
      }
      assert dependencies[..|dependencies|] == dependencies;
    }

    /** The version check at the head of the `try` block: against the
        resolved version when the module is in `resolved`, otherwise the
        probe `compareVersions("0", version)`, whose result is unused. */
    method CheckVersion(moduleId: string, version: string) returns (admitted: Outcome<bool>)
      ensures admitted == Admit(Env(), resolved, moduleId, version)
    {
      if moduleId in resolved {
        var c := CompareVersions(resolved[moduleId].version, version);
        if c.Fail? {
          return Fail(c.failure);
        }
        return Ok(c.value < 0);
      } else {
        var c := CompareVersions("0", version);
        if c.Fail? {
          return Fail(c.failure);
        }
        return Ok(true);
      }
    }

    /** The `try` block of `resolveRecursive` with its `catch`: returns the
        dependencies the loop visits next, none when it returned early or
        the catch block ran. */
    method TryBlock(groupId: string, artifactId: string, version: string) returns (dependencies: seq<Artifact>)
      modifies this
      ensures (Current(), dependencies) == Resolution.TryBlock(old(Current()), Env(), Artifact(artifactId, version, groupId))
    {
      var actualArtifactId := NormaliseArtifactId(artifactId);
      var moduleId := StripModuleSuffix(actualArtifactId);
      var entry := Artifact(moduleId, version, groupId);
      ghost var env := Env();
      assert entry == Entry(env, Artifact(artifactId, version, groupId));
      assert actualArtifactId == env.normalise(artifactId);
      var admitted := CheckVersion(moduleId, version);
      if admitted.Fail? {
        unResolved := unResolved[moduleId := entry];
        return [];
      }
      if !admitted.value {
        return [];
      }
      attempts := attempts + [Attempt(moduleId, actualArtifactId, version)];
      var jarFile := DownloadJar(fetch, store, actualArtifactId, version);
      assert jarFile == env.download(actualArtifactId, version);
      if jarFile.Fail? {
        unResolved := unResolved[moduleId := entry];
        return [];
      }
      resolved := resolved[moduleId := entry];
      var parsed := ParseDependenciesFromJar(descriptor(jarFile.value));
      assert parsed == env.dependencies(jarFile.value);
      if parsed.Fail? {
        unResolved := unResolved[moduleId := entry];
        return [];
      }
      dependencies := parsed.value;
    }
  }

  /** A fresh resolver's `resolve`: both maps keep their invariant, no
      module is in both, every resolved module was downloaded at the
      version recorded, and the requested module is in one of them unless
      the recursion ran out of fuel. */
  lemma FreshResolve(r: OpenmrsModuleResolver, req: Artifact, fuel: nat)
    ensures var after := Resolution.Resolve(Initial, r.Env(), req, fuel);
      && Sound(after, r.Env())
      && after.resolved.Keys !! after.unresolved.Keys
      && (fuel > 0 ==> ModuleIdOf(req.artifactId) in after.resolved || ModuleIdOf(req.artifactId) in after.unresolved)
  {
    CompareChains(r.Env());
    ResolveSound(r.Env(), req, fuel);
  }
}
