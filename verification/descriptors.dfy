/** `parseDependenciesFromJar`: the module's own required modules, read from
    the `require_module` elements of its config.xml and mapped from uids to
    Maven coordinates. Opening the jar and parsing the XML are left to the
    jar reader, which hands over a `Descriptor`. */
module Descriptors {
  import opened Outcomes
  import opened JavaStrings

  /** One `require_module` element: its text content and its `version`
      attribute ("" when the attribute is absent). */
  datatype RequireModule = RequireModule(text: string, version: string)

  /** What reading a downloaded jar yields. */
  datatype Descriptor =
    | Unreadable                                  // the jar or its config.xml could not be read
    | NoConfig                                    // the jar has no config.xml entry
    | Config(requireModules: seq<RequireModule>)  // the elements, in document order

  const ModulePrefix: string := "org.openmrs.module."
  const CorePrefix: string := "org.openmrs."

  /** How the known prefixes relate to the group ids. */
  lemma PrefixFacts()
    ensures GroupModule + "." == ModulePrefix && GroupCore + "." == CorePrefix
    ensures CorePrefix <= ModulePrefix && GroupCore != GroupModule
  {
  }

  /** A uid the mapping rejects: it has a dot but neither known prefix
      (`org.openmrs.module.` itself starts with `org.openmrs.`). */
  predicate UnsupportedUid(uid: string) {
    '.' in uid && !StartsWith(uid, CorePrefix)
  }

  /** One trimmed uid and version: skipped (Ok(None)), mapped to a
      coordinate, or an IllegalArgumentException for an unsupported uid. The
      longer prefix is tried first; the uid is always the group id, a dot and
      the artifact id. */
  function MapUid(uid: string, version: string): (r: Outcome<Option<Artifact>>)
    ensures r.Fail? <==> UnsupportedUid(uid)
    ensures r == Ok(None) <==> '.' !in uid
  {
    PrefixFacts();
    if '.' !in uid then Ok(None)
    else if StartsWith(uid, ModulePrefix) then Ok(Some(Artifact(uid[|ModulePrefix|..], version, GroupModule)))
    else if StartsWith(uid, CorePrefix) then Ok(Some(Artifact(uid[|CorePrefix|..], version, GroupCore)))
    else Fail(Failure.UnsupportedUid(uid))
  }

  /** A mapped uid is its group id, a dot and its artifact id; the group is
      `org.openmrs.module` when the longer prefix is present and
      `org.openmrs` otherwise. */
  lemma MapUidRoundTrip(uid: string, version: string)
    requires MapUid(uid, version).Ok? && MapUid(uid, version).value.Some?
    ensures var a := MapUid(uid, version).value.value;
      && a.groupId + "." + a.artifactId == uid
      && a.version == version
      && (a.groupId == GroupModule || a.groupId == GroupCore)
      && (a.groupId == GroupModule <==> StartsWith(uid, ModulePrefix))
  {
    PrefixFacts();
    if StartsWith(uid, ModulePrefix) {
      assert uid == ModulePrefix + uid[|ModulePrefix|..];
    } else {
      assert uid == CorePrefix + uid[|CorePrefix|..];
    }
  }

  /** One element, its text content and version attribute trimmed; it fails
      exactly when its uid is unsupported. */
  function DependencyOf(e: RequireModule): (r: Outcome<Option<Artifact>>)
    ensures r.Fail? <==> UnsupportedUid(Trim(e.text))
  {
    MapUid(Trim(e.text), Trim(e.version))
  }

  /** The dependencies of a list of elements, in document order; the first
      unsupported uid discards the whole list. */
  function DependenciesOf(es: seq<RequireModule>): (r: Outcome<seq<Artifact>>)
    ensures r.Ok? ==> |r.value| <= |es|
  {
    if es == [] then Ok([]) else Extend(DependenciesOf(es[..|es| - 1]), es[|es| - 1])
  }

  /** The whole document is discarded exactly when one of its uids is
      unsupported. */
  lemma {:induction false} DependenciesFail(es: seq<RequireModule>)
    ensures DependenciesOf(es).Fail? <==> exists k :: 0 <= k < |es| && UnsupportedUid(Trim(es[k].text))
  {
    if es != [] {
      var init := es[..|es| - 1];
      DependenciesFail(init);
      assert forall k :: 0 <= k < |init| ==> init[k] == es[k];
    }
  }

  /** Concatenation of two outcomes of the mapping. */
  function Concat(x: Outcome<seq<Artifact>>, y: Outcome<seq<Artifact>>): Outcome<seq<Artifact>> {
    match x
    case Fail(f) => Fail(f)
    case Ok(a) => match y case Fail(f) => Fail(f) case Ok(b) => Ok(a + b)
  }

  /** The mapping works element by element: a document split in two maps to
      the two mapped halves one after the other, so document order is kept. */
  lemma {:induction false} DependenciesOfAppend(xs: seq<RequireModule>, ys: seq<RequireModule>)
    ensures DependenciesOf(xs + ys) == Concat(DependenciesOf(xs), DependenciesOf(ys))
    decreases |ys|
  {
    if ys == [] {
      assert xs + ys == xs;
      match DependenciesOf(xs)
      case Fail(_) =>
      case Ok(ds) => assert ds + [] == ds;
    } else {
      var zs := xs + ys;
      var ys' := ys[..|ys| - 1];
      var e := ys[|ys| - 1];
      assert zs[..|zs| - 1] == xs + ys';
      assert zs[|zs| - 1] == e;
      calc {
        DependenciesOf(zs);
        Extend(DependenciesOf(xs + ys'), e);
        { DependenciesOfAppend(xs, ys'); }
        Extend(Concat(DependenciesOf(xs), DependenciesOf(ys')), e);
        { ExtendConcat(DependenciesOf(xs), DependenciesOf(ys'), e); }
        Concat(DependenciesOf(xs), Extend(DependenciesOf(ys'), e));
        Concat(DependenciesOf(xs), DependenciesOf(ys));
      }
    }
  }

  /** Extending the second half of a concatenation extends the whole. */
  lemma ExtendConcat(x: Outcome<seq<Artifact>>, y: Outcome<seq<Artifact>>, e: RequireModule)
    ensures Extend(Concat(x, y), e) == Concat(x, Extend(y, e))
  {
    match x
    case Fail(_) =>
    case Ok(a) =>
      match y
      case Fail(_) =>
      case Ok(b) =>
        match DependencyOf(e)
        case Fail(_) =>
        case Ok(None) =>
        case Ok(Some(d)) => assert (a + b) + [d] == a + (b + [d]);
  }

  /** The dependencies of a prefix extended by one more element. */
  function Extend(prefix: Outcome<seq<Artifact>>, e: RequireModule): (r: Outcome<seq<Artifact>>)
    ensures r.Fail? <==> prefix.Fail? || DependencyOf(e).Fail?
  {
    match prefix
    case Fail(f) => Fail(f)
    case Ok(ds) =>
      match DependencyOf(e)
      case Fail(f) => Fail(f)
      case Ok(None) => Ok(ds)
      case Ok(Some(a)) => Ok(ds + [a])
  }

  /** The dependencies of a single element. */
  lemma DependenciesOfOne(e: RequireModule)
    ensures DependenciesOf([e]) == match DependencyOf(e)
      case Fail(f) => Fail(f)
      case Ok(None) => Ok([])
      case Ok(Some(a)) => Ok([a])
  {
    assert [e][..0] == [];
    assert DependenciesOf([e]) == Extend(Ok([]), e);
    match DependencyOf(e)
    case Fail(_) =>
    case Ok(None) =>
    case Ok(Some(a)) => assert [] + [a] == [a];
  }

  /** The element loop of `parseDependenciesFromJar`. */
  method ParseRequireModules(es: seq<RequireModule>) returns (r: Outcome<seq<Artifact>>)
    ensures r == DependenciesOf(es)
  {
    var dependencies: seq<Artifact> := [];
    for i := 0 to |es|
      invariant DependenciesOf(es[..i]) == Ok(dependencies)
    {
      assert es[..i + 1][..i] == es[..i];
      match DependencyOf(es[i])
      case Fail(f) =>
        FailurePersists(es, i + 1);
        return Fail(f);
      case Ok(None) =>
      case Ok(Some(a)) =>
        dependencies := dependencies + [a];
    }
    assert es[..|es|] == es;
    return Ok(dependencies);
  }

  /** A failing prefix decides the outcome of the whole document: the first
      unsupported uid is the one reported. */
  lemma {:induction false} FailurePersists(es: seq<RequireModule>, n: nat)
    requires n <= |es| && DependenciesOf(es[..n]).Fail?
    ensures DependenciesOf(es) == DependenciesOf(es[..n])
    decreases |es| - n
  {
    if n < |es| {
      var init := es[..|es| - 1];
      assert init[..n] == es[..n];
      FailurePersists(init, n);
    } else {
      assert es[..n] == es;
    }
  }

  /** The dependencies a descriptor declares: none when the jar has no
      config.xml, a failure when it cannot be read. */
  function DependenciesIn(d: Descriptor): (r: Outcome<seq<Artifact>>)
    ensures d.NoConfig? ==> r == Ok([])
    ensures d.Unreadable? ==> r.Fail?
  {
    match d
    case Unreadable => Fail(UnreadableArchive)
    case NoConfig => Ok([])
    case Config(es) => DependenciesOf(es)
  }

  /** `parseDependenciesFromJar` on the descriptor of a downloaded jar. */
  method ParseDependenciesFromJar(d: Descriptor) returns (r: Outcome<seq<Artifact>>)
    ensures r == DependenciesIn(d)
  {
    match d
    case Unreadable => return Fail(UnreadableArchive);
    case NoConfig => return Ok([]);
    case Config(es) => r := ParseRequireModules(es);
  }
}
