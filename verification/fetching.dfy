/** `downloadJar`: the artifact is requested under a fixed list of group ids
    crossed with a fixed list of file types, the first download that
    succeeds ends the search, and the downloaded file is then looked up in
    the working directory by name. The Maven repository's download is the
    `Fetcher`; which files the working directory holds is its `Store`. */
module Fetching {
  import opened Outcomes
  import opened JavaStrings

  /** Whether `downloadArtifact(new Artifact(artifactId, version, groupId, type), ...)`
      completes without throwing; the arguments are artifactId, version,
      groupId and type. */
  type Fetcher = (string, string, string, string) -> bool

  /** One (groupId, type) combination the loop tries. */
  datatype Candidate = Candidate(groupId: string, fileType: string)

  /** The `groupIds` field. The caller's own group id is not among the
      candidates unless it is one of these. */
  const GroupIds: seq<string> := [GroupModule, GroupCore]

  /** The `types` field. */
  const Types: seq<string> := ["jar", "omod"]

  /** The order in which the nested loops visit the combinations. */
  function CandidateOrder(): (cs: seq<Candidate>)
    ensures |cs| == |GroupIds| * |Types|
    ensures forall g, t :: 0 <= g < |GroupIds| && 0 <= t < |Types| ==>
      cs[g * |Types| + t] == Candidate(GroupIds[g], Types[t])
  {
    [Candidate(GroupIds[0], Types[0]), Candidate(GroupIds[0], Types[1]),
     Candidate(GroupIds[1], Types[0]), Candidate(GroupIds[1], Types[1])]
  }

  predicate Fetches(fetch: Fetcher, artifactId: string, version: string, c: Candidate) {
    fetch(artifactId, version, c.groupId, c.fileType)
  }

  /** The first candidate of `cs` that can be downloaded. */
  function FirstFetched(fetch: Fetcher, artifactId: string, version: string, cs: seq<Candidate>): (r: Option<nat>)
    ensures r.Some? ==> r.value < |cs| && Fetches(fetch, artifactId, version, cs[r.value])
    ensures forall k :: 0 <= k < |cs| && (r.None? || k < r.value) ==> !Fetches(fetch, artifactId, version, cs[k])
  {
    if cs == [] then None
    else if Fetches(fetch, artifactId, version, cs[0]) then Some(0)
    else match FirstFetched(fetch, artifactId, version, cs[1..])
      case None => None
      case Some(k) => Some(k + 1)
  }

  /** What `downloadJar` yields: the candidate that was downloaded, or the
      RuntimeException raised when every candidate failed. */
  function Download(fetch: Fetcher, artifactId: string, version: string): (r: Outcome<Candidate>)
    ensures r.Fail? ==> r.failure == ArtifactNotFound
  {
    match FirstFetched(fetch, artifactId, version, CandidateOrder())
    case None => Fail(ArtifactNotFound)
    case Some(k) => Ok(CandidateOrder()[k])
  }

  /** A download succeeds exactly when some candidate can be fetched; the
      candidate reported is one that was fetched, and every candidate before
      it in the fixed order was tried and failed. */
  lemma DownloadSpec(fetch: Fetcher, artifactId: string, version: string)
    ensures Download(fetch, artifactId, version).Ok? <==>
      exists c :: c in CandidateOrder() && Fetches(fetch, artifactId, version, c)
    ensures Download(fetch, artifactId, version).Ok? ==>
      var c := Download(fetch, artifactId, version).value;
      && Fetches(fetch, artifactId, version, c)
      && exists k :: 0 <= k < |CandidateOrder()| && CandidateOrder()[k] == c &&
           forall j :: 0 <= j < k ==> !Fetches(fetch, artifactId, version, CandidateOrder()[j])
  {
    var cs := CandidateOrder();
    if Download(fetch, artifactId, version).Fail? {
      forall c | c in cs ensures !Fetches(fetch, artifactId, version, c) {
        var k :| 0 <= k < |cs| && cs[k] == c;
      }
    }
  }

  /** Which file names exist in the resolver's working directory. */
  type Store = string -> bool

  /** The name `downloadJar` looks for:
      `artifactId.replace("-omod", "") + "-" + version + "." + ext`. */
  function JarFileName(artifactId: string, version: string, ext: string): (r: string)
    ensures Remove(artifactId, "-omod") + "-" + version <= r
    ensures EndsWith(r, "." + ext)
    ensures |r| == |Remove(artifactId, "-omod")| + |version| + |ext| + 2
  {
    var r := Remove(artifactId, "-omod") + "-" + version + "." + ext;
    assert r[|r| - |"." + ext|..] == "." + ext;
    r
  }

  /** The file of type `Types[t]` exists and none of an earlier type does. */
  predicate FirstStored(store: Store, artifactId: string, version: string, t: nat)
    requires t < |Types|
  {
    store(JarFileName(artifactId, version, Types[t])) &&
    forall u :: 0 <= u < t ==> !store(JarFileName(artifactId, version, Types[u]))
  }

  /** The lookup after a successful download: the first type whose file
      exists, or the RuntimeException about the undetermined extension. */
  function LocateJar(store: Store, artifactId: string, version: string): (r: Outcome<string>)
    ensures r.Fail? ==> r.failure == UnknownExtension
    ensures r.Ok? <==> exists t :: 0 <= t < |Types| && store(JarFileName(artifactId, version, Types[t]))
    ensures r.Ok? ==> store(r.value)
    ensures r.Ok? ==> exists t :: 0 <= t < |Types| && FirstStored(store, artifactId, version, t) && r.value == JarFileName(artifactId, version, Types[t])
  {
    if store(JarFileName(artifactId, version, Types[0])) then Ok(JarFileName(artifactId, version, Types[0]))
    else if store(JarFileName(artifactId, version, Types[1])) then Ok(JarFileName(artifactId, version, Types[1]))
    else Fail(UnknownExtension)
  }

  /** What `downloadJar` returns: the file found after the download, or the
      exception of whichever half failed. */
  function FetchJar(fetch: Fetcher, store: Store, artifactId: string, version: string): (r: Outcome<string>)
    ensures r.Ok? <==> Download(fetch, artifactId, version).Ok? && LocateJar(store, artifactId, version).Ok?
    ensures Download(fetch, artifactId, version).Fail? ==> r == Fail(ArtifactNotFound)
  {
    match Download(fetch, artifactId, version)
    case Fail(f) => Fail(f)
    case Ok(_) => LocateJar(store, artifactId, version)
  }

  /** `downloadJar`: the nested loops over the candidates with the
      `downloaded` flag and the two breaks, then the loop over the types
      looking for the file. The call of `downloadArtifact` is `fetch`. */
  method DownloadJar(fetch: Fetcher, store: Store, artifactId: string, version: string) returns (r: Outcome<string>)
    ensures r == FetchJar(fetch, store, artifactId, version)
  {
    ghost var cs := CandidateOrder();
    var downloaded := false;
    var chosen := Candidate("", "");
    var g := 0;
    while g < |GroupIds|
      invariant 0 <= g <= |GroupIds|
      invariant !downloaded ==> forall k :: 0 <= k < g * |Types| ==> !Fetches(fetch, artifactId, version, cs[k])
      invariant downloaded ==> Download(fetch, artifactId, version) == Ok(chosen)
    {
      var t := 0;
      while t < |Types|
        invariant 0 <= t <= |Types|
        invariant !downloaded ==> forall k :: 0 <= k < g * |Types| + t ==> !Fetches(fetch, artifactId, version, cs[k])
        invariant downloaded ==> Download(fetch, artifactId, version) == Ok(chosen)
      {
        if fetch(artifactId, version, GroupIds[g], Types[t]) {
          downloaded := true;
          chosen := Candidate(GroupIds[g], Types[t]);
          assert cs[g * |Types| + t] == chosen;
          FirstIsUnique(fetch, artifactId, version, cs, g * |Types| + t);
          break;
        }
        assert cs[g * |Types| + t] == Candidate(GroupIds[g], Types[t]);
        t := t + 1;
      }
      if downloaded {
        break;
      }
      g := g + 1;
    }
    if !downloaded {
      assert FirstFetched(fetch, artifactId, version, cs) == None;
      return Fail(ArtifactNotFound);
    }
    for t := 0 to |Types|
      invariant forall u :: 0 <= u < t ==> !store(JarFileName(artifactId, version, Types[u]))
    {
      var name := JarFileName(artifactId, version, Types[t]);
      if store(name) {
        return Ok(name);
      }
    }
    return Fail(UnknownExtension);
  }


  /** A candidate that can be fetched, with none before it, is the one
      `FirstFetched` reports. */
  lemma FirstIsUnique(fetch: Fetcher, artifactId: string, version: string, cs: seq<Candidate>, k: nat)
    requires k < |cs| && Fetches(fetch, artifactId, version, cs[k])
    requires forall j :: 0 <= j < k ==> !Fetches(fetch, artifactId, version, cs[j])
    ensures FirstFetched(fetch, artifactId, version, cs) == Some(k)
  {
  }
}
