# OpenMRS module resolver, modelled in Dafny

This project models `OpenmrsModuleResolver`, a class inside the openmrs-sdk
integration test `ArtifactHelperIT`. The class computes the transitive closure of
an OpenMRS module's dependencies. Starting from one Maven coordinate, it:

1. downloads the module's jar;
2. reads the `require_module` elements of the jar's `config.xml`;
3. resolves each required module in turn.

It records every module it meets in one of two maps, both keyed by module id:

- `resolved`, for modules whose jar was downloaded;
- `unResolved`, for modules whose version, download or descriptor failed.

A module already resolved at the same or a higher version is skipped. Versions
are ordered by `compareVersions`.

The model follows the class part by part:

| file | models |
|---|---|
| `outcomes.dfy` | the coordinate `Artifact`, the exceptions the resolver catches (`Failure`), and `Outcome` (a value or an exception) |
| `java_strings.dfy` | the `java.lang.String` operations the resolver relies on: `contains`, `replace`, `indexOf`, `trim`, and `split` with its dropping of trailing empty strings |
| `versions.dfy` | `compareVersions` as the function `Compare` and the method `CompareVersions` (its segment loop is `CompareBases`); the order it induces and its algebraic laws |
| `version_examples.dfy` | concrete comparisons: zero padding, release above pre-release, qualifier order, lazy rejection of malformed segments |
| `module_ids.dfy` | the two renamings at the head of `resolveRecursive`: the `-omod` normalisation and the module id used as the map key |
| `descriptors.dfy` | `parseDependenciesFromJar`: uid-to-coordinate mapping, the element loop, and the no-`config.xml` case |
| `fetching.dfy` | `downloadJar`: the (groupId, type) candidate loops with their flag and breaks, then the lookup of the downloaded file |
| `resolution.dfy` | the resolution engine as functions on a `State` holding both maps: `Step` (`resolveRecursive`), `TryBlock` (its `try`/`catch`), `StepAll` (its loop), `Resolve` (`resolve`), plus the invariants every call keeps |
| `resolver.dfy` | the class `OpenmrsModuleResolver` itself, with `resolved` and `unResolved` as fields updated in place; each of its methods is proved to leave exactly the state `resolution.dfy` computes |

## How the resolution engine is parametrised

`Resolution` is written against an `Environment` that holds five functions:

- the version comparison;
- the download;
- the dependency reading;
- the module-id renaming;
- the `-omod` renaming.

The class's `Env()` fills these with:

- `Versions.Compare`;
- `Fetching.FetchJar` over its `Fetcher` and `Store`;
- `Descriptors.DependenciesIn` over its `Descriptor` reader;
- `ModuleIds.ModuleIdOf`;
- `ModuleIds.NormaliseArtifactId`.

So every lemma of `Resolution` applies to the real resolver. `Resolution.CompareChains` discharges the one assumption the invariants make about the comparison: strictly-below must chain.

## How the recursion is bounded

The Java recursion has no termination measure. Each call hands its nested calls one unit of `fuel` less. A call that receives no fuel does nothing but set the ghost flag `truncated`.

More fuel never changes a run that was not cut off: `Resolution.StepMoreFuel` and `Resolution.StepAllMoreFuel` prove that a call or loop whose result has `truncated` false gives the same result with one more unit of fuel, and `Resolution.ResolveMoreFuel` lifts this to `resolve` with any larger amount. So once some fuel gives a result with `truncated` false, that result is the one every larger bound gives. `Resolution.MutualDependency` shows such a run for two modules that require each other: three units of fuel are enough.

## Where the model follows the code

- An unrecognised qualifier ranks below `alpha`, because `indexOf` returns -1 for it. Two different unrecognised qualifiers compare equal.
- The qualifier is the text after the first `-`, whatever follows that dash. The base is cut at the first dash that precedes `alpha`, `beta` or `SNAPSHOT`.
- `compareVersions` parses segments lazily. It stops at the first position that differs, so a malformed later segment goes unnoticed: `"0"` against `"1.x"` is `-1`. The "ensure it is a valid version" probe against `"0"` therefore only rejects versions whose malformed segment comes before the first nonzero one.
- The key strips `-module` only from an id that already contains `-omod`. The normalisation appends `-omod` to every other id, and `$` anchors the pattern at the very end. So `foo-module` is recorded as `foo-module`, while `foo-omod-module` is recorded as `foo-omod`.
- The groupId passed to `resolveRecursive` is not used when downloading. The candidates are always `org.openmrs.module` and `org.openmrs`, crossed with `jar` and `omod`.
- When a jar downloads but its `config.xml` cannot be read, the module goes into both maps. `resolve` then removes it from `unResolved`, so it is reported as resolved.

## Model

| member | source | states |
|---|---|---|
| Versions.CompareVersions | integration-tests/src/test/java/org/openmrs/maven/plugins/utility/ArtifactHelperIT.java:260-289 | `compareVersions` returns exactly `Compare(v1, v2)`: the segment comparison, then the qualifiers only when the bases are equal |
| Versions.CompareBases | integration-tests/src/test/java/org/openmrs/maven/plugins/utility/ArtifactHelperIT.java:272-276 | the `for` loop with its early return computes `CompareSegments`: missing segments count as 0, the first unequal position decides, and a segment that must be parsed and is not a digit string throws |
| Versions.CompareSegments | integration-tests/src/test/java/org/openmrs/maven/plugins/utility/ArtifactHelperIT.java:272-276 | the loop yields -1, 0 or 1, and its only exception is the number format one |
| Versions.Compare | integration-tests/src/test/java/org/openmrs/maven/plugins/utility/ArtifactHelperIT.java:260-289 | `compareVersions` yields -1, 0 or 1, and the only exception it throws is the number format one |
| Versions.ParseSegment | integration-tests/src/test/java/org/openmrs/maven/plugins/utility/ArtifactHelperIT.java:273-274 | `Integer.parseInt` succeeds exactly on non-empty digit strings |
| Versions.QualifierDash | integration-tests/src/test/java/org/openmrs/maven/plugins/utility/ArtifactHelperIT.java:263-264 | finds the first dash followed by `alpha`, `beta` or `SNAPSHOT`, and no earlier one exists |
| Versions.Base | integration-tests/src/test/java/org/openmrs/maven/plugins/utility/ArtifactHelperIT.java:263-264 | the first piece of the qualifier split is a prefix of the version |
| Versions.Qualifier | integration-tests/src/test/java/org/openmrs/maven/plugins/utility/ArtifactHelperIT.java:266-267 | without a dash the qualifier is empty; otherwise it is the text after the first dash |
| Versions.Segments | integration-tests/src/test/java/org/openmrs/maven/plugins/utility/ArtifactHelperIT.java:269-270 | no segment contains a dot, and a base without a dot is its only segment |
| Versions.QualifierIndex | integration-tests/src/test/java/org/openmrs/maven/plugins/utility/ArtifactHelperIT.java:283-284 | `indexOf` in `{alpha, beta, SNAPSHOT}` is -1 exactly for an unrecognised qualifier, and otherwise names its position |
| Versions.CompareQualifiers | integration-tests/src/test/java/org/openmrs/maven/plugins/utility/ArtifactHelperIT.java:278-288 | qualifiers compare by rank: none > SNAPSHOT > beta > alpha > any unrecognised one |
| Versions.CompareSegmentsNumeric | integration-tests/src/test/java/org/openmrs/maven/plugins/utility/ArtifactHelperIT.java:272-276 | on parsable segments the loop is lexicographic comparison of the numbers, the shorter one padded with zeros |
| Versions.CompareIsOrder | integration-tests/src/test/java/org/openmrs/maven/plugins/utility/ArtifactHelperIT.java:260-289 | on well-formed versions `compareVersions` never throws and equals the independent base-then-qualifier order `Order` |
| Versions.LexCmpPadding | integration-tests/src/test/java/org/openmrs/maven/plugins/utility/ArtifactHelperIT.java:273-274 | a trailing zero segment never changes the comparison |
| Versions.LexCmpAntisymmetric | integration-tests/src/test/java/org/openmrs/maven/plugins/utility/ArtifactHelperIT.java:272-276 | swapping the number sequences negates their comparison |
| Versions.LexCmpTransitive | integration-tests/src/test/java/org/openmrs/maven/plugins/utility/ArtifactHelperIT.java:272-276 | the padded lexicographic comparison is transitive, and strictly so when either step is strict |
| Versions.CompareSegmentsAntisymmetric | integration-tests/src/test/java/org/openmrs/maven/plugins/utility/ArtifactHelperIT.java:272-276 | the segment loop fails in one order exactly when it fails in the other, and otherwise changes sign |
| Versions.CompareAntisymmetric | integration-tests/src/test/java/org/openmrs/maven/plugins/utility/ArtifactHelperIT.java:260-289 | `compareVersions(b, a)` throws exactly when `compareVersions(a, b)` does, and otherwise is its negation |
| Versions.CompareSegmentsSelf | integration-tests/src/test/java/org/openmrs/maven/plugins/utility/ArtifactHelperIT.java:272-276 | segments compared with themselves give 0 when all parse, and otherwise throw |
| Versions.CompareReflexive | integration-tests/src/test/java/org/openmrs/maven/plugins/utility/ArtifactHelperIT.java:260-289 | a version equals itself exactly when it is well-formed, and otherwise throws |
| Versions.CompareTransitive | integration-tests/src/test/java/org/openmrs/maven/plugins/utility/ArtifactHelperIT.java:260-289 | on well-formed versions `compareVersions` is transitive, and strictly so when either step is strict |
| Versions.CompareSegmentsChain | integration-tests/src/test/java/org/openmrs/maven/plugins/utility/ArtifactHelperIT.java:272-276 | two non-descending steps the loop accepts make a non-descending step it accepts, flat only when both were |
| Versions.CompareChain | integration-tests/src/test/java/org/openmrs/maven/plugins/utility/ArtifactHelperIT.java:260-289 | for any versions at all, two accepted non-descending comparisons chain, strictly when either step is strict |
| Versions.MalformedFirstSegmentFails | integration-tests/src/test/java/org/openmrs/maven/plugins/utility/ArtifactHelperIT.java:273-274 | a version whose first segment is not a number throws against any version, on either side |
| Versions.EmptyVersionFails | integration-tests/src/test/java/org/openmrs/maven/plugins/utility/ArtifactHelperIT.java:273-274 | the empty version that a missing `version` attribute yields throws against any version |
| VersionExamples.TrailingZeroIsEqual | integration-tests/src/test/java/org/openmrs/maven/plugins/utility/ArtifactHelperIT.java:272-276 | `1.2.0` and `1.2` compare equal |
| VersionExamples.ReleaseAbovePreRelease | integration-tests/src/test/java/org/openmrs/maven/plugins/utility/ArtifactHelperIT.java:278-280 | `1.0.0` is above `1.0.0-alpha` |
| VersionExamples.AlphaBelowBeta | integration-tests/src/test/java/org/openmrs/maven/plugins/utility/ArtifactHelperIT.java:279-285 | `1.0.0-alpha` is below `1.0.0-beta` |
| VersionExamples.Qualified | integration-tests/src/test/java/org/openmrs/maven/plugins/utility/ArtifactHelperIT.java:263-267 | `1.0.0-q` for a recognised `q` has base `1.0.0`, qualifier `q` and segments `1`, `0`, `0` |
| VersionExamples.ThreeSegments | integration-tests/src/test/java/org/openmrs/maven/plugins/utility/ArtifactHelperIT.java:269-270 | a base made of three dot-free segments, the last non-empty, splits into exactly those three |
| VersionExamples.TwoSegments | integration-tests/src/test/java/org/openmrs/maven/plugins/utility/ArtifactHelperIT.java:269-270 | the same for two segments |
| VersionExamples.PaddedSegmentsEqual | integration-tests/src/test/java/org/openmrs/maven/plugins/utility/ArtifactHelperIT.java:272-276 | the loop reads the missing third segment of `1.2` as 0, so `1.2.0` and `1.2` have equal bases |
| VersionExamples.ProbeIsLazy | integration-tests/src/test/java/org/openmrs/maven/plugins/utility/ArtifactHelperIT.java:139-142 | the probe against `"0"` accepts `1.x` although `1.x` is not well-formed, and rejects `0.x` |
| JavaStrings.Contains | integration-tests/src/test/java/org/openmrs/maven/plugins/utility/ArtifactHelperIT.java:130 | `contains` holds exactly when the pattern occurs at some index |
| JavaStrings.Remove | integration-tests/src/test/java/org/openmrs/maven/plugins/utility/ArtifactHelperIT.java:187 | `replace(p, "")` never lengthens the string, and leaves a string without `p` unchanged |
| JavaStrings.RemoveTrailing | integration-tests/src/test/java/org/openmrs/maven/plugins/utility/ArtifactHelperIT.java:187 | when the pattern occurs only at the very end, `replace(p, "")` gives back the text before it |
| JavaStrings.IndexOf | integration-tests/src/test/java/org/openmrs/maven/plugins/utility/ArtifactHelperIT.java:266-267 | `indexOf` finds the first occurrence, and finds none exactly when the character is absent |
| JavaStrings.Trim | integration-tests/src/test/java/org/openmrs/maven/plugins/utility/ArtifactHelperIT.java:237-238 | `trim` leaves no character up to U+0020 at either end; with `TrimSpan`, it is the part of the string between such characters |
| JavaStrings.TrimStartDrops | integration-tests/src/test/java/org/openmrs/maven/plugins/utility/ArtifactHelperIT.java:237-238 | stripping the leading characters leaves a suffix of the string, and every character dropped is at most U+0020 |
| JavaStrings.TrimEndDrops | integration-tests/src/test/java/org/openmrs/maven/plugins/utility/ArtifactHelperIT.java:237-238 | stripping the trailing characters leaves a prefix, and every character dropped is at most U+0020 |
| JavaStrings.TrimSpan | integration-tests/src/test/java/org/openmrs/maven/plugins/utility/ArtifactHelperIT.java:237-238 | `trim` returns a contiguous part `s[i..j]` of the string, with only characters up to U+0020 before `i` and after `j` |
| JavaStrings.JoinPieces | integration-tests/src/test/java/org/openmrs/maven/plugins/utility/ArtifactHelperIT.java:269-270 | the pieces of a split, joined with the separator, give the string back |
| JavaStrings.DropTrailingEmpty | integration-tests/src/test/java/org/openmrs/maven/plugins/utility/ArtifactHelperIT.java:269-270 | `split` drops exactly the trailing empty pieces |
| JavaStrings.JavaSplit | integration-tests/src/test/java/org/openmrs/maven/plugins/utility/ArtifactHelperIT.java:269-270 | no piece of `split` contains the separator, and a string without the separator splits into itself alone |
| JavaStrings.JavaSplitPieces | integration-tests/src/test/java/org/openmrs/maven/plugins/utility/ArtifactHelperIT.java:269-270 | `split` of a non-empty string is a prefix of all its pieces, and the pieces it drops are empty |
| ModuleIds.NormaliseArtifactId | integration-tests/src/test/java/org/openmrs/maven/plugins/utility/ArtifactHelperIT.java:130 | an id that contains `-omod` comes back unchanged; any other id gets `-omod` appended |
| ModuleIds.StripModuleSuffix | integration-tests/src/test/java/org/openmrs/maven/plugins/utility/ArtifactHelperIT.java:131 | a trailing `-omod` is removed; failing that, a trailing `-module` is removed; otherwise nothing is removed |
| ModuleIds.ModuleIdOf | integration-tests/src/test/java/org/openmrs/maven/plugins/utility/ArtifactHelperIT.java:130-131 | an id without `-omod` is its own module id; an id containing it loses one trailing `-omod` or `-module` |
| ModuleIds.PlainIdIsModuleId | integration-tests/src/test/java/org/openmrs/maven/plugins/utility/ArtifactHelperIT.java:130-131 | an id without `-omod` gets `-omod` appended and is its own module id, even when it ends in `-module` |
| ModuleIds.OmodIdIsModuleId | integration-tests/src/test/java/org/openmrs/maven/plugins/utility/ArtifactHelperIT.java:130-131 | `x-omod` names module `x` |
| ModuleIds.OmodSuffixIsSameModule | integration-tests/src/test/java/org/openmrs/maven/plugins/utility/ArtifactHelperIT.java:130-131 | `x` and `x-omod` share one map entry |
| ModuleIds.ModuleSuffixStripped | integration-tests/src/test/java/org/openmrs/maven/plugins/utility/ArtifactHelperIT.java:130-131 | `x-omod-module` names module `x-omod`: one suffix goes, and only at the end |
| ModuleIds.InnerOmodIsKept | integration-tests/src/test/java/org/openmrs/maven/plugins/utility/ArtifactHelperIT.java:130-131 | an id with `-omod` inside it that ends in neither suffix is its own module id |
| ModuleIds.InnerOmodModuleStripped | integration-tests/src/test/java/org/openmrs/maven/plugins/utility/ArtifactHelperIT.java:130-131 | an id with `-omod` inside it and `-module` at the end loses only the `-module` |
| ModuleIds.InnerOmodExample | integration-tests/src/test/java/org/openmrs/maven/plugins/utility/ArtifactHelperIT.java:130-131 | `a-omod-b` names module `a-omod-b` |
| ModuleIds.InnerOmodModuleExample | integration-tests/src/test/java/org/openmrs/maven/plugins/utility/ArtifactHelperIT.java:130-131 | `a-omod-b-module` names module `a-omod-b` |
| ModuleIds.FileStemOfPlainId | integration-tests/src/test/java/org/openmrs/maven/plugins/utility/ArtifactHelperIT.java:187 | for an id without `-omod`, the file name starts with that id again: the `-omod` the normalisation appended is the one `replace` removes |
| ModuleIds.IdgenFileStem | integration-tests/src/test/java/org/openmrs/maven/plugins/utility/ArtifactHelperIT.java:187 | `idgen-omod` is looked up as a file named after `idgen` |
| Descriptors.MapUid | integration-tests/src/test/java/org/openmrs/maven/plugins/utility/ArtifactHelperIT.java:240-253 | a uid throws exactly when it has a dot but neither known prefix, and is skipped exactly when it has no dot |
| Descriptors.MapUidRoundTrip | integration-tests/src/test/java/org/openmrs/maven/plugins/utility/ArtifactHelperIT.java:244-253 | a mapped uid is its groupId, a dot and its artifactId; the group is `org.openmrs.module` when the longer prefix was present and `org.openmrs` otherwise, which fixes both fields |
| Descriptors.DependencyOf | integration-tests/src/test/java/org/openmrs/maven/plugins/utility/ArtifactHelperIT.java:236-253 | one element throws exactly when its trimmed uid is unsupported |
| Descriptors.DependenciesOf | integration-tests/src/test/java/org/openmrs/maven/plugins/utility/ArtifactHelperIT.java:235-254 | the element loop yields at most one dependency per element |
| Descriptors.DependenciesFail | integration-tests/src/test/java/org/openmrs/maven/plugins/utility/ArtifactHelperIT.java:235-254 | the whole list is discarded exactly when some element's uid is unsupported |
| Descriptors.DependenciesOfAppend | integration-tests/src/test/java/org/openmrs/maven/plugins/utility/ArtifactHelperIT.java:235-254 | the mapping works element by element in document order: a document split in two maps to the two mapped halves, one after the other |
| Descriptors.ExtendConcat | integration-tests/src/test/java/org/openmrs/maven/plugins/utility/ArtifactHelperIT.java:253 | appending one element's dependency commutes with concatenating two partial lists |
| Descriptors.Extend | integration-tests/src/test/java/org/openmrs/maven/plugins/utility/ArtifactHelperIT.java:253 | appending one element throws exactly when the list so far threw or that element throws |
| Descriptors.DependenciesOfOne | integration-tests/src/test/java/org/openmrs/maven/plugins/utility/ArtifactHelperIT.java:240-253 | a one-element document yields that element's dependency, nothing, or its exception |
| Descriptors.FailurePersists | integration-tests/src/test/java/org/openmrs/maven/plugins/utility/ArtifactHelperIT.java:251 | once a prefix of the document throws, the whole document throws with the same exception |
| Descriptors.ParseRequireModules | integration-tests/src/test/java/org/openmrs/maven/plugins/utility/ArtifactHelperIT.java:233-254 | the loop that appends to `dependencies` returns exactly `DependenciesOf` of the elements |
| Descriptors.DependenciesIn | integration-tests/src/test/java/org/openmrs/maven/plugins/utility/ArtifactHelperIT.java:199-201 | a jar without `config.xml` has no dependencies, and an unreadable one throws |
| Descriptors.ParseDependenciesFromJar | integration-tests/src/test/java/org/openmrs/maven/plugins/utility/ArtifactHelperIT.java:195-258 | `parseDependenciesFromJar` returns exactly `DependenciesIn` of what the jar holds |
| Fetching.CandidateOrder | integration-tests/src/test/java/org/openmrs/maven/plugins/utility/ArtifactHelperIT.java:101-103 | the nested loops visit (groupId, type) row by row: `org.openmrs.module` then `org.openmrs`, each with `jar` then `omod` |
| Fetching.FirstFetched | integration-tests/src/test/java/org/openmrs/maven/plugins/utility/ArtifactHelperIT.java:165-180 | the candidate found can be fetched, and every candidate before it cannot |
| Fetching.Download | integration-tests/src/test/java/org/openmrs/maven/plugins/utility/ArtifactHelperIT.java:182-184 | when no candidate can be fetched the result is the "Failed to download" exception |
| Fetching.DownloadSpec | integration-tests/src/test/java/org/openmrs/maven/plugins/utility/ArtifactHelperIT.java:164-184 | the download succeeds exactly when some candidate can be fetched, and then with the first such candidate in the fixed order |
| Fetching.FirstIsUnique | integration-tests/src/test/java/org/openmrs/maven/plugins/utility/ArtifactHelperIT.java:173-174 | a fetchable candidate with no fetchable one before it is the one the loops stop at |
| Fetching.JarFileName | integration-tests/src/test/java/org/openmrs/maven/plugins/utility/ArtifactHelperIT.java:187 | the file name is the id without `-omod`, a dash and the version, then `.` plus the type: the start, the end and the length together fix the whole name |
| Fetching.LocateJar | integration-tests/src/test/java/org/openmrs/maven/plugins/utility/ArtifactHelperIT.java:186-192 | the lookup succeeds exactly when a file of either type exists, returns an existing file of the first type that exists, and otherwise throws the extension exception |
| Fetching.FetchJar | integration-tests/src/test/java/org/openmrs/maven/plugins/utility/ArtifactHelperIT.java:161-193 | `downloadJar` returns a file exactly when both the download and the lookup succeed; a failed download throws "Failed to download" |
| Fetching.DownloadJar | integration-tests/src/test/java/org/openmrs/maven/plugins/utility/ArtifactHelperIT.java:161-193 | the nested loops with the `downloaded` flag and both breaks, then the lookup loop, return exactly `FetchJar` |
| Resolution.Entry | integration-tests/src/test/java/org/openmrs/maven/plugins/utility/ArtifactHelperIT.java:147-151 | the entry written to either map is keyed by the module id and keeps the requested version and groupId |
| Resolution.Admit | integration-tests/src/test/java/org/openmrs/maven/plugins/utility/ArtifactHelperIT.java:135-142 | the version check throws exactly when the comparison it makes throws; for a resolved module it downloads exactly when the resolved version is strictly lower; it always downloads a new module |
| Resolution.MarkUnresolved | integration-tests/src/test/java/org/openmrs/maven/plugins/utility/ArtifactHelperIT.java:151 | the catch block writes the entry into `unResolved` under its module id, replacing only that key, and changes nothing else |
| Resolution.TryBlock | integration-tests/src/test/java/org/openmrs/maven/plugins/utility/ArtifactHelperIT.java:128-155 | the `try` block with its `catch` keeps `truncated`, makes at most one download attempt, and yields dependencies only after logging exactly that attempt; its frame and the module it records are in `TryExtends`, and each outcome is fixed by `SkipWhenResolved`, `RejectedVersion`, `DownloadFailed`, `DependenciesFailed` and `DownloadSucceeded` |
| Resolution.TryExtends | integration-tests/src/test/java/org/openmrs/maven/plugins/utility/ArtifactHelperIT.java:128-155 | the `try` block removes no key, makes at most one download attempt, records the module in one of the maps, and yields dependencies only after putting the module into `resolved` at the requested version |
| Resolution.Step | integration-tests/src/test/java/org/openmrs/maven/plugins/utility/ArtifactHelperIT.java:122-159 | a `resolveRecursive` call removes no key from either map, only appends to the download log, and keeps a cut-off run marked |
| Resolution.StepAll | integration-tests/src/test/java/org/openmrs/maven/plugins/utility/ArtifactHelperIT.java:156-158 | the loop over the dependencies keeps the same |
| Resolution.Resolve | integration-tests/src/test/java/org/openmrs/maven/plugins/utility/ArtifactHelperIT.java:116-120 | after `resolve` no module is in both maps, and `resolved` and the download log are those the recursion left |
| Resolution.Reconcile | integration-tests/src/test/java/org/openmrs/maven/plugins/utility/ArtifactHelperIT.java:118 | removing the resolved keys leaves `resolved` unchanged, makes the maps disjoint, and keeps every other unresolved entry |
| Resolution.SkipWhenResolved | integration-tests/src/test/java/org/openmrs/maven/plugins/utility/ArtifactHelperIT.java:135-138 | a module resolved at the same or a higher version leaves the whole state unchanged, with no download |
| Resolution.RejectedVersion | integration-tests/src/test/java/org/openmrs/maven/plugins/utility/ArtifactHelperIT.java:135-154 | a version the check throws on puts only the entry into `unResolved`, with no download, whether or not the module was resolved before |
| Resolution.DownloadFailed | integration-tests/src/test/java/org/openmrs/maven/plugins/utility/ArtifactHelperIT.java:144-154 | a failed download puts the entry into `unResolved` after the one attempt, and no dependency is visited |
| Resolution.DependenciesFailed | integration-tests/src/test/java/org/openmrs/maven/plugins/utility/ArtifactHelperIT.java:146-154 | after a successful download the entry is in `resolved`; if the descriptor then throws, it is in `unResolved` too and no dependency is visited |
| Resolution.DownloadSucceeded | integration-tests/src/test/java/org/openmrs/maven/plugins/utility/ArtifactHelperIT.java:144-158 | after a successful download and descriptor read, the module is in `resolved` at the requested version before its dependencies are visited, in manifest order, with one unit of fuel less |
| Resolution.RevisitStops | integration-tests/src/test/java/org/openmrs/maven/plugins/utility/ArtifactHelperIT.java:135-158 | in that state a nested request for the same module at a version not above the one just resolved changes nothing, which is why a cycle stops |
| Resolution.StepMoreFuel | integration-tests/src/test/java/org/openmrs/maven/plugins/utility/ArtifactHelperIT.java:122-159 | a call whose result was not cut off gives the same result with one more unit of fuel |
| Resolution.StepAllMoreFuel | integration-tests/src/test/java/org/openmrs/maven/plugins/utility/ArtifactHelperIT.java:156-158 | the same for the loop over the dependencies |
| Resolution.ResolveMoreFuel | integration-tests/src/test/java/org/openmrs/maven/plugins/utility/ArtifactHelperIT.java:116-120 | `resolve` with more fuel than a run that was not cut off gives that run's result |
| Resolution.GrowsTransitive | integration-tests/src/test/java/org/openmrs/maven/plugins/utility/ArtifactHelperIT.java:135-147 | "never downgraded and only added to" composes across successive calls |
| Resolution.DownloadedAppend | integration-tests/src/test/java/org/openmrs/maven/plugins/utility/ArtifactHelperIT.java:144 | a download recorded in the log stays recorded as the log grows |
| Resolution.MarkPreserves | integration-tests/src/test/java/org/openmrs/maven/plugins/utility/ArtifactHelperIT.java:151 | the catch block keeps both maps' invariant |
| Resolution.LogPreserves | integration-tests/src/test/java/org/openmrs/maven/plugins/utility/ArtifactHelperIT.java:144 | logging a download attempt keeps the invariant |
| Resolution.PutPreserves | integration-tests/src/test/java/org/openmrs/maven/plugins/utility/ArtifactHelperIT.java:144-147 | `resolved.put` right after a successful download of that module and version keeps the invariant, provided it raises the version |
| Resolution.TruncatePreserves | integration-tests/src/test/java/org/openmrs/maven/plugins/utility/ArtifactHelperIT.java:156-158 | a call cut off for lack of fuel keeps the invariant |
| Resolution.TryPreserves | integration-tests/src/test/java/org/openmrs/maven/plugins/utility/ArtifactHelperIT.java:128-155 | the `try` block and its catch keep the invariant and never lower a resolved version |
| Resolution.StepPreserves | integration-tests/src/test/java/org/openmrs/maven/plugins/utility/ArtifactHelperIT.java:122-159 | each `resolveRecursive` call keeps the invariant, and never removes or lowers a resolved module or drops an unresolved one: each map is keyed by its entries' module ids, and a module is resolved only at a version whose jar was downloaded |
| Resolution.StepAllPreserves | integration-tests/src/test/java/org/openmrs/maven/plugins/utility/ArtifactHelperIT.java:156-158 | the loop over the dependencies keeps the same invariant |
| Resolution.StepFacts | integration-tests/src/test/java/org/openmrs/maven/plugins/utility/ArtifactHelperIT.java:122-159 | `StepPreserves` by induction on fuel and dependency list, naming the state the call leaves |
| Resolution.StepAllFacts | integration-tests/src/test/java/org/openmrs/maven/plugins/utility/ArtifactHelperIT.java:156-158 | the inductive step over the dependency list |
| Resolution.RunFacts | integration-tests/src/test/java/org/openmrs/maven/plugins/utility/ArtifactHelperIT.java:128-158 | a call with fuel left: the `try` block, then the loop, keep the invariant |
| Resolution.LoopFacts | integration-tests/src/test/java/org/openmrs/maven/plugins/utility/ArtifactHelperIT.java:156-158 | the loop after a `try` block that kept the invariant keeps it from the state before the block |
| Resolution.TryFacts | integration-tests/src/test/java/org/openmrs/maven/plugins/utility/ArtifactHelperIT.java:128-158 | a call is its `try` block followed by the loop, and the block keeps the invariant |
| Resolution.TryUnfold | integration-tests/src/test/java/org/openmrs/maven/plugins/utility/ArtifactHelperIT.java:128-158 | a call with fuel left is its `try` block followed by the loop over the dependencies that block yields |
| Resolution.TryRecords | integration-tests/src/test/java/org/openmrs/maven/plugins/utility/ArtifactHelperIT.java:128-155 | every outcome of the `try` block leaves the module in one of the two maps |
| Resolution.StepRecords | integration-tests/src/test/java/org/openmrs/maven/plugins/utility/ArtifactHelperIT.java:122-159 | after a call with fuel left, the requested module is in `resolved` or `unResolved` |
| Resolution.CompareChains | integration-tests/src/test/java/org/openmrs/maven/plugins/utility/ArtifactHelperIT.java:260-289 | the resolver's own comparison satisfies the chaining the invariants assume |
| Resolution.ResolveSound | integration-tests/src/test/java/org/openmrs/maven/plugins/utility/ArtifactHelperIT.java:116-120 | after `resolve` from empty maps the invariant holds, no module is in both maps, and the requested module is in one of them |
| Resolution.NotFoundAtTop | integration-tests/src/test/java/org/openmrs/maven/plugins/utility/ArtifactHelperIT.java:116-154 | a requested module that cannot be downloaded is the only unresolved entry, after exactly one attempt |
| Resolution.UnreadableJarIsResolved | integration-tests/src/test/java/org/openmrs/maven/plugins/utility/ArtifactHelperIT.java:116-151 | a module that downloads but whose descriptor throws is in both maps after the recursion and only in `resolved` after `resolve` |
| Resolution.StepAllOne | integration-tests/src/test/java/org/openmrs/maven/plugins/utility/ArtifactHelperIT.java:156-158 | a one-element dependency list is one nested call |
| Resolution.StepAllNext | integration-tests/src/test/java/org/openmrs/maven/plugins/utility/ArtifactHelperIT.java:156-158 | one more dependency in the loop is one more nested call after the earlier ones |
| Resolution.MutualDependency | integration-tests/src/test/java/org/openmrs/maven/plugins/utility/ArtifactHelperIT.java:135-158 | two modules that require each other are both resolved, each downloaded once; the second visit of the first stops because it is already resolved |
| Resolver.OpenmrsModuleResolver.constructor | integration-tests/src/test/java/org/openmrs/maven/plugins/utility/ArtifactHelperIT.java:95-114 | a new resolver starts with both maps empty |
| Resolver.OpenmrsModuleResolver.Env | integration-tests/src/test/java/org/openmrs/maven/plugins/utility/ArtifactHelperIT.java:130-141 | the resolver compares with `compareVersions` and names modules with the two renamings |
| Resolver.OpenmrsModuleResolver.Resolve | integration-tests/src/test/java/org/openmrs/maven/plugins/utility/ArtifactHelperIT.java:116-120 | `resolve` leaves the fields in exactly the state `Resolution.Resolve` computes |
| Resolver.OpenmrsModuleResolver.RemoveResolved | integration-tests/src/test/java/org/openmrs/maven/plugins/utility/ArtifactHelperIT.java:118 | the `forEach(unResolved::remove)` loop leaves exactly `Reconcile` of the fields |
| Resolver.OpenmrsModuleResolver.CheckVersion | integration-tests/src/test/java/org/openmrs/maven/plugins/utility/ArtifactHelperIT.java:135-142 | the version check compares with the resolved version or probes against `"0"`, returning exactly `Resolution.Admit` |
| Resolver.OpenmrsModuleResolver.ResolveRecursive | integration-tests/src/test/java/org/openmrs/maven/plugins/utility/ArtifactHelperIT.java:122-159 | `resolveRecursive` leaves exactly the state `Resolution.Step` computes, visiting dependencies in manifest order |
| Resolver.OpenmrsModuleResolver.ResolveDependencies | integration-tests/src/test/java/org/openmrs/maven/plugins/utility/ArtifactHelperIT.java:156-158 | the loop of `resolveRecursive` leaves exactly the state `Resolution.StepAll` computes: one nested call per dependency, in manifest order |
| Resolver.OpenmrsModuleResolver.TryBlock | integration-tests/src/test/java/org/openmrs/maven/plugins/utility/ArtifactHelperIT.java:128-155 | the `try` block and its catch update the maps in place exactly as `Resolution.TryBlock` says, and return the dependencies to visit |
| Resolver.FreshResolve | integration-tests/src/test/java/org/openmrs/maven/plugins/utility/ArtifactHelperIT.java:116-159 | for the real comparison, download and descriptor reading, `resolve` on a fresh resolver keeps the invariant, makes the maps disjoint, and records the requested module in one of them |

## Left out

- The Maven download (`ArtifactHelper.downloadArtifact`) is the `Fetcher` parameter, a yes/no answer per (artifactId, version, groupId, type). Which files exist in the working directory afterwards is the `Store` parameter. The download writes to the build directory (line 170) while the lookup reads `tempWorkingDir` (line 187). The model does not relate the two directories: `Store` answers for the lookup directory whatever was downloaded.
- Opening the jar, finding `config.xml` and DOM parsing with its security features are the `Descriptor` reader. It yields the `require_module` elements, "no `config.xml`", or an exception. XML parsing, entity handling and `getElementsByTagName` itself are not modelled.
- Creating and deleting `tempWorkingDir`, the `System.out` debug print, every `log` call, `printResults` and the JUnit test methods are not modelled; they are output or filesystem side effects.
- Versions.ParseSegment: accepts exactly the non-empty strings of ASCII digits, with unbounded values. On some segments its answer differs from `Integer.parseInt`. It rejects a signed segment such as `+1` or `-0` and a segment of non-ASCII Unicode digits, all of which `parseInt` accepts. It accepts a value above 2^31-1 such as `2147483648`, on which `parseInt` throws. So a version containing such a segment gets a comparison result that differs from the Java one.
- ModuleIds.StripModuleSuffix: the `$` anchor of `replaceAll` also matches before a final line terminator; the model strips a suffix only at the very end. The model's strings are sequences of Unicode scalar values, while Java's are sequences of UTF-16 code units: a supplementary character is one element here and two in Java, and a lone surrogate cannot be represented. Every pattern the model matches (`-omod`, `-module`, `.`, `-`, the uid prefixes, the qualifier words) is ASCII, so no result changes.
- The Java recursion is unbounded. The model bounds it with `fuel` and flags a cut-off call with the ghost `truncated`. Every invariant lemma holds for any fuel.
- Resolution.ResolveSound: promises that the requested module is recorded only when fuel is positive, because a call with no fuel records nothing. `StepRecords` and `Resolver.FreshResolve` carry the same condition.
- The invariant lemmas (`StepPreserves` and those it uses) assume the comparison chains. `CompareChains` proves this for `compareVersions`; it is not proved for arbitrary comparisons.
- Null arguments and a `null` module id in the catch block cannot arise here, because strings are values.
- Exceptions other than the ones listed in `Outcomes.Failure` (for example an I/O error during the download) are not distinguished; each is a `Fail` of the oracle that raised it.
