/** `compareVersions`: the ordering on dotted numeric versions with an
    optional alpha/beta/SNAPSHOT qualifier that the resolver uses to decide
    whether a module is already resolved at a high enough version. */
module Versions {
  import opened Outcomes
  import opened JavaStrings

  /** The recognised qualifiers, lowest precedence first. */
  const Qualifiers: seq<string> := ["alpha", "beta", "SNAPSHOT"]

  /** `Integer.compare`. */
  function Cmp(a: int, b: int): int {
    if a < b then -1 else if a > b then 1 else 0
  }

  /** The lookahead `(?=alpha|beta|SNAPSHOT)`. */
  predicate StartsQualifier(s: string) {
    StartsWith(s, "alpha") || StartsWith(s, "beta") || StartsWith(s, "SNAPSHOT")
  }

  /** Index `j` is a match of the split pattern `-(?=alpha|beta|SNAPSHOT)`. */
  predicate DashAt(v: string, j: nat) {
    j < |v| && v[j] == '-' && StartsQualifier(v[j + 1..])
  }

  /** The first match of the split pattern in `v`, if any. */
  function QualifierDash(v: string): (r: Option<nat>)
    ensures r.Some? ==> DashAt(v, r.value)
    ensures forall j: nat :: (r.None? || j < r.value) ==> !DashAt(v, j)
  {
    if v == [] then None
    else if DashAt(v, 0) then Some(0)
    else
      assert forall j: nat | 0 < j :: DashAt(v, j) <==> DashAt(v[1..], j - 1) by {
        forall j: nat | 0 < j ensures DashAt(v, j) <==> DashAt(v[1..], j - 1) {
          if j < |v| { assert v[j + 1..] == v[1..][j..]; }
        }
      }
      match QualifierDash(v[1..])
      case None => None
      case Some(i) => Some(i + 1)
  }

  /** `v.split("-(?=alpha|beta|SNAPSHOT)")[0]`: the text before the first
      dash that introduces a recognised qualifier. The pieces after a match
      start with a qualifier word, so the split result is never empty. */
  function Base(v: string): (r: string)
    ensures r <= v
  {
    match QualifierDash(v)
    case Some(i) => v[..i]
    case None => v
  }

  /** `v.substring(v.indexOf("-") + 1)`, or "" when `v` has no dash: the text
      after the FIRST dash, whatever follows it. */
  function Qualifier(v: string): (r: string)
    ensures '-' !in v ==> r == ""
    ensures '-' in v ==> |r| < |v| && v[|v| - |r| - 1] == '-' && '-' !in v[..|v| - |r| - 1] && v[|v| - |r|..] == r
  {
    match IndexOf(v, '-')
    case Some(i) => v[i + 1..]
    case None => ""
  }

  /** `base.split("\\.")`. */
  function Segments(v: string): (r: seq<string>)
    ensures forall k :: 0 <= k < |r| ==> '.' !in r[k]
    ensures '.' !in Base(v) ==> r == [Base(v)]
  {
    JavaSplit(Base(v), '.')
  }

  predicate IsDigit(c: char) {
    '0' <= c <= '9'
  }

  predicate IsDigits(s: string) {
    forall k :: 0 <= k < |s| ==> IsDigit(s[k])
  }

  /** The decimal value of a string of ASCII digits. */
  function DigitsValue(s: string): nat
    requires IsDigits(s)
  {
    if s == [] then 0 else 10 * DigitsValue(s[..|s| - 1]) + (s[|s| - 1] as int - '0' as int)
  }

  /** `Integer.parseInt` on a non-empty string of ASCII digits; anything else
      fails. */
  function ParseSegment(s: string): (r: Option<nat>)
    ensures r.Some? <==> s != [] && IsDigits(s)
  {
    if s != [] && IsDigits(s) then Some(DigitsValue(s)) else None
  }

  /** Everything after the first element; nothing when there is none. */
  function Rest<T>(s: seq<T>): seq<T> {
    if s == [] then [] else s[1..]
  }

  /** The segment loop: missing segments count as 0, both segments of a
      position are parsed before they are compared, and the first unequal
      position decides without parsing what follows it. */
  function CompareSegments(p1: seq<string>, p2: seq<string>): (r: Outcome<int>)
    ensures r.Ok? ==> -1 <= r.value <= 1
    ensures r.Fail? ==> r.failure == InvalidVersion
    decreases |p1| + |p2|
  {
    if p1 == [] && p2 == [] then Ok(0)
    else
      var a := if p1 == [] then Some(0) else ParseSegment(p1[0]);
      var b := if p2 == [] then Some(0) else ParseSegment(p2[0]);
      if a.None? || b.None? then Fail(InvalidVersion)
      else if a.value != b.value then Ok(Cmp(a.value, b.value))
      else CompareSegments(Rest(p1), Rest(p2))
  }

  /** `Arrays.asList(qualifiers).indexOf(q)`. */
  function QualifierIndex(q: string): (r: int)
    ensures -1 <= r < |Qualifiers|
    ensures r == -1 <==> q !in Qualifiers
    ensures r >= 0 ==> Qualifiers[r] == q
  {
    if q == "alpha" then 0 else if q == "beta" then 1 else if q == "SNAPSHOT" then 2 else -1
  }

  /** Precedence of a qualifier: none above SNAPSHOT above beta above alpha
      above every unrecognised qualifier. */
  function Rank(q: string): int {
    if q == "" then 3 else QualifierIndex(q)
  }

  /** The qualifier comparison, taken only when the bases are equal. */
  function CompareQualifiers(q1: string, q2: string): (r: int)
    ensures r == Cmp(Rank(q1), Rank(q2))
  {
    if q1 == q2 then 0
    else if q1 == "" then 1
    else if q2 == "" then -1
    else Cmp(QualifierIndex(q1), QualifierIndex(q2))
  }

  /** `compareVersions(v1, v2)`: -1, 0 or 1, or the NumberFormatException
      of a segment that had to be parsed. */
  function Compare(v1: string, v2: string): (r: Outcome<int>)
    ensures r.Ok? ==> -1 <= r.value <= 1
    ensures r.Fail? ==> r.failure == InvalidVersion
  {
    ThenQualifiers(CompareSegments(Segments(v1), Segments(v2)), Qualifier(v1), Qualifier(v2))
  }

  /** The qualifiers decide only when the bases compare equal. */
  function ThenQualifiers(bases: Outcome<int>, q1: string, q2: string): Outcome<int> {
    match bases
    case Fail(e) => Fail(e)
    case Ok(c) => if c != 0 then Ok(c) else Ok(CompareQualifiers(q1, q2))
  }

  /** `compareVersions` itself: the qualifiers are cut off before the
      segment loop runs, and decide only when it finds the bases equal. */
  method CompareVersions(v1: string, v2: string) returns (r: Outcome<int>)
    ensures r == Compare(v1, v2)
  {
    var q1 := Qualifier(v1);
    var q2 := Qualifier(v2);
    var bases := CompareBases(JavaSplit(Base(v1), '.'), JavaSplit(Base(v2), '.'));
    if bases.Fail? || bases.value != 0 {
      return bases;
    }
    if q1 != q2 {
      if q1 == "" { return Ok(1); }
      if q2 == "" { return Ok(-1); }
      return Ok(Cmp(QualifierIndex(q1), QualifierIndex(q2)));
    }
    return Ok(0);
  }

  /** The `for` loop of `compareVersions` over the two segment arrays, with
      its early return at the first unequal position. */
  method CompareBases(parts1: seq<string>, parts2: seq<string>) returns (r: Outcome<int>)
    ensures r == CompareSegments(parts1, parts2)
  {
    ghost var spec := CompareSegments(parts1, parts2);
    var n := if |parts1| < |parts2| then |parts2| else |parts1|;
    var i := 0;
    assert Drop(parts1, 0) == parts1 && Drop(parts2, 0) == parts2;
    while i < n
      invariant 0 <= i <= n
      invariant spec == CompareSegments(Drop(parts1, i), Drop(parts2, i))
    {
      var p1 := if i < |parts1| then ParseSegment(parts1[i]) else Some(0);
      var p2 := if i < |parts2| then ParseSegment(parts2[i]) else Some(0);
      assert p1 == SegmentAt(parts1, i) && p2 == SegmentAt(parts2, i);
      if p1.None? || p2.None? {
        assert spec == Fail(InvalidVersion) by { SegmentsAt(parts1, parts2, i); }
        return Fail(InvalidVersion);
      }
      if p1.value != p2.value {
        assert spec == Ok(Cmp(p1.value, p2.value)) by { SegmentsAt(parts1, parts2, i); }
        return Ok(Cmp(p1.value, p2.value));
      }
      assert spec == CompareSegments(Drop(parts1, i + 1), Drop(parts2, i + 1)) by { SegmentsAt(parts1, parts2, i); }
      i := i + 1;
    }
    assert Drop(parts1, i) == [] && Drop(parts2, i) == [];
    return Ok(0);
  }

  /** The segment at position `i`, 0 when the version has fewer. */
  function SegmentAt(ps: seq<string>, i: nat): Option<nat> {
    if i < |ps| then ParseSegment(ps[i]) else Some(0)
  }

  /** One position of the segment loop: it fails, decides, or passes the
      decision on to the next position. */
  lemma SegmentsAt(p1: seq<string>, p2: seq<string>, i: nat)
    requires i < |p1| || i < |p2|
    ensures SegmentAt(p1, i).None? || SegmentAt(p2, i).None? ==>
      CompareSegments(Drop(p1, i), Drop(p2, i)) == Fail(InvalidVersion)
    ensures SegmentAt(p1, i).Some? && SegmentAt(p2, i).Some? && SegmentAt(p1, i).value != SegmentAt(p2, i).value ==>
      CompareSegments(Drop(p1, i), Drop(p2, i)) == Ok(Cmp(SegmentAt(p1, i).value, SegmentAt(p2, i).value))
    ensures SegmentAt(p1, i).Some? && SegmentAt(p2, i).Some? && SegmentAt(p1, i).value == SegmentAt(p2, i).value ==>
      CompareSegments(Drop(p1, i), Drop(p2, i)) == CompareSegments(Drop(p1, i + 1), Drop(p2, i + 1))
  {
    assert Rest(Drop(p1, i)) == Drop(p1, i + 1);
    assert Rest(Drop(p2, i)) == Drop(p2, i + 1);
  }

  /** The segments from position `i` on. */
  function Drop(ps: seq<string>, i: nat): (r: seq<string>)
    ensures i < |ps| ==> r != [] && r[0] == ps[i]
    ensures i >= |ps| ==> r == []
  {
    if i <= |ps| then ps[i..] else []
  }

  // ---------------------------------------------------------------------
  // The ordering on well-formed versions

  /** Every segment parses as an integer. */
  predicate AllParse(ps: seq<string>) {
    forall k :: 0 <= k < |ps| ==> ParseSegment(ps[k]).Some?
  }

  /** A version whose every base segment is a non-empty digit string: the
      versions `compareVersions` never rejects, whatever they are compared with. */
  predicate WellFormed(v: string) {
    AllParse(Segments(v))
  }

  /** The integer values of the segments. */
  function Numbers(ps: seq<string>): (ns: seq<nat>)
    requires AllParse(ps)
    ensures |ns| == |ps|
  {
    if ps == [] then [] else [ParseSegment(ps[0]).value] + Numbers(ps[1..])
  }

  function Head(ns: seq<nat>): nat {
    if ns == [] then 0 else ns[0]
  }

  /** Lexicographic comparison of two number sequences, the shorter one
      padded with zeros. */
  function LexCmp(xs: seq<nat>, ys: seq<nat>): int
    decreases |xs| + |ys|
  {
    if xs == [] && ys == [] then 0
    else if Head(xs) != Head(ys) then Cmp(Head(xs), Head(ys))
    else LexCmp(Rest(xs), Rest(ys))
  }

  /** The order `compareVersions` induces on well-formed versions: base
      numbers first, then qualifier precedence. */
  function Order(v1: string, v2: string): int
    requires WellFormed(v1) && WellFormed(v2)
  {
    var c := LexCmp(Numbers(Segments(v1)), Numbers(Segments(v2)));
    if c != 0 then c else Cmp(Rank(Qualifier(v1)), Rank(Qualifier(v2)))
  }

  lemma LexCmpUnfold(xs: seq<nat>, ys: seq<nat>)
    ensures LexCmp(xs, ys) == if Head(xs) != Head(ys) then Cmp(Head(xs), Head(ys)) else LexCmp(Rest(xs), Rest(ys))
  {
  }

  /** On segments that all parse, the segment loop is the padded
      lexicographic comparison of their values. */
  lemma {:induction false} CompareSegmentsNumeric(p1: seq<string>, p2: seq<string>)
    requires AllParse(p1) && AllParse(p2)
    ensures CompareSegments(p1, p2) == Ok(LexCmp(Numbers(p1), Numbers(p2)))
    decreases |p1| + |p2|
  {
    if p1 != [] || p2 != [] {
      assert AllParse(Rest(p1)) && AllParse(Rest(p2));
      assert Numbers(Rest(p1)) == Rest(Numbers(p1));
      assert Numbers(Rest(p2)) == Rest(Numbers(p2));
      CompareSegmentsNumeric(Rest(p1), Rest(p2));
    }
  }

  /** `compareVersions` on well-formed versions never throws and computes
      the base-then-qualifier order. */
  lemma CompareIsOrder(v1: string, v2: string)
    requires WellFormed(v1) && WellFormed(v2)
    ensures Compare(v1, v2) == Ok(Order(v1, v2))
  {
    CompareSegmentsNumeric(Segments(v1), Segments(v2));
  }

  /** Trailing zero segments do not change the comparison: 1.2 equals 1.2.0. */
  lemma {:induction false} LexCmpPadding(xs: seq<nat>, ys: seq<nat>)
    ensures LexCmp(xs + [0], ys) == LexCmp(xs, ys)
    decreases |xs| + |ys|
  {
    if xs == [] {
      LexCmpZeros(ys);
    } else {
      assert Rest(xs + [0]) == Rest(xs) + [0];
      LexCmpPadding(Rest(xs), Rest(ys));
    }
  }

  /** A single zero segment compares like no segment at all. */
  lemma {:induction false} LexCmpZeros(ys: seq<nat>)
    ensures LexCmp([0], ys) == LexCmp([], ys)
  {
    LexCmpUnfold([0], ys);
    LexCmpUnfold([], ys);
  }

  lemma {:induction false} LexCmpAntisymmetric(xs: seq<nat>, ys: seq<nat>)
    ensures LexCmp(ys, xs) == -LexCmp(xs, ys)
    decreases |xs| + |ys|
  {
    if xs != [] || ys != [] {
      LexCmpAntisymmetric(Rest(xs), Rest(ys));
    }
  }

  lemma {:induction false} LexCmpTransitive(xs: seq<nat>, ys: seq<nat>, zs: seq<nat>)
    ensures LexCmp(xs, ys) <= 0 && LexCmp(ys, zs) <= 0 ==> LexCmp(xs, zs) <= 0
    ensures LexCmp(xs, ys) < 0 && LexCmp(ys, zs) <= 0 ==> LexCmp(xs, zs) < 0
    ensures LexCmp(xs, ys) <= 0 && LexCmp(ys, zs) < 0 ==> LexCmp(xs, zs) < 0
    decreases |xs| + |ys| + |zs|
  {
    LexCmpUnfold(xs, ys);
    LexCmpUnfold(ys, zs);
    LexCmpUnfold(xs, zs);
    if xs != [] || ys != [] || zs != [] {
      LexCmpTransitive(Rest(xs), Rest(ys), Rest(zs));
    }
  }

  /** Exchanging the segment lists exchanges the outcome: both throw, or the
      results are opposite. */
  lemma {:induction false} CompareSegmentsAntisymmetric(p1: seq<string>, p2: seq<string>)
    ensures CompareSegments(p2, p1).Fail? <==> CompareSegments(p1, p2).Fail?
    ensures CompareSegments(p1, p2).Ok? ==> CompareSegments(p2, p1).value == -CompareSegments(p1, p2).value
    decreases |p1| + |p2|
  {
    if p1 != [] || p2 != [] {
      CompareSegmentsAntisymmetric(Rest(p1), Rest(p2));
    }
  }

  /** `compareVersions` is sign-antisymmetric on every input, and throws on
      a pair exactly when it throws on the swapped pair. */
  lemma CompareAntisymmetric(v1: string, v2: string)
    ensures Compare(v2, v1).Fail? <==> Compare(v1, v2).Fail?
    ensures Compare(v1, v2).Ok? ==> Compare(v2, v1).value == -Compare(v1, v2).value
  {
    CompareSegmentsAntisymmetric(Segments(v1), Segments(v2));
  }

  /** A segment list compared with itself: equal when every segment parses,
      a failure otherwise. */
  lemma {:induction false} CompareSegmentsSelf(p: seq<string>)
    ensures CompareSegments(p, p) == if AllParse(p) then Ok(0) else Fail(InvalidVersion)
  {
    if p != [] {
      CompareSegmentsSelf(p[1..]);
      assert forall k :: 0 < k < |p| ==> p[1..][k - 1] == p[k];
      assert AllParse(p) <==> ParseSegment(p[0]).Some? && AllParse(p[1..]);
    }
  }

  /** A version is equal to itself exactly when it is well-formed; any other
      version makes `compareVersions` throw even against itself. */
  lemma CompareReflexive(v: string)
    ensures Compare(v, v) == if WellFormed(v) then Ok(0) else Fail(InvalidVersion)
  {
    CompareSegmentsSelf(Segments(v));
  }

  /** `compareVersions` is transitive on well-formed versions. */
  lemma CompareTransitive(a: string, b: string, c: string)
    requires WellFormed(a) && WellFormed(b) && WellFormed(c)
    ensures Compare(a, b).Ok? && Compare(b, c).Ok? && Compare(a, c).Ok?
    ensures Compare(a, b).value <= 0 && Compare(b, c).value <= 0 ==> Compare(a, c).value <= 0
    ensures Compare(a, b).value < 0 && Compare(b, c).value <= 0 ==> Compare(a, c).value < 0
    ensures Compare(a, b).value <= 0 && Compare(b, c).value < 0 ==> Compare(a, c).value < 0
  {
    CompareIsOrder(a, b);
    CompareIsOrder(b, c);
    CompareIsOrder(a, c);
    LexCmpTransitive(Numbers(Segments(a)), Numbers(Segments(b)), Numbers(Segments(c)));
  }

  /** On the pairs it accepts, the segment loop chains: two steps that do
      not go down make a step that does not go down, and that step is flat
      only when both were. No segment has to be well-formed beyond what the
      two accepted comparisons parsed. */
  lemma {:induction false} CompareSegmentsChain(p1: seq<string>, p2: seq<string>, p3: seq<string>)
    requires CompareSegments(p1, p2).Ok? && CompareSegments(p1, p2).value <= 0
    requires CompareSegments(p2, p3).Ok? && CompareSegments(p2, p3).value <= 0
    ensures CompareSegments(p1, p3).Ok? && CompareSegments(p1, p3).value <= 0
    ensures CompareSegments(p1, p3).value == 0 ==> CompareSegments(p1, p2).value == 0 && CompareSegments(p2, p3).value == 0
    decreases |p1| + |p2| + |p3|
  {
    if p1 == [] && p2 == [] {
    } else if p2 == [] && p3 == [] {
    } else if p1 == [] && p3 == [] {
      CompareSegmentsAntisymmetric(p1, p2);
    } else if SegmentAt(p1, 0) == SegmentAt(p2, 0) == SegmentAt(p3, 0) {
      CompareSegmentsChain(Rest(p1), Rest(p2), Rest(p3));
    }
  }

  /** `compareVersions` chains on the pairs it accepts, well-formed or not:
      in particular two upgrades in a row are an upgrade. */
  lemma CompareChain(a: string, b: string, c: string)
    requires Compare(a, b).Ok? && Compare(a, b).value <= 0
    requires Compare(b, c).Ok? && Compare(b, c).value <= 0
    ensures Compare(a, c).Ok? && Compare(a, c).value <= 0
    ensures Compare(a, b).value < 0 || Compare(b, c).value < 0 ==> Compare(a, c).value < 0
  {
    CompareSegmentsChain(Segments(a), Segments(b), Segments(c));
  }

  /** A version whose first base segment is not an integer is rejected
      against any other version, in either position; in particular the
      empty version a missing `version` attribute produces. */
  lemma MalformedFirstSegmentFails(v: string, w: string)
    requires Segments(w) != [] && ParseSegment(Segments(w)[0]).None?
    ensures Compare(v, w) == Fail(InvalidVersion) && Compare(w, v) == Fail(InvalidVersion)
  {
  }

  lemma EmptyVersionFails(v: string)
    ensures Compare(v, "") == Fail(InvalidVersion) && Compare("", v) == Fail(InvalidVersion)
  {
    assert Segments("") == [""];
    MalformedFirstSegmentFails(v, "");
  }
}
