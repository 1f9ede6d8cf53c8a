/** Concrete comparisons that pin the model of `compareVersions` to the
    behaviour expected of it: zero padding, release above pre-release,
    qualifier precedence, and the lazy rejection of malformed segments. */
module VersionExamples {
  import opened Outcomes
  import opened JavaStrings
  import opened Versions

  lemma Digits()
    ensures ParseSegment("0") == Some(0) && ParseSegment("1") == Some(1) && ParseSegment("2") == Some(2)
    ensures ParseSegment("x") == None
  {
  }

  /** A version without a dash has no qualifier and is all base. */
  lemma NoQualifier(v: string)
    requires '-' !in v
    ensures Base(v) == v && Qualifier(v) == ""
  {
    assert forall j: nat :: !DashAt(v, j);
  }

  /** The qualifier and base of `1.0.0-<q>` for a recognised qualifier `q`. */
  lemma Qualified(q: string)
    requires q in Qualifiers
    ensures var v := "1.0.0-" + q;
      Qualifier(v) == q && Base(v) == "1.0.0" && Segments(v) == ["1", "0", "0"]
  {
    var v := "1.0.0-" + q;
    assert DashAt(v, 5) by { assert v[6..] == q; }
    assert forall j: nat :: j < 5 ==> !DashAt(v, j);
    assert IndexOf(v, '-') == Some(5) by { assert '-' !in v[..5]; }
    assert v[6..] == q;
    assert v[..5] == "1.0.0";
    ThreeSegments(v, "1", "0", "0");
  }

  /** A base made of three dot-free segments, the last non-empty, splits
      into exactly those segments. */
  lemma ThreeSegments(v: string, x: string, y: string, z: string)
    requires '.' !in x && '.' !in y && '.' !in z && z != []
    requires Base(v) == x + "." + y + "." + z
    ensures Segments(v) == [x, y, z]
  {
    var b := Base(v);
    ThreePieces(x, y, z);
    assert b[|x|] == '.';
    assert DropTrailingEmpty([x, y, z]) == [x, y, z];
  }

  /** The pieces of three dot-free strings joined by dots. */
  lemma ThreePieces(x: string, y: string, z: string)
    requires '.' !in x && '.' !in y && '.' !in z
    ensures Pieces(x + "." + y + "." + z, '.') == [x, y, z]
  {
    PiecesWithout(z, '.');
    PiecesAt(y, '.', z);
    PiecesAt(x, '.', y + "." + z);
    assert x + "." + y + "." + z == x + ['.'] + (y + ['.'] + z);
  }

  /** The same for two segments. */
  lemma TwoSegments(v: string, x: string, y: string)
    requires '.' !in x && '.' !in y && y != []
    requires Base(v) == x + "." + y
    ensures Segments(v) == [x, y]
  {
    PiecesWithout(y, '.');
    PiecesAt(x, '.', y);
    assert x + "." + y == x + ['.'] + y;
  }

  lemma SameBase100()
    ensures CompareSegments(["1", "0", "0"], ["1", "0", "0"]) == Ok(0)
  {
    Digits();
    assert CompareSegments(["0"], ["0"]) == Ok(0);
    assert CompareSegments(["0", "0"], ["0", "0"]) == Ok(0);
  }

  /** `1.2.0` and `1.2` are equal: missing segments count as 0. */
  lemma TrailingZeroIsEqual()
    ensures Compare("1.2.0", "1.2") == Ok(0)
  {
    assert Segments("1.2.0") == ["1", "2", "0"] && Qualifier("1.2.0") == "" by {
      NoQualifier("1.2.0");
      ThreeSegments("1.2.0", "1", "2", "0");
    }
    assert Segments("1.2") == ["1", "2"] && Qualifier("1.2") == "" by {
      NoQualifier("1.2");
      TwoSegments("1.2", "1", "2");
    }
    PaddedSegmentsEqual();
  }

  /** The segment loop reads a missing segment as 0. */
  lemma PaddedSegmentsEqual()
    ensures CompareSegments(["1", "2", "0"], ["1", "2"]) == Ok(0)
  {
    Digits();
    assert CompareSegments(["0"], []) == Ok(0);
    assert CompareSegments(["2", "0"], ["2"]) == Ok(0);
  }

  /** A release is above its pre-releases. */
  lemma ReleaseAbovePreRelease()
    ensures Compare("1.0.0", "1.0.0-alpha") == Ok(1)
  {
    assert "1.0.0-" + "alpha" == "1.0.0-alpha";
    assert Segments("1.0.0") == ["1", "0", "0"] && Qualifier("1.0.0") == "" by {
      NoQualifier("1.0.0");
      ThreeSegments("1.0.0", "1", "0", "0");
    }
    Qualified("alpha");
    SameBase100();
  }

  /** alpha is below beta. */
  lemma AlphaBelowBeta()
    ensures Compare("1.0.0-alpha", "1.0.0-beta") == Ok(-1)
  {
    assert "1.0.0-" + "alpha" == "1.0.0-alpha";
    assert "1.0.0-" + "beta" == "1.0.0-beta";
    Qualified("alpha");
    Qualified("beta");
    SameBase100();
  }

  lemma SegmentsWithX()
    ensures Segments("0") == ["0"] && Segments("1.x") == ["1", "x"] && Segments("0.x") == ["0", "x"]
  {
    NoQualifier("0");
    NoQualifier("1.x");
    NoQualifier("0.x");
    PiecesWithout("0", '.');
    PiecesWithout("x", '.');
    PiecesAt("1", '.', "x");
    assert "1.x" == "1" + ['.'] + "x";
    PiecesAt("0", '.', "x");
    assert "0.x" == "0" + ['.'] + "x";
  }

  /** The probe against "0" only parses up to the first segment that
      differs from 0: `1.x` passes it although it is not well-formed, while
      `0.x` is rejected. */
  lemma ProbeIsLazy()
    ensures Compare("0", "1.x") == Ok(-1) && !WellFormed("1.x")
    ensures Compare("0", "0.x") == Fail(InvalidVersion)
  {
    SegmentsWithX();
    assert CompareSegments(["0"], ["1", "x"]) == Ok(-1) by { Digits(); }
    assert CompareSegments(["0"], ["0", "x"]) == Fail(InvalidVersion) by {
      Digits();
      assert CompareSegments([], ["x"]) == Fail(InvalidVersion);
    }
    assert ParseSegment(Segments("1.x")[1]) == None by { Digits(); }
  }
}
