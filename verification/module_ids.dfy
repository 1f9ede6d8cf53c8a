/** The module id under which the resolver records a module: the artifact
    id made to carry the `-omod` convention, then with one trailing `-omod`
    or `-module` removed. */
module ModuleIds {
  import opened JavaStrings

  const OmodSuffix: string := "-omod"
  const ModuleSuffix: string := "-module"

  /** `artifactId.contains("-omod") ? artifactId : artifactId + "-omod"`. */
  function NormaliseArtifactId(artifactId: string): (r: string)
    ensures Contains(r, OmodSuffix)
    ensures artifactId <= r
    ensures Contains(artifactId, OmodSuffix) ==> r == artifactId
    ensures !Contains(artifactId, OmodSuffix) ==> r == artifactId + OmodSuffix
  {
    if Contains(artifactId, OmodSuffix) then artifactId
    else
      ContainsAppended(artifactId, OmodSuffix);
      artifactId + OmodSuffix
  }

  /** `s.replaceAll("(-omod|-module)$", "")`: the pattern is anchored at the
      end, so it matches at most once and removes one suffix. */
  function StripModuleSuffix(s: string): (r: string)
    ensures r <= s
    ensures |s| - |r| in {0, |OmodSuffix|, |ModuleSuffix|}
    ensures EndsWith(s, OmodSuffix) ==> r + OmodSuffix == s
    ensures !EndsWith(s, OmodSuffix) && EndsWith(s, ModuleSuffix) ==> r + ModuleSuffix == s
    ensures !EndsWith(s, OmodSuffix) && !EndsWith(s, ModuleSuffix) ==> r == s
  {
    if EndsWith(s, OmodSuffix) then s[..|s| - |OmodSuffix|]
    else if EndsWith(s, ModuleSuffix) then s[..|s| - |ModuleSuffix|]
    else s
  }

  /** The key of the resolved and unresolved maps for a requested artifact id. */
  function ModuleIdOf(artifactId: string): (r: string)
    ensures !Contains(artifactId, OmodSuffix) ==> r == artifactId
    ensures Contains(artifactId, OmodSuffix) ==> r == StripModuleSuffix(artifactId)
  {
    if !Contains(artifactId, OmodSuffix) then
      var n := artifactId + OmodSuffix;
      assert n[|n| - |OmodSuffix|..] == OmodSuffix;
      assert n[..|n| - |OmodSuffix|] == artifactId;
      StripModuleSuffix(NormaliseArtifactId(artifactId))
    else
      StripModuleSuffix(NormaliseArtifactId(artifactId))
  }

  /** An artifact id without `-omod` is its own module id: the suffix the
      normalisation appends is the one that is stripped again. In particular
      `foo-module` keeps its `-module`. */
  lemma PlainIdIsModuleId(artifactId: string)
    requires !Contains(artifactId, OmodSuffix)
    ensures NormaliseArtifactId(artifactId) == artifactId + OmodSuffix
    ensures ModuleIdOf(artifactId) == artifactId
  {
    var n := artifactId + OmodSuffix;
    assert n[|n| - |OmodSuffix|..] == OmodSuffix;
    assert n[..|n| - |OmodSuffix|] == artifactId;
  }

  /** `x-omod` names module `x`. */
  lemma OmodIdIsModuleId(x: string)
    ensures ModuleIdOf(x + OmodSuffix) == x
  {
    var n := x + OmodSuffix;
    ContainsAppended(x, OmodSuffix);
    assert n[|n| - |OmodSuffix|..] == OmodSuffix;
    assert n[..|n| - |OmodSuffix|] == x;
  }

  /** `x` and `x-omod` are the same logical module. */
  lemma OmodSuffixIsSameModule(x: string)
    requires !Contains(x, OmodSuffix)
    ensures ModuleIdOf(x) == ModuleIdOf(x + OmodSuffix) == x
  {
    PlainIdIsModuleId(x);
    OmodIdIsModuleId(x);
  }

  /** `-module` is stripped only from an id that already contains `-omod`,
      and only one suffix goes: `x-omod-module` names module `x-omod`. */
  lemma ModuleSuffixStripped(x: string)
    ensures ModuleIdOf(x + OmodSuffix + ModuleSuffix) == x + OmodSuffix
  {
    var n := x + OmodSuffix + ModuleSuffix;
    assert n == (x + OmodSuffix) + ModuleSuffix;
    assert OccursAt(n, OmodSuffix, |x|);
    assert n[|n| - |ModuleSuffix|..] == ModuleSuffix;
    assert n[|n| - |OmodSuffix|] == ModuleSuffix[2] != OmodSuffix[0];
    assert n[..|n| - |ModuleSuffix|] == x + OmodSuffix;
  }

  /** An id with `-omod` somewhere inside it that ends in neither suffix is
      recorded as it is: `a-omod-b` names module `a-omod-b`. */
  lemma InnerOmodIsKept(a: string, b: string)
    requires !EndsWith(a + OmodSuffix + b, OmodSuffix) && !EndsWith(a + OmodSuffix + b, ModuleSuffix)
    ensures ModuleIdOf(a + OmodSuffix + b) == a + OmodSuffix + b
  {
    assert OccursAt(a + OmodSuffix + b, OmodSuffix, |a|);
  }

  /** A concrete id of that shape. */
  lemma InnerOmodExample()
    ensures ModuleIdOf("a-omod-b") == "a-omod-b"
  {
    var id := "a" + OmodSuffix + "-b";
    assert id == "a-omod-b" by {
      assert |id| == 8 && forall k :: 0 <= k < 8 ==> id[k] == "a-omod-b"[k];
    }
    InnerOmodIsKept("a", "-b");
  }

  /** The same id with `-module` appended. */
  lemma InnerOmodModuleExample()
    ensures ModuleIdOf("a-omod-b-module") == "a-omod-b"
  {
    var id := "a" + OmodSuffix + "-b";
    assert id == "a-omod-b" by {
      assert |id| == 8 && forall k :: 0 <= k < 8 ==> id[k] == "a-omod-b"[k];
    }
    assert id + ModuleSuffix == "a-omod-b-module" by {
      assert "a-omod-b-module" == "a-omod-b" + "-module";
    }
    InnerOmodModuleStripped("a", "-b");
  }

  /** `-module` after an inner `-omod` goes: `a-omod-b-module` names module
      `a-omod-b`. */
  lemma InnerOmodModuleStripped(a: string, b: string)
    ensures ModuleIdOf(a + OmodSuffix + b + ModuleSuffix) == a + OmodSuffix + b
  {
    var n := a + OmodSuffix + b + ModuleSuffix;
    assert n == (a + OmodSuffix + b) + ModuleSuffix;
    assert OccursAt(n, OmodSuffix, |a|);
    assert n[|n| - |ModuleSuffix|..] == ModuleSuffix;
    assert n[|n| - |OmodSuffix|] == ModuleSuffix[2] != OmodSuffix[0];
    assert n[..|n| - |ModuleSuffix|] == a + OmodSuffix + b;
  }

  /** The name of the downloaded file starts with the id without `-omod`:
      for an id that does not contain it, that is the requested id again. */
  lemma FileStemOfPlainId(x: string)
    requires !Contains(x, OmodSuffix)
    ensures Remove(NormaliseArtifactId(x), OmodSuffix) == x
  {
    var n := x + OmodSuffix;
    forall i: nat | i + |OmodSuffix| <= |x| ensures !OccursAt(n, OmodSuffix, i) {
      assert n[i..i + |OmodSuffix|] == x[i..i + |OmodSuffix|];
      assert !OccursAt(x, OmodSuffix, i);
    }
    forall i: nat | i < |x| < i + |OmodSuffix| ensures !OccursAt(n, OmodSuffix, i) {
      if i + |OmodSuffix| <= |n| {
        assert n[i..i + |OmodSuffix|][|x| - i] == n[|x|] == OmodSuffix[0];
        assert OmodSuffix[|x| - i] != OmodSuffix[0];
      }
    }
    RemoveTrailing(x, OmodSuffix);
  }

  /** The test's `idgen` module is downloaded as `idgen-omod` and stored as
      `idgen-<version>.<type>`. */
  lemma IdgenFileStem()
    ensures Remove("idgen-omod", OmodSuffix) == "idgen"
  {
    assert "idgen"[0..|OmodSuffix|][0] != OmodSuffix[0];
    assert forall i: nat :: OccursAt("idgen", OmodSuffix, i) ==> i == 0;
    assert "idgen" + OmodSuffix == "idgen-omod";
    FileStemOfPlainId("idgen");
  }
}
