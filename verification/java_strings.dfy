/** The few java.lang.String operations the resolver relies on, with the
    semantics of the JDK rather than of a general string library. */
module JavaStrings {
  import opened Outcomes

  /** `s.startsWith(p)` */
  predicate StartsWith(s: string, p: string) {
    p <= s
  }

  /** `s.endsWith(p)` */
  predicate EndsWith(s: string, p: string) {
    |p| <= |s| && s[|s| - |p|..] == p
  }

  /** `p` occurs in `s` starting at index `i`. */
  predicate OccursAt(s: string, p: string, i: nat) {
    i + |p| <= |s| && s[i..i + |p|] == p
  }

  /** `s.contains(p)`, scanning from the left. */
  function Contains(s: string, p: string): (r: bool)
    ensures r <==> exists i: nat :: OccursAt(s, p, i)
  {
    if StartsWith(s, p) then
      assert OccursAt(s, p, 0);
      true
    else if s == [] then
      false
    else
      var r := Contains(s[1..], p);
      assert forall i: nat :: OccursAt(s, p, i + 1) <==> OccursAt(s[1..], p, i) by {
        forall i: nat ensures OccursAt(s, p, i + 1) <==> OccursAt(s[1..], p, i) {
          if i + 1 + |p| <= |s| {
            assert s[1..][i..i + |p|] == s[i + 1..i + 1 + |p|];
          }
        }
      }
      assert !OccursAt(s, p, 0);
      assert r ==> OccursAt(s, p, (var i: nat :| OccursAt(s[1..], p, i); i) + 1);
      assert (exists i: nat :: OccursAt(s, p, i)) ==> r by {
        if exists i: nat :: OccursAt(s, p, i) {
          var i: nat :| OccursAt(s, p, i);
          assert i > 0;
          assert OccursAt(s[1..], p, i - 1);
        }
      }
      r
  }

  /** A string always contains a suffix it was extended with. */
  lemma {:induction false} ContainsAppended(s: string, p: string)
    ensures Contains(s + p, p)
  {
    assert OccursAt(s + p, p, |s|);
  }

  /** `s.replace(p, "")`: every occurrence of `p` found scanning from the
      left is removed, and the scan resumes after it. */
  function Remove(s: string, p: string): (r: string)
    ensures |r| <= |s|
    ensures !Contains(s, p) ==> r == s
  {
    if p == [] || |s| < |p| then s
    else if StartsWith(s, p) then Remove(s[|p|..], p)
    else [s[0]] + Remove(s[1..], p)
  }

  /** Removing a pattern whose only occurrence is at the very end gives the
      text before it back. */
  lemma {:induction false} RemoveTrailing(x: string, p: string)
    requires p != []
    requires forall i: nat :: OccursAt(x + p, p, i) ==> i == |x|
    ensures Remove(x + p, p) == x
  {
    var n := x + p;
    if x == [] {
      assert n == p && n[|p|..] == [];
    } else {
      assert !OccursAt(n, p, 0);
      assert n[0..|p|] == n[..|p|];
      assert n[1..] == x[1..] + p;
      forall i: nat | OccursAt(x[1..] + p, p, i) ensures i == |x| - 1 {
        assert n[i + 1..i + 1 + |p|] == (x[1..] + p)[i..i + |p|];
        assert OccursAt(n, p, i + 1);
      }
      RemoveTrailing(x[1..], p);
      assert [x[0]] + x[1..] == x;
    }
  }

  /** `s.indexOf(c)`: the first position of `c`, if any. */
  function IndexOf(s: string, c: char): (r: Option<nat>)
    ensures r.Some? ==> r.value < |s| && s[r.value] == c && c !in s[..r.value]
    ensures r.None? <==> c !in s
  {
    if s == [] then None
    else if s[0] == c then Some(0)
    else match IndexOf(s[1..], c)
      case None => None
      case Some(i) =>
        assert s[..i + 1] == [s[0]] + s[1..][..i];
        Some(i + 1)
  }

  /** Characters that `String.trim` removes: code point at most U+0020. */
  predicate IsTrimmed(c: char) {
    c <= ' '
  }

  /** Every character of `s[lo..hi]` is one that `trim` removes. */
  predicate AllTrimmed(s: string, lo: nat, hi: nat) {
    forall k :: lo <= k < hi && k < |s| ==> IsTrimmed(s[k])
  }

  /** `s` without its leading characters up to U+0020. */
  function TrimStart(s: string): (r: string)
    ensures r == [] || !IsTrimmed(r[0])
    ensures |r| <= |s|
  {
    if s != [] && IsTrimmed(s[0]) then TrimStart(s[1..]) else s
  }

  /** What `TrimStart` drops is a prefix made only of characters up to U+0020. */
  lemma {:induction false} TrimStartDrops(s: string)
    ensures EndsWith(s, TrimStart(s)) && AllTrimmed(s, 0, |s| - |TrimStart(s)|)
  {
    if s != [] && IsTrimmed(s[0]) {
      var r := TrimStart(s[1..]);
      TrimStartDrops(s[1..]);
      assert s[|s| - |r|..] == s[1..][|s| - 1 - |r|..];
      forall k | 0 < k < |s| - |r| ensures IsTrimmed(s[k]) {
        assert s[k] == s[1..][k - 1];
      }
    }
  }

  /** `s` without its trailing characters up to U+0020. */
  function TrimEnd(s: string): (r: string)
    ensures r == [] || !IsTrimmed(r[|r| - 1])
    ensures r <= s
  {
    if s != [] && IsTrimmed(s[|s| - 1]) then TrimEnd(s[..|s| - 1]) else s
  }

  /** What `TrimEnd` drops is a suffix made only of characters up to U+0020. */
  lemma {:induction false} TrimEndDrops(s: string)
    ensures AllTrimmed(s, |TrimEnd(s)|, |s|)
  {
    if s != [] && IsTrimmed(s[|s| - 1]) {
      var t := s[..|s| - 1];
      TrimEndDrops(t);
      forall k | |TrimEnd(t)| <= k < |s| ensures IsTrimmed(s[k]) {
        if k < |t| {
          assert s[k] == t[k];
        }
      }
    }
  }

  /** `s.trim()`: leading and trailing characters up to U+0020 removed. */
  function Trim(s: string): (r: string)
    ensures r == [] || (!IsTrimmed(r[0]) && !IsTrimmed(r[|r| - 1]))
  {
    TrimEnd(TrimStart(s))
  }

  /** What `trim` keeps is the part of `s` between a prefix and a suffix made
      only of characters up to U+0020. */
  lemma TrimSpan(s: string)
    ensures exists i, j :: 0 <= i <= j <= |s| && Trim(s) == s[i..j] && AllTrimmed(s, 0, i) && AllTrimmed(s, j, |s|)
  {
    var t := TrimStart(s);
    var r := TrimEnd(t);
    TrimStartDrops(s);
    TrimEndDrops(t);
    var i := |s| - |t|;
    var j := i + |r|;
    assert r == s[i..j];
    assert AllTrimmed(s, j, |s|) by {
      forall k | j <= k < |s| ensures IsTrimmed(s[k]) {
        assert s[k] == t[k - i];
      }
    }
  }

  /** The pieces of `s` between occurrences of `c`, empty pieces included. */
  function Pieces(s: string, c: char): (r: seq<string>)
    ensures |r| >= 1
    ensures forall k :: 0 <= k < |r| ==> c !in r[k]
  {
    if s == [] then [[]]
    else
      var rest := Pieces(s[1..], c);
      if s[0] == c then [[]] + rest else [[s[0]] + rest[0]] + rest[1..]
  }

  /** A string without the separator is a single piece. */
  lemma {:induction false} PiecesWithout(a: string, c: char)
    requires c !in a
    ensures Pieces(a, c) == [a]
  {
    if a != [] {
      PiecesWithout(a[1..], c);
      assert [a[0]] + a[1..] == a;
    }
  }

  /** The piece before the first separator comes first. */
  lemma {:induction false} PiecesAt(a: string, c: char, b: string)
    requires c !in a
    ensures Pieces(a + [c] + b, c) == [a] + Pieces(b, c)
  {
    if a == [] {
      assert (a + [c] + b)[1..] == b;
    } else {
      assert (a + [c] + b)[1..] == a[1..] + [c] + b;
      PiecesAt(a[1..], c, b);
      assert [a[0]] + a[1..] == a;
    }
  }

  /** Joins pieces back together with the separator `c`. */
  function Join(ps: seq<string>, c: char): string
    requires |ps| >= 1
  {
    if |ps| == 1 then ps[0] else ps[0] + [c] + Join(ps[1..], c)
  }

  /** Splitting and joining on the same character gives the string back. */
  lemma {:induction false} JoinPieces(s: string, c: char)
    ensures Join(Pieces(s, c), c) == s
  {
    if s != [] {
      JoinPieces(s[1..], c);
      var rest := Pieces(s[1..], c);
      if s[0] == c {
        assert Pieces(s, c)[1..] == rest;
      } else {
        var ps := Pieces(s, c);
        if |rest| == 1 {
          assert ps == [[s[0]] + rest[0]];
        } else {
          assert ps[1..] == rest[1..];
          assert Join(rest, c) == rest[0] + [c] + Join(rest[1..], c);
        }
      }
    }
  }

  /** The pieces with every trailing empty piece removed. */
  function DropTrailingEmpty(ps: seq<string>): (r: seq<string>)
    ensures r <= ps
    ensures r == [] || r[|r| - 1] != []
    ensures forall k :: |r| <= k < |ps| ==> ps[k] == []
  {
    if ps == [] || ps[|ps| - 1] != [] then ps else DropTrailingEmpty(ps[..|ps| - 1])
  }

  /** `s.split(regex)` for a regex that matches exactly the character `c`:
      when nothing matches the result is `[s]` (so `""` splits into `[""]`),
      otherwise the pieces without the trailing empty ones. */
  function JavaSplit(s: string, c: char): (r: seq<string>)
    ensures forall k :: 0 <= k < |r| ==> c !in r[k]
    ensures c !in s ==> r == [s]
  {
    if s == [] then [[]]
    else if c !in s then
      PiecesWithout(s, c);
      DropTrailingEmpty(Pieces(s, c))
    else DropTrailingEmpty(Pieces(s, c))
  }

  /** What `split` drops: the pieces after its result are all empty, so
      joining its result with trailing separators gives the string back. */
  lemma JavaSplitPieces(s: string, c: char)
    requires s != []
    ensures JavaSplit(s, c) <= Pieces(s, c)
    ensures forall k :: |JavaSplit(s, c)| <= k < |Pieces(s, c)| ==> Pieces(s, c)[k] == []
  {
  }
}
