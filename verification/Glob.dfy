/** The pattern matcher behind `KEYS`: `*` stands for any string, `?` for any single byte. */
module Glob {
  import opened Common

  const STAR: byte := 42
  const QUESTION: byte := 63

  /** The matcher as the program recurses. */
  predicate Matches(p: bytes, s: bytes)
    decreases |p|
  {
    if p == [] then s == []
    else if p[0] == STAR then exists i | 0 <= i <= |s| :: Matches(p[1..], s[i..])
    else s != [] && (p[0] == QUESTION || p[0] == s[0]) && Matches(p[1..], s[1..])
  }

  method GlobMatch(p: bytes, s: bytes) returns (matched: bool)
    ensures matched == Matches(p, s)
    decreases |p|
  {
    if p == [] { return s == []; }
    if p[0] == STAR {
      var i := 0;
      while i <= |s|
        invariant 0 <= i <= |s| + 1
        invariant forall j | 0 <= j < i :: !Matches(p[1..], s[j..])
      {
        var rest := GlobMatch(p[1..], s[i..]);
        if rest { return true; }
        i := i + 1;
      }
      return false;
    }
    if s == [] { return false; }
    if p[0] == QUESTION || p[0] == s[0] {
      matched := GlobMatch(p[1..], s[1..]);
      return;
    }
    return false;
  }

  // ---- the meaning of a pattern ---------------------------------------------------------

  function Join(parts: seq<bytes>): bytes {
    if parts == [] then [] else parts[0] + Join(parts[1..])
  }

  /** One piece of text for each pattern byte. */
  ghost predicate Fits(p: bytes, parts: seq<bytes>) {
    && |parts| == |p|
    && forall i | 0 <= i < |p| ::
         p[i] == STAR || (|parts[i]| == 1 && (p[i] == QUESTION || parts[i][0] == p[i]))
  }

  lemma {:induction false} FitsMatches(p: bytes, parts: seq<bytes>)
    requires Fits(p, parts)
    ensures Matches(p, Join(parts))
    decreases |p|
  {
    if p != [] {
      FitsMatches(p[1..], parts[1..]);
      var i := |parts[0]|;
      assert Join(parts)[i..] == Join(parts[1..]);
    }
  }

  lemma {:induction false} MatchesFit(p: bytes, s: bytes) returns (parts: seq<bytes>)
    requires Matches(p, s)
    ensures Fits(p, parts) && Join(parts) == s
    decreases |p|
  {
    if p == [] {
      parts := [];
    } else {
      var i := 1;
      if p[0] == STAR { i :| 0 <= i <= |s| && Matches(p[1..], s[i..]); }
      var rest := MatchesFit(p[1..], s[i..]);
      parts := [s[..i]] + rest;
      assert parts[1..] == rest && s == s[..i] + s[i..];
      forall j | 0 <= j < |p|
        ensures p[j] == STAR || (|parts[j]| == 1 && (p[j] == QUESTION || parts[j][0] == p[j]))
      {
        if j > 0 { assert p[j] == p[1..][j - 1] && parts[j] == rest[j - 1]; }
      }
    }
  }

  /** The matcher accepts exactly the strings that can be cut into pieces fitting the pattern. */
  lemma {:induction false} MatchesIsFits(p: bytes, s: bytes)
    ensures Matches(p, s) <==> exists parts :: Fits(p, parts) && Join(parts) == s
  {
    if Matches(p, s) { var parts := MatchesFit(p, s); }
    if parts :| Fits(p, parts) && Join(parts) == s { FitsMatches(p, parts); }
  }
}
