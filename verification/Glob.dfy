/** The wildcard matcher of easylogging++ decides whether a string splits into pieces that fit the pattern. */
module Glob {
  import opened Bytes

  /** The bytes of a C string before its terminating NUL. */
  type cstring = s: bytes | forall i | 0 <= i < |s| :: s[i] != 0

  const ANY_ONE: byte := 0x3F
  const ANY_RUN: byte := 0x2A

  lemma Wildcards()
    ensures [ANY_ONE, ANY_RUN] == Ascii("?*")
  {
  }

  predicate Fits(piece: bytes, c: byte) {
    if c == ANY_ONE then |piece| == 1 else if c == ANY_RUN then true else piece == [c]
  }

  function Concat(pieces: seq<bytes>): bytes {
    if pieces == [] then [] else pieces[0] + Concat(pieces[1..])
  }

  predicate Splits(s: bytes, pattern: bytes, pieces: seq<bytes>) {
    && |pieces| == |pattern|
    && Concat(pieces) == s
    && forall k | 0 <= k < |pieces| :: Fits(pieces[k], pattern[k])
  }

  /** The glob relation. */
  ghost predicate Matches(s: bytes, pattern: bytes) {
    exists pieces :: Splits(s, pattern, pieces)
  }

  lemma MatchesEmpty(s: bytes)
    ensures Matches(s, []) <==> s == []
  {
    if s == [] {
      assert Splits(s, [], []);
    }
  }

  /** The first character of the pattern takes a first piece of the string. */
  lemma MatchesHead(s: bytes, pattern: bytes, i: nat)
    requires pattern != [] && i <= |s| && Fits(s[..i], pattern[0]) && Matches(s[i..], pattern[1..])
    ensures Matches(s, pattern)
  {
    var pieces :| Splits(s[i..], pattern[1..], pieces);
    assert s[..i] + s[i..] == s;
    assert Splits(s, pattern, [s[..i]] + pieces);
  }

  lemma HeadMatches(s: bytes, pattern: bytes) returns (i: nat)
    requires pattern != [] && Matches(s, pattern)
    ensures i <= |s| && Fits(s[..i], pattern[0]) && Matches(s[i..], pattern[1..])
  {
    var pieces :| Splits(s, pattern, pieces);
    i := |pieces[0]|;
    assert s[..i] == pieces[0] && s[i..] == Concat(pieces[1..]);
    assert Splits(s[i..], pattern[1..], pieces[1..]);
  }

  /** A character of the pattern other than `*` takes exactly one of the string. */
  lemma MatchesOne(s: bytes, pattern: bytes)
    requires pattern != [] && pattern[0] != ANY_RUN
    ensures Matches(s, pattern) <==>
      s != [] && (pattern[0] == ANY_ONE || s[0] == pattern[0]) && Matches(s[1..], pattern[1..])
  {
    if Matches(s, pattern) {
      var i := HeadMatches(s, pattern);
      assert i == 1;
    }
    if s != [] && (pattern[0] == ANY_ONE || s[0] == pattern[0]) && Matches(s[1..], pattern[1..]) {
      MatchesHead(s, pattern, 1);
    }
  }

  /** A `*` takes nothing, or one character and then again what a `*` takes. */
  lemma MatchesRun(s: bytes, pattern: bytes)
    requires pattern != [] && pattern[0] == ANY_RUN
    ensures Matches(s, pattern) <==> Matches(s, pattern[1..]) || (s != [] && Matches(s[1..], pattern))
  {
    if Matches(s, pattern) {
      var i := HeadMatches(s, pattern);
      if i == 0 {
        assert s[0..] == s;
      } else {
        assert s[1..][i - 1..] == s[i..];
        MatchesHead(s[1..], pattern, i - 1);
      }
    }
    if Matches(s, pattern[1..]) {
      assert s[0..] == s;
      MatchesHead(s, pattern, 0);
    }
    if s != [] && Matches(s[1..], pattern) {
      var i := HeadMatches(s[1..], pattern);
      assert s[1..][i..] == s[i + 1..];
      MatchesHead(s, pattern, i + 1);
    }
  }

  /** `wildCardMatch`, with suffixes for the two pointers. */
  method WildCardMatch(str: cstring, pattern: cstring) returns (matched: bool)
    ensures matched <==> Matches(str, pattern)
    decreases |str| + |pattern|
  {
    hide Matches;
    var s, p := str, pattern;
    while p != []
      invariant |s| <= |str| && |p| <= |pattern|
      invariant Matches(s, p) <==> Matches(str, pattern)
      decreases |p|
    {
      if p[0] == ANY_RUN {
        MatchesRun(s, p);
        matched := WildCardMatch(s, p[1..]);
        if matched {
          return true;
        }
        if CharAt(s, 0) != 0 {
          matched := WildCardMatch(s[1..], p);
          if matched {
            return true;
          }
        }
        return false;
      }
      MatchesOne(s, p);
      if p[0] == ANY_ONE {
        if CharAt(s, 0) == 0 {
          return false;
        }
      } else if CharAt(s, 0) != p[0] {
        return false;
      }
      s, p := s[1..], p[1..];
    }
    MatchesEmpty(s);
    return CharAt(s, 0) == 0;
  }
}
