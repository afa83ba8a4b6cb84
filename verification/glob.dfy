/** The glob test `fnmatch(name, pattern)` restricted to the wildcards '*'
    (any run of characters, '/' included) and '?' (any one character);
    every other pattern character stands for itself. */
module Glob {

  predicate Match(name: string, pattern: string): (b: bool)
    ensures b && NoStar(pattern) ==> |name| == |pattern|
    decreases |pattern| + |name|
  {
    if |pattern| == 0 then |name| == 0
    else if pattern[0] == '*' then
      Match(name, pattern[1..]) || (|name| > 0 && Match(name[1..], pattern))
    else
      |name| > 0 && (pattern[0] == '?' || pattern[0] == name[0]) && Match(name[1..], pattern[1..])
  }

  /** Without '*', every pattern character consumes exactly one name character. */
  predicate NoStar(pattern: string) {
    forall k :: 0 <= k < |pattern| ==> pattern[k] != '*'
  }

  predicate IsWildcard(c: char) {
    c == '*' || c == '?'
  }

  predicate IsLiteral(pattern: string) {
    forall k :: 0 <= k < |pattern| ==> !IsWildcard(pattern[k])
  }

  /** Every pattern matches its own text, wildcards included. */
  lemma {:induction false} MatchSelf(s: string)
    ensures Match(s, s)
  {
    if |s| > 0 {
      var t := s[1..];
      MatchSelf(t);
      if s[0] == '*' {
        // the leading '*' absorbs itself, then matches nothing
        assert Match(t, s);
        assert Match(s, s) by { assert s[1..] == t; }
      }
    }
  }

  /** "*" matches every name. */
  lemma {:induction false} StarMatchesAll(name: string)
    ensures Match(name, "*")
    decreases |name|
  {
    if |name| > 0 {
      StarMatchesAll(name[1..]);
    } else {
      assert Match(name, "");
    }
  }

  /** A pattern without wildcards matches exactly the name equal to it. */
  lemma {:induction false} LiteralMatchIff(name: string, pattern: string)
    requires IsLiteral(pattern)
    ensures Match(name, pattern) <==> name == pattern
    decreases |pattern|
  {
    if |pattern| > 0 && |name| > 0 {
      assert IsLiteral(pattern[1..]) by {
        forall k | 0 <= k < |pattern| - 1 ensures !IsWildcard(pattern[1..][k]) {
          assert pattern[1..][k] == pattern[k + 1];
        }
      }
      LiteralMatchIff(name[1..], pattern[1..]);
      assert !IsWildcard(pattern[0]);
      if name == pattern {
        assert name[1..] == pattern[1..];
      }
      if name[0] == pattern[0] && name[1..] == pattern[1..] {
        assert name == [name[0]] + name[1..] && pattern == [pattern[0]] + pattern[1..];
      }
    } else if |pattern| > 0 {
      assert !IsWildcard(pattern[0]);
    }
  }

  /** A literal prefix followed by '*' matches exactly the names that start
      with that prefix; the '*' also crosses directory separators. */
  lemma {:induction false} PrefixStarIff(name: string, prefix: string)
    requires IsLiteral(prefix)
    ensures Match(name, prefix + "*") <==> |prefix| <= |name| && name[..|prefix|] == prefix
    decreases |prefix|
  {
    if |prefix| == 0 {
      assert prefix + "*" == "*";
      StarMatchesAll(name);
    } else {
      var p := prefix + "*";
      assert p[0] == prefix[0] && !IsWildcard(prefix[0]);
      assert p[1..] == prefix[1..] + "*";
      assert IsLiteral(prefix[1..]) by {
        forall k | 0 <= k < |prefix| - 1 ensures !IsWildcard(prefix[1..][k]) {
          assert prefix[1..][k] == prefix[k + 1];
        }
      }
      if |name| > 0 {
        PrefixStarIff(name[1..], prefix[1..]);
        if |prefix| <= |name| && name[..|prefix|] == prefix {
          assert name[0] == prefix[0];
          assert name[1..][..|prefix| - 1] == prefix[1..];
        }
        if name[0] == prefix[0] && |prefix| - 1 <= |name| - 1 && name[1..][..|prefix| - 1] == prefix[1..] {
          assert name[..|prefix|] == [name[0]] + name[1..][..|prefix| - 1];
          assert prefix == [prefix[0]] + prefix[1..];
        }
      }
    }
  }
}
