/** `should_ignore`: whether one side of a changed file is left out of the
    size count. The glob test is a parameter `fm(name, pattern)`, so every
    property here holds whatever matcher is plugged in. */
module Ignore {
  import opened Wrappers

  /** A glob test in the argument order of `fnmatch(name, pattern)`. */
  type Matcher = (string, string) -> bool

  /** Paths that are ignored whatever the patterns say: a missing path,
      the empty path and the upstream's "no file" marker. */
  predicate IsSentinel(path: Option<string>) {
    path.None? || path.value == "" || path.value == "/dev/null"
  }

  /** A pattern written with a leading '!' re-includes what it matches. */
  predicate IsNegated(pattern: string) {
    |pattern| > 0 && pattern[0] == '!'
  }

  /** `pattern` is a '!' rule whose remainder matches `path`. */
  predicate IncludedBy(fm: Matcher, path: string, pattern: string) {
    IsNegated(pattern) && fm(path, pattern[1..])
  }

  /** `pattern` is a plain rule that matches `path`. */
  predicate ExcludedBy(fm: Matcher, path: string, pattern: string) {
    !IsNegated(pattern) && fm(path, pattern)
  }

  predicate AnyIncludes(fm: Matcher, path: string, patterns: seq<string>) {
    exists p :: p in patterns && IncludedBy(fm, path, p)
  }

  predicate AnyExcludes(fm: Matcher, path: string, patterns: seq<string>) {
    exists p :: p in patterns && ExcludedBy(fm, path, p)
  }

  /** The scan over the patterns with the running `ignore` flag: a matching
      '!' rule ends the scan with "not ignored" at once; a matching plain rule
      sets the flag and the scan goes on. */
  function Scan(fm: Matcher, path: string, patterns: seq<string>, ignore: bool): (r: bool)
    ensures r <==> !AnyIncludes(fm, path, patterns) && (ignore || AnyExcludes(fm, path, patterns))
  {
    if |patterns| == 0 then ignore
    else
      var p := patterns[0];
      var tail := patterns[1..];
      var rest := Scan(fm, path, tail, ignore || ExcludedBy(fm, path, p));
      assert forall q :: q in patterns <==> q == p || q in tail;
      assert AnyIncludes(fm, path, patterns) <==> IncludedBy(fm, path, p) || AnyIncludes(fm, path, tail);
      assert AnyExcludes(fm, path, patterns) <==> ExcludedBy(fm, path, p) || AnyExcludes(fm, path, tail);
      if IsNegated(p) then (if fm(path, p[1..]) then false else rest)
      else rest
  }

  /** `should_ignore(path, patterns)`. */
  function ShouldIgnore(fm: Matcher, path: Option<string>, patterns: seq<string>): (r: bool)
    ensures IsSentinel(path) ==> r
    ensures !IsSentinel(path) ==>
      (r <==> !AnyIncludes(fm, path.value, patterns) && AnyExcludes(fm, path.value, patterns))
  {
    if IsSentinel(path) then true else Scan(fm, path.value, patterns, false)
  }

  /** A matching '!' rule wins wherever it stands in the list. */
  lemma IncludeWins(fm: Matcher, path: string, patterns: seq<string>, i: nat)
    requires path != "" && path != "/dev/null"
    requires i < |patterns| && IsNegated(patterns[i]) && fm(path, patterns[i][1..])
    ensures !ShouldIgnore(fm, Some(path), patterns)
  {
    assert IncludedBy(fm, path, patterns[i]);
  }

  /** With no patterns, only the sentinel paths are ignored. */
  lemma NoPatternsIgnoresOnlySentinels(fm: Matcher, path: Option<string>)
    ensures ShouldIgnore(fm, path, []) <==> IsSentinel(path)
  {
  }

  /** The order of the patterns does not matter. */
  lemma PermutationInvariant(fm: Matcher, path: Option<string>, ps: seq<string>, qs: seq<string>)
    requires multiset(ps) == multiset(qs)
    ensures ShouldIgnore(fm, path, ps) == ShouldIgnore(fm, path, qs)
  {
    assert forall p :: p in ps <==> p in multiset(ps);
    assert forall p :: p in qs <==> p in multiset(qs);
  }
}
