/** Ignore-rule text to an ordered list of glob patterns
    (`normalize_pattern` and `parse_ignored` in size_label.py). */
module Patterns {
  import opened Text
  import opened Selection

  /** Python's `pattern.replace("**", "*")`: occurrences of "**" are found
      left to right without overlapping, so "***" becomes "**". */
  function NormalizePattern(p: string): (r: string)
    ensures |r| <= |p|
    ensures |p| > 0 ==> |r| > 0 && r[0] == p[0]
  {
    if |p| >= 2 && p[0] == '*' && p[1] == '*' then "*" + NormalizePattern(p[2..])
    else if |p| == 0 then ""
    else [p[0]] + NormalizePattern(p[1..])
  }

  predicate HasDoubleStar(p: string) {
    exists k :: 0 <= k < |p| - 1 && p[k] == '*' && p[k + 1] == '*'
  }

  /** Replaces every '*' by "**"; normalisation undoes exactly this. */
  function DoubleStars(s: string): string {
    if |s| == 0 then ""
    else if s[0] == '*' then "**" + DoubleStars(s[1..])
    else [s[0]] + DoubleStars(s[1..])
  }

  /** Normalisation is a left inverse of doubling every star. */
  lemma {:induction false} NormalizeUndoesDoubling(s: string)
    ensures NormalizePattern(DoubleStars(s)) == s
  {
    if |s| > 0 {
      NormalizeUndoesDoubling(s[1..]);
      var d := DoubleStars(s[1..]);
      if s[0] == '*' {
        assert DoubleStars(s) == "**" + d;
        assert ("**" + d)[2..] == d;
      } else {
        assert DoubleStars(s) == [s[0]] + d;
        assert ([s[0]] + d)[1..] == d;
      }
      assert s == [s[0]] + s[1..];
    }
  }

  /** A pattern is left unchanged exactly when it holds no "**"; otherwise
      it gets strictly shorter. */
  lemma {:induction false} NormalizeFixedIff(p: string)
    ensures NormalizePattern(p) == p <==> !HasDoubleStar(p)
    ensures HasDoubleStar(p) ==> |NormalizePattern(p)| < |p|
  {
    if |p| >= 2 && p[0] == '*' && p[1] == '*' {
      assert HasDoubleStar(p) by { assert p[0] == '*' && p[1] == '*'; }
      assert |NormalizePattern(p)| == 1 + |NormalizePattern(p[2..])|;
    } else if |p| > 0 {
      var t := p[1..];
      NormalizeFixedIff(t);
      assert NormalizePattern(p) == [p[0]] + NormalizePattern(t);
      assert HasDoubleStar(p) <==> HasDoubleStar(t) by {
        if HasDoubleStar(p) {
          var k :| 0 <= k < |p| - 1 && p[k] == '*' && p[k + 1] == '*';
          assert k != 0;
          assert t[k - 1] == '*' && t[k] == '*';
        }
        if HasDoubleStar(t) {
          var k :| 0 <= k < |t| - 1 && t[k] == '*' && t[k + 1] == '*';
          assert p[k + 1] == '*' && p[k + 2] == '*';
        }
      }
      assert p == [p[0]] + t;
    }
  }

  /** `parse_ignored` keeps a stripped line when it is non-empty and does not
      start with '#'. */
  predicate IsRule(t: string) {
    |t| > 0 && t[0] != '#'
  }

  /** A line that `parse_ignored` keeps. */
  predicate Kept(line: string) {
    IsRule(Strip(line))
  }

  /** The pattern a kept line contributes. */
  function RuleOf(line: string): string {
    NormalizePattern(Strip(line))
  }

  /** The loop of `parse_ignored` over already-split lines. */
  function ParseLines(lines: seq<string>): (r: seq<string>)
    ensures |r| <= |lines|
    ensures forall k :: 0 <= k < |r| ==> IsRule(r[k])
  {
    var r := FilterMap(lines, Kept, RuleOf);
    assert forall k :: 0 <= k < |r| ==> IsRule(r[k]) by {
      FilterMapSelects(lines, Kept, RuleOf);
      var idx :| Selects(lines, Kept, RuleOf, r, idx);
      assert forall k :: 0 <= k < |r| ==> r[k] == RuleOf(lines[idx[k]]) && Kept(lines[idx[k]]);
    }
    r
  }

  /** `parse_ignored`: newline-separated rule text to patterns. */
  function ParseIgnored(raw: string): (r: seq<string>)
    ensures forall k :: 0 <= k < |r| ==> IsRule(r[k])
  {
    ParseLines(SplitLines(raw))
  }

  /** `parse_ignored` keeps input order, drops exactly the blank and comment
      lines, and emits each kept line stripped and normalised. */
  lemma ParseIgnoredSelects(raw: string)
    ensures exists idx :: Selects(SplitLines(raw), Kept, RuleOf, ParseIgnored(raw), idx)
  {
    var lines := SplitLines(raw);
    FilterMapSelects(lines, Kept, RuleOf);
    assert ParseIgnored(raw) == FilterMap(lines, Kept, RuleOf);
  }

  /** Rule text made of two blocks of whole lines parses block by block. */
  lemma ParseLinesAppend(a: seq<string>, b: seq<string>)
    ensures ParseLines(a + b) == ParseLines(a) + ParseLines(b)
  {
    FilterMapAppend(a, b, Kept, RuleOf);
  }
}
