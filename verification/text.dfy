/** The two string primitives the ignore-rule parser relies on:
    Python's `str.strip()` (no argument) and `str.splitlines()`. */
module Text {

  /** Python's `str.isspace` for one character: ASCII tab to carriage return,
      the four information separators, space, and the Unicode spaces. */
  predicate IsSpace(c: char) {
    || c == ' '
    || ('\t' <= c <= '\r')
    || ('\U{1C}' <= c <= '\U{1F}')
    || c == '\U{85}' || c == '\U{A0}' || c == '\U{1680}'
    || ('\U{2000}' <= c <= '\U{200A}')
    || c == '\U{2028}' || c == '\U{2029}' || c == '\U{202F}' || c == '\U{205F}' || c == '\U{3000}'
  }

  /** Number of whitespace characters at the start of `s`. */
  function LeadingSpace(s: string): (n: nat)
    ensures n <= |s|
    ensures forall k :: 0 <= k < n ==> IsSpace(s[k])
    ensures n == |s| || !IsSpace(s[n])
  {
    if |s| > 0 && IsSpace(s[0]) then 1 + LeadingSpace(s[1..]) else 0
  }

  /** Number of whitespace characters at the end of `s`. */
  function TrailingSpace(s: string): (n: nat)
    ensures n <= |s|
    ensures forall k :: |s| - n <= k < |s| ==> IsSpace(s[k])
    ensures n == |s| || !IsSpace(s[|s| - n - 1])
  {
    if |s| > 0 && IsSpace(s[|s| - 1]) then 1 + TrailingSpace(s[..|s| - 1]) else 0
  }

  /** `r` is what is left of `s` once the whitespace before position `i`
      and after position `i + |r|` is cut away. */
  ghost predicate StripsTo(s: string, r: string, i: int) {
    && 0 <= i <= |s| - |r|
    && s[i..i + |r|] == r
    && (forall k :: 0 <= k < i ==> IsSpace(s[k]))
    && (forall k :: i + |r| <= k < |s| ==> IsSpace(s[k]))
  }

  /** Python's `s.strip()`: the longest infix of `s` that neither starts nor
      ends with whitespace, obtained by removing only whitespace. */
  function Strip(s: string): (r: string)
    ensures |r| <= |s|
    ensures |r| == 0 || (!IsSpace(r[0]) && !IsSpace(r[|r| - 1]))
    ensures exists i :: StripsTo(s, r, i)
  {
    var i := LeadingSpace(s);
    var t := s[i..];
    var r := t[..|t| - TrailingSpace(t)];
    assert StripsTo(s, r, i) by {
      assert s[i..i + |r|] == r;
      forall k | i + |r| <= k < |s| ensures IsSpace(s[k]) {
        assert s[k] == t[k - i];
      }
    }
    r
  }

  /** Index of the first line feed in `s`, or `|s|` when there is none. */
  function FindNewline(s: string): (i: nat)
    ensures i <= |s|
    ensures forall k :: 0 <= k < i ==> s[k] != '\n'
    ensures i < |s| ==> s[i] == '\n'
  {
    if |s| == 0 || s[0] == '\n' then 0 else 1 + FindNewline(s[1..])
  }

  /** Python's `s.splitlines()` with the line feed as the only line boundary:
      a final line feed does not start an extra empty line, and "" has no lines. */
  function SplitLines(s: string): (lines: seq<string>)
    ensures forall k :: 0 <= k < |lines| ==> '\n' !in lines[k]
    ensures |lines| == 0 <==> |s| == 0
    decreases |s|
  {
    if |s| == 0 then []
    else
      var i := FindNewline(s);
      if i == |s| then [s] else [s[..i]] + SplitLines(s[i + 1..])
  }

  /** Python's `"\n".join(lines)`. */
  function JoinLines(lines: seq<string>): string {
    if |lines| == 0 then ""
    else if |lines| == 1 then lines[0]
    else lines[0] + "\n" + JoinLines(lines[1..])
  }

  predicate EndsWithNewline(s: string) {
    |s| > 0 && s[|s| - 1] == '\n'
  }

  /** `JoinLines` of a line followed by at least one more line. */
  lemma JoinLinesCons(head: string, tail: seq<string>)
    requires |tail| > 0
    ensures JoinLines([head] + tail) == head + "\n" + JoinLines(tail)
  {
    assert ([head] + tail)[1..] == tail;
  }

  /** A sequence is its part before position `i`, the element there, and the part after. */
  lemma SplitAround<T>(s: seq<T>, i: nat)
    requires i < |s|
    ensures s == s[..i] + [s[i]] + s[i + 1..]
  {
    assert s == s[..i] + s[i..];
    assert s[i..] == [s[i]] + s[i + 1..];
  }

  /** How `SplitLines` takes apart a text that holds a line feed. */
  lemma SplitAtNewline(s: string)
    requires FindNewline(s) < |s|
    ensures s == s[..FindNewline(s)] + "\n" + s[FindNewline(s) + 1..]
    ensures SplitLines(s) == [s[..FindNewline(s)]] + SplitLines(s[FindNewline(s) + 1..])
    ensures |s| > FindNewline(s) + 1 ==> EndsWithNewline(s) == EndsWithNewline(s[FindNewline(s) + 1..])
    ensures |s| == FindNewline(s) + 1 ==> EndsWithNewline(s)
  {
    var i := FindNewline(s);
    AroundNewline(s, i);
    SplitLinesStep(s, i);
  }

  /** The text around a line feed at position `i`. */
  lemma AroundNewline(s: string, i: nat)
    requires i < |s| && s[i] == '\n'
    ensures s == s[..i] + "\n" + s[i + 1..]
    ensures |s| > i + 1 ==> EndsWithNewline(s) == EndsWithNewline(s[i + 1..])
    ensures |s| == i + 1 ==> EndsWithNewline(s)
  {
    SplitAround(s, i);
    assert |s| > i + 1 ==> s[|s| - 1] == s[i + 1..][|s| - i - 2];
  }

  /** One step of `SplitLines` on a text with a line feed. */
  lemma SplitLinesStep(s: string, i: nat)
    requires i == FindNewline(s) && i < |s|
    ensures SplitLines(s) == [s[..i]] + SplitLines(s[i + 1..])
  {
  }

  /** Splitting loses nothing but the one line feed that ends the text. */
  lemma {:induction false} SplitLinesJoin(s: string)
    ensures JoinLines(SplitLines(s)) + (if EndsWithNewline(s) then "\n" else "") == s
    decreases |s|
  {
    if |s| > 0 {
      var i := FindNewline(s);
      if i < |s| {
        SplitAtNewline(s);
        var line, rest := s[..i], s[i + 1..];
        if |rest| > 0 {
          SplitLinesJoin(rest);
          JoinAfterNewline(line, rest, SplitLines(rest));
        }
      }
    }
  }

  /** The step of `SplitLinesJoin` for a line followed by a non-empty rest. */
  lemma JoinAfterNewline(line: string, rest: string, tail: seq<string>)
    requires |rest| > 0 && tail == SplitLines(rest)
    requires JoinLines(tail) + (if EndsWithNewline(rest) then "\n" else "") == rest
    ensures JoinLines([line] + tail) + (if EndsWithNewline(rest) then "\n" else "") == line + "\n" + rest
  {
    var suffix := if EndsWithNewline(rest) then "\n" else "";
    var joined := JoinLines(tail);
    assert |tail| > 0;
    JoinLinesCons(line, tail);
    assert line + "\n" + joined + suffix == line + "\n" + (joined + suffix);
  }
}
