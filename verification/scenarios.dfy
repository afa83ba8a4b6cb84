/** Concrete runs of the model with the `*`/`?` matcher plugged in. */
module Scenarios {
  import opened Wrappers
  import opened Glob
  import opened Ignore
  import opened Aggregate
  import Patterns
  import Thresholds

  /** "***" becomes "**": the replacement does not overlap. */
  lemma TripleStarKeepsTwo()
    ensures Patterns.NormalizePattern("***") == "**"
  {
    assert "***"[2..] == "*";
    assert "*"[1..] == "";
  }

  lemma DocsIsLiteral()
    ensures IsLiteral("docs/")
    ensures IsLiteral("docs/readme.md")
  {
  }

  /** The rule `docs/` + star ignores "docs/readme.md"; a "!docs/readme.md" rule brings it back, before or after it. */
  lemma DocsRuleAndOverride()
    ensures ShouldIgnore(Match, Some("docs/readme.md"), ["docs/*"])
    ensures !ShouldIgnore(Match, Some("docs/readme.md"), ["docs/*", "!docs/readme.md"])
    ensures !ShouldIgnore(Match, Some("docs/readme.md"), ["!docs/readme.md", "docs/*"])
  {
    var path := "docs/readme.md";
    DocsIsLiteral();
    PrefixStarIff(path, "docs/");
    assert "docs/" + "*" == "docs/*";
    assert path[..5] == "docs/";
    assert ExcludedBy(Match, path, "docs/*");
    assert "docs/*" in ["docs/*"];
    assert "!docs/readme.md"[1..] == path;
    MatchSelf(path);
    IncludeWins(Match, path, ["docs/*", "!docs/readme.md"], 1);
    IncludeWins(Match, path, ["!docs/readme.md", "docs/*"], 0);
  }

  /** A file renamed from "docs/old.md" to "src/new.ts" still counts when only `docs/` + star is ignored. */
  lemma RenameOutOfDocsCounts(changes: int)
    ensures Contribution(Match, ["docs/*"], FileRecord(Some("src/new.ts"), Some("docs/old.md"), Some(changes))) == changes
  {
    DocsIsLiteral();
    PrefixStarIff("src/new.ts", "docs/");
    assert "docs/" + "*" == "docs/*";
    assert "src/new.ts"[..5] != "docs/" by { assert "src/new.ts"[0] == 's'; }
    assert !ExcludedBy(Match, "src/new.ts", "docs/*");
    assert !ShouldIgnore(Match, Some("src/new.ts"), ["docs/*"]);
  }

  /** Pages of 100, 100 and 50 records take three requests, and every record is read. */
  lemma ThreeRequests(fm: Matcher, patterns: seq<string>, a: Page, b: Page, c: Page)
    requires |a| == 100 && |b| == 100 && 0 < |c| < 100
    ensures CountChanges(fm, patterns, [a, b, c]) ==
      Tally(PageTotal(fm, patterns, a) + PageTotal(fm, patterns, b) + PageTotal(fm, patterns, c), 3)
  {
    var pages := [a, b, c];
    assert PageAt(pages, 0) == a && PageAt(pages, 1) == b && PageAt(pages, 2) == c;
  }

  /** When the last page is full, one more request returns nothing and ends the loop. */
  lemma FullLastPageNeedsOneMoreRequest(fm: Matcher, patterns: seq<string>, a: Page, b: Page)
    requires |a| == 100 && |b| == 100
    ensures CountChanges(fm, patterns, [a, b]).fetched == 3
  {
    var pages := [a, b];
    assert PageAt(pages, 0) == a && PageAt(pages, 1) == b && PageAt(pages, 2) == [];
  }

  lemma ThreeKeptFiles(n1: string, n2: string, n3: string)
    requires !IsSentinel(Some(n1)) && !IsSentinel(Some(n2)) && !IsSentinel(Some(n3))
    ensures PageTotal(Match, [], [FileRecord(Some(n1), None, Some(5)), FileRecord(Some(n2), None, Some(12)),
      FileRecord(Some(n3), None, Some(4))]) == 21
  {
    var page := [FileRecord(Some(n1), None, Some(5)), FileRecord(Some(n2), None, Some(12)),
                 FileRecord(Some(n3), None, Some(4))];
    assert Contribution(Match, [], page[0]) == 5;
    assert Contribution(Match, [], page[1]) == 12;
    assert Contribution(Match, [], page[2]) == 4;
    assert PageTotal(Match, [], page[2..]) == 4 by { assert page[2..][1..] == []; }
    assert page[1..][1..] == page[2..];
  }

  lemma NoRules()
    ensures Patterns.ParseIgnored("") == []
  {
  }

  /** Three files with 5, 12 and 4 changed lines, no ignore rules and the
      default sizes: 21 lines, one request, label "size/S". */
  lemma SmallPullRequest(n1: string, n2: string, n3: string)
    requires !IsSentinel(Some(n1)) && !IsSentinel(Some(n2)) && !IsSentinel(Some(n3))
    ensures SizeLabel(Match, "", Thresholds.DefaultSizes,
      [[FileRecord(Some(n1), None, Some(5)), FileRecord(Some(n2), None, Some(12)),
        FileRecord(Some(n3), None, Some(4))]])
      == Success(Report(21, 1, "size/S"))
  {
    var page := [FileRecord(Some(n1), None, Some(5)), FileRecord(Some(n2), None, Some(12)),
                 FileRecord(Some(n3), None, Some(4))];
    NoRules();
    SmallPageCount(n1, n2, n3, page);
    SmallBucket(21);
  }

  lemma SmallPageCount(n1: string, n2: string, n3: string, page: Page)
    requires !IsSentinel(Some(n1)) && !IsSentinel(Some(n2)) && !IsSentinel(Some(n3))
    requires page == [FileRecord(Some(n1), None, Some(5)), FileRecord(Some(n2), None, Some(12)),
                      FileRecord(Some(n3), None, Some(4))]
    ensures CountChanges(Match, [], [page]) == Tally(21, 1)
  {
    ThreeKeptFiles(n1, n2, n3);
    assert PageAt([page], 0) == page;
  }

  /** With the default table, 10 to 29 changed lines are labelled "size/S". */
  lemma SmallBucket(n: nat)
    requires 10 <= n < 30
    ensures Thresholds.ComputeLabel(n, Thresholds.DefaultSizes) == Some("size/S")
  {
    var computed := "size/" + Thresholds.DefaultBucket(n);
    assert computed == "size/S" by {
      assert Thresholds.DefaultBucket(n) == "S";
    }
    Thresholds.DefaultTableBuckets(n);
  }
}
