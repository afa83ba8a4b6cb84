/** The counting loop of `main`: page through the pull request's changed
    files, add up the changes of every file that is not ignored on both
    sides, and turn the total into a label. The upstream listing is given as
    the sequence of pages it would return; the HTTP calls themselves are not
    modelled. */
module Aggregate {
  import opened Wrappers
  import opened Ignore
  import Patterns
  import Thresholds

  /** One entry of the "files changed" listing. `changes` is `None` when the
      upstream value is not an integer. */
  datatype FileRecord = FileRecord(filename: Option<string>, previous: Option<string>, changes: Option<int>)

  type Page = seq<FileRecord>

  /** The `per_page` the listing is requested with. */
  const PerPage: nat := 100

  /** A file is skipped only when both its previous and its current path are ignored. */
  predicate Counted(fm: Matcher, patterns: seq<string>, rec: FileRecord): (b: bool)
    ensures !IsSentinel(rec.filename) && !AnyExcludes(fm, rec.filename.value, patterns) ==> b
    ensures !IsSentinel(rec.filename) && AnyIncludes(fm, rec.filename.value, patterns) ==> b
    ensures IsSentinel(rec.filename) && IsSentinel(rec.previous) ==> !b
  {
    !(ShouldIgnore(fm, rec.previous, patterns) && ShouldIgnore(fm, rec.filename, patterns))
  }

  /** What one record adds to the changed-line total. */
  function Contribution(fm: Matcher, patterns: seq<string>, rec: FileRecord): (n: int)
    ensures n == 0 || (Counted(fm, patterns, rec) && rec.changes == Some(n))
    ensures Counted(fm, patterns, rec) && rec.changes.Some? ==> n == rec.changes.value
  {
    if Counted(fm, patterns, rec) && rec.changes.Some? then rec.changes.value else 0
  }

  /** The inner `for item in files` loop: the changes one page adds. */
  function PageTotal(fm: Matcher, patterns: seq<string>, page: Page): (t: int)
    ensures (forall k :: 0 <= k < |page| ==> Contribution(fm, patterns, page[k]) >= 0) ==> t >= 0
  {
    if |page| == 0 then 0
    else Contribution(fm, patterns, page[0]) + PageTotal(fm, patterns, page[1..])
  }

  /** A record without a previous path counts exactly when its current path is not ignored. */
  lemma NoPreviousCountsIffKept(fm: Matcher, patterns: seq<string>, rec: FileRecord)
    requires rec.previous.None?
    ensures Counted(fm, patterns, rec) <==> !ShouldIgnore(fm, rec.filename, patterns)
  {
  }

  /** A renamed file counts when either of its two paths is not ignored. */
  lemma RenameCountsUnlessBothIgnored(fm: Matcher, patterns: seq<string>, rec: FileRecord)
    ensures Counted(fm, patterns, rec) <==>
      !ShouldIgnore(fm, rec.previous, patterns) || !ShouldIgnore(fm, rec.filename, patterns)
  {
  }

  /** The changes of a page are the sum of the changes of its parts. */
  lemma {:induction false} PageTotalAppend(fm: Matcher, patterns: seq<string>, a: Page, b: Page)
    ensures PageTotal(fm, patterns, a + b) == PageTotal(fm, patterns, a) + PageTotal(fm, patterns, b)
  {
    if |a| == 0 {
      assert a + b == b;
    } else {
      assert (a + b)[0] == a[0];
      assert (a + b)[1..] == a[1..] + b;
      PageTotalAppend(fm, patterns, a[1..], b);
    }
  }

  /** A skipped record, or one whose change count is not an integer, adds
      nothing wherever it stands in the page. */
  lemma AddsNothing(fm: Matcher, patterns: seq<string>, a: Page, rec: FileRecord, b: Page)
    requires !Counted(fm, patterns, rec) || rec.changes.None?
    ensures PageTotal(fm, patterns, a + [rec] + b) == PageTotal(fm, patterns, a + b)
  {
    PageTotalAppend(fm, patterns, a + [rec], b);
    PageTotalAppend(fm, patterns, a, [rec]);
    PageTotalAppend(fm, patterns, a, b);
    assert PageTotal(fm, patterns, [rec]) == 0 by {
      assert [rec][1..] == [];
    }
  }

  /** The page the upstream returns for request number `i + 1`; past the last
      page the listing is empty. */
  function PageAt<T>(pages: seq<seq<T>>, i: nat): seq<T> {
    if i < |pages| then pages[i] else []
  }

  /** The weights of pages `lo` up to but excluding `hi`. */
  function PagesTotal<T>(weigh: seq<T> -> int, pages: seq<seq<T>>, lo: nat, hi: nat): int
    decreases hi - lo
  {
    if hi <= lo then 0
    else weigh(PageAt(pages, lo)) + PagesTotal(weigh, pages, lo + 1, hi)
  }

  /** The changed-line total and the number of page requests made. */
  datatype Tally = Tally(changedLines: int, fetched: nat)

  /** The `while True` loop from request number `i + 1` on, adding up the
      weight of each page read: stop after an empty page, or after a page
      shorter than `PerPage`. The requests made are exactly the full pages
      before the first short one, and that one. */
  function FetchFrom<T>(weigh: seq<T> -> int, pages: seq<seq<T>>, i: nat): (r: Tally)
    requires i <= |pages| && weigh([]) == 0
    ensures r.fetched >= 1 && i + r.fetched <= |pages| + 1
    ensures forall j :: i <= j < i + r.fetched - 1 ==> |PageAt(pages, j)| >= PerPage
    ensures |PageAt(pages, i + r.fetched - 1)| < PerPage
    ensures r.changedLines == PagesTotal(weigh, pages, i, i + r.fetched)
    decreases |pages| - i
  {
    var files := PageAt(pages, i);
    if |files| == 0 then Tally(0, 1)
    else if |files| < PerPage then Tally(weigh(files), 1)
    else
      var rest := FetchFrom(weigh, pages, i + 1);
      Tally(weigh(files) + rest.changedLines, rest.fetched + 1)
  }

  /** The weight `main` gives a page: the changes it counts. */
  function Weigh(fm: Matcher, patterns: seq<string>): Page -> int {
    page => PageTotal(fm, patterns, page)
  }

  /** The whole pagination loop of `main`, from the first page. */
  function CountChanges(fm: Matcher, patterns: seq<string>, pages: seq<Page>): (r: Tally)
    ensures r.fetched >= 1 && r.fetched <= |pages| + 1
    ensures forall j :: 0 <= j < r.fetched - 1 ==> |PageAt(pages, j)| >= PerPage
    ensures |PageAt(pages, r.fetched - 1)| < PerPage
    ensures r.changedLines == PagesTotal(Weigh(fm, patterns), pages, 0, r.fetched)
  {
    assert Weigh(fm, patterns)([]) == 0;
    FetchFrom(Weigh(fm, patterns), pages, 0)
  }

  /** Pages that `main` never requests do not affect the outcome. */
  lemma LaterPagesUnread(fm: Matcher, patterns: seq<string>, pages: seq<Page>, more: seq<Page>)
    requires exists j :: 0 <= j < |pages| && |pages[j]| < PerPage
    ensures CountChanges(fm, patterns, pages + more) == CountChanges(fm, patterns, pages)
  {
    var r := CountChanges(fm, patterns, pages);
    var j :| 0 <= j < |pages| && |pages[j]| < PerPage;
    assert r.fetched <= j + 1 by {
      assert j < r.fetched - 1 ==> |PageAt(pages, j)| >= PerPage;
    }
    assert Weigh(fm, patterns)([]) == 0;
    FetchAgrees(Weigh(fm, patterns), pages, more, 0, r.fetched);
  }

  /** Reading from `i`, the loop over `pages + more` and over `pages` agree
      while it stays within the first `i + n` pages of `pages`. */
  lemma {:induction false} FetchAgrees<T>(weigh: seq<T> -> int, pages: seq<seq<T>>, more: seq<seq<T>>, i: nat, n: nat)
    requires i + n <= |pages| && n >= 1 && weigh([]) == 0
    requires FetchFrom(weigh, pages, i).fetched == n
    ensures FetchFrom(weigh, pages + more, i) == FetchFrom(weigh, pages, i)
    decreases n
  {
    assert PageAt(pages + more, i) == PageAt(pages, i);
    if |PageAt(pages, i)| >= PerPage {
      FetchAgrees(weigh, pages, more, i + 1, n - 1);
    }
  }

  /** Why a run ends with exit status 1 after the pages are counted. */
  datatype RunError = NoSizeLabel

  /** What a successful run reports and applies. */
  datatype Report = Report(changedLines: int, fetched: nat, sizeLabel: string)

  /** Lines 145-196 of `main` without the I/O: parse the ignore rules, count
      the changes, compute the label, fail when there is none. */
  function SizeLabel(fm: Matcher, ignored: string, sizes: seq<(string, string)>, pages: seq<Page>): (r: Result<Report, RunError>)
    ensures r.Success? ==> |r.value.sizeLabel| >= 5 && r.value.sizeLabel[..5] == "size/"
    ensures r.Success? ==>
      r.value.changedLines == CountChanges(fm, Patterns.ParseIgnored(ignored), pages).changedLines &&
      r.value.fetched == CountChanges(fm, Patterns.ParseIgnored(ignored), pages).fetched &&
      exists x :: Thresholds.GreatestMet(r.value.changedLines, Thresholds.ParseTable(sizes), x) &&
        r.value.sizeLabel == "size/" + x.1
    ensures r.Failure? <==>
      forall x :: x in Thresholds.ParseTable(sizes) ==>
        CountChanges(fm, Patterns.ParseIgnored(ignored), pages).changedLines < x.0
  {
    var patterns := Patterns.ParseIgnored(ignored);
    var tally := CountChanges(fm, patterns, pages);
    var computed := Thresholds.ComputeLabel(tally.changedLines, sizes);
    if computed.Some? then
      assert |computed.value| >= 5 && computed.value[..5] == "size/" by {
        Thresholds.LabelPrefix(tally.changedLines, sizes);
      }
      Success(Report(tally.changedLines, tally.fetched, computed.value))
    else Failure(NoSizeLabel)
  }
}
