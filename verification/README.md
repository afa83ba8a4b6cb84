# pr-size-label in Dafny

A model of the decision logic of `size_label.py`, the script that labels a
pull request by size. Four pieces are modelled, as pure functions over
immutable data, each with the properties the script relies on:

- **Ignore-rule parsing** (`Text`, `Selection`, `Patterns`): rule text is
  split into lines on line feeds and each line is stripped of whitespace.
  Blank lines and lines starting with `#` are dropped. Every `**` becomes `*`,
  without overlap, so `***` becomes `**`.
- **The ignore matcher** (`Glob`, `Ignore`): a missing path, the empty path and
  `/dev/null` are always ignored. A matching `!` rule means "not ignored" at
  once, wherever it stands in the list. Otherwise the path is ignored when some
  plain rule matches. The glob test is a parameter `fm(name, pattern)`, so the
  precedence properties hold for every matcher. `Glob.Match` is the `*`/`?`
  matcher used in the concrete scenarios.
- **Threshold bucketing** (`Numbers`, `Thresholds`): table keys are parsed as
  signed decimals, and keys that do not parse are dropped. The (threshold,
  label) pairs are sorted as Python tuples, then walked in ascending order,
  keeping the last threshold not above the count. The result is the greatest
  met pair in tuple order, so on equal thresholds the label that sorts last
  wins. The default table is `{0: XS, 10: S, 30: M, 100: L, 500: XL, 1000: XXL}`.
- **Change aggregation** (`Aggregate`): the paginated listing is a sequence of
  pages. Pages are read until the first page with fewer than 100 records; an
  empty page, including the one past the end, is such a page. A file's
  `changes` count unless both its previous and current paths are ignored, and a
  non-integer `changes` adds nothing. The result is the total and the number of
  requests made. `SizeLabel` then turns the total into the label, or into the
  "no size label" failure.

Some consequences of the code that are easy to miss:

- `fnmatch`'s `*` also matches `/`, and so does the model's
  (`Glob.PrefixStarIff`): "docs/*" ignores files at any depth under "docs/".
- Blank and `#` lines are skipped while the rule text is parsed, not in
  `should_ignore`. A pattern list given directly to `Ignore.ShouldIgnore`
  treats `#x` as an ordinary rule.
- The loop stops only on a page shorter than 100 records. A page longer than
  100 records does not stop it (`Aggregate.FetchFrom`).
- Change counts are not assumed non-negative: the code adds whatever integer
  the upstream reports.

## Model

| member | source | states |
|---|---|---|
| Text.Strip | size_label.py:38 | the result is an infix of the line reached by cutting only whitespace from both ends, and it neither starts nor ends with whitespace |
| Text.SplitLines | size_label.py:37 | no line holds a line feed, and only the empty text has no lines; `SplitLinesJoin` shows nothing but a final line feed is lost |
| Text.SplitLinesJoin | size_label.py:37 | joining the split lines with line feeds gives back the text, less one final line feed |
| Patterns.NormalizePattern | size_label.py:31-32 | never longer than the pattern; a non-empty pattern keeps its first character, so a leading '!' survives and no '#' appears |
| Patterns.NormalizeUndoesDoubling | size_label.py:31-32 | replacing "**" by "*" undoes doubling every star: normalisation is a left inverse of `DoubleStars` |
| Patterns.NormalizeFixedIff | size_label.py:31-32 | a pattern is unchanged by normalisation exactly when it holds no "**", and strictly shorter otherwise |
| Patterns.ParseLines | size_label.py:36-42 | no emitted pattern is empty or starts with '#', and there are no more patterns than lines |
| Patterns.ParseIgnored | size_label.py:35-42 | no pattern parsed from rule text is empty or starts with '#' |
| Patterns.ParseIgnoredSelects | size_label.py:35-42 | output k is the stripped, normalised form of the k-th kept line; kept lines are exactly the non-blank, non-'#' ones; input order is kept |
| Patterns.ParseLinesAppend | size_label.py:36-42 | rule text made of two blocks of lines parses block by block, so earlier lines give earlier patterns |
| Selection.FilterMapSelects | size_label.py:37-41 | the filter-and-map loop emits the image of exactly the kept inputs, in input order |
| Glob.Match | size_label.py:52-55 | a name matched by a pattern without '*' has the pattern's length: each literal and each '?' consumes one character |
| Glob.MatchSelf | size_label.py:52-55 | every pattern matches its own text |
| Glob.StarMatchesAll | size_label.py:52-55 | "*" matches every name |
| Glob.LiteralMatchIff | size_label.py:52-55 | a pattern without wildcards matches a name if and only if the two are equal |
| Glob.PrefixStarIff | size_label.py:52-55 | a literal prefix followed by '*' matches exactly the names with that prefix, '/' included |
| Ignore.Scan | size_label.py:49-57 | the scan with the running flag answers true iff no '!' rule matches and either the flag was set or some plain rule matches |
| Ignore.ShouldIgnore | size_label.py:45-57 | missing, empty and "/dev/null" paths are ignored; any other path is ignored iff no '!' rule matches it and some plain rule does |
| Ignore.IncludeWins | size_label.py:50-53 | a matching '!' rule at any position makes the path not ignored |
| Ignore.NoPatternsIgnoresOnlySentinels | size_label.py:45-57 | with an empty list, exactly the missing, empty and "/dev/null" paths are ignored |
| Ignore.PermutationInvariant | size_label.py:49-57 | permuting the patterns does not change the answer |
| Numbers.ParseInt | size_label.py:103 | a key parses iff it is ASCII digits with an optional '+' or '-'; a '-' gives a value at most 0, otherwise the value is at least 0 |
| Numbers.ParseShowRoundTrip | size_label.py:103 | every integer's decimal text parses back to that integer |
| Numbers.LeadingZeroIgnored | size_label.py:103 | a leading zero does not change the parsed value ("010" is 10) |
| Thresholds.SortThresholds | size_label.py:106 | the sorted thresholds are in ascending tuple order and are a permutation of the input |
| Thresholds.ParseTable | size_label.py:100-105 | at most one pair per table entry, and one pair for every entry exactly when every key parses |
| Thresholds.ParseTableMembers | size_label.py:100-105 | a pair is among the parsed thresholds iff some table entry's key parses to its threshold and the entry carries its label |
| Thresholds.UnparseableKeyDropped | size_label.py:101-105 | inserting an entry whose key does not parse, anywhere, leaves the parsed thresholds unchanged |
| Thresholds.LastMet | size_label.py:108-112 | the walk ends holding the last entry whose threshold is at most the count, or what it held before if there is none |
| Thresholds.SelectThreshold | size_label.py:99-112 | none iff every parsed threshold exceeds the count; otherwise the pair that is met and is greatest, in tuple order, among the met pairs |
| Thresholds.ComputeLabel | size_label.py:99-112 | no label iff no parsed threshold is met; otherwise "size/" followed by the label of the greatest met pair |
| Thresholds.LabelPrefix | size_label.py:111 | every computed label starts with "size/" |
| Thresholds.GreatestMetUnique | size_label.py:106-112 | the greatest met pair is unique |
| Thresholds.SelectDependsOnParsedEntries | size_label.py:100-112 | tables with the same parsed pairs select the same pair |
| Thresholds.UnparseableKeyIgnored | size_label.py:101-105 | a key that does not parse is as good as absent, wherever it stands in the table |
| Thresholds.TableOrderIrrelevant | size_label.py:100-112 | reordering the table does not change the label |
| Thresholds.SelectMonotone | size_label.py:108-112 | a larger count keeps a label and selects a threshold at least as high |
| Thresholds.DefaultTableBuckets | size_label.py:96 | with the default table: 0-9 gives XS, 10-29 S, 30-99 M, 100-499 L, 500-999 XL, 1000 and more XXL |
| Thresholds.DefaultTableNegative | size_label.py:96 | with the default table a negative count gets no label |
| Thresholds.EqualThresholdsTieOnLabel | size_label.py:103-111 | two keys that parse to the same met threshold, with labels v1 <= v2: the label is "size/" + v2 in either table order |
| Thresholds.LeadingZeroKeysTie | size_label.py:103-111 | keys "10" and "010" parse to the same threshold (a leading zero is ignored), so they tie and label "B" beats label "A" |
| Aggregate.Counted | size_label.py:170-173 | a file whose current path is real counts when no plain rule matches it or a '!' rule does; a record with neither path real is skipped |
| Aggregate.Contribution | size_label.py:172-179 | a record adds 0 or its own change count, and adds its count whenever it is counted and the count is an integer |
| Aggregate.PageTotal | size_label.py:169-179 | a page whose records all contribute non-negative counts adds a non-negative amount |
| Aggregate.PageTotalAppend | size_label.py:169-179 | the changes of a page are the sum of the changes of its parts |
| Aggregate.AddsNothing | size_label.py:172-179 | a skipped record, or one whose change count is not an integer, adds nothing wherever it stands |
| Aggregate.NoPreviousCountsIffKept | size_label.py:170-173 | a record with no previous path counts iff its current path is not ignored |
| Aggregate.RenameCountsUnlessBothIgnored | size_label.py:172-173 | a record counts iff its previous or its current path is not ignored |
| Aggregate.FetchFrom | size_label.py:156-183 | the requests are the full pages before the first short or empty page, plus that page; the total is the sum over exactly those pages |
| Aggregate.CountChanges | size_label.py:152-183 | from the first page: requests stop at the first page with fewer than 100 records, and the total is the sum over the pages read |
| Aggregate.LaterPagesUnread | size_label.py:181-183 | pages after the first short page never affect the result |
| Aggregate.SizeLabel | size_label.py:145-191 | the run fails iff no parsed threshold is met by the counted total; a successful run reports the counted total and the number of requests of the pagination loop, and the label "size/" followed by the label of the greatest met (threshold, label) pair |
| Scenarios.TripleStarKeepsTwo | size_label.py:31-32 | "***" normalises to "**" |
| Scenarios.DocsRuleAndOverride | size_label.py:45-57 | "docs/*" ignores "docs/readme.md"; adding "!docs/readme.md" before or after it un-ignores it |
| Scenarios.RenameOutOfDocsCounts | size_label.py:169-177 | a file renamed from "docs/old.md" to "src/new.ts" still counts when "docs/*" is ignored |
| Scenarios.ThreeRequests | size_label.py:152-183 | pages of 100, 100 and 50 records take three requests and sum all three pages |
| Scenarios.FullLastPageNeedsOneMoreRequest | size_label.py:166-183 | two full pages take a third request, which comes back empty |
| Scenarios.SmallPullRequest | size_label.py:145-196 | three files with 5, 12 and 4 changes, no rules and the default table: 21 lines, one request, label "size/S" |

## Left out

- HTTP and the environment are not modelled. That covers `github_request`, the POST of the label, `require_env`, the `os.environ` reads, the `debug`/`err` output and reading the event file. The upstream listing is a given sequence of pages, and the label write is represented by the `Report` a successful run returns.
- JSON decoding of the event, the sizes and the listing is a library call. Only the default table of `load_sizes_config` is kept. Custom tables are given directly as (key, label) pairs.
- The event-action filter and the pull-request context checks (size_label.py:132-143) are left out. They are dictionary lookups and a membership test in a three-element set.
- Glob.Match: the model is POSIX `fnmatch.fnmatchcase`. `fnmatch` first applies `os.path.normcase` to the name and the pattern; on Windows that makes matching case-insensitive and turns `/` into `\`, so `Glob.MatchSelf` and `Glob.LiteralMatchIff` describe the POSIX behaviour only. Character classes `[seq]` and `[!seq]` are not modelled either; '[' and ']' match themselves. Only `*` and `?` are wildcards.
- Numbers.ParseInt: Python's `int()` also accepts surrounding whitespace, underscores between digits and non-ASCII digits; the model accepts an optional sign and ASCII digits only. In the other direction, CPython 3.11 and later (and the matching security releases) raise `ValueError` for a decimal string of more than 4300 digits, so `compute_label` skips such a key; the model parses it, since the limit depends on the interpreter version and its configuration (`sys.set_int_max_str_digits`).
- Text.SplitLines: only the line feed ends a line. Python's `splitlines` also splits on carriage returns and other separators. A carriage return before a line feed is removed by `Strip` anyway.
- The check at line 176 that `changes` is an integer is modelled as `changes: Option<int>`. Python's `bool` counting as `int` there is not modelled.
