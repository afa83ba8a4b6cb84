/** `compute_label` and the default table of `load_sizes_config`: the label of
    the greatest threshold not above the number of changed lines. */
module Thresholds {
  import opened Wrappers
  import opened Numbers

  /** A parsed table entry: (threshold, label), compared like a Python tuple. */
  type Threshold = (int, string)

  /** Python's `a <= b` on strings: code point by code point, a proper prefix first. */
  predicate StrLe(a: string, b: string) {
    if |a| == 0 then true
    else if |b| == 0 then false
    else if a[0] != b[0] then a[0] < b[0]
    else StrLe(a[1..], b[1..])
  }

  lemma StrLeReflexive(a: string)
    ensures StrLe(a, a)
  {
  }

  lemma StrLeTotal(a: string, b: string)
    ensures StrLe(a, b) || StrLe(b, a)
  {
  }

  lemma StrLeAntisymmetric(a: string, b: string)
    requires StrLe(a, b) && StrLe(b, a)
    ensures a == b
  {
    if |a| > 0 && |b| > 0 {
      StrLeAntisymmetric(a[1..], b[1..]);
      assert a == [a[0]] + a[1..] && b == [b[0]] + b[1..];
    }
  }

  lemma StrLeTransitive(a: string, b: string, c: string)
    requires StrLe(a, b) && StrLe(b, c)
    ensures StrLe(a, c)
  {
    if |a| > 0 && |b| > 0 && |c| > 0 && a[0] == b[0] && b[0] == c[0] {
      StrLeTransitive(a[1..], b[1..], c[1..]);
    }
  }

  /** Python's `<=` on `(int, str)` tuples. */
  predicate ThresholdLe(x: Threshold, y: Threshold) {
    x.0 < y.0 || (x.0 == y.0 && StrLe(x.1, y.1))
  }

  lemma ThresholdLeReflexive(x: Threshold)
    ensures ThresholdLe(x, x)
  {
    StrLeReflexive(x.1);
  }

  lemma ThresholdLeTotal(x: Threshold, y: Threshold)
    ensures ThresholdLe(x, y) || ThresholdLe(y, x)
  {
    StrLeTotal(x.1, y.1);
  }

  lemma ThresholdLeAntisymmetric(x: Threshold, y: Threshold)
    requires ThresholdLe(x, y) && ThresholdLe(y, x)
    ensures x == y
  {
    StrLeAntisymmetric(x.1, y.1);
  }

  lemma ThresholdLeTransitive(x: Threshold, y: Threshold, z: Threshold)
    requires ThresholdLe(x, y) && ThresholdLe(y, z)
    ensures ThresholdLe(x, z)
  {
    if x.0 == y.0 == z.0 {
      StrLeTransitive(x.1, y.1, z.1);
    }
  }

  ghost predicate Sorted(s: seq<Threshold>) {
    forall i, j :: 0 <= i < j < |s| ==> ThresholdLe(s[i], s[j])
  }

  /** A pair at most the head of a sorted sequence can go in front of it. */
  lemma PrependSmallest(x: Threshold, s: seq<Threshold>)
    requires Sorted(s) && |s| > 0 && ThresholdLe(x, s[0])
    ensures Sorted([x] + s)
  {
    forall j | 0 <= j < |s| ensures ThresholdLe(x, s[j]) {
      if j > 0 { ThresholdLeTransitive(x, s[0], s[j]); }
    }
    PrependBelowAll(x, s);
  }

  /** A pair at most every element of a sorted sequence can go in front of it. */
  lemma PrependBelowAll(x: Threshold, s: seq<Threshold>)
    requires Sorted(s)
    requires forall j :: 0 <= j < |s| ==> ThresholdLe(x, s[j])
    ensures Sorted([x] + s)
  {
    var r := [x] + s;
    forall i, j | 0 <= i < j < |r| ensures ThresholdLe(r[i], r[j]) {
      assert r[j] == s[j - 1];
      if i > 0 { assert r[i] == s[i - 1]; }
    }
  }

  function Insert(x: Threshold, s: seq<Threshold>): (r: seq<Threshold>)
    requires Sorted(s)
    ensures Sorted(r)
    ensures multiset(r) == multiset(s) + multiset{x}
  {
    if |s| == 0 then [x]
    else if ThresholdLe(x, s[0]) then
      assert Sorted([x] + s) by { PrependSmallest(x, s); }
      [x] + s
    else
      var t := Insert(x, s[1..]);
      assert s == [s[0]] + s[1..];
      assert Sorted([s[0]] + t) by {
        ThresholdLeTotal(x, s[0]);
        forall j | 0 <= j < |t| ensures ThresholdLe(s[0], t[j]) {
          assert t[j] in multiset(t);
          assert t[j] == x || t[j] in multiset(s[1..]);
          if t[j] != x {
            var k :| 0 <= k < |s| - 1 && s[1..][k] == t[j];
            assert s[k + 1] == t[j];
          }
        }
        PrependBelowAll(s[0], t);
      }
      [s[0]] + t
  }

  /** `thresholds.sort()`: ascending tuple order, same entries. */
  function SortThresholds(s: seq<Threshold>): (r: seq<Threshold>)
    ensures Sorted(r)
    ensures multiset(r) == multiset(s)
  {
    if |s| == 0 then []
    else
      assert s == [s[0]] + s[1..];
      Insert(s[0], SortThresholds(s[1..]))
  }

  /** The first loop of `compute_label`: table entries whose key parses, in table order. */
  function ParseTable(table: seq<(string, string)>): (r: seq<Threshold>)
    ensures |r| <= |table|
    ensures |r| == |table| <==> forall i :: 0 <= i < |table| ==> ParseInt(table[i].0).Some?
  {
    if |table| == 0 then []
    else
      var rest := ParseTable(table[1..]);
      assert (forall i :: 0 <= i < |table| ==> ParseInt(table[i].0).Some?) <==>
        ParseInt(table[0].0).Some? && forall i :: 0 <= i < |table[1..]| ==> ParseInt(table[1..][i].0).Some? by {
        assert forall i :: 0 <= i < |table[1..]| ==> table[1..][i] == table[i + 1];
      }
      match ParseInt(table[0].0)
      case Some(n) => [(n, table[0].1)] + rest
      case None => rest
  }

  /** Entry `i` of the table, once parsed, is `x`. */
  predicate ParsesTo(table: seq<(string, string)>, i: int, x: Threshold) {
    0 <= i < |table| && ParseInt(table[i].0) == Some(x.0) && table[i].1 == x.1
  }

  /** The parsed table holds exactly the entries whose key parses. */
  lemma {:induction false} ParseTableMembers(table: seq<(string, string)>, x: Threshold)
    ensures x in ParseTable(table) <==> exists i :: ParsesTo(table, i, x)
  {
    if |table| > 0 {
      var tail := table[1..];
      ParseTableMembers(tail, x);
      assert x in ParseTable(table) <==> ParsesTo(table, 0, x) || x in ParseTable(tail);
      if exists i :: ParsesTo(tail, i, x) {
        var i :| ParsesTo(tail, i, x);
        assert ParsesTo(table, i + 1, x);
      }
      if exists i :: ParsesTo(table, i, x) {
        var i :| ParsesTo(table, i, x);
        if i > 0 {
          assert ParsesTo(tail, i - 1, x);
        }
      }
    }
  }

  /** `r` is the last entry of `ts` whose threshold is at most `changed`,
      or `held` when there is no such entry. */
  ghost predicate IsLastMet(ts: seq<Threshold>, changed: int, held: Option<Threshold>, r: Option<Threshold>) {
    && ((forall i :: 0 <= i < |ts| ==> changed < ts[i].0) ==> r == held)
    && ((exists i :: 0 <= i < |ts| && ts[i].0 <= changed) ==>
          exists i :: 0 <= i < |ts| && ts[i].0 <= changed && r == Some(ts[i]) &&
            forall j :: i < j < |ts| ==> changed < ts[j].0)
  }

  /** The second loop of `compute_label`: walking left to right, each entry
      whose threshold is at most `changed` replaces the label held so far. */
  function LastMet(ts: seq<Threshold>, changed: int, held: Option<Threshold>): (r: Option<Threshold>)
    ensures IsLastMet(ts, changed, held, r)
  {
    if |ts| == 0 then held
    else
      var next := if ts[0].0 <= changed then Some(ts[0]) else held;
      var r := LastMet(ts[1..], changed, next);
      assert IsLastMet(ts, changed, held, r) by { LastMetStep(ts, changed, held, r); }
      r
  }

  /** One step of the walk: the result for the tail, with the first entry
      folded into the held label, is the result for the whole sequence. */
  lemma LastMetStep(ts: seq<Threshold>, changed: int, held: Option<Threshold>, r: Option<Threshold>)
    requires |ts| > 0
    requires IsLastMet(ts[1..], changed, if ts[0].0 <= changed then Some(ts[0]) else held, r)
    ensures IsLastMet(ts, changed, held, r)
  {
    var tail := ts[1..];
    if exists i :: 1 <= i < |ts| && ts[i].0 <= changed {
      var i :| 1 <= i < |ts| && ts[i].0 <= changed;
      assert tail[i - 1] == ts[i];
      var k :| 0 <= k < |tail| && tail[k].0 <= changed && r == Some(tail[k]) &&
        forall j :: k < j < |tail| ==> changed < tail[j].0;
      assert r == Some(ts[k + 1]);
      forall j | k + 1 < j < |ts| ensures changed < ts[j].0 {
        assert ts[j] == tail[j - 1];
      }
    } else {
      forall i | 0 <= i < |tail| ensures changed < tail[i].0 {
        assert tail[i] == ts[i + 1];
      }
    }
  }

  /** `x` is met by `changed`, and every met entry is at most `x` in tuple order. */
  ghost predicate GreatestMet(changed: int, ts: seq<Threshold>, x: Threshold) {
    x in ts && x.0 <= changed && forall y :: y in ts && y.0 <= changed ==> ThresholdLe(y, x)
  }

  /** The entry `compute_label` settles on: the greatest met (threshold, label)
      pair of the parsed table, or none when every threshold exceeds `changed`. */
  function SelectThreshold(changed: int, table: seq<(string, string)>): (r: Option<Threshold>)
    ensures r.None? <==> forall x :: x in ParseTable(table) ==> changed < x.0
    ensures r.Some? ==> GreatestMet(changed, ParseTable(table), r.value)
  {
    SelectFrom(changed, ParseTable(table))
  }

  /** Sorting the parsed entries and walking them, as `compute_label` does. */
  function SelectFrom(changed: int, parsed: seq<Threshold>): (r: Option<Threshold>)
    ensures r.None? <==> forall x :: x in parsed ==> changed < x.0
    ensures r.Some? ==> GreatestMet(changed, parsed, r.value)
  {
    var sorted := SortThresholds(parsed);
    var r := LastMet(sorted, changed, None);
    assert (r.None? <==> forall x :: x in parsed ==> changed < x.0)
      && (r.Some? ==> GreatestMet(changed, parsed, r.value)) by {
      LastMetOfSorted(sorted, changed, r);
      SameElements(parsed, sorted);
    }
    r
  }

  /** Walking a sorted sequence ends on its greatest met entry. */
  lemma LastMetOfSorted(sorted: seq<Threshold>, changed: int, r: Option<Threshold>)
    requires Sorted(sorted)
    requires IsLastMet(sorted, changed, None, r)
    ensures r.None? <==> forall x :: x in sorted ==> changed < x.0
    ensures r.Some? ==> GreatestMet(changed, sorted, r.value)
  {
    if r.Some? {
      var i :| 0 <= i < |sorted| && sorted[i].0 <= changed && r == Some(sorted[i]) &&
        forall j :: i < j < |sorted| ==> changed < sorted[j].0;
      forall y | y in sorted && y.0 <= changed ensures ThresholdLe(y, r.value) {
        var j :| 0 <= j < |sorted| && sorted[j] == y;
        if j == i { ThresholdLeReflexive(y); }
      }
    } else {
      forall x | x in sorted ensures changed < x.0 {
        var j :| 0 <= j < |sorted| && sorted[j] == x;
      }
    }
  }

  /** Sequences with the same multiset have the same members. */
  lemma SameElements<T>(a: seq<T>, b: seq<T>)
    requires multiset(a) == multiset(b)
    ensures forall x :: x in a <==> x in b
  {
    assert forall x :: x in a <==> x in multiset(a);
    assert forall x :: x in b <==> x in multiset(b);
  }

  /** `compute_label(changed, sizes)`: "size/" and the label of the greatest
      met threshold, or `None` when no threshold is met. */
  function ComputeLabel(changed: int, table: seq<(string, string)>): (r: Option<string>)
    ensures r.None? <==> forall x :: x in ParseTable(table) ==> changed < x.0
    ensures r.Some? ==> exists x :: GreatestMet(changed, ParseTable(table), x) && r.value == "size/" + x.1
  {
    match SelectThreshold(changed, table)
    case Some(x) => Some("size/" + x.1)
    case None => None
  }

  /** Every computed label is "size/" followed by a table label. */
  lemma LabelPrefix(changed: int, table: seq<(string, string)>)
    ensures ComputeLabel(changed, table).Some? ==>
      |ComputeLabel(changed, table).value| >= 5 && ComputeLabel(changed, table).value[..5] == "size/"
  {
  }

  /** At most one entry is the greatest met one. */
  lemma GreatestMetUnique(changed: int, ts: seq<Threshold>, x: Threshold, y: Threshold)
    requires GreatestMet(changed, ts, x) && GreatestMet(changed, ts, y)
    ensures x == y
  {
    ThresholdLeAntisymmetric(x, y);
  }

  /** Two tables whose parseable entries agree select the same entry: neither
      the table order nor keys that do not parse make a difference. */
  lemma SelectDependsOnParsedEntries(changed: int, t1: seq<(string, string)>, t2: seq<(string, string)>)
    requires forall x :: x in ParseTable(t1) <==> x in ParseTable(t2)
    ensures SelectThreshold(changed, t1) == SelectThreshold(changed, t2)
  {
    var r1 := SelectThreshold(changed, t1);
    var r2 := SelectThreshold(changed, t2);
    if r1.Some? && r2.Some? {
      GreatestMetUnique(changed, ParseTable(t1), r1.value, r2.value);
    }
  }

  /** Parsing a concatenated table parses each part on its own. */
  lemma {:induction false} ParseTableAppend(a: seq<(string, string)>, b: seq<(string, string)>)
    ensures ParseTable(a + b) == ParseTable(a) + ParseTable(b)
  {
    if |a| == 0 {
      assert a + b == b;
    } else {
      assert (a + b)[0] == a[0];
      assert (a + b)[1..] == a[1..] + b;
      ParseTableAppend(a[1..], b);
    }
  }

  /** A key that does not parse is as good as absent, wherever it stands. */
  lemma UnparseableKeyIgnored(changed: int, front: seq<(string, string)>, back: seq<(string, string)>, key: string, size: string)
    requires ParseInt(key).None?
    ensures ComputeLabel(changed, front + [(key, size)] + back) == ComputeLabel(changed, front + back)
  {
    UnparseableKeyDropped(front, back, key, size);
  }

  /** Inserting an entry whose key does not parse leaves the parsed table unchanged. */
  lemma UnparseableKeyDropped(front: seq<(string, string)>, back: seq<(string, string)>, key: string, size: string)
    requires ParseInt(key).None?
    ensures ParseTable(front + [(key, size)] + back) == ParseTable(front + back)
  {
    var mid := [(key, size)];
    assert ParseTable(mid) == [] by {
      assert mid[1..] == [];
    }
    assert ParseTable(front + mid) == ParseTable(front) by {
      ParseTableAppend(front, mid);
    }
    assert ParseTable(front + mid + back) == ParseTable(front + mid) + ParseTable(back) by {
      ParseTableAppend(front + mid, back);
    }
    ParseTableAppend(front, back);
  }

  /** Reordering the table does not change the label. */
  lemma TableOrderIrrelevant(changed: int, t1: seq<(string, string)>, t2: seq<(string, string)>)
    requires multiset(t1) == multiset(t2)
    ensures ComputeLabel(changed, t1) == ComputeLabel(changed, t2)
  {
    forall x ensures x in ParseTable(t1) <==> x in ParseTable(t2) {
      ParseTableMembers(t1, x);
      ParseTableMembers(t2, x);
      SameElements(t1, t2);
      if exists i :: ParsesTo(t1, i, x) {
        var j :| ParsesTo(t1, j, x);
        assert t1[j] in t2;
        var k :| 0 <= k < |t2| && t2[k] == t1[j];
        assert ParsesTo(t2, k, x);
      }
      if exists i :: ParsesTo(t2, i, x) {
        var j :| ParsesTo(t2, j, x);
        assert t2[j] in t1;
        var k :| 0 <= k < |t1| && t1[k] == t2[j];
        assert ParsesTo(t1, k, x);
      }
    }
    SelectDependsOnParsedEntries(changed, t1, t2);
  }

  /** More changed lines never select a lower threshold, nor lose the label. */
  lemma SelectMonotone(a: int, b: int, table: seq<(string, string)>)
    requires a <= b
    ensures SelectThreshold(a, table).Some? ==>
      SelectThreshold(b, table).Some? && SelectThreshold(a, table).value.0 <= SelectThreshold(b, table).value.0
  {
  }

  /** The table `load_sizes_config` falls back to when no sizes are configured. */
  const DefaultSizes: seq<(string, string)> :=
    [("0", "XS"), ("10", "S"), ("30", "M"), ("100", "L"), ("500", "XL"), ("1000", "XXL")]

  /** The documented buckets of the default table. */
  function DefaultBucket(n: nat): string {
    if n < 10 then "XS"
    else if n < 30 then "S"
    else if n < 100 then "M"
    else if n < 500 then "L"
    else if n < 1000 then "XL"
    else "XXL"
  }

  lemma DefaultTableParsed()
    ensures ParseTable(DefaultSizes) == [(0, "XS"), (10, "S"), (30, "M"), (100, "L"), (500, "XL"), (1000, "XXL")]
  {
    DefaultKeysParse();
    var t := DefaultSizes;
    assert t[1..][1..][1..][1..][1..][1..] == [];
  }

  lemma DefaultKeysParse()
    ensures ParseInt("0") == Some(0) && ParseInt("10") == Some(10) && ParseInt("30") == Some(30)
    ensures ParseInt("100") == Some(100) && ParseInt("500") == Some(500) && ParseInt("1000") == Some(1000)
  {
    assert ParseInt("0") == Some(0);
    assert ParseInt("10") == Some(10) by { assert "10"[..1] == "1"; }
    assert ParseInt("30") == Some(30) by { assert "30"[..1] == "3"; }
    assert ParseInt("100") == Some(100) by { assert "100"[..2] == "10"; assert "10"[..1] == "1"; }
    assert ParseInt("500") == Some(500) by { assert "500"[..2] == "50"; assert "50"[..1] == "5"; }
    assert ParseInt("1000") == Some(1000) by {
      assert "1000"[..3] == "100"; assert "100"[..2] == "10"; assert "10"[..1] == "1";
    }
  }

  /** With the default table: 0-9 lines is XS, 10-29 S, 30-99 M, 100-499 L,
      500-999 XL, and 1000 or more XXL. */
  lemma DefaultTableBuckets(n: nat)
    ensures ComputeLabel(n, DefaultSizes) == Some("size/" + DefaultBucket(n))
  {
    DefaultTableParsed();
    DefaultBucketsOf(n, DefaultSizes);
  }

  /** One of the six entries of the parsed default table. */
  predicate IsDefaultEntry(x: Threshold) {
    || x == (0, "XS") || x == (10, "S") || x == (30, "M")
    || x == (100, "L") || x == (500, "XL") || x == (1000, "XXL")
  }

  lemma DefaultBucketsOf(n: nat, table: seq<(string, string)>)
    requires forall x :: x in ParseTable(table) <==> IsDefaultEntry(x)
    ensures ComputeLabel(n, table) == Some("size/" + DefaultBucket(n))
  {
    var expected := (if n < 10 then 0 else if n < 30 then 10 else if n < 100 then 30
      else if n < 500 then 100 else if n < 1000 then 500 else 1000, DefaultBucket(n));
    assert IsDefaultEntry(expected);
    var x := SelectThreshold(n, table).value;
    assert IsDefaultEntry(x);
    assert ThresholdLe(expected, x);
    assert x == expected;
  }

  /** A negative count meets no threshold of the default table. */
  lemma DefaultTableNegative(n: int)
    requires n < 0
    ensures ComputeLabel(n, DefaultSizes) == None
  {
    DefaultTableParsed();
    NoneBelowZero(n, DefaultSizes);
  }

  lemma NoneBelowZero(n: int, table: seq<(string, string)>)
    requires n < 0
    requires forall x :: x in ParseTable(table) <==> IsDefaultEntry(x)
    ensures ComputeLabel(n, table) == None
  {
    forall x | x in ParseTable(table) ensures n < x.0 {
      assert IsDefaultEntry(x);
    }
  }

  /** Two keys naming the same met threshold tie; the tie is broken by the
      label, as the tuple sort does, so the label that sorts last wins
      whatever the table order. */
  lemma EqualThresholdsTieOnLabel(changed: int, k1: string, v1: string, k2: string, v2: string)
    requires ParseInt(k1).Some? && ParseInt(k2) == ParseInt(k1)
    requires ParseInt(k1).value <= changed && StrLe(v1, v2)
    ensures ComputeLabel(changed, [(k1, v1), (k2, v2)]) == Some("size/" + v2)
    ensures ComputeLabel(changed, [(k2, v2), (k1, v1)]) == Some("size/" + v2)
  {
    var t := ParseInt(k1).value;
    PairMembers(k1, v1, k2, v2, t);
    TieWinner(changed, [(k1, v1), (k2, v2)], t, v1, v2);
    PairMembers(k2, v2, k1, v1, t);
    TieWinner(changed, [(k2, v2), (k1, v1)], t, v1, v2);
  }

  /** The parsed pairs of a two-entry table whose keys both parse to `t`. */
  lemma PairMembers(k1: string, v1: string, k2: string, v2: string, t: int)
    requires ParseInt(k1) == Some(t) && ParseInt(k2) == Some(t)
    ensures forall x :: x in ParseTable([(k1, v1), (k2, v2)]) <==> x == (t, v1) || x == (t, v2)
  {
    ParseTwo(k1, v1, k2, v2);
  }

  /** A table whose parsed entries are (t, v1) and (t, v2), with t met and
      v1 not after v2, is labelled with v2. */
  lemma TieWinner(changed: int, table: seq<(string, string)>, t: int, v1: string, v2: string)
    requires forall x :: x in ParseTable(table) <==> x == (t, v1) || x == (t, v2)
    requires t <= changed && StrLe(v1, v2)
    ensures ComputeLabel(changed, table) == Some("size/" + v2)
  {
    var b: Threshold := (t, v2);
    assert b in ParseTable(table);
    var r := SelectThreshold(changed, table);
    assert ThresholdLe(b, r.value);
    if r.value != b {
      StrLeAntisymmetric(v1, v2);
    }
  }

  /** The parsed form of a two-entry table whose keys both parse. */
  lemma ParseTwo(k1: string, v1: string, k2: string, v2: string)
    requires ParseInt(k1).Some? && ParseInt(k2).Some?
    ensures ParseTable([(k1, v1), (k2, v2)]) == [(ParseInt(k1).value, v1), (ParseInt(k2).value, v2)]
  {
    var t := [(k1, v1), (k2, v2)];
    assert t[1..] == [(k2, v2)];
    assert t[1..][1..] == [];
  }

  /** "10" and "010" are such keys: with labels "A" and "B", "B" wins. */
  lemma LeadingZeroKeysTie()
    ensures ComputeLabel(10, [("10", "A"), ("010", "B")]) == Some("size/B")
  {
    TenKeys();
    assert StrLe("A", "B");
    EqualThresholdsTieOnLabel(10, "10", "A", "010", "B");
    assert "size/" + "B" == "size/B";
  }

  /** "10" parses to 10, and so does "010" since a leading zero is ignored. */
  lemma TenKeys()
    ensures ParseInt("10") == Some(10) && ParseInt("010") == Some(10)
  {
    assert ParseInt("10") == Some(10) by {
      assert "10"[..1] == "1";
      assert AllDigits("10") && DigitsValue("10") == 10;
    }
    assert "0" + "10" == "010";
    LeadingZeroIgnored("10");
  }
}
