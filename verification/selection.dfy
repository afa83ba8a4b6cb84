/** Order-preserving filter-and-map over sequences, with the index
    bookkeeping that says which input produced which output. */
module Selection {
  /** Keeps the elements satisfying `keep`, in order, each transformed by `f`. */
  function FilterMap<T, U>(s: seq<T>, keep: T -> bool, f: T -> U): (r: seq<U>)
    ensures |r| <= |s|
  {
    if |s| == 0 then [] else (if keep(s[0]) then [f(s[0])] else []) + FilterMap(s[1..], keep, f)
  }

  /** Output `k` comes from a kept input at position `idx[k]`. */
  ghost predicate EntriesFrom<T, U>(s: seq<T>, keep: T -> bool, f: T -> U, r: seq<U>, idx: seq<int>) {
    && |idx| == |r|
    && forall k :: 0 <= k < |idx| ==> 0 <= idx[k] < |s| && keep(s[idx[k]]) && r[k] == f(s[idx[k]])
  }

  ghost predicate Increasing(idx: seq<int>) {
    forall i, j :: 0 <= i < j < |idx| ==> idx[i] < idx[j]
  }

  /** Every kept input position is listed in `idx`. */
  ghost predicate CoversKept<T>(s: seq<T>, keep: T -> bool, idx: seq<int>) {
    forall j :: 0 <= j < |s| && keep(s[j]) ==> j in idx
  }

  /** `idx` lists, in increasing order, exactly the kept positions of `s`,
      and `r[k]` is `f` of the input at position `idx[k]`. */
  ghost predicate Selects<T, U>(s: seq<T>, keep: T -> bool, f: T -> U, r: seq<U>, idx: seq<int>) {
    EntriesFrom(s, keep, f, r, idx) && Increasing(idx) && CoversKept(s, keep, idx)
  }

  /** Every index moved one position to the right. */
  function Shift(idx: seq<int>): (r: seq<int>)
    ensures |r| == |idx|
    ensures forall k :: 0 <= k < |idx| ==> r[k] == idx[k] + 1
  {
    if |idx| == 0 then [] else [idx[0] + 1] + Shift(idx[1..])
  }

  lemma SelectsShift<T, U>(s: seq<T>, keep: T -> bool, f: T -> U, tr: seq<U>, tidx: seq<int>)
    requires |s| > 0
    requires Selects(s[1..], keep, f, tr, tidx)
    ensures EntriesFrom(s, keep, f, tr, Shift(tidx))
    ensures Increasing(Shift(tidx))
    ensures forall k :: 0 <= k < |tidx| ==> Shift(tidx)[k] > 0
    ensures forall j :: 0 < j < |s| && keep(s[j]) ==> j in Shift(tidx)
  {
    var tail := s[1..];
    var sh := Shift(tidx);
    forall k | 0 <= k < |sh|
      ensures 0 < sh[k] < |s| && keep(s[sh[k]]) && tr[k] == f(s[sh[k]])
    {
      assert s[sh[k]] == tail[tidx[k]];
    }
    forall j | 0 < j < |s| && keep(s[j]) ensures j in sh {
      assert tail[j - 1] == s[j];
      assert j - 1 in tidx;
      var k :| 0 <= k < |tidx| && tidx[k] == j - 1;
      assert sh[k] == j;
    }
  }

  lemma KeepEntries<T, U>(s: seq<T>, keep: T -> bool, f: T -> U, tr: seq<U>, tidx: seq<int>)
    requires |s| > 0 && keep(s[0])
    requires EntriesFrom(s, keep, f, tr, Shift(tidx))
    ensures EntriesFrom(s, keep, f, [f(s[0])] + tr, [0] + Shift(tidx))
  {
    var sh := Shift(tidx);
    var idx := [0] + sh;
    var r := [f(s[0])] + tr;
    forall k | 0 < k < |idx| ensures idx[k] == sh[k - 1] && r[k] == tr[k - 1] { }
  }

  lemma KeepIncreasing(sh: seq<int>)
    requires Increasing(sh)
    requires forall k :: 0 <= k < |sh| ==> sh[k] > 0
    ensures Increasing([0] + sh)
  {
    var idx := [0] + sh;
    forall i, j | 0 <= i < j < |idx| ensures idx[i] < idx[j] {
      assert idx[j] == sh[j - 1];
      if i > 0 {
        assert idx[i] == sh[i - 1];
      }
    }
  }

  lemma KeepCovers<T>(s: seq<T>, keep: T -> bool, tidx: seq<int>)
    requires forall j :: 0 < j < |s| && keep(s[j]) ==> j in Shift(tidx)
    ensures CoversKept(s, keep, [0] + Shift(tidx))
  {
    var idx := [0] + Shift(tidx);
    forall j | 0 <= j < |s| && keep(s[j]) ensures j in idx {
      if j > 0 {
        assert j in Shift(tidx);
        var k :| 0 <= k < |Shift(tidx)| && Shift(tidx)[k] == j;
        assert idx[k + 1] == j;
      }
    }
  }

  lemma SelectsKeep<T, U>(s: seq<T>, keep: T -> bool, f: T -> U, tr: seq<U>, tidx: seq<int>)
    requires |s| > 0 && keep(s[0])
    requires Selects(s[1..], keep, f, tr, tidx)
    ensures Selects(s, keep, f, [f(s[0])] + tr, [0] + Shift(tidx))
  {
    SelectsShift(s, keep, f, tr, tidx);
    KeepEntries(s, keep, f, tr, tidx);
    KeepIncreasing(Shift(tidx));
    KeepCovers(s, keep, tidx);
  }

  lemma SelectsSkip<T, U>(s: seq<T>, keep: T -> bool, f: T -> U, tr: seq<U>, tidx: seq<int>)
    requires |s| > 0 && !keep(s[0])
    requires Selects(s[1..], keep, f, tr, tidx)
    ensures Selects(s, keep, f, tr, Shift(tidx))
  {
    SelectsShift(s, keep, f, tr, tidx);
  }

  /** The output of `FilterMap` is the image of exactly the kept inputs, in input order. */
  lemma {:induction false} FilterMapSelects<T, U>(s: seq<T>, keep: T -> bool, f: T -> U)
    ensures exists idx :: Selects(s, keep, f, FilterMap(s, keep, f), idx)
  {
    if |s| == 0 {
      assert FilterMap(s, keep, f) == [];
      assert Selects(s, keep, f, [], []);
    } else {
      var tail := s[1..];
      FilterMapSelects(tail, keep, f);
      var tidx :| Selects(tail, keep, f, FilterMap(tail, keep, f), tidx);
      if keep(s[0]) {
        SelectsKeep(s, keep, f, FilterMap(tail, keep, f), tidx);
        assert FilterMap(s, keep, f) == [f(s[0])] + FilterMap(tail, keep, f);
      } else {
        SelectsSkip(s, keep, f, FilterMap(tail, keep, f), tidx);
        assert FilterMap(s, keep, f) == FilterMap(tail, keep, f);
      }
    }
  }

  /** Filtering a concatenation filters each part on its own. */
  lemma {:induction false} FilterMapAppend<T, U>(a: seq<T>, b: seq<T>, keep: T -> bool, f: T -> U)
    ensures FilterMap(a + b, keep, f) == FilterMap(a, keep, f) + FilterMap(b, keep, f)
  {
    if |a| > 0 {
      assert (a + b)[0] == a[0];
      assert (a + b)[1..] == a[1..] + b;
      FilterMapAppend(a[1..], b, keep, f);
    } else {
      assert a + b == b;
    }
  }
}
