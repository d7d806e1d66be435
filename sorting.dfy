/**
 * The two orders the report lists its totals in: `sorted(d.items(),
 * key=lambda x: -x[1])` for the project and task totals (largest first, ties
 * in dict order, since Python's sort is stable), and `sorted(d.items())` for
 * the day and week summaries (by label; the labels of a dict are distinct, so
 * the amounts are never compared).
 */
module Sorting {
  import opened Text

  /** Largest amount first. */
  ghost predicate Descending<K>(s: seq<(K, int)>) {
    forall i, j :: 0 <= i < j < |s| ==> s[i].1 >= s[j].1
  }

  /** The items of `s` with amount `v`, in their order in `s`. */
  function WithAmount<K>(s: seq<(K, int)>, v: int): (r: seq<(K, int)>)
    ensures |r| <= |s|
  {
    if s == [] then []
    else (if s[0].1 == v then [s[0]] else []) + WithAmount(s[1..], v)
  }

  /** Puts `x` before the first item whose amount is not larger. */
  function InsertDesc<K>(x: (K, int), s: seq<(K, int)>): (r: seq<(K, int)>)
    ensures multiset(r) == multiset([x] + s)
  {
    if s == [] || x.1 >= s[0].1 then [x] + s
    else
      assert multiset([x] + s) == multiset([s[0]] + ([x] + s[1..])) by {
        assert s == [s[0]] + s[1..];
      }
      [s[0]] + InsertDesc(x, s[1..])
  }

  /** The stable sort by descending amount. */
  function SortDesc<K>(s: seq<(K, int)>): (r: seq<(K, int)>)
    ensures multiset(r) == multiset(s)
  {
    if s == [] then []
    else
      assert s == [s[0]] + s[1..];
      InsertDesc(s[0], SortDesc(s[1..]))
  }

  lemma {:induction false} InsertDescSorted<K>(x: (K, int), s: seq<(K, int)>)
    requires Descending(s)
    ensures Descending(InsertDesc(x, s))
  {
    if s != [] && x.1 < s[0].1 {
      InsertDescSorted(x, s[1..]);
      InsertDescBelow(x, s[1..], s[0].1);
    }
  }

  /** Inserting an item no larger than `b` into items no larger than `b` keeps them all no larger. */
  lemma {:induction false} InsertDescBelow<K>(x: (K, int), s: seq<(K, int)>, b: int)
    requires x.1 <= b
    requires forall k :: 0 <= k < |s| ==> s[k].1 <= b
    ensures forall k :: 0 <= k < |InsertDesc(x, s)| ==> InsertDesc(x, s)[k].1 <= b
  {
    if s != [] && x.1 < s[0].1 {
      InsertDescBelow(x, s[1..], b);
    }
  }

  lemma {:induction false} InsertDescStable<K>(x: (K, int), s: seq<(K, int)>, v: int)
    ensures WithAmount(InsertDesc(x, s), v) == WithAmount([x] + s, v)
  {
    if s != [] && x.1 < s[0].1 {
      var r := InsertDesc(x, s);
      InsertDescStable(x, s[1..], v);
      assert r[1..] == InsertDesc(x, s[1..]);
      assert ([x] + s)[1..] == s;
      assert ([s[0]] + ([x] + s[1..]))[1..] == [x] + s[1..];
      assert (([x] + s[1..]))[1..] == s[1..];
    }
  }

  /** The result is ordered largest first and is a rearrangement of the items. */
  lemma {:induction false} SortDescSorted<K>(s: seq<(K, int)>)
    ensures Descending(SortDesc(s))
    ensures multiset(SortDesc(s)) == multiset(s)
  {
    if s != [] {
      SortDescSorted(s[1..]);
      InsertDescSorted(s[0], SortDesc(s[1..]));
    }
  }

  /** Stability: items with equal amounts keep their relative order. */
  lemma {:induction false} SortDescStable<K>(s: seq<(K, int)>, v: int)
    ensures WithAmount(SortDesc(s), v) == WithAmount(s, v)
  {
    if s != [] {
      SortDescStable(s[1..], v);
      InsertDescStable(s[0], SortDesc(s[1..]), v);
      assert ([s[0]] + SortDesc(s[1..]))[1..] == SortDesc(s[1..]);
    }
  }

  /** Labels in ascending string order, ties allowed. */
  ghost predicate Ascending(s: seq<(string, int)>) {
    forall i, j :: 0 <= i < j < |s| ==> !Less(s[j].0, s[i].0)
  }

  /** Puts `x` before the first item whose label is not smaller. */
  function InsertKey(x: (string, int), s: seq<(string, int)>): (r: seq<(string, int)>)
    ensures multiset(r) == multiset([x] + s)
  {
    if s == [] || !Less(s[0].0, x.0) then [x] + s
    else
      assert multiset([x] + s) == multiset([s[0]] + ([x] + s[1..])) by {
        assert s == [s[0]] + s[1..];
      }
      [s[0]] + InsertKey(x, s[1..])
  }

  /** `sorted(d.items())` on items with distinct labels. */
  function SortByKey(s: seq<(string, int)>): (r: seq<(string, int)>)
    ensures multiset(r) == multiset(s)
  {
    if s == [] then []
    else
      assert s == [s[0]] + s[1..];
      InsertKey(s[0], SortByKey(s[1..]))
  }

  lemma {:induction false} InsertKeySorted(x: (string, int), s: seq<(string, int)>)
    requires Ascending(s)
    ensures Ascending(InsertKey(x, s))
  {
    var r := InsertKey(x, s);
    if s == [] || !Less(s[0].0, x.0) {
      forall j | 1 < j < |r| ensures !Less(r[j].0, x.0) {
        var y := r[j].0;
        assert y == s[j - 1].0 && !Less(y, s[0].0);
        LessTotal(s[0].0, y);
        if Less(s[0].0, y) && Less(y, x.0) {
          LessTransitive(s[0].0, y, x.0);
        }
      }
    } else {
      var t := InsertKey(x, s[1..]);
      InsertKeySorted(x, s[1..]);
      forall k | 0 <= k < |t| ensures !Less(t[k].0, s[0].0) {
        assert t[k] in multiset(t);
        assert t[k] in multiset([x] + s[1..]);
        assert t[k] == x || t[k] in s[1..];
        if t[k] == x {
          LessAsymmetric(s[0].0, x.0);
        }
      }
    }
  }

  /** The summary rows come out in label order and are a rearrangement of the items. */
  lemma {:induction false} SortByKeySorted(s: seq<(string, int)>)
    ensures Ascending(SortByKey(s))
    ensures multiset(SortByKey(s)) == multiset(s)
  {
    if s != [] {
      SortByKeySorted(s[1..]);
      InsertKeySorted(s[0], SortByKey(s[1..]));
    }
  }

  /** With distinct labels, each row's label is strictly below the next ones. */
  lemma SortByKeyStrict(s: seq<(string, int)>)
    requires forall i, j :: 0 <= i < j < |s| ==> s[i].0 != s[j].0
    ensures var r := SortByKey(s);
            forall i, j :: 0 <= i < j < |r| ==> Less(r[i].0, r[j].0)
  {
    var r := SortByKey(s);
    SortByKeySorted(s);
    forall i, j | 0 <= i < j < |r| ensures Less(r[i].0, r[j].0) {
      LessTotal(r[i].0, r[j].0);
      if r[i].0 == r[j].0 {
        DistinctLabelsStay(s, r, i, j);
      }
    }
  }

  /** Two positions of a rearrangement of items with distinct labels have distinct labels. */
  lemma DistinctLabelsStay<K>(s: seq<(K, int)>, r: seq<(K, int)>, i: int, j: int)
    requires forall a, b :: 0 <= a < b < |s| ==> s[a].0 != s[b].0
    requires multiset(r) == multiset(s)
    requires 0 <= i < j < |r|
    ensures r[i].0 != r[j].0
  {
    assert r[i] in multiset(s) && r[j] in multiset(s);
    var a :| 0 <= a < |s| && s[a] == r[i];
    var b :| 0 <= b < |s| && s[b] == r[j];
    if r[i].0 == r[j].0 {
      assert r == r[..i] + [r[i]] + r[i + 1..j] + [r[j]] + r[j + 1..];
      CountOnce(s, a);
      assert false;
    }
  }

  /** An item whose label occurs once occurs once. */
  lemma {:induction false} CountOnce<K>(s: seq<(K, int)>, a: int)
    requires forall p, q :: 0 <= p < q < |s| ==> s[p].0 != s[q].0
    requires 0 <= a < |s|
    ensures multiset(s)[s[a]] == 1
  {
    if a == |s| - 1 {
      assert s == s[..a] + [s[a]];
      assert s[a] !in multiset(s[..a]);
    } else {
      CountOnce(s[..|s| - 1], a);
      assert s == s[..|s| - 1] + [s[|s| - 1]];
      assert s[|s| - 1] != s[a];
    }
  }
}
