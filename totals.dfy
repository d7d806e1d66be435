/**
 * The report's running totals: a Python `dict` filled with
 * `d[k] = d.get(k, 0) + v` in a loop, which keeps its keys in first-insertion
 * order.
 */
module Totals {

  /** A `dict` from keys to numbers: its keys in insertion order, and its values. */
  datatype Dict<K(==)> = Dict(keys: seq<K>, vals: map<K, int>) {
    /** Each key once, and exactly the keys that have a value. */
    ghost predicate Valid() {
      && (forall i, j :: 0 <= i < j < |keys| ==> keys[i] != keys[j])
      && (forall k | k in vals :: k in keys)
      && (forall i :: 0 <= i < |keys| ==> keys[i] in vals)
    }
  }

  function EmptyDict<K(==)>(): Dict<K> {
    Dict([], map[])
  }

  /** `d[k] = d.get(k, 0) + v`: an existing key keeps its place, a new key goes last. */
  function Bump<K(==)>(d: Dict<K>, k: K, v: int): Dict<K> {
    if k in d.vals then Dict(d.keys, d.vals[k := d.vals[k] + v])
    else Dict(d.keys + [k], d.vals[k := v])
  }

  /** The dict the loop builds from the `(key, amount)` pairs `ps`, in order. */
  function Tally<K(==)>(ps: seq<(K, int)>): Dict<K> {
    if ps == [] then EmptyDict()
    else Bump(Tally(ps[..|ps| - 1]), ps[|ps| - 1].0, ps[|ps| - 1].1)
  }

  /** Bumping keeps every key once and exactly the keys with a value. */
  lemma BumpValid<K>(d: Dict<K>, k: K, v: int)
    requires d.Valid()
    ensures Bump(d, k, v).Valid()
  {
    var r := Bump(d, k, v);
    if k !in d.vals {
      forall i | 0 <= i < |d.keys| ensures r.keys[i] != k {
        assert d.keys[i] in d.vals;
      }
    }
  }

  /** The dict of the loop is well formed. */
  lemma {:induction false} TallyValid<K>(ps: seq<(K, int)>)
    ensures Tally(ps).Valid()
  {
    if ps != [] {
      TallyValid(ps[..|ps| - 1]);
      BumpValid(Tally(ps[..|ps| - 1]), ps[|ps| - 1].0, ps[|ps| - 1].1);
    }
  }

  /** One more pair is one more `Bump`. */
  lemma TallyStep<K>(ps: seq<(K, int)>, i: nat)
    requires i < |ps|
    ensures Tally(ps[..i + 1]) == Bump(Tally(ps[..i]), ps[i].0, ps[i].1)
  {
    assert ps[..i + 1][..i] == ps[..i];
  }

  /** The loop `for e in filtered: d[key(e)] = d.get(key(e), 0) + amount(e)`. */
  method TallyLoop<K(==)>(ps: seq<(K, int)>) returns (d: Dict<K>)
    ensures d == Tally(ps)
  {
    d := Dict([], map[]);
    var i := 0;
    while i < |ps|
      invariant 0 <= i <= |ps|
      invariant d == Tally(ps[..i])
    {
      TallyStep(ps, i);
      var (k, v) := ps[i];
      if k in d.vals {
        d := Dict(d.keys, d.vals[k := d.vals[k] + v]);
      } else {
        d := Dict(d.keys + [k], d.vals[k := v]);
      }
      i := i + 1;
    }
    assert ps[..i] == ps;
  }

  /** The sum of all amounts. */
  function SumAll<K>(ps: seq<(K, int)>): int {
    if ps == [] then 0 else SumAll(ps[..|ps| - 1]) + ps[|ps| - 1].1
  }

  /** The sum of the amounts paired with key `k`. */
  function SumFor<K(==)>(ps: seq<(K, int)>, k: K): int {
    if ps == [] then 0
    else SumFor(ps[..|ps| - 1], k) + (if ps[|ps| - 1].0 == k then ps[|ps| - 1].1 else 0)
  }

  /** `d.items()`, in key order. */
  function Items<K(==)>(d: Dict<K>): (items: seq<(K, int)>)
    ensures |items| == |d.keys|
    ensures forall i :: 0 <= i < |items| ==> items[i].0 == d.keys[i]
    ensures forall i :: 0 <= i < |items| && d.keys[i] in d.vals ==> items[i].1 == d.vals[d.keys[i]]
  {
    seq(|d.keys|, i requires 0 <= i < |d.keys| => (d.keys[i], if d.keys[i] in d.vals then d.vals[d.keys[i]] else 0))
  }

  /** A key has a total exactly when it occurs among the pairs. */
  lemma {:induction false} TallyKeys<K>(ps: seq<(K, int)>, k: K)
    ensures k in Tally(ps).vals <==> exists i :: 0 <= i < |ps| && ps[i].0 == k
  {
    if ps != [] {
      var front, last := ps[..|ps| - 1], ps[|ps| - 1];
      TallyKeys(front, k);
      assert Tally(ps) == Bump(Tally(front), last.0, last.1);
      if exists i :: 0 <= i < |front| && front[i].0 == k {
        var i :| 0 <= i < |front| && front[i].0 == k;
        assert ps[i].0 == k;
      }
      if exists i :: 0 <= i < |ps| && ps[i].0 == k {
        var i :| 0 <= i < |ps| && ps[i].0 == k;
        if i < |front| { assert front[i].0 == k; }
      }
    }
  }

  /** The total of a key is the sum of the amounts paired with it. */
  lemma {:induction false} TallyValues<K>(ps: seq<(K, int)>, k: K)
    requires k in Tally(ps).vals
    ensures Tally(ps).vals[k] == SumFor(ps, k)
  {
    var front, last := ps[..|ps| - 1], ps[|ps| - 1];
    var d0 := Tally(front);
    assert Tally(ps) == Bump(d0, last.0, last.1);
    if k in d0.vals {
      TallyValues(front, k);
    } else {
      assert k == last.0;
      TallyKeys(front, k);
      SumForAbsent(front, k);
    }
  }

  /** A key that does not occur has amount sum zero. */
  lemma {:induction false} SumForAbsent<K>(ps: seq<(K, int)>, k: K)
    requires forall i :: 0 <= i < |ps| ==> ps[i].0 != k
    ensures SumFor(ps, k) == 0
  {
    if ps != [] {
      SumForAbsent(ps[..|ps| - 1], k);
    }
  }

  /** The totals add up to the sum of all amounts. */
  lemma {:induction false} TallyTotal<K>(ps: seq<(K, int)>)
    ensures SumAll(Items(Tally(ps))) == SumAll(ps)
  {
    if ps != [] {
      var front := ps[..|ps| - 1];
      TallyTotal(front);
      TallyValid(front);
      BumpTotal(Tally(front), ps[|ps| - 1].0, ps[|ps| - 1].1);
    }
  }

  /** Adding `v` to one key adds `v` to the sum of the items. */
  lemma BumpTotal<K>(d: Dict<K>, k: K, v: int)
    requires d.Valid()
    ensures SumAll(Items(Bump(d, k, v))) == SumAll(Items(d)) + v
  {
    if k in d.vals {
      BumpOldTotal(d, k, v);
    } else {
      BumpNewTotal(d, k, v);
    }
  }

  lemma BumpOldTotal<K>(d: Dict<K>, k: K, v: int)
    requires d.Valid() && k in d.vals
    ensures SumAll(Items(Bump(d, k, v))) == SumAll(Items(d)) + v
  {
    var r := Bump(d, k, v);
    var a, b := Items(d), Items(r);
    var p :| 0 <= p < |d.keys| && d.keys[p] == k;
    assert r.keys == d.keys;
    forall i | 0 <= i < |b| ensures b[i] == a[p := (k, d.vals[k] + v)][i] {
      assert d.keys[i] in d.vals;
      if i != p {
        assert d.keys[i] != k;
      }
    }
    assert b == a[p := (k, d.vals[k] + v)];
    SumAllUpdate(a, p, (k, d.vals[k] + v));
  }

  lemma BumpNewTotal<K>(d: Dict<K>, k: K, v: int)
    requires d.Valid() && k !in d.vals
    ensures SumAll(Items(Bump(d, k, v))) == SumAll(Items(d)) + v
  {
    var r := Bump(d, k, v);
    var a, b := Items(d), Items(r);
    assert r.keys == d.keys + [k];
    forall i | 0 <= i < |a| ensures b[i] == a[i] {
      assert d.keys[i] in d.vals;
      assert r.keys[i] == d.keys[i];
    }
    assert b[..|a|] == a;
    assert b[|a|] == (k, v);
  }

  /** Replacing one item changes the sum by the difference of the amounts. */
  lemma {:induction false} SumAllUpdate<K>(s: seq<(K, int)>, p: nat, x: (K, int))
    requires p < |s|
    ensures SumAll(s[p := x]) == SumAll(s) - s[p].1 + x.1
  {
    var t := s[p := x];
    if p == |s| - 1 {
      assert t[..|t| - 1] == s[..|s| - 1];
    } else {
      assert t[..|t| - 1] == s[..|s| - 1][p := x];
      SumAllUpdate(s[..|s| - 1], p, x);
    }
  }

  /** Key `x` occurs in `ps` before any occurrence of key `y`. */
  ghost predicate AppearsBefore<K>(ps: seq<(K, int)>, x: K, y: K) {
    exists a :: 0 <= a < |ps| && ps[a].0 == x && forall b :: 0 <= b <= a ==> ps[b].0 != y
  }

  /** Appending pairs keeps an earlier first occurrence earlier. */
  lemma AppearsBeforeExtends<K>(front: seq<(K, int)>, ps: seq<(K, int)>, x: K, y: K)
    requires |front| <= |ps| && front == ps[..|front|]
    requires AppearsBefore(front, x, y)
    ensures AppearsBefore(ps, x, y)
  {
    var a :| 0 <= a < |front| && front[a].0 == x && forall b :: 0 <= b <= a ==> front[b].0 != y;
    assert ps[a] == front[a];
    forall b | 0 <= b <= a ensures ps[b].0 != y {
      assert ps[b] == front[b];
    }
  }

  /** The keys of the dict are in the order of their first occurrence. */
  lemma TallyOrder<K>(ps: seq<(K, int)>)
    ensures var keys := Tally(ps).keys;
            forall i, j :: 0 <= i < j < |keys| ==> AppearsBefore(ps, keys[i], keys[j])
  {
    var keys := Tally(ps).keys;
    forall i, j | 0 <= i < j < |keys| ensures AppearsBefore(ps, keys[i], keys[j]) {
      KeysInOrder(ps, i, j);
    }
  }

  lemma {:induction false} KeysInOrder<K>(ps: seq<(K, int)>, i: nat, j: nat)
    requires i < j < |Tally(ps).keys|
    ensures AppearsBefore(ps, Tally(ps).keys[i], Tally(ps).keys[j])
  {
    var front, last := ps[..|ps| - 1], ps[|ps| - 1];
    var d0 := Tally(front);
    assert Tally(ps) == Bump(d0, last.0, last.1);
    var fk, keys := d0.keys, Tally(ps).keys;
    assert keys[..|fk|] == fk;
    if j < |fk| {
      KeysInOrder(front, i, j);
      assert keys[i] == fk[i] && keys[j] == fk[j];
      AppearsBeforeExtends(front, ps, fk[i], fk[j]);
    } else {
      TallyValid(front);
      assert keys[i] == fk[i] && fk[i] in d0.vals;
      NewKeyLast(front, ps, fk[i], last.0);
    }
  }

  /** A key already tallied occurs before a key met for the first time at the end. */
  lemma NewKeyLast<K>(front: seq<(K, int)>, ps: seq<(K, int)>, x: K, k: K)
    requires ps != [] && front == ps[..|ps| - 1] && ps[|ps| - 1].0 == k
    requires x in Tally(front).vals && k !in Tally(front).vals
    ensures AppearsBefore(ps, x, k)
  {
    TallyKeys(front, x);
    TallyKeys(front, k);
    var a :| 0 <= a < |front| && front[a].0 == x;
    assert ps[a] == front[a];
    forall b | 0 <= b <= a ensures ps[b].0 != k {
      assert ps[b] == front[b];
    }
  }
}
