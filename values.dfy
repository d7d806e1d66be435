/**
 * The JSON values found in the time log and the settings file, and the few
 * Python operations the tracker applies to them: truthiness, `dict.get`,
 * `a or b` and `int(x)`.
 */
module Values {
  import opened Options
  import opened Text

  /**
   * A JSON value as `json.load` returns it. Arrays and objects nested inside a
   * record are only ever looked at for truthiness here, so `Compound` keeps just
   * whether they are empty.
   */
  datatype Value =
    | Null
    | Bool(b: bool)
    | Int(i: int)
    | Real(r: real)
    | Str(s: string)
    | Compound(nonEmpty: bool)

  /** One element of the log array: a JSON object, or anything else. */
  datatype Record = Object(fields: map<string, Value>) | NonObject(value: Value)

  /** Python's truth value of a JSON value. */
  predicate Truthy(v: Value) {
    match v
    case Null => false
    case Bool(b) => b
    case Int(i) => i != 0
    case Real(r) => r != 0.0
    case Str(s) => s != ""
    case Compound(nonEmpty) => nonEmpty
  }

  /** The number a `bool`, `int` or `float` stands for in `==`. */
  function Numeric(v: Value): Option<real> {
    match v
    case Bool(b) => Some(if b then 1.0 else 0.0)
    case Int(i) => Some(i as real)
    case Real(r) => Some(r)
    case _ => None
  }

  /** Python's `a == b` on JSON scalars: numbers by value, so `True == 1 == 1.0`; the rest by content. */
  predicate PyEq(a: Value, b: Value) {
    if Numeric(a).Some? && Numeric(b).Some? then Numeric(a).value == Numeric(b).value else a == b
  }

  /** The key a `dict` files `v` under: a `bool` or a whole `float` goes with the equal `int`. */
  function KeyOf(v: Value): Value {
    match v
    case Bool(b) => Int(if b then 1 else 0)
    case Real(r) => if r.Floor as real == r then Int(r.Floor) else v
    case _ => v
  }

  /** Two hashable values share a dict key exactly when Python finds them equal. */
  lemma KeyOfAgrees(a: Value, b: Value)
    requires !a.Compound? && !b.Compound?
    ensures KeyOf(a) == KeyOf(b) <==> PyEq(a, b)
  {
  }

  /** `d.get(key)`: the stored value, or `None` for a missing key. */
  function Get(d: map<string, Value>, key: string): Value {
    if key in d then d[key] else Null
  }

  /** `d.get(key, default)`. */
  function GetOr(d: map<string, Value>, key: string, default: Value): Value {
    if key in d then d[key] else default
  }

  /** Python's `a or b`. */
  function Or(a: Value, b: Value): (r: Value)
    ensures Truthy(r) <==> Truthy(a) || Truthy(b)
    ensures Truthy(a) ==> r == a
  {
    if Truthy(a) then a else b
  }

  /** Decimal digits with single underscores between them, as `int()` takes them: `"1_000"`. */
  predicate Grouped(s: string)
    decreases |s|
  {
    && s != [] && IsDigit(s[0])
    && (|s| == 1 || if s[1] == '_' then Grouped(s[2..]) else Grouped(s[1..]))
  }

  /** The digits of a grouped text, its underscores dropped. */
  function Ungrouped(s: string): (r: string)
    requires Grouped(s)
    ensures AllDigits(r) && 1 <= |r| <= |s|
    decreases |s|
  {
    if |s| == 1 then s else [s[0]] + Ungrouped(if s[1] == '_' then s[2..] else s[1..])
  }

  /** Plain digits are grouped, and have nothing to drop. */
  lemma {:induction false} DigitsGrouped(s: string)
    requires s != [] && AllDigits(s)
    ensures Grouped(s) && Ungrouped(s) == s
  {
    if |s| > 1 {
      DigitsGrouped(s[1..]);
      assert s == [s[0]] + s[1..];
    }
  }

  /**
   * Python's `int(s)` for a `str`: surrounding whitespace, an optional sign,
   * and decimal digits grouped by single underscores. `None` is the
   * `ValueError`.
   */
  function ParseInt(s: string): (r: Option<int>)
  {
    var t := Strip(s);
    if t == [] then None
    else
      var digits := if t[0] == '-' || t[0] == '+' then t[1..] else t;
      if Grouped(digits) then
        var v: int := DigitsValue(Ungrouped(digits));
        Some(if t[0] == '-' then -v else v)
      else None
  }

  /** `int(x)` for a finite float: truncation toward zero. */
  function Trunc(x: real): (n: int)
    ensures x >= 0.0 ==> 0 <= n && n as real <= x < n as real + 1.0
    ensures x < 0.0 ==> n <= 0 && n as real - 1.0 < x <= n as real
  {
    if x >= 0.0 then x.Floor else -((-x).Floor)
  }

  /**
   * Python's `int(v)` for a JSON value; `None` is the `TypeError` or
   * `ValueError` it raises.
   */
  function PyInt(v: Value): (r: Option<int>)
    ensures v.Int? ==> r == Some(v.i)
    ensures v.Null? || v.Compound? ==> r.None?
    ensures v.Bool? ==> r.Some? && (r.value == 1 <==> v.b) && (r.value == 0 <==> !v.b)
  {
    match v
    case Null => None
    case Bool(b) => Some(if b then 1 else 0)
    case Int(i) => Some(i)
    case Real(x) => Some(Trunc(x))
    case Str(s) => ParseInt(s)
    case Compound(_) => None
  }

  /** `int(str(n))` is `n`, and so is `int(f"{n:0w}")`. */
  lemma ParseIntPadInt(n: int, w: nat)
    ensures ParseInt(PadInt(n, w)) == Some(n)
  {
    var s := PadInt(n, w);
    if n < 0 {
      ParseIntSigned(s);
    } else {
      ParseIntDigits(s);
    }
  }

  /** Plain digits read as their value. */
  lemma ParseIntDigits(s: string)
    requires s != [] && AllDigits(s)
    ensures ParseInt(s) == Some(DigitsValue(s))
  {
    StripUnchanged(s);
    DigitsGrouped(s);
  }

  /** A minus sign before digits reads as the negated value. */
  lemma ParseIntSigned(s: string)
    requires |s| >= 2 && s[0] == '-' && AllDigits(s[1..])
    ensures ParseInt(s) == Some(-(DigitsValue(s[1..]) as int))
  {
    assert IsDigit(s[|s| - 1]) by {
      assert s[|s| - 1] == s[1..][|s| - 2];
    }
    StripUnchanged(s);
    DigitsGrouped(s[1..]);
  }

  /** `int("12_345")` is `12345`: one underscore between digit groups is dropped. */
  lemma ParseIntUnderscored(a: string, b: string)
    requires a != [] && AllDigits(a) && b != [] && AllDigits(b)
    ensures ParseInt(a + "_" + b) == Some(DigitsValue(a + b))
  {
    var s := a + "_" + b;
    GroupedJoin(a, b);
    assert s[0] == a[0] && s[|s| - 1] == b[|b| - 1];
    StripUnchanged(s);
  }

  lemma {:induction false} GroupedJoin(a: string, b: string)
    requires a != [] && AllDigits(a) && b != [] && AllDigits(b)
    ensures Grouped(a + "_" + b) && Ungrouped(a + "_" + b) == a + b
    decreases |a|
  {
    var s := a + "_" + b;
    DigitsGrouped(b);
    if |a| == 1 {
      assert s[2..] == b;
    } else {
      GroupedJoin(a[1..], b);
      assert s[1..] == a[1..] + "_" + b;
      assert a + b == [a[0]] + (a[1..] + b);
    }
  }
}
