/**
 * Characters, decimal digits and the string order the time tracker relies on:
 * zero-padded number formatting (`%02d`, `%04d`), parsing fixed-width digit
 * fields, Python's `str.strip()` and Python's `<` on `str`.
 */
module Text {

  predicate IsDigit(c: char) { '0' <= c <= '9' }

  predicate AllDigits(s: string) { forall i :: 0 <= i < |s| ==> IsDigit(s[i]) }

  function DigitValue(c: char): (d: nat)
    requires IsDigit(c)
    ensures d < 10
  {
    c as int - '0' as int
  }

  function DigitChar(d: nat): (c: char)
    requires d < 10
    ensures IsDigit(c) && DigitValue(c) == d
  {
    ('0' as int + d) as char
  }

  function Pow10(w: nat): (p: nat)
    ensures p >= 1
  {
    if w == 0 then 1 else 10 * Pow10(w - 1)
  }

  /** The value of a string of decimal digits, most significant digit first. */
  function DigitsValue(s: string): (v: nat)
    requires AllDigits(s)
    ensures v < Pow10(|s|)
  {
    if s == [] then 0 else DigitsValue(s[..|s| - 1]) * 10 + DigitValue(s[|s| - 1])
  }

  /** Exactly `w` digits of `n`, zero-padded on the left (`%0wd` when `n` fits in `w` digits). */
  function Fixed(n: nat, w: nat): (s: string)
    requires n < Pow10(w)
    ensures |s| == w && AllDigits(s) && DigitsValue(s) == n
  {
    if w == 0 then ""
    else
      var s := Fixed(n / 10, w - 1) + [DigitChar(n % 10)];
      assert s[..|s| - 1] == Fixed(n / 10, w - 1);
      s
  }

  /** `str(n)` for a natural number: its decimal digits without leading zeros. */
  function Decimal(n: nat): (s: string)
    ensures 1 <= |s| && AllDigits(s) && DigitsValue(s) == n
    ensures |s| > 1 ==> s[0] != '0'
  {
    if n < 10 then [DigitChar(n)]
    else
      var s := Decimal(n / 10) + [DigitChar(n % 10)];
      assert s[..|s| - 1] == Decimal(n / 10);
      s
  }

  function Zeros(k: nat): (s: string)
    ensures |s| == k && forall i :: 0 <= i < k ==> s[i] == '0'
  {
    if k == 0 then "" else Zeros(k - 1) + "0"
  }

  /** Python's `format(n, "0wd")` for a natural number: `str(n)` zero-padded to at least `w` characters. */
  function ZeroPad(n: nat, w: nat): (s: string)
    ensures AllDigits(s) && DigitsValue(s) == n
    ensures |s| == if |Decimal(n)| >= w then |Decimal(n)| else w
  {
    var d := Decimal(n);
    if |d| >= w then d
    else
      DigitsValueZerosPrefix(w - |d|, d);
      Zeros(w - |d|) + d
  }

  /**
   * Python's `format(n, "0wd")`, also written `f"{n:0w}"`: the sign, then the
   * digits zero-padded so that the whole text has at least `w` characters.
   * With `w` of 0 or 1 it is `str(n)`.
   */
  function PadInt(n: int, w: nat): (s: string)
    ensures |s| >= w
    ensures n >= 0 ==> |s| >= 1 && AllDigits(s) && DigitsValue(s) == n
    ensures n < 0 ==> |s| >= 2 && s[0] == '-' && AllDigits(s[1..]) && DigitsValue(s[1..]) == -n
  {
    if n >= 0 then ZeroPad(n, w)
    else
      var s := "-" + ZeroPad(-n, if w == 0 then 0 else w - 1);
      assert s[1..] == ZeroPad(-n, if w == 0 then 0 else w - 1);
      s
  }

  lemma {:induction false} DigitsValueConcat(a: string, b: string)
    requires AllDigits(a) && AllDigits(b)
    ensures AllDigits(a + b)
    ensures DigitsValue(a + b) == DigitsValue(a) * Pow10(|b|) + DigitsValue(b)
    decreases |b|
  {
    var ab := a + b;
    if b == [] {
      assert ab == a;
    } else {
      var b' := b[..|b| - 1];
      var d := DigitValue(b[|b| - 1]);
      assert ab[..|ab| - 1] == a + b';
      assert ab[|ab| - 1] == b[|b| - 1];
      DigitsValueConcat(a, b');
      ShiftDigit(DigitsValue(ab), DigitsValue(a + b'), DigitsValue(a), Pow10(|b'|), DigitsValue(b'), d,
                 DigitsValue(b), Pow10(|b|));
    }
  }

  /** Appending one digit to both sides of `ab' == a * p + b'` keeps the place-value identity. */
  lemma ShiftDigit(ab: int, ab': int, a: int, p: int, b': int, d: int, b: int, p10: int)
    requires ab == ab' * 10 + d && ab' == a * p + b' && b == b' * 10 + d && p10 == p * 10
    ensures ab == a * p10 + b
  {
  }

  lemma DigitsValueZerosPrefix(k: nat, s: string)
    requires AllDigits(s)
    ensures AllDigits(Zeros(k) + s) && DigitsValue(Zeros(k) + s) == DigitsValue(s)
  {
    DigitsValueZeros(k);
    DigitsValueConcat(Zeros(k), s);
  }

  lemma {:induction false} DigitsValueZeros(k: nat)
    ensures AllDigits(Zeros(k)) && DigitsValue(Zeros(k)) == 0
  {
    if k > 0 {
      DigitsValueZeros(k - 1);
      assert Zeros(k)[..k - 1] == Zeros(k - 1);
    }
  }

  /** The pieces of `a x b`, for a text with a one-character separator. */
  lemma SplitTwo(a: string, x: string, b: string)
    requires |x| == 1
    ensures var s := a + x + b; s[..|a|] == a && s[|a|] == x[0] && s[|a| + 1..] == b
  {
  }

  /** The pieces of `a x b y c`, for texts with two one-character separators. */
  lemma SplitThree(a: string, x: string, b: string, y: string, c: string)
    requires |x| == 1 && |y| == 1
    ensures var s := a + x + b + y + c;
      && s[..|a|] == a && s[|a|] == x[0] && s[|a| + 1..] == b + y + c
      && s[|a| + 1..|a| + 1 + |b|] == b && s[|a| + 1 + |b|] == y[0] && s[|a| + 2 + |b|..] == c
      && s[|a| + 2 + |b|..|s|] == c
  {
    var s := a + x + b + y + c;
    assert s[|a| + 1..] == b + y + c;
  }

  /**
   * Python's `str.isspace()`: the characters `strip()`, `int()` and the `\s`
   * of `strptime` treat as whitespace, ASCII and Unicode alike.
   */
  predicate IsSpace(c: char) {
    || '\t' <= c <= '\r' || '\U{1C}' <= c <= ' ' || c == '\U{85}' || c == '\U{A0}' || c == '\U{1680}'
    || '\U{2000}' <= c <= '\U{200A}' || c == '\U{2028}' || c == '\U{2029}' || c == '\U{202F}'
    || c == '\U{205F}' || c == '\U{3000}'
  }

  function LeadingSpaces(s: string): (n: nat)
    ensures n <= |s|
    ensures forall k :: 0 <= k < n ==> IsSpace(s[k])
    ensures n == |s| || !IsSpace(s[n])
  {
    if s == [] || !IsSpace(s[0]) then 0 else 1 + LeadingSpaces(s[1..])
  }

  function TrailingSpaces(s: string): (n: nat)
    ensures n <= |s|
    ensures forall k :: |s| - n <= k < |s| ==> IsSpace(s[k])
    ensures n == |s| || !IsSpace(s[|s| - n - 1])
  {
    if s == [] || !IsSpace(s[|s| - 1]) then 0 else 1 + TrailingSpaces(s[..|s| - 1])
  }

  /** Python's `str.strip()`: the string without its leading and trailing whitespace. */
  function Strip(s: string): (r: string)
    ensures r == [] <==> forall k :: 0 <= k < |s| ==> IsSpace(s[k])
    ensures r != [] ==> !IsSpace(r[0]) && !IsSpace(r[|r| - 1])
    ensures LeadingSpaces(s) + |r| <= |s| && r == s[LeadingSpaces(s)..LeadingSpaces(s) + |r|]
    ensures forall k :: LeadingSpaces(s) + |r| <= k < |s| ==> IsSpace(s[k])
  {
    var i := LeadingSpaces(s);
    if i == |s| then []
    else
      var n := TrailingSpaces(s);
      assert !IsSpace(s[i]);
      assert n < |s| - i;
      s[i..|s| - n]
  }

  /** A text that neither starts nor ends with whitespace is its own `strip()`. */
  lemma StripUnchanged(s: string)
    requires s != [] && !IsSpace(s[0]) && !IsSpace(s[|s| - 1])
    ensures Strip(s) == s
  {
    assert LeadingSpaces(s) == 0;
    var r := Strip(s);
    assert r != [];
  }

  /** Python's `a < b` on `str`: lexicographic by code point, a proper prefix coming first. */
  predicate Less(a: string, b: string)
    decreases |a|
  {
    if a == [] then b != []
    else if b == [] then false
    else if a[0] != b[0] then a[0] < b[0]
    else Less(a[1..], b[1..])
  }

  lemma {:induction false} LessIrreflexive(a: string)
    ensures !Less(a, a)
    decreases |a|
  {
    if a != [] { LessIrreflexive(a[1..]); }
  }

  lemma {:induction false} LessTransitive(a: string, b: string, c: string)
    requires Less(a, b) && Less(b, c)
    ensures Less(a, c)
    decreases |a|
  {
    if a != [] && a[0] == b[0] && b[0] == c[0] {
      LessTransitive(a[1..], b[1..], c[1..]);
    }
  }

  lemma {:induction false} LessTotal(a: string, b: string)
    ensures a == b || Less(a, b) || Less(b, a)
    decreases |a|
  {
    if a != [] && b != [] && a[0] == b[0] {
      LessTotal(a[1..], b[1..]);
      if a[1..] == b[1..] {
        assert a == [a[0]] + a[1..] && b == [b[0]] + b[1..];
      }
    }
  }

  lemma {:induction false} LessAsymmetric(a: string, b: string)
    requires Less(a, b)
    ensures !Less(b, a)
    decreases |a|
  {
    if a != [] && b != [] && a[0] == b[0] {
      LessAsymmetric(a[1..], b[1..]);
    }
  }
}
