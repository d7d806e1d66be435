/**
 * The proleptic Gregorian calendar as Python's `datetime` computes it.
 * Days are numbered from 0 for 0001-01-01 (Python's `toordinal()` minus one),
 * so the weekday of day `n` is `n % 7` with Monday as 0, as `date.weekday()`.
 */
module Calendar {

  const MaxYear := 9999

  predicate IsLeap(y: int) {
    y % 4 == 0 && (y % 100 != 0 || y % 400 == 0)
  }

  function DaysInYear(y: int): int {
    if IsLeap(y) then 366 else 365
  }

  function DaysInMonth(y: int, m: int): (n: int)
    requires 1 <= m <= 12
    ensures 28 <= n <= 31
  {
    if m == 2 then (if IsLeap(y) then 29 else 28)
    else if m == 4 || m == 6 || m == 9 || m == 11 then 30
    else 31
  }

  const DaysBeforeMonthTable: seq<int> := [0, 31, 59, 90, 120, 151, 181, 212, 243, 273, 304, 334]

  /** Days of year `y` before the first of month `m` (Python's `_days_before_month`). */
  function DaysBeforeMonth(y: int, m: int): int
    requires 1 <= m <= 12
  {
    DaysBeforeMonthTable[m - 1] + (if m > 2 && IsLeap(y) then 1 else 0)
  }

  /** Days before January 1 of year `y` (Python's `_days_before_year`). */
  function DaysBeforeYear(y: int): int
    requires y >= 1
  {
    var k := y - 1;
    k * 365 + k / 4 - k / 100 + k / 400
  }

  predicate ValidDate(y: int, m: int, d: int) {
    1 <= y <= MaxYear && 1 <= m <= 12 && 1 <= d <= DaysInMonth(y, m)
  }

  datatype Date = Date(year: int, month: int, day: int) {
    predicate Valid() { ValidDate(year, month, day) }
  }

  /** The day number of a calendar date (Python's `_ymd2ord` minus one). */
  function DayNumber(y: int, m: int, d: int): int
    requires y >= 1 && 1 <= m <= 12
  {
    DaysBeforeYear(y) + DaysBeforeMonth(y, m) + d - 1
  }

  /** The number of days from 0001-01-01 to 9999-12-31 inclusive. */
  const DayCount := 3652059

  lemma DaysBeforeYearStep(y: int)
    requires y >= 1
    ensures DaysBeforeYear(y + 1) == DaysBeforeYear(y) + DaysInYear(y)
  {
    var k := y - 1;
    var a := if y % 4 == 0 then 1 else 0;
    var b := if y % 100 == 0 then 1 else 0;
    var c := if y % 400 == 0 then 1 else 0;
    assert (k + 1) / 4 == k / 4 + a by { DivStep4(k); }
    assert (k + 1) / 100 == k / 100 + b by { DivStep100(k); }
    assert (k + 1) / 400 == k / 400 + c by { DivStep400(k); }
    assert a - b + c == (if IsLeap(y) then 1 else 0) by { LeapCounts(y); }
  }

  lemma DivStep4(k: int)
    ensures (k + 1) / 4 == k / 4 + (if (k + 1) % 4 == 0 then 1 else 0)
  {
  }

  lemma DivStep100(k: int)
    ensures (k + 1) / 100 == k / 100 + (if (k + 1) % 100 == 0 then 1 else 0)
  {
  }

  lemma DivStep400(k: int)
    ensures (k + 1) / 400 == k / 400 + (if (k + 1) % 400 == 0 then 1 else 0)
  {
  }

  lemma LeapCounts(y: int)
    ensures (y % 400 == 0 ==> y % 100 == 0) && (y % 100 == 0 ==> y % 4 == 0)
  {
  }

  lemma {:induction false} DaysBeforeYearGrows(a: int, b: int)
    requires 1 <= a <= b
    ensures DaysBeforeYear(a) + 365 * (b - a) <= DaysBeforeYear(b)
    decreases b - a
  {
    if a < b {
      DaysBeforeYearGrows(a + 1, b);
      DaysBeforeYearStep(a);
    }
  }

  lemma DayCountIsEndOfYear9999()
    ensures DaysBeforeYear(MaxYear + 1) == DayCount
  {
  }

  lemma MonthStep(y: int, m: int)
    requires 1 <= m <= 12
    ensures m < 12 ==> DaysBeforeMonth(y, m + 1) == DaysBeforeMonth(y, m) + DaysInMonth(y, m)
    ensures m == 12 ==> DaysBeforeMonth(y, m) + DaysInMonth(y, m) == DaysInYear(y)
  {
  }

  /** The year holding day `n`, found by walking forward from year `y`. */
  function YearOfDay(n: int, y: int): (r: int)
    requires y >= 1 && DaysBeforeYear(y) <= n
    ensures r >= y && DaysBeforeYear(r) <= n < DaysBeforeYear(r + 1)
    decreases n - DaysBeforeYear(y)
  {
    DaysBeforeYearStep(y);
    if n < DaysBeforeYear(y + 1) then y else YearOfDay(n, y + 1)
  }

  /** The month of year `y` holding day-of-year `r` (0-based), walking forward from month `m`. */
  function MonthOfDay(y: int, r: int, m: int): (k: int)
    requires 1 <= m <= 12 && DaysBeforeMonth(y, m) <= r < DaysInYear(y)
    ensures m <= k <= 12
    ensures DaysBeforeMonth(y, k) <= r < DaysBeforeMonth(y, k) + DaysInMonth(y, k)
    decreases 12 - m
  {
    MonthStep(y, m);
    if m == 12 || r < DaysBeforeMonth(y, m) + DaysInMonth(y, m) then m
    else MonthOfDay(y, r, m + 1)
  }

  /** The calendar date of day `n` (Python's `date.fromordinal(n + 1)`). */
  function FromDayNumber(n: int): (d: Date)
    requires 0 <= n < DayCount
    ensures d.Valid() && DayNumber(d.year, d.month, d.day) == n
  {
    var y := YearOfDay(n, 1);
    if y > MaxYear then
      DaysBeforeYearGrows(MaxYear + 1, y);
      assert false; Date(1, 1, 1)
    else
      var r := n - DaysBeforeYear(y);
      DaysBeforeYearStep(y);
      var m := MonthOfDay(y, r, 1);
      Date(y, m, r - DaysBeforeMonth(y, m) + 1)
  }

  lemma YearOfDayUnique(n: int, a: int, b: int)
    requires a >= 1 && b >= 1
    requires DaysBeforeYear(a) <= n < DaysBeforeYear(a + 1)
    requires DaysBeforeYear(b) <= n < DaysBeforeYear(b + 1)
    ensures a == b
  {
    if a < b { DaysBeforeYearGrows(a + 1, b); }
    if b < a { DaysBeforeYearGrows(b + 1, a); }
  }

  lemma MonthOfDayUnique(y: int, r: int, a: int, b: int)
    requires 1 <= a <= 12 && 1 <= b <= 12
    requires DaysBeforeMonth(y, a) <= r < DaysBeforeMonth(y, a) + DaysInMonth(y, a)
    requires DaysBeforeMonth(y, b) <= r < DaysBeforeMonth(y, b) + DaysInMonth(y, b)
    ensures a == b
  {
  }

  /** Every valid date is found again from its day number. */
  lemma FromDayNumberInverse(y: int, m: int, d: int)
    requires ValidDate(y, m, d)
    ensures 0 <= DayNumber(y, m, d) < DayCount
    ensures FromDayNumber(DayNumber(y, m, d)) == Date(y, m, d)
  {
    var n := DayNumber(y, m, d);
    DayNumberPlace(y, m, d);
    var r := FromDayNumber(n);
    YearOfDayUnique(n, r.year, y);
    MonthOfDayUnique(y, n - DaysBeforeYear(y), r.month, m);
  }

  lemma DayNumberPlace(y: int, m: int, d: int)
    requires ValidDate(y, m, d)
    ensures 0 <= DayNumber(y, m, d) < DayCount
    ensures DaysBeforeYear(y) <= DayNumber(y, m, d) < DaysBeforeYear(y + 1)
    ensures var r := DayNumber(y, m, d) - DaysBeforeYear(y);
            DaysBeforeMonth(y, m) <= r < DaysBeforeMonth(y, m) + DaysInMonth(y, m)
  {
    DaysBeforeYearStep(y);
    MonthsBeforeYearEnd(y, m);
    DaysBeforeYearGrows(y + 1, MaxYear + 1);
    assert DaysBeforeYear(1) == 0;
    DaysBeforeYearGrows(1, y);
  }

  lemma {:induction false} MonthsBeforeYearEnd(y: int, m: int)
    requires 1 <= m <= 12
    ensures 0 <= DaysBeforeMonth(y, m) && DaysBeforeMonth(y, m) + DaysInMonth(y, m) <= DaysInYear(y)
    decreases 12 - m
  {
    MonthStep(y, m);
    if m < 12 {
      MonthsBeforeYearEnd(y, m + 1);
    }
  }

  /** Monday = 0 ... Sunday = 6, as `date.weekday()`. */
  function Weekday(n: int): (w: int)
    requires n >= 0
    ensures 0 <= w < 7
  {
    n % 7
  }

  /**
   * The Monday of the week holding the first Thursday on or after day `first`;
   * for the first day of a year this is Python's `_isoweek1monday`.
   */
  function Week1Monday(first: int): (w: int)
    requires first >= 0
    ensures w % 7 == 0
    ensures first <= w + 3 < first + 7
  {
    var wd := first % 7;
    if wd > 3 then first - wd + 7 else first - wd
  }

  lemma DaysBeforeYearNonNegative(y: int)
    requires y >= 1
    ensures DaysBeforeYear(y) >= 0
  {
  }

  /**
   * Counting whole weeks from the week-1 Monday `w` of a year starting on day
   * `j` gives the same number as counting from `j` to the Thursday of `n`'s week,
   * provided that Thursday falls before the next year's first day `jNext`.
   */
  lemma WeeksFromThursday(n: int, j: int, jNext: int, w: int)
    requires n >= 0 && w % 7 == 0 && j <= w + 3 < j + 7 && w <= n
    requires n - n % 7 + 3 < jNext <= j + 366
    ensures j <= n - n % 7 + 3
    ensures (n - w) / 7 == (n - n % 7 + 3 - j) / 7
    ensures (n - w) / 7 <= 52
  {
    var q := (n - w) / 7;
    assert n - w == 7 * q + n % 7;
  }

  /** A day before the Monday `w` lies in a week whose Thursday is before `w - 3`. */
  lemma ThursdayBeforeMonday(n: int, w: int)
    requires n >= 0 && w % 7 == 0 && n < w
    ensures n - n % 7 + 3 <= w - 4
  {
    var q := n / 7;
    assert n == 7 * q + n % 7;
    assert w == 7 * (w / 7);
    assert q < w / 7;
  }

  /** Week number 53 at most: a year's week-1 Monday is at least 361 days before the next year's. */
  lemma EarlyWeeksThursday(n: int, j: int, jNext: int, w: int)
    requires n >= 0 && w % 7 == 0 && j <= w + 3 < j + 7 && w <= n
    requires (n - w) / 7 < 52 && jNext >= j + 365
    ensures n - n % 7 + 3 < jNext
  {
    var q := (n - w) / 7;
    assert n - w == 7 * q + n % 7;
  }

  lemma ModShift(n: int, w: int)
    requires w % 7 == 0
    ensures (n - w) % 7 == n % 7
  {
    assert w == 7 * (w / 7);
  }

  lemma MondayOfWeek(n: int, w: int)
    requires n >= 0 && w % 7 == 0 && w <= n < w + 7
    ensures n - n % 7 == w
  {
    assert w == 7 * (w / 7);
  }

  datatype IsoDate = IsoDate(year: int, week: int, weekday: int)

  /**
   * Python's `date.isocalendar()` stated on the first days of the years around
   * day `n`: `n` lies in year `y`, whose first day is `j`; `jPrev`, `jNext` and
   * `jNext2` are the first days of years `y - 1`, `y + 1` and `y + 2`.
   */
  function IsoFromYearStarts(n: int, y: int, jPrev: int, j: int, jNext: int, jNext2: int): (r: IsoDate)
    requires y >= 1 && 0 <= j <= n < jNext
    requires 365 <= jNext - j <= 366 && 365 <= jNext2 - jNext <= 366
    requires y == 1 ==> j == 0
    requires y > 1 ==> 0 <= jPrev && 365 <= j - jPrev <= 366
    requires jNext2 <= DayCount + 366
    ensures 1 <= r.week <= 53 && r.weekday == n % 7 + 1
    ensures r.year == y - 1 || r.year == y || r.year == y + 1
    ensures var thursday := n - n % 7 + 3;
            var (first, next) := if r.year == y - 1 then (jPrev, j)
                                 else if r.year == y then (j, jNext)
                                 else (jNext, jNext2);
            first <= thursday < next && r.week == (thursday - first) / 7 + 1
  {
    var w1 := Week1Monday(j);
    var week, day := (n - w1) / 7, (n - w1) % 7;
    ModShift(n, w1);
    if week < 0 then
      assert y > 1;
      var w0 := Week1Monday(jPrev);
      ThursdayBeforeMonday(n, w1);
      WeeksFromThursday(n, jPrev, j, w0);
      ModShift(n, w0);
      IsoDate(y - 1, (n - w0) / 7 + 1, (n - w0) % 7 + 1)
    else if week >= 52 && n >= Week1Monday(jNext) then
      MondayOfWeek(n, Week1Monday(jNext));
      IsoDate(y + 1, 1, day + 1)
    else
      assert n - n % 7 + 3 < jNext by {
        if week >= 52 {
          ThursdayBeforeMonday(n, Week1Monday(jNext));
        } else {
          EarlyWeeksThursday(n, j, jNext, w1);
        }
      }
      WeeksFromThursday(n, j, jNext, w1);
      IsoDate(y, week + 1, day + 1)
  }

  lemma YearStartsAround(y: int)
    requires 1 <= y <= MaxYear
    ensures 0 <= DaysBeforeYear(y)
    ensures 365 <= DaysBeforeYear(y + 1) - DaysBeforeYear(y) <= 366
    ensures 365 <= DaysBeforeYear(y + 2) - DaysBeforeYear(y + 1) <= 366
    ensures y == 1 ==> DaysBeforeYear(y) == 0
    ensures y > 1 ==> 0 <= DaysBeforeYear(y - 1) && 365 <= DaysBeforeYear(y) - DaysBeforeYear(y - 1) <= 366
    ensures DaysBeforeYear(y + 2) <= DayCount + 366
  {
    DaysBeforeYearStep(y);
    DaysBeforeYearStep(y + 1);
    DaysBeforeYearGrows(y + 2, MaxYear + 2);
    DaysBeforeYearStep(MaxYear + 1);
    if y > 1 { DaysBeforeYearStep(y - 1); }
  }

  /**
   * Python's `date.isocalendar()` for day `n`. The result's year is the year
   * holding the Thursday of `n`'s Monday-to-Sunday week, and the week number
   * counts weeks from the one holding that year's first Thursday (ISO 8601).
   */
  function IsoCalendar(n: int): (r: IsoDate)
    requires 0 <= n < DayCount
    ensures 1 <= r.week <= 53 && r.weekday == Weekday(n) + 1
    ensures r.year >= 1
    ensures var thursday := n - n % 7 + 3;
            DaysBeforeYear(r.year) <= thursday < DaysBeforeYear(r.year + 1)
            && r.week == (thursday - DaysBeforeYear(r.year)) / 7 + 1
  {
    var y := FromDayNumber(n).year;
    var jPrev := if y > 1 then DaysBeforeYear(y - 1) else 0;
    YearOfDayNumber(n);
    YearStartsAround(y);
    var r := IsoFromYearStarts(n, y, jPrev, DaysBeforeYear(y), DaysBeforeYear(y + 1), DaysBeforeYear(y + 2));
    IsoYearBounds(n, y, r);
    r
  }

  /** Day `n` lies within the year of its calendar date. */
  lemma YearOfDayNumber(n: int)
    requires 0 <= n < DayCount
    ensures var y := FromDayNumber(n).year; 1 <= y <= MaxYear && DaysBeforeYear(y) <= n < DaysBeforeYear(y + 1)
  {
    var d := FromDayNumber(n);
    DayNumberPlace(d.year, d.month, d.day);
  }

  lemma IsoYearBounds(n: int, y: int, r: IsoDate)
    requires 1 <= y <= MaxYear && DaysBeforeYear(y) <= n < DaysBeforeYear(y + 1)
    requires r.year == y - 1 || r.year == y || r.year == y + 1
    requires y == 1 ==> r.year != 0
    requires var thursday := n - n % 7 + 3;
             var jPrev := if y > 1 then DaysBeforeYear(y - 1) else 0;
             var (first, next) := if r.year == y - 1 then (jPrev, DaysBeforeYear(y))
                                  else if r.year == y then (DaysBeforeYear(y), DaysBeforeYear(y + 1))
                                  else (DaysBeforeYear(y + 1), DaysBeforeYear(y + 2));
             first <= thursday < next && r.week == (thursday - first) / 7 + 1
    ensures r.year >= 1
    ensures var thursday := n - n % 7 + 3;
            DaysBeforeYear(r.year) <= thursday < DaysBeforeYear(r.year + 1)
            && r.week == (thursday - DaysBeforeYear(r.year)) / 7 + 1
  {
    if r.year == y - 1 {
      assert y > 1;
      assert r.year + 1 == y;
    } else if r.year == y + 1 {
      assert r.year + 1 == y + 2;
    }
  }
}
