/**
 * The report's periods: which window of time each choice of the period
 * drop-down shows, how entries are matched against the window, and how the
 * summary groups them.
 */
module Periods {
  import opened Options
  import opened Text
  import opened Calendar
  import opened DateTimes

  /** The choices of the period drop-down. */
  datatype Mode = Day | Week | Month | AllTime | Custom

  /** A choice by its label; any label not listed is the custom range. */
  function ModeOf(name: string): (m: Mode)
    ensures m == Day <==> name == "День"
    ensures m == Week <==> name == "Неделя" || name == "Текущая неделя"
    ensures m == Month <==> name == "Месяц" || name == "Текущий месяц"
    ensures m == AllTime <==> name == "За всё время"
  {
    if name == "День" then Day
    else if name == "Неделя" || name == "Текущая неделя" then Week
    else if name == "Месяц" || name == "Текущий месяц" then Month
    else if name == "За всё время" then AllTime
    else Custom
  }

  /** How the summary table groups the entries of a period. */
  datatype Grouping = Ungrouped | ByDay | ByWeek

  /** The inclusive window `[start, end]`. */
  datatype Window = Window(start: Instant, end: Instant)

  /** `datetime.combine(day, time.max)`: the last microsecond of day `n`. */
  function EndOfDay(n: int): Instant {
    Days(n + 1) - 1
  }

  /** Today: from midnight to `time.max` of the date of `now`. */
  function DayWindow(now: Instant): (w: Window)
    requires ValidInstant(now)
    ensures ValidInstant(w.start) && ValidInstant(w.end)
  {
    var n := DayOf(now);
    Window(Days(n), EndOfDay(n))
  }

  /** The day window holds exactly the instants of the date of `now`. */
  lemma DayWindowHolds(now: Instant, t: Instant)
    requires ValidInstant(now) && ValidInstant(t)
    ensures DayWindow(now).start <= t <= DayWindow(now).end <==> DayOf(t) == DayOf(now)
  {
    var n, k := DayOf(now), DayOf(t);
    if k < n { assert Days(k + 1) <= Days(n); }
    if k > n { assert Days(n + 1) <= Days(k); }
  }

  /**
   * This week: from Monday 00:00 of the week of `now` to that Monday plus
   * 6 days 23:59:59. `None` is the `OverflowError` raised when that end lies
   * past 9999-12-31.
   */
  function WeekWindow(now: Instant): (r: Option<Window>)
    requires ValidInstant(now)
    ensures var monday := DayOf(now) - Weekday(DayOf(now));
            && Weekday(monday) == 0 && 0 <= monday <= DayOf(now) < monday + 7
            && (r.None? <==> monday + 6 >= DayCount)
            && (r.Some? ==> r.value == Window(Days(monday), Days(monday + 7) - Seconds(1)))
  {
    var n := DayOf(now);
    var start := Days(n - Weekday(n));
    var end := start + Days(6) + TimeOfDay(23, 59, 59, 0);
    assert (n - n % 7) % 7 == 0 by { ModShift(n, n - n % 7); }
    if end <= MaxInstant then Some(Window(start, end)) else None
  }

  /**
   * This month: from the first of the month of `now`, 00:00, to `time.max` of
   * the day before day `d` of the month after, where `d` is reached by adding
   * 4 days to day 28 of this month. `None` is the `OverflowError` raised in
   * December 9999.
   */
  function MonthWindow(now: Instant): Option<Window>
    requires ValidInstant(now)
  {
    MonthWindowOf(now, DateOf(now))
  }

  /** The month window of `now`, whose date is `d`. */
  function MonthWindowOf(now: Instant, d: Date): Option<Window>
    requires ValidInstant(now) && d.Valid() && DayOf(now) == DayNumber(d.year, d.month, d.day)
  {
    var n := DayOf(now);
    var first := n - (d.day - 1);
    var day28 := n + (28 - d.day);
    // `now.replace(day=28) + timedelta(days=4)` keeps the time of `now`, so it
    // overflows exactly when its date does; its date is `day28 + 4`.
    if Days(day28 + 4) + TimeOf(now) > MaxInstant then None
    else
      var nd := day28 + 4;
      OverflowsWithDay(nd, TimeOf(now));
      var last := nd - FromDayNumber(nd).day;
      Some(Window(Days(first), EndOfDay(last)))
  }

  /**
   * The month window runs from the first of the month of `now` to the end of
   * the month's last day, and overflows only in December 9999.
   */
  lemma MonthWindowIsMonth(now: Instant)
    requires ValidInstant(now)
    ensures var d := DateOf(now); MonthWindow(now).None? <==> d.year == MaxYear && d.month == 12
    ensures MonthWindow(now).Some? ==> var d := DateOf(now);
            && MonthWindow(now).value.start == Days(DayNumber(d.year, d.month, 1))
            && MonthWindow(now).value.end == EndOfDay(DayNumber(d.year, d.month, DaysInMonth(d.year, d.month)))
  {
    MonthWindowOfIsMonth(now, DateOf(now));
  }

  lemma MonthWindowOfIsMonth(now: Instant, d: Date)
    requires ValidInstant(now) && d.Valid() && DayOf(now) == DayNumber(d.year, d.month, d.day)
    ensures MonthWindowOf(now, d).None? <==> d.year == MaxYear && d.month == 12
    ensures MonthWindowOf(now, d).Some? ==>
            && MonthWindowOf(now, d).value.start == Days(DayNumber(d.year, d.month, 1))
            && MonthWindowOf(now, d).value.end == EndOfDay(DayNumber(d.year, d.month, DaysInMonth(d.year, d.month)))
  {
    MonthOverflowOf(now, d);
    if MonthWindowOf(now, d).Some? {
      MonthStartOf(now, d);
      MonthEndOf(now, d);
    }
  }

  lemma MonthOverflowOf(now: Instant, d: Date)
    requires ValidInstant(now) && d.Valid() && DayOf(now) == DayNumber(d.year, d.month, d.day)
    ensures MonthWindowOf(now, d).None? <==> d.year == MaxYear && d.month == 12
  {
    var n := DayOf(now);
    MonthStepsAt(n, d.year, d.month, d.day);
    OverflowsWithDay(n + (28 - d.day) + 4, TimeOf(now));
  }

  lemma MonthStartOf(now: Instant, d: Date)
    requires ValidInstant(now) && d.Valid() && DayOf(now) == DayNumber(d.year, d.month, d.day)
    requires MonthWindowOf(now, d).Some?
    ensures MonthWindowOf(now, d).value.start == Days(DayNumber(d.year, d.month, 1))
  {
    MonthStepsAt(DayOf(now), d.year, d.month, d.day);
  }

  lemma MonthEndOf(now: Instant, d: Date)
    requires ValidInstant(now) && d.Valid() && DayOf(now) == DayNumber(d.year, d.month, d.day)
    requires MonthWindowOf(now, d).Some?
    ensures MonthWindowOf(now, d).value.end == EndOfDay(DayNumber(d.year, d.month, DaysInMonth(d.year, d.month)))
  {
    var n := DayOf(now);
    var nd := n + (28 - d.day) + 4;
    OverflowsWithDay(nd, TimeOf(now));
    MonthEndStep(n, d);
  }

  /** With day 28 plus 4 days in range, stepping back lands on the month's last day. */
  lemma MonthEndStep(n: int, d: Date)
    requires d.Valid() && n == DayNumber(d.year, d.month, d.day) && n + (28 - d.day) + 4 < DayCount
    ensures n + (28 - d.day) + 4 - FromDayNumber(n + (28 - d.day) + 4).day
            == DayNumber(d.year, d.month, DaysInMonth(d.year, d.month))
  {
    MonthStepsAt(n, d.year, d.month, d.day);
  }

  /** A day and a time of day make a valid instant exactly when the day is one of the calendar's. */
  lemma OverflowsWithDay(k: int, tod: int)
    requires 0 <= k && 0 <= tod < Days(1)
    ensures Days(k) + tod > MaxInstant <==> k >= DayCount
  {
    if k < DayCount {
      assert Days(k) <= Days(DayCount - 1);
    }
  }

  lemma MonthStepsAt(n: int, y: int, m: int, day: int)
    requires ValidDate(y, m, day) && n == DayNumber(y, m, day)
    ensures n - (day - 1) == DayNumber(y, m, 1)
    ensures n + (28 - day) + 4 >= DayCount <==> y == MaxYear && m == 12
    ensures n + (28 - day) + 4 < DayCount ==>
              var nd := n + (28 - day) + 4;
              nd - FromDayNumber(nd).day == DayNumber(y, m, DaysInMonth(y, m))
  {
    assert n + (28 - day) == DayNumber(y, m, 28);
    MonthAfterDay28(y, m);
  }

  /**
   * Four days after day 28 of a month is day `32 - length` of the month after,
   * so stepping back that many days lands on the month's last day.
   */
  lemma MonthAfterDay28(y: int, m: int)
    requires 1 <= y <= MaxYear && 1 <= m <= 12
    ensures y == MaxYear && m == 12 ==> DayNumber(y, m, 28) + 4 == DayCount
    ensures !(y == MaxYear && m == 12) ==>
            var next := DayNumber(y, m, 28) + 4;
            && 0 <= next < DayCount
            && FromDayNumber(next).day == 32 - DaysInMonth(y, m)
            && next - FromDayNumber(next).day == DayNumber(y, m, DaysInMonth(y, m))
  {
    if m < 12 {
      NextMonthStart(y, m);
      StepIntoMonth(y, m, y, m + 1);
    } else if y < MaxYear {
      NextYearStart(y);
      StepIntoMonth(y, m, y + 1, 1);
    } else {
      LastMonthOfTime();
    }
  }

  /** Day 28 plus 4 of month `m` of year `y` lands in month `m2` of year `y2`, which starts right after it. */
  lemma StepIntoMonth(y: int, m: int, y2: int, m2: int)
    requires 1 <= y <= MaxYear && 1 <= m <= 12 && 1 <= y2 <= MaxYear && 1 <= m2 <= 12
    requires DayNumber(y2, m2, 1) == DayNumber(y, m, 1) + DaysInMonth(y, m)
    ensures var next := DayNumber(y, m, 28) + 4;
            && 0 <= next < DayCount
            && FromDayNumber(next).day == 32 - DaysInMonth(y, m)
            && next - FromDayNumber(next).day == DayNumber(y, m, DaysInMonth(y, m))
  {
    var len := DaysInMonth(y, m);
    var d := 32 - len;
    assert DayNumber(y, m, 28) + 4 == DayNumber(y2, m2, d);
    FromDayNumberInverse(y2, m2, d);
  }

  lemma LastMonthOfTime()
    ensures DayNumber(MaxYear, 12, 28) + 4 == DayCount
  {
    NextYearStart(MaxYear);
    DayCountIsEndOfYear9999();
    assert DayNumber(MaxYear + 1, 1, 1) == DaysBeforeYear(MaxYear + 1);
  }

  lemma NextMonthStart(y: int, m: int)
    requires 1 <= y && 1 <= m < 12
    ensures DayNumber(y, m + 1, 1) == DayNumber(y, m, 1) + DaysInMonth(y, m)
  {
    MonthStep(y, m);
  }

  lemma NextYearStart(y: int)
    requires 1 <= y
    ensures DayNumber(y + 1, 1, 1) == DayNumber(y, 12, 1) + 31
  {
    MonthStep(y, 12);
    DaysBeforeYearStep(y);
  }

  /** The custom range: `fromisoformat(from + "T00:00:00")` to `fromisoformat(to + "T23:59:59")`. */
  function CustomWindow(from: string, to: string): (r: Option<Window>)
    ensures r.Some? ==> ValidInstant(r.value.start) && ValidInstant(r.value.end)
  {
    var s, e := ParseIso(from + "T00:00:00"), ParseIso(to + "T23:59:59");
    if s.Some? && e.Some? then Some(Window(s.value, e.value)) else None
  }

  /** Dates typed as `YYYY-MM-DD` give the window from the first day's midnight to the last day's 23:59:59. */
  lemma CustomWindowOfDates(a: int, b: int)
    requires 0 <= a < DayCount && 0 <= b < DayCount
    ensures CustomWindow(FormatDate(a), FormatDate(b)).Some?
    ensures CustomWindow(FormatDate(a), FormatDate(b)).value == Window(Days(a), Days(b) + TimeOfDay(23, 59, 59, 0))
  {
    StartOfTypedDay(a);
    EndOfTypedDay(b);
  }

  lemma StartOfTypedDay(n: int)
    requires 0 <= n < DayCount
    ensures ParseIso(FormatDate(n) + "T00:00:00").Some?
    ensures ParseIso(FormatDate(n) + "T00:00:00").value == Days(n)
  {
    ParseFormattedDate(n);
    Midnight();
    assert "T00:00:00"[1..] == "00:00:00";
    DateThenTime(FormatDate(n), n, "T00:00:00", 0);
  }

  lemma EndOfTypedDay(n: int)
    requires 0 <= n < DayCount
    ensures ParseIso(FormatDate(n) + "T23:59:59").Some?
    ensures ParseIso(FormatDate(n) + "T23:59:59").value == Days(n) + TimeOfDay(23, 59, 59, 0)
  {
    ParseFormattedDate(n);
    LastSecond();
    assert "T23:59:59"[1..] == "23:59:59";
    DateThenTime(FormatDate(n), n, "T23:59:59", TimeOfDay(23, 59, 59, 0));
  }

  lemma Midnight()
    ensures ParseIsoTime("00:00:00").Some? && ParseIsoTime("00:00:00").value == 0
  {
    ClockTextAt("00", "00", "00");
    assert "00" + ":" + "00" + ":" + "00" == "00:00:00";
  }

  lemma LastSecond()
    ensures ParseIsoTime("23:59:59").Some? && ParseIsoTime("23:59:59").value == TimeOfDay(23, 59, 59, 0)
  {
    ClockTextAt("23", "59", "59");
    assert "23" + ":" + "59" + ":" + "59" == "23:59:59";
  }

  /** `HH:MM:SS` read by the time half of `fromisoformat`. */
  lemma ClockTextAt(hh: string, mm: string, ss: string)
    requires |hh| == 2 && |mm| == 2 && |ss| == 2 && AllDigits(hh) && AllDigits(mm) && AllDigits(ss)
    requires DigitsValue(hh) < 24 && DigitsValue(mm) < 60 && DigitsValue(ss) < 60
    ensures ParseIsoTime(hh + ":" + mm + ":" + ss).Some?
    ensures ParseIsoTime(hh + ":" + mm + ":" + ss).value == TimeOfDay(DigitsValue(hh), DigitsValue(mm), DigitsValue(ss), 0)
  {
    SplitThree(hh, ":", mm, ":", ss);
    ClockFields(hh + ":" + mm + ":" + ss, hh, mm, ss);
  }

  lemma ClockFields(t: string, hh: string, mm: string, ss: string)
    requires |t| == 8 && t[2] == ':' && t[5] == ':'
    requires t[..2] == hh && t[3..5] == mm && t[6..] == ss
    requires AllDigits(hh) && AllDigits(mm) && AllDigits(ss)
    requires DigitsValue(hh) < 24 && DigitsValue(mm) < 60 && DigitsValue(ss) < 60
    ensures ParseIsoTime(t).Some?
    ensures ParseIsoTime(t).value == TimeOfDay(DigitsValue(hh), DigitsValue(mm), DigitsValue(ss), 0)
  {
    assert t[0..2] == hh && t[6..8] == ss;
    var h, m, sec := Field(t, 0, 2), Field(t, 3, 2), Field(t, 6, 2);
    assert h.Some? && m.Some? && sec.Some?;
  }

  /** A date text followed by a separator and a time text, as `fromisoformat` reads it. */
  lemma DateThenTime(date: string, n: int, rest: string, tod: int)
    requires |date| == 10 && |rest| >= 2
    requires ParseIsoDate(date).Some? && ParseIsoDate(date).value == n
    requires ParseIsoTime(rest[1..]).Some? && ParseIsoTime(rest[1..]).value == tod
    ensures ParseIso(date + rest).Some? && ParseIso(date + rest).value == Days(n) + tod
  {
    var s := date + rest;
    assert s[..10] == date && s[11..] == rest[1..];
    var r := AtTime(ParseIsoDate(date), ParseIsoTime(rest[1..]));
    assert r.Some? && r.value == Days(n) + tod;
  }

  /**
   * The range the custom fields start with: a week ago and today, written
   * with `strftime("%Y-%m-%d")`. `None` is the `OverflowError` of the first
   * week of year 1.
   */
  function DefaultRange(today: int): (r: Option<(string, string)>)
    requires 0 <= today < DayCount
    ensures r.Some? <==> today >= 7
  {
    if today >= 7 then Some((FormatDate(today - 7), FormatDate(today))) else None
  }

  /** The default range is read back as the eight days ending with today. */
  lemma DefaultRangeWindow(today: int)
    requires 7 <= today < DayCount
    ensures CustomWindow(DefaultRange(today).value.0, DefaultRange(today).value.1).Some?
    ensures CustomWindow(DefaultRange(today).value.0, DefaultRange(today).value.1).value
            == Window(Days(today - 7), Days(today) + TimeOfDay(23, 59, 59, 0))
  {
    CustomWindowOfDates(today - 7, today);
  }

  /** Every instant a `datetime` can hold. */
  const AllTimeWindow := Window(0, MaxInstant)

  /** The window and grouping a period choice resolves to, or the error that stops the report. */
  datatype Resolution = Resolved(window: Window, grouping: Grouping) | Overflow | BadDate

  /** The window and grouping of `update(mode)` at time `now`, with the custom fields `from` and `to`. */
  function Resolve(mode: Mode, now: Instant, from: string, to: string): (r: Resolution)
    requires ValidInstant(now)
    ensures r.Overflow? ==> mode == Week || mode == Month
    ensures r.BadDate? <==> mode == Custom && CustomWindow(from, to).None?
    ensures r.Resolved? ==> (r.grouping == ByDay <==> mode == Week) && (r.grouping == ByWeek <==> mode == Month)
  {
    match mode
    case Day => Resolved(DayWindow(now), Ungrouped)
    case Week =>
      (match WeekWindow(now) case Some(w) => Resolved(w, ByDay) case None => Overflow)
    case Month =>
      (match MonthWindow(now) case Some(w) => Resolved(w, ByWeek) case None => Overflow)
    case AllTime => Resolved(AllTimeWindow, Ungrouped)
    case Custom =>
      (match CustomWindow(from, to) case Some(w) => Resolved(w, Ungrouped) case None => BadDate)
  }

  /** The window holds the instant `t`. */
  predicate Holds(w: Window, t: Instant) {
    w.start <= t <= w.end
  }

  /** `not (end < window.start or start > window.end)`: the entry is shown. */
  predicate Meets(start: Instant, end: Instant, w: Window) {
    !(end < w.start || start > w.end)
  }

  /**
   * For an entry that does not end before it starts and a window that does
   * not end before it starts, being shown means sharing an instant with the
   * window.
   */
  lemma MeetsShares(start: Instant, end: Instant, w: Window)
    requires start <= end && w.start <= w.end
    ensures Meets(start, end, w) <==> exists t :: Holds(Window(start, end), t) && Holds(w, t)
  {
    if Meets(start, end, w) {
      var t := if start < w.start then w.start else start;
      assert Holds(Window(start, end), t) && Holds(w, t);
    }
  }

  /** The all-time window shows every entry. */
  lemma AllTimeMeetsAll(start: Instant, end: Instant)
    requires ValidInstant(start) && ValidInstant(end)
    ensures Meets(start, end, AllTimeWindow)
  {
  }
}
