/**
 * Naive `datetime` values as microsecond counts, and the text layouts the
 * tracker reads and writes: `isoformat()` / `fromisoformat()`, and
 * `strftime` / `strptime` with `"%Y-%m-%d %H:%M:%S"`, `"%d.%m.%Y"`,
 * `"%d.%m.%Y %H:%M"`, `"%Y-%m-%d %H:%M"` and `"%H:%M"`.
 *
 * Durations are written with literal factors (one second is 1_000_000
 * microseconds, one day 86_400_000_000) so that the arithmetic stays linear
 * for the verifier.
 */
module DateTimes {
  import opened Options
  import opened Text
  import opened Calendar

  /** `datetime.max`: 9999-12-31T23:59:59.999999. `datetime.min` is 0. */
  const MaxInstant: int := 315_537_897_599_999_999

  /** A naive `datetime`: microseconds since 0001-01-01T00:00:00. */
  type Instant = int

  predicate ValidInstant(t: int) { 0 <= t <= MaxInstant }

  /** `n` seconds in microseconds (`timedelta(seconds=n)`). */
  function Seconds(n: int): int { n * 1_000_000 }

  /** `n` days in microseconds (`timedelta(days=n)`). */
  function Days(n: int): int { n * 86_400_000_000 }

  /** The microseconds since midnight of a clock reading. */
  function TimeOfDay(hour: int, minute: int, second: int, micro: int): int {
    hour * 3_600_000_000 + minute * 60_000_000 + second * 1_000_000 + micro
  }

  lemma MaxInstantIsEndOfDayCount()
    ensures MaxInstant == Days(DayCount) - 1
  {
  }

  /** The day number of `t.date()`. */
  function DayOf(t: Instant): (n: int)
    requires ValidInstant(t)
    ensures 0 <= n < DayCount
    ensures Days(n) <= t < Days(n + 1)
  {
    t / 86_400_000_000
  }

  /** The microseconds since midnight of `t.time()`. */
  function TimeOf(t: Instant): (tod: int)
    requires ValidInstant(t)
    ensures 0 <= tod < Days(1)
    ensures Days(DayOf(t)) + tod == t
  {
    t % 86_400_000_000
  }

  /** `t.date()` as a calendar date. */
  function DateOf(t: Instant): Date
    requires ValidInstant(t)
  {
    FromDayNumber(DayOf(t))
  }

  /** Python's `int(td.total_seconds())` for a timedelta of `us` microseconds: truncation toward zero. */
  function WholeSeconds(us: int): (s: int)
    ensures us >= 0 ==> 0 <= s && Seconds(s) <= us < Seconds(s + 1)
    ensures us < 0 ==> s <= 0 && Seconds(s - 1) < us <= Seconds(s)
  {
    if us >= 0 then us / 1_000_000 else -((-us) / 1_000_000)
  }

  /** The clock reading of an instant. */
  datatype Clock = Clock(hour: int, minute: int, second: int, micro: int) {
    predicate Valid() {
      0 <= hour < 24 && 0 <= minute < 60 && 0 <= second < 60 && 0 <= micro < 1_000_000
    }
  }

  function ClockOf(t: Instant): (c: Clock)
    requires ValidInstant(t)
    ensures c.Valid() && TimeOfDay(c.hour, c.minute, c.second, c.micro) == TimeOf(t)
  {
    var tod := TimeOf(t);
    var r := tod % 3_600_000_000;
    Clock(tod / 3_600_000_000, r / 60_000_000, r % 60_000_000 / 1_000_000, r % 1_000_000)
  }

  // ---------------------------------------------------------------------------
  // Parsing

  /** The `w` characters of `s` at `i` read as a decimal number, when they are all digits. */
  function Field(s: string, i: nat, w: nat): (r: Option<nat>)
    requires i + w <= |s|
    ensures r.Some? <==> AllDigits(s[i..i + w])
    ensures r.Some? ==> r.value == DigitsValue(s[i..i + w]) < Pow10(w)
  {
    if AllDigits(s[i..i + w]) then Some(DigitsValue(s[i..i + w])) else None
  }

  /** The day number of a valid date given as optional fields; `None` is the `ValueError`. */
  function DayOfFields(y: Option<nat>, m: Option<nat>, d: Option<nat>): (r: Option<int>)
    ensures r.Some? <==> y.Some? && m.Some? && d.Some? && ValidDate(y.value, m.value, d.value)
    ensures r.Some? ==> 0 <= r.value < DayCount && FromDayNumber(r.value) == Date(y.value, m.value, d.value)
  {
    if y.Some? && m.Some? && d.Some? && ValidDate(y.value, m.value, d.value) then
      FromDayNumberInverse(y.value, m.value, d.value);
      Some(DayNumber(y.value, m.value, d.value))
    else None
  }

  /** `YYYY-MM-DD`, the date half of `fromisoformat`. */
  function ParseIsoDate(s: string): (r: Option<int>)
    requires |s| == 10
    ensures r.Some? ==> 0 <= r.value < DayCount
  {
    if s[4] == '-' && s[7] == '-' then DayOfFields(Field(s, 0, 4), Field(s, 5, 2), Field(s, 8, 2))
    else None
  }

  /**
   * `HH[:MM[:SS[.fff|.ffffff]]]`, the time half of `fromisoformat`:
   * microseconds since midnight.
   */
  function ParseIsoTime(t: string): (r: Option<int>)
    ensures r.Some? ==> 0 <= r.value < Days(1)
  {
    if !(|t| == 2 || |t| == 5 || |t| == 8 || |t| == 12 || |t| == 15) then None
    else
      var hh := Field(t, 0, 2);
      var mm := if |t| >= 5 then Field(t, 3, 2) else Some(0);
      var ss := if |t| >= 8 then Field(t, 6, 2) else Some(0);
      var frac := if |t| == 12 then (match Field(t, 9, 3) case Some(v) => Some(v * 1000) case None => None)
                  else if |t| == 15 then Field(t, 9, 6)
                  else Some(0);
      var separators := (|t| >= 5 ==> t[2] == ':') && (|t| >= 8 ==> t[5] == ':') && (|t| >= 12 ==> t[8] == '.');
      if separators && hh.Some? && mm.Some? && ss.Some? && frac.Some?
         && hh.value < 24 && mm.value < 60 && ss.value < 60 && frac.value < 1_000_000
      then Some(TimeOfDay(hh.value, mm.value, ss.value, frac.value))
      else None
  }

  /**
   * `datetime.fromisoformat(s)` for offset-free strings: a date, optionally
   * followed by any one separator character and a time.
   */
  function ParseIso(s: string): (r: Option<Instant>)
    ensures r.Some? ==> ValidInstant(r.value)
  {
    if |s| < 10 then None
    else if |s| == 10 then AtTime(ParseIsoDate(s[..10]), Some(0))
    else AtTime(ParseIsoDate(s[..10]), ParseIsoTime(s[11..]))
  }

  /** The instant of a parsed day at a parsed time of day, when both parsed. */
  function AtTime(day: Option<int>, tod: Option<int>): (r: Option<Instant>)
    requires day.Some? ==> 0 <= day.value < DayCount
    requires tod.Some? ==> 0 <= tod.value < Days(1)
    ensures r.Some? <==> day.Some? && tod.Some?
    ensures r.Some? ==> ValidInstant(r.value) && r.value == Days(day.value) + tod.value
  {
    if day.Some? && tod.Some? then Some(Days(day.value) + tod.value) else None
  }

  /** An instant built from a day and a time of day splits back into them. */
  lemma DayAndTimeOf(n: int, tod: int)
    requires 0 <= n < DayCount && 0 <= tod < Days(1)
    ensures ValidInstant(Days(n) + tod)
    ensures DayOf(Days(n) + tod) == n && TimeOf(Days(n) + tod) == tod
  {
  }

  /** The position of the first `c` in `s`, or `|s|` when there is none. */
  function IndexOf(s: string, c: char): (i: nat)
    ensures i <= |s| && (i < |s| ==> s[i] == c)
  {
    if s == [] || s[0] == c then 0 else 1 + IndexOf(s[1..], c)
  }

  /** The position of the first whitespace character in `s`, or `|s|` when there is none. */
  function IndexOfSpace(s: string): (i: nat)
    ensures i <= |s| && (i < |s| ==> IsSpace(s[i]))
  {
    if s == [] || IsSpace(s[0]) then 0 else 1 + IndexOfSpace(s[1..])
  }

  /**
   * A one- or two-digit `strptime` field (`%d`, `%m`, `%H`, `%M`, `%S`). Each
   * of their patterns accepts exactly the one- and two-digit texts whose value
   * is in the field's range, which the callers check.
   */
  function ShortField(s: string): (r: Option<nat>)
    ensures r.Some? <==> 1 <= |s| <= 2 && AllDigits(s)
    ensures r.Some? ==> r.value == DigitsValue(s)
  {
    if 1 <= |s| <= 2 && AllDigits(s) then Some(DigitsValue(s)) else None
  }

  /** `%Y`: exactly four digits. */
  function YearField(s: string): (r: Option<nat>)
    ensures r.Some? <==> |s| == 4 && AllDigits(s)
    ensures r.Some? ==> r.value == DigitsValue(s)
  {
    if |s| == 4 && AllDigits(s) then Some(DigitsValue(s)) else None
  }

  /** `%H:%M` up to the end of the text: microseconds since midnight. */
  function ParseHm(s: string): (r: Option<int>)
    ensures r.Some? ==> 0 <= r.value < Days(1)
  {
    var i := IndexOf(s, ':');
    if i == |s| then None
    else
      var h, m := ShortField(s[..i]), ShortField(s[i + 1..]);
      if h.Some? && m.Some? && h.value < 24 && m.value < 60 then Some(TimeOfDay(h.value, m.value, 0, 0))
      else None
  }

  /** `%H:%M:%S` up to the end of the text: microseconds since midnight. */
  function ParseHms(s: string): (r: Option<int>)
    ensures r.Some? ==> 0 <= r.value < Days(1)
  {
    var i := IndexOf(s, ':');
    if i == |s| then None
    else
      var rest := s[i + 1..];
      var j := IndexOf(rest, ':');
      if j == |rest| then None
      else
        var h, m, sec := ShortField(s[..i]), ShortField(rest[..j]), ShortField(rest[j + 1..]);
        if h.Some? && m.Some? && sec.Some? && h.value < 24 && m.value < 60 && sec.value < 60
        then Some(TimeOfDay(h.value, m.value, sec.value, 0))
        else None
  }

  /** `strptime(s, "%Y-%m-%d")`: the day number. */
  function ParseYmd(s: string): (r: Option<int>)
    ensures r.Some? ==> 0 <= r.value < DayCount
  {
    if |s| < 5 || s[4] != '-' then None
    else
      var rest := s[5..];
      var j := IndexOf(rest, '-');
      if j == |rest| then None
      else DayOfFields(YearField(s[..4]), ShortField(rest[..j]), ShortField(rest[j + 1..]))
  }

  /** `strptime(s, "%d.%m.%Y")`: the day number. */
  function ParseDmy(s: string): (r: Option<int>)
    ensures r.Some? ==> 0 <= r.value < DayCount
  {
    var i := IndexOf(s, '.');
    if i == |s| then None
    else
      var rest := s[i + 1..];
      var j := IndexOf(rest, '.');
      if j == |rest| then None
      else DayOfFields(YearField(rest[j + 1..]), ShortField(rest[..j]), ShortField(s[..i]))
  }

  /**
   * The date and the time text of `"<date> <time>"`: a blank in a `strptime`
   * format matches one or more whitespace characters.
   */
  function SplitAtBlank(s: string): (r: Option<(string, string)>)
  {
    var i := IndexOfSpace(s);
    var k := i + LeadingSpaces(s[i..]);
    if k == i then None else Some((s[..i], s[k..]))
  }

  /** `datetime.strptime(s, "%Y-%m-%d %H:%M:%S")`, the legacy log timestamps. */
  function ParseTimestamp(s: string): (r: Option<Instant>)
    ensures r.Some? ==> ValidInstant(r.value)
  {
    var parts := SplitAtBlank(s);
    if parts.None? then None else AtTime(ParseYmd(parts.value.0), ParseHms(parts.value.1))
  }

  /** `datetime.strptime(s, "%d.%m.%Y %H:%M")`, the manual-entry layout. */
  function ParseDmyHm(s: string): (r: Option<Instant>)
    ensures r.Some? ==> ValidInstant(r.value)
  {
    var parts := SplitAtBlank(s);
    if parts.None? then None else AtTime(ParseDmy(parts.value.0), ParseHm(parts.value.1))
  }

  // ---------------------------------------------------------------------------
  // Formatting

  /** `strftime("%Y-%m-%d")` of a day number (also the date half of `isoformat()`). */
  function FormatDate(n: int): (s: string)
    requires 0 <= n < DayCount
    ensures |s| == 10
  {
    var d := FromDayNumber(n);
    Fixed(d.year, 4) + "-" + Fixed(d.month, 2) + "-" + Fixed(d.day, 2)
  }

  /** `strftime("%d.%m.%Y")` of a day number. */
  function FormatDmy(n: int): (s: string)
    requires 0 <= n < DayCount
    ensures |s| == 10
  {
    var d := FromDayNumber(n);
    Fixed(d.day, 2) + "." + Fixed(d.month, 2) + "." + Fixed(d.year, 4)
  }

  /** `HH:MM:SS` of a clock reading. */
  function FormatClock(c: Clock): (s: string)
    requires c.Valid()
    ensures |s| == 8
  {
    Fixed(c.hour, 2) + ":" + Fixed(c.minute, 2) + ":" + Fixed(c.second, 2)
  }

  /** The `.ffffff` suffix `isoformat()` adds when the microseconds are not zero. */
  function MicroSuffix(c: Clock): string
    requires c.Valid()
  {
    if c.micro == 0 then "" else "." + Fixed(c.micro, 6)
  }

  /** `t.isoformat()`: `YYYY-MM-DDTHH:MM:SS`, with `.ffffff` when the microseconds are not zero. */
  function FormatIso(t: Instant): (s: string)
    requires ValidInstant(t)
    ensures |s| >= 19
  {
    var c := ClockOf(t);
    FormatDate(DayOf(t)) + "T" + (FormatClock(c) + MicroSuffix(c))
  }

  /** `strftime("%Y-%m-%d %H:%M:%S")`: the instant to the whole second. */
  function FormatTimestamp(t: Instant): (s: string)
    requires ValidInstant(t)
    ensures |s| == 19
  {
    FormatDate(DayOf(t)) + " " + FormatClock(ClockOf(t))
  }

  /** `strftime("%H:%M")`. */
  function FormatHm(t: Instant): (s: string)
    requires ValidInstant(t)
    ensures |s| == 5
  {
    var c := ClockOf(t);
    Fixed(c.hour, 2) + ":" + Fixed(c.minute, 2)
  }

  /** `strftime("%Y-%m-%d %H:%M")`. */
  function FormatYmdHm(t: Instant): (s: string)
    requires ValidInstant(t)
    ensures |s| == 16
  {
    FormatDate(DayOf(t)) + " " + FormatHm(t)
  }

  // ---------------------------------------------------------------------------
  // Round trips: what the formatters write, the parsers read back

  /** What `isoformat()` writes, `fromisoformat()` reads back as the same instant. */
  lemma ParseFormatIso(t: Instant)
    requires ValidInstant(t)
    ensures ParseIso(FormatIso(t)) == Some(t)
  {
    var c := ClockOf(t);
    var date, time := FormatDate(DayOf(t)), FormatClock(c) + MicroSuffix(c);
    ParseFormattedDate(DayOf(t));
    ParseFormattedClock(c);
    IsoAt(date, time);
    AtTimeSplit(DayOf(t), TimeOf(t), c.hour, c.minute, c.second, c.micro, t);
    assert FormatIso(t) == date + "T" + time;
  }

  /** The report's `"%Y-%m-%d %H:%M:%S"` text reads back as the instant without its microseconds. */
  lemma ParseFormatTimestamp(t: Instant)
    requires ValidInstant(t)
    ensures ParseTimestamp(FormatTimestamp(t)).Some?
    ensures ParseTimestamp(FormatTimestamp(t)).value == t - ClockOf(t).micro
  {
    var n, c := DayOf(t), ClockOf(t);
    TimestampText(n, c);
    ClockParts(c.hour, c.minute, c.second, c.micro);
  }

  lemma ClockParts(hour: int, minute: int, second: int, micro: int)
    ensures TimeOfDay(hour, minute, second, micro) == TimeOfDay(hour, minute, second, 0) + micro
  {
  }

  lemma TimestampText(n: int, c: Clock)
    requires 0 <= n < DayCount && c.Valid()
    ensures ParseTimestamp(FormatDate(n) + " " + FormatClock(c)).Some?
    ensures ParseTimestamp(FormatDate(n) + " " + FormatClock(c)).value == Days(n) + TimeOfDay(c.hour, c.minute, c.second, 0)
  {
    var date, time := FormatDate(n), FormatClock(c);
    ParseFormattedYmd(n);
    ParseFormattedHms(c);
    FormattedDateChars(n);
    FormattedClockStart(c);
    TimestampAt(date, time, n, TimeOfDay(c.hour, c.minute, c.second, 0));
  }

  /** A day and a time of day add up to an instant; without the microseconds, to the instant truncated to the second. */
  lemma AtTimeSplit(n: int, tod: int, hour: int, minute: int, second: int, micro: int, t: int)
    requires 0 <= n < DayCount && 0 <= tod < Days(1) && Days(n) + tod == t
    requires 0 <= hour < 24 && 0 <= minute < 60 && 0 <= second < 60 && 0 <= micro < 1_000_000
    requires TimeOfDay(hour, minute, second, micro) == tod
    ensures AtTime(Some(n), Some(TimeOfDay(hour, minute, second, 0))) == Some(t - micro)
    ensures AtTime(Some(n), Some(tod)) == Some(t)
  {
    var whole := TimeOfDay(hour, minute, second, 0);
    assert Days(n) + whole == t - micro && 0 <= whole < Days(1);
    var r := AtTime(Some(n), Some(whole));
    assert r.Some? && r.value == t - micro;
    var r' := AtTime(Some(n), Some(tod));
    assert r'.Some? && r'.value == t;
  }

  /** The clock text starts with a digit. */
  lemma FormattedClockStart(c: Clock)
    requires c.Valid()
    ensures IsDigit(FormatClock(c)[0])
  {
    FixedDigits(c.hour, 2);
    assert FormatClock(c)[0] == Fixed(c.hour, 2)[0];
  }

  /** The date text holds only digits and dashes. */
  lemma FormattedDateChars(n: int)
    requires 0 <= n < DayCount
    ensures forall k :: 0 <= k < 10 ==> IsDigit(FormatDate(n)[k]) || FormatDate(n)[k] == '-'
  {
    var d := FromDayNumber(n);
    FixedDigits(d.year, 4);
    FixedDigits(d.month, 2);
    FixedDigits(d.day, 2);
  }

  /** What `strftime("%d.%m.%Y")` writes, `strptime` with the same format reads back. */
  lemma ParseFormattedDmy(n: int)
    requires 0 <= n < DayCount
    ensures ParseDmy(FormatDmy(n)) == Some(n)
  {
    var d := FromDayNumber(n);
    FixedDigits(d.day, 2);
    FixedDigits(d.month, 2);
    FixedDigits(d.year, 4);
    DmyAt(Fixed(d.day, 2), Fixed(d.month, 2), Fixed(d.year, 4));
  }

  lemma ParseFormattedDate(n: int)
    requires 0 <= n < DayCount
    ensures ParseIsoDate(FormatDate(n)) == Some(n)
  {
    var d := FromDayNumber(n);
    IsoDateAt(Fixed(d.year, 4), Fixed(d.month, 2), Fixed(d.day, 2));
  }

  lemma ParseFormattedYmd(n: int)
    requires 0 <= n < DayCount
    ensures ParseYmd(FormatDate(n)) == Some(n)
  {
    var d := FromDayNumber(n);
    FixedDigits(d.month, 2);
    FixedDigits(d.day, 2);
    YmdAt(Fixed(d.year, 4), Fixed(d.month, 2), Fixed(d.day, 2));
  }

  lemma ParseFormattedClock(c: Clock)
    requires c.Valid()
    ensures ParseIsoTime(FormatClock(c) + MicroSuffix(c)) == Some(TimeOfDay(c.hour, c.minute, c.second, c.micro))
  {
    var t := FormatClock(c) + MicroSuffix(c);
    assert t[0..2] == Fixed(c.hour, 2);
    assert t[3..5] == Fixed(c.minute, 2);
    assert t[6..8] == Fixed(c.second, 2);
    if c.micro != 0 {
      assert t[9..15] == Fixed(c.micro, 6);
    }
  }

  lemma ParseFormattedHms(c: Clock)
    requires c.Valid()
    ensures ParseHms(FormatClock(c)) == Some(TimeOfDay(c.hour, c.minute, c.second, 0))
  {
    FixedDigits(c.hour, 2);
    FixedDigits(c.minute, 2);
    FixedDigits(c.second, 2);
    HmsAt(Fixed(c.hour, 2), Fixed(c.minute, 2), Fixed(c.second, 2));
  }

  /** A fixed-width digit string holds no separator or blank. */
  lemma FixedDigits(n: nat, w: nat)
    requires n < Pow10(w)
    ensures forall k :: 0 <= k < w ==> IsDigit(Fixed(n, w)[k])
  {
  }

  lemma IsoAt(date: string, time: string)
    requires |date| == 10 && |time| >= 1
    ensures ParseIso(date + "T" + time) == AtTime(ParseIsoDate(date), ParseIsoTime(time))
  {
    var s := date + "T" + time;
    assert s[..10] == date && s[11..] == time;
  }

  lemma TimestampAt(date: string, time: string, n: int, tod: int)
    requires |time| > 0 && !IsSpace(time[0]) && forall k :: 0 <= k < |date| ==> IsDigit(date[k]) || date[k] == '-'
    requires ParseYmd(date) == Some(n) && ParseHms(time) == Some(tod)
    ensures ParseTimestamp(date + " " + time).Some? && ParseTimestamp(date + " " + time).value == Days(n) + tod
  {
    SplitAtBlankAt(date, time);
    assert ParseTimestamp(date + " " + time) == AtTime(ParseYmd(date), ParseHms(time));
  }

  lemma SplitAtBlankAt(date: string, time: string)
    requires |time| > 0 && !IsSpace(time[0]) && forall k :: 0 <= k < |date| ==> !IsSpace(date[k])
    ensures SplitAtBlank(date + " " + time) == Some((date, time))
  {
    var s := date + " " + time;
    IndexOfSpaceAt(s, |date|);
    assert s[|date|..] == " " + time;
    assert s[..|date|] == date && s[|date| + 1..] == time;
  }

  lemma IsoDateAt(yy: string, mm: string, dd: string)
    requires |yy| == 4 && |mm| == 2 && |dd| == 2 && AllDigits(yy) && AllDigits(mm) && AllDigits(dd)
    ensures ParseIsoDate(yy + "-" + mm + "-" + dd)
            == DayOfFields(Some(DigitsValue(yy)), Some(DigitsValue(mm)), Some(DigitsValue(dd)))
  {
    var s := yy + "-" + mm + "-" + dd;
    SplitThree(yy, "-", mm, "-", dd);
    assert s[0..4] == yy;
    assert Field(s, 0, 4) == Some(DigitsValue(yy));
    assert Field(s, 5, 2) == Some(DigitsValue(mm));
    assert Field(s, 8, 2) == Some(DigitsValue(dd));
  }

  lemma YmdAt(yy: string, mm: string, dd: string)
    requires |yy| == 4 && |mm| == 2 && |dd| == 2 && AllDigits(yy) && AllDigits(mm) && AllDigits(dd)
    ensures ParseYmd(yy + "-" + mm + "-" + dd)
            == DayOfFields(Some(DigitsValue(yy)), Some(DigitsValue(mm)), Some(DigitsValue(dd)))
  {
    var s := yy + "-" + mm + "-" + dd;
    SplitThree(yy, "-", mm, "-", dd);
    var rest := s[5..];
    SplitTwo(mm, "-", dd);
    IndexOfAt(rest, '-', 2);
  }

  lemma DmyAt(dd: string, mm: string, yy: string)
    requires |yy| == 4 && |mm| == 2 && |dd| == 2 && AllDigits(yy) && AllDigits(mm) && AllDigits(dd)
    ensures ParseDmy(dd + "." + mm + "." + yy)
            == DayOfFields(Some(DigitsValue(yy)), Some(DigitsValue(mm)), Some(DigitsValue(dd)))
  {
    var s := dd + "." + mm + "." + yy;
    SplitThree(dd, ".", mm, ".", yy);
    IndexOfAt(s, '.', 2);
    var rest := s[3..];
    SplitTwo(mm, ".", yy);
    IndexOfAt(rest, '.', 2);
  }

  lemma HmsAt(hh: string, mm: string, ss: string)
    requires |hh| == 2 && |mm| == 2 && |ss| == 2 && AllDigits(hh) && AllDigits(mm) && AllDigits(ss)
    requires DigitsValue(hh) < 24 && DigitsValue(mm) < 60 && DigitsValue(ss) < 60
    ensures ParseHms(hh + ":" + mm + ":" + ss)
            == Some(TimeOfDay(DigitsValue(hh), DigitsValue(mm), DigitsValue(ss), 0))
  {
    var s := hh + ":" + mm + ":" + ss;
    SplitThree(hh, ":", mm, ":", ss);
    IndexOfAt(s, ':', 2);
    var rest := s[3..];
    SplitTwo(mm, ":", ss);
    IndexOfAt(rest, ':', 2);
  }

  lemma {:induction false} IndexOfAt(s: string, c: char, i: nat)
    requires i < |s| && s[i] == c && forall k :: 0 <= k < i ==> s[k] != c
    ensures IndexOf(s, c) == i
  {
    if i > 0 {
      IndexOfAt(s[1..], c, i - 1);
    }
  }

  lemma {:induction false} IndexOfSpaceAt(s: string, i: nat)
    requires i < |s| && IsSpace(s[i]) && forall k :: 0 <= k < i ==> !IsSpace(s[k])
    ensures IndexOfSpace(s) == i
  {
    if i > 0 {
      IndexOfSpaceAt(s[1..], i - 1);
    }
  }
}
