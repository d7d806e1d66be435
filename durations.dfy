/**
 * Durations shown as clock text: the report's `seconds_to_hms` and
 * `seconds_to_hm`, and the `seconds_to_hms` shared by the task list and the
 * utilities module. Python's `//` and `%` floor, which for the positive
 * divisors used here agree with Dafny's `/` and `%`.
 */
module Durations {
  import opened Options
  import opened Text
  import opened Values
  import opened DateTimes

  /** Hours, minutes and seconds of a number of seconds. */
  datatype Hms = Hms(hours: int, minutes: int, seconds: int)

  /**
   * `h, rem = divmod(total, 3600); m, s = divmod(rem, 60)`, which is also
   * `total // 3600`, `(total % 3600) // 60` and `total % 60`.
   */
  function Split(total: int): (r: Hms)
    ensures r.hours * 3600 + r.minutes * 60 + r.seconds == total
    ensures 0 <= r.minutes < 60 && 0 <= r.seconds < 60
  {
    Hms(total / 3600, total % 3600 / 60, total % 60)
  }

  /** Only one split recomposes a number of seconds with minutes and seconds below 60. */
  lemma SplitUnique(total: int, h: int, m: int, s: int)
    requires h * 3600 + m * 60 + s == total && 0 <= m < 60 && 0 <= s < 60
    ensures Split(total) == Hms(h, m, s)
  {
    var r := Split(total);
    assert (h - r.hours) * 3600 == (r.minutes - m) * 60 + (r.seconds - s);
    assert -3600 < (r.minutes - m) * 60 + (r.seconds - s) < 3600;
    assert h == r.hours;
    assert (m - r.minutes) * 60 == r.seconds - s;
  }

  /**
   * The clock text of a duration: the hours with `f"{h:0w}"` (so a negative
   * duration shows a minus sign), then two-digit minutes and seconds.
   * The report writes `f"{h}:{m:02d}:{sec:02d}"` (width 0); the task list
   * and the utilities module write `f"{h:02}:{m:02}:{s:02}"` (width 2).
   */
  function HmsText(total: int, hourWidth: nat): string
  {
    var r := Split(total);
    PadInt(r.hours, hourWidth) + ":" + Fixed(r.minutes, 2) + ":" + Fixed(r.seconds, 2)
  }

  /** The report's `seconds_to_hm`: `f"{h:02d}:{m:02d}"`, the seconds dropped. */
  function HmText(total: int): string
  {
    var r := Split(total);
    PadInt(r.hours, 2) + ":" + Fixed(r.minutes, 2)
  }

  /**
   * Reading a clock text back: signed hours up to the first `:`, then
   * two-digit minutes, and two-digit seconds when `withSeconds`.
   */
  function ReadClock(text: string, withSeconds: bool): (r: Option<int>)
  {
    var i := IndexOf(text, ':');
    if i == |text| then None
    else
      var h, rest := ParseInt(text[..i]), text[i + 1..];
      if withSeconds then
        if |rest| == 5 && rest[2] == ':' && h.Some? && Field(rest, 0, 2).Some? && Field(rest, 3, 2).Some? then
          Some(h.value * 3600 + Field(rest, 0, 2).value * 60 + Field(rest, 3, 2).value)
        else None
      else if |rest| == 2 && h.Some? && Field(rest, 0, 2).Some? then
        Some(h.value * 3600 + Field(rest, 0, 2).value * 60)
      else None
  }

  /** The hours text holds no `:`. */
  lemma HoursHaveNoColon(h: int, w: nat)
    ensures forall k :: 0 <= k < |PadInt(h, w)| ==> PadInt(h, w)[k] != ':'
  {
    var p := PadInt(h, w);
    forall k | 0 <= k < |p|
      ensures p[k] != ':'
    {
      if h < 0 && k > 0 {
        assert p[k] == p[1..][k - 1];
      }
    }
  }

  /** The layout `H:MM:SS`, for any hours text without a `:` that `int()` reads. */
  lemma HmsAt(hh: string, mm: string, ss: string, h: int)
    requires forall k :: 0 <= k < |hh| ==> hh[k] != ':'
    requires ParseInt(hh).Some? && ParseInt(hh).value == h
    requires |mm| == 2 && AllDigits(mm) && |ss| == 2 && AllDigits(ss)
    ensures ReadClock(hh + ":" + mm + ":" + ss, true).Some?
    ensures ReadClock(hh + ":" + mm + ":" + ss, true).value == h * 3600 + DigitsValue(mm) * 60 + DigitsValue(ss)
  {
    var rest := mm + ":" + ss;
    var text := hh + ":" + rest;
    assert text == hh + ":" + mm + ":" + ss;
    IndexOfAt(text, ':', |hh|);
    SplitTwo(hh, ":", rest);
    assert text[..|hh|] == hh;
    SplitTwo(mm, ":", ss);
    var m, sec := Field(rest, 0, 2), Field(rest, 3, 2);
    assert rest[0..2] == mm && rest[3..5] == ss;
    assert m.Some? && m.value == DigitsValue(mm);
    assert sec.Some? && sec.value == DigitsValue(ss);
  }

  /** The layout `H:MM`, for any hours text without a `:` that `int()` reads. */
  lemma HmAt(hh: string, mm: string, h: int)
    requires forall k :: 0 <= k < |hh| ==> hh[k] != ':'
    requires ParseInt(hh).Some? && ParseInt(hh).value == h
    requires |mm| == 2 && AllDigits(mm)
    ensures ReadClock(hh + ":" + mm, false).Some?
    ensures ReadClock(hh + ":" + mm, false).value == h * 3600 + DigitsValue(mm) * 60
  {
    var text := hh + ":" + mm;
    IndexOfAt(text, ':', |hh|);
    SplitTwo(hh, ":", mm);
    var m := Field(mm, 0, 2);
    assert mm[0..2] == mm;
    assert m.Some? && m.value == DigitsValue(mm);
  }

  /** The duration text reads back as the same number of seconds, whatever the hours width. */
  lemma ReadHmsText(total: int, hourWidth: nat)
    ensures ReadClock(HmsText(total, hourWidth), true).Some?
    ensures ReadClock(HmsText(total, hourWidth), true).value == total
  {
    var r := Split(total);
    var hh, mm, ss := PadInt(r.hours, hourWidth), Fixed(r.minutes, 2), Fixed(r.seconds, 2);
    HoursHaveNoColon(r.hours, hourWidth);
    ParseIntPadInt(r.hours, hourWidth);
    HmsAt(hh, mm, ss, r.hours);
  }

  /** `seconds_to_hm` reads back as the duration rounded down to whole minutes. */
  lemma ReadHmText(total: int)
    ensures ReadClock(HmText(total), false).Some?
    ensures ReadClock(HmText(total), false).value == total / 60 * 60
  {
    var r := Split(total);
    var hh, mm := PadInt(r.hours, 2), Fixed(r.minutes, 2);
    HoursHaveNoColon(r.hours, 2);
    ParseIntPadInt(r.hours, 2);
    HmAt(hh, mm, r.hours);
  }

  /** Different durations never share a clock text. */
  lemma HmsTextInjective(a: int, b: int, hourWidth: nat)
    requires HmsText(a, hourWidth) == HmsText(b, hourWidth)
    ensures a == b
  {
    ReadHmsText(a, hourWidth);
    ReadHmsText(b, hourWidth);
  }
}
