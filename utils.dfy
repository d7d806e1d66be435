/**
 * The small helpers shared by the task window and the utilities module:
 * the clock text of an elapsed time, the keystroke masks of the date and
 * time fields, and the settings read with their defaults.
 */
module Utils {
  import opened Options
  import opened Text
  import opened Values
  import opened DateTimes
  import opened Durations

  // ---------------------------------------------------------------------------
  // seconds_to_hms

  /** `seconds_to_hms(sec)`: `int(sec)` split as `f"{h:02}:{m:02}:{s:02}"`. */
  function ElapsedText(sec: real): string {
    HmsText(Trunc(sec), 2)
  }

  /**
   * The text reads back as `int(sec)`, the whole seconds toward zero, whose
   * hours, minutes and seconds recompose it.
   */
  lemma ElapsedTextReadsBack(sec: real)
    ensures ReadClock(ElapsedText(sec), true) == Some(Trunc(sec))
    ensures sec >= 0.0 ==> ReadClock(ElapsedText(sec), true).value as real <= sec
                          < ReadClock(ElapsedText(sec), true).value as real + 1.0
  {
    ReadHmsText(Trunc(sec), 2);
  }

  // ---------------------------------------------------------------------------
  // The date mask

  /** Python's `str.isdigit()` on ASCII text: at least one character, all digits. */
  predicate IsDigitText(s: string) {
    s != [] && AllDigits(s)
  }

  /** Tk's `%d` for an insertion. */
  const Insertion := "1"

  /** The answer of `utils.py`'s date validator, and the text it writes into the field when it adds the dot. */
  datatype DateAnswer = DateAnswer(accept: bool, written: Option<string>)

  /**
   * `mask_date_entry`'s `on_validate` in `utils.py`, for the action `%d`, the
   * would-be value `%P` and the inserted text `%S`: an insertion must be
   * digits; when the value reaches 2 or 5 characters without a trailing dot
   * it gets one; the (possibly dotted) value must fit in 10 characters.
   */
  function UtilsDateMask(action: string, value: string, text: string): (r: DateAnswer)
  {
    if action == Insertion then
      if !IsDigitText(text) then DateAnswer(false, None)
      else if (|value| == 2 || |value| == 5) && value[|value| - 1] != '.' then
        var dotted := value + ".";
        DateAnswer(|dotted| <= 10, Some(dotted))
      else DateAnswer(|value| <= 10, None)
    else DateAnswer(|value| <= 10, None)
  }

  /**
   * A change is accepted exactly when it is not an insertion of anything but
   * digits and the value fits in 10 characters; the dot, when added, goes
   * after the value.
   */
  lemma UtilsDateMaskAccepts(action: string, value: string, text: string)
    ensures UtilsDateMask(action, value, text).accept <==> (action != Insertion || IsDigitText(text)) && |value| <= 10
    ensures UtilsDateMask(action, value, text).written.Some? <==>
              action == Insertion && IsDigitText(text) && (|value| == 2 || |value| == 5) && value[|value| - 1] != '.'
    ensures UtilsDateMask(action, value, text).written.Some? ==> UtilsDateMask(action, value, text).written.value == value + "."
  {
  }

  /**
   * `mask_date_entry`'s `on_validate` in `start.py`: the same test on the
   * inserted text and on the length, with the dot left to a callback run a
   * moment later.
   */
  predicate DateMask(action: string, value: string, text: string) {
    if action == Insertion && !IsDigitText(text) then false else |value| <= 10
  }

  /** Whether `start.py`'s validator schedules the dot callback. */
  predicate DotScheduled(action: string, value: string, text: string) {
    action == Insertion && IsDigitText(text) && (|value| == 2 || |value| == 5) && value[|value| - 1] != '.'
  }

  /** The two date validators accept the same changes: the added dot never pushes a value past 10 characters. */
  lemma DateMasksAgree(action: string, value: string, text: string)
    ensures UtilsDateMask(action, value, text).accept == DateMask(action, value, text)
    ensures UtilsDateMask(action, value, text).written.Some? == DotScheduled(action, value, text)
  {
  }

  /**
   * The date field of `start.py` as Tk edits it: every insertion and deletion,
   * typed or made by the program, is first put to `DateMask`.
   */
  function DateInsertFront(cur: string, text: string): string {
    var value := text + cur;
    if DateMask(Insertion, value, text) then value else cur
  }

  function DateClear(cur: string): string {
    if DateMask("0", "", cur) then "" else cur
  }

  /** The `_insert` callback as written: clear the field, then insert the old text with a dot. */
  function DotCallback(cur: string): string {
    if |cur| == 2 || |cur| == 5 then DateInsertFront(DateClear(cur), cur + ".") else cur
  }

  /** One key typed at the end of the date field, and the callback when it was scheduled. */
  function DateKey(cur: string, c: char): string {
    var value := cur + [c];
    if !DateMask(Insertion, value, [c]) then cur
    else if DotScheduled(Insertion, value, [c]) then DotCallback(value)
    else value
  }

  function TypeDate(cur: string, keys: string): string
    decreases |keys|
  {
    if keys == [] then cur else TypeDate(DateKey(cur, keys[0]), keys[1..])
  }

  /**
   * As written, the callback's own insertion of `"dd."` is refused by the
   * validator (the inserted text is not all digits) after the field was
   * cleared: two digits typed into an empty date field leave it empty.
   */
  lemma DotCallbackClears(a: char, b: char)
    requires IsDigit(a) && IsDigit(b)
    ensures TypeDate("", [a, b]) == ""
  {
    assert !IsDigitText([a, b] + ".") by {
      assert ([a, b] + ".")[2] == '.';
    }
    assert TypeDate("", [a, b]) == TypeDate(DateKey("", a), [b]);
    assert DateKey("", a) == [a];
    assert [a] + [b] == [a, b];
  }

  /** The evident intent: the callback appends the dot with validation out of the way. */
  function DotCallbackFixed(cur: string): string {
    if |cur| == 2 || |cur| == 5 then cur + "." else cur
  }

  function DateKeyFixed(cur: string, c: char): string {
    var value := cur + [c];
    if !DateMask(Insertion, value, [c]) then cur
    else if DotScheduled(Insertion, value, [c]) then DotCallbackFixed(value)
    else value
  }

  function TypeDateFixed(cur: string, keys: string): string
    decreases |keys|
  {
    if keys == [] then cur else TypeDateFixed(DateKeyFixed(cur, keys[0]), keys[1..])
  }

  /**
   * With the fixed callback, eight digits typed into an empty field give
   * `dd.mm.yyyy`, a ninth is refused, and `strptime(..., "%d.%m.%Y")` reads
   * the field as the typed day, month and year.
   */
  lemma TypedDateFixed(d: string, e: char)
    requires |d| == 8 && AllDigits(d) && IsDigit(e)
    ensures TypeDateFixed("", d) == d[..2] + "." + d[2..4] + "." + d[4..]
    ensures TypeDateFixed("", d + [e]) == TypeDateFixed("", d)
    ensures ParseDmy(TypeDateFixed("", d)) ==
            DayOfFields(Some(DigitsValue(d[4..])), Some(DigitsValue(d[2..4])), Some(DigitsValue(d[..2])))
  {
    var s := d[..2] + "." + d[2..4] + "." + d[4..];
    DateSteps(d);
    TypeDateFixedConcat("", d, [e]);
    assert DateKeyFixed(s, e) == s;
    assert TypeDateFixed(s, [e]) == TypeDateFixed(DateKeyFixed(s, e), []);
    assert AllDigits(d[..2]) && AllDigits(d[2..4]) && AllDigits(d[4..]);
    DmyAt(d[..2], d[2..4], d[4..]);
  }

  lemma DateSteps(d: string)
    requires |d| == 8 && AllDigits(d)
    ensures TypeDateFixed("", d) == d[..2] + "." + d[2..4] + "." + d[4..]
  {
    var s1 := DateKeyFixed("", d[0]);
    assert s1 == [d[0]];
    var s2 := DateKeyFixed(s1, d[1]);
    assert s2 == d[..2] + ".";
    var s3 := DateKeyFixed(s2, d[2]);
    assert s3 == d[..2] + "." + [d[2]];
    var s4 := DateKeyFixed(s3, d[3]);
    assert s4 == d[..2] + "." + d[2..4] + ".";
    var s5 := DateKeyFixed(s4, d[4]);
    assert s5 == d[..2] + "." + d[2..4] + "." + [d[4]];
    var s6 := DateKeyFixed(s5, d[5]);
    assert s6 == d[..2] + "." + d[2..4] + "." + d[4..6];
    var s7 := DateKeyFixed(s6, d[6]);
    assert s7 == d[..2] + "." + d[2..4] + "." + d[4..7];
    var s8 := DateKeyFixed(s7, d[7]);
    assert s8 == d[..2] + "." + d[2..4] + "." + d[4..];
    TypeDateFixedSteps(d, [s1, s2, s3, s4, s5, s6, s7, s8]);
  }

  /** Typing keys one at a time passes through the given states. */
  lemma {:induction false} TypeDateFixedSteps(keys: string, states: seq<string>)
    requires |states| == |keys| > 0
    requires states[0] == DateKeyFixed("", keys[0])
    requires forall i :: 0 < i < |keys| ==> states[i] == DateKeyFixed(states[i - 1], keys[i])
    ensures TypeDateFixed("", keys) == states[|keys| - 1]
  {
    TypeFromState(keys, states, 0);
  }

  lemma {:induction false} TypeFromState(keys: string, states: seq<string>, i: nat)
    requires |states| == |keys| && i < |keys|
    requires forall j :: 0 < j < |keys| ==> states[j] == DateKeyFixed(states[j - 1], keys[j])
    ensures TypeDateFixed(states[i], keys[i + 1..]) == states[|keys| - 1]
    decreases |keys| - i
  {
    if i + 1 < |keys| {
      TypeFromState(keys, states, i + 1);
      assert keys[i + 1..][1..] == keys[i + 2..];
    }
  }

  lemma {:induction false} TypeDateFixedConcat(cur: string, a: string, b: string)
    ensures TypeDateFixed(cur, a + b) == TypeDateFixed(TypeDateFixed(cur, a), b)
    decreases |a|
  {
    if a == [] {
      assert a + b == b;
    } else {
      assert (a + b)[0] == a[0] && (a + b)[1..] == a[1..] + b;
      TypeDateFixedConcat(DateKeyFixed(cur, a[0]), a[1..], b);
    }
  }

  // ---------------------------------------------------------------------------
  // The time mask

  predicate ClockChar(c: char) {
    IsDigit(c) || c == ':'
  }

  /** What `mask_time_entry`'s `on_validate` accepts: at most 5 characters, each a digit or `:`. */
  predicate TimeAccepts(value: string) {
    |value| <= 5 && forall k :: 0 <= k < |value| ==> ClockChar(value[k])
  }

  /**
   * `mask_time_entry`'s `on_validate(P)`: the length test, the character
   * scan that stops at the first bad character, and whether the colon
   * callback is scheduled.
   */
  method TimeMask(value: string) returns (accept: bool, colonScheduled: bool)
    ensures accept == TimeAccepts(value)
    ensures colonScheduled <==> accept && |value| == 2 && ':' !in value
  {
    if |value| > 5 {
      return false, false;
    }
    var i := 0;
    while i < |value|
      invariant 0 <= i <= |value|
      invariant forall k :: 0 <= k < i ==> ClockChar(value[k])
    {
      if !(IsDigit(value[i]) || value[i] == ':') {
        return false, false;
      }
      i := i + 1;
    }
    colonScheduled := |value| == 2 && ':' !in value;
    return true, colonScheduled;
  }

  /** The time field as Tk edits it: every change, typed or made by the program, is put to the validator. */
  function TimeInsertFront(cur: string, text: string): string {
    var value := text + cur;
    if TimeAccepts(value) then value else cur
  }

  /** The `_insert_colon` callback: when the field still holds two characters and no colon, clear it and insert them with a colon. */
  function ColonCallback(cur: string): string {
    if |cur| == 2 && ':' !in cur then
      var cleared := if TimeAccepts("") then "" else cur;
      TimeInsertFront(cleared, cur + ":")
    else cur
  }

  /** One key typed at the end of the time field, and the callback when it was scheduled. */
  function TimeKey(cur: string, c: char): string {
    var value := cur + [c];
    if !TimeAccepts(value) then cur
    else if |value| == 2 && ':' !in value then ColonCallback(value)
    else value
  }

  function TypeTime(cur: string, keys: string): string
    decreases |keys|
  {
    if keys == [] then cur else TypeTime(TimeKey(cur, keys[0]), keys[1..])
  }

  /**
   * Unlike the date field's, the colon callback passes the validator, which
   * looks at the whole value: four digits typed into an empty field give
   * `hh:mm`, a fifth is refused, and `%H:%M` reads the field when the hour
   * and minute are in range.
   */
  lemma TypedClock(hh: string, mm: string, e: char)
    requires |hh| == 2 && |mm| == 2 && AllDigits(hh) && AllDigits(mm) && IsDigit(e)
    ensures TypeTime("", hh + mm) == hh + ":" + mm
    ensures TypeTime("", hh + mm + [e]) == hh + ":" + mm
    ensures DigitsValue(hh) < 24 && DigitsValue(mm) < 60 ==>
              ParseHm(TypeTime("", hh + mm)) == Some(TimeOfDay(DigitsValue(hh), DigitsValue(mm), 0, 0))
  {
    var s1 := TimeKey("", hh[0]);
    assert s1 == [hh[0]];
    var s2 := TimeKey(s1, hh[1]);
    assert [hh[0]] + [hh[1]] == hh;
    assert ':' !in hh;
    assert TimeAccepts(hh + ":");
    assert s2 == hh + ":";
    var s3 := TimeKey(s2, mm[0]);
    assert s3 == hh + ":" + [mm[0]];
    var s4 := TimeKey(s3, mm[1]);
    assert [mm[0]] + [mm[1]] == mm;
    assert s4 == hh + ":" + mm;
    var keys := hh + mm;
    assert keys[0] == hh[0] && keys[1] == hh[1] && keys[2] == mm[0] && keys[3] == mm[1];
    TypeTimeSteps(keys, [s1, s2, s3, s4]);
    TypeTimeConcat("", keys, [e]);
    assert TimeKey(s4, e) == s4;
    assert TypeTime(s4, [e]) == TypeTime(TimeKey(s4, e), []);
    if DigitsValue(hh) < 24 && DigitsValue(mm) < 60 {
      ClockTextAt(hh, mm);
    }
  }

  lemma {:induction false} TypeTimeSteps(keys: string, states: seq<string>)
    requires |states| == |keys| > 0
    requires states[0] == TimeKey("", keys[0])
    requires forall i :: 0 < i < |keys| ==> states[i] == TimeKey(states[i - 1], keys[i])
    ensures TypeTime("", keys) == states[|keys| - 1]
  {
    TypeTimeFromState(keys, states, 0);
  }

  lemma {:induction false} TypeTimeFromState(keys: string, states: seq<string>, i: nat)
    requires |states| == |keys| && i < |keys|
    requires forall j :: 0 < j < |keys| ==> states[j] == TimeKey(states[j - 1], keys[j])
    ensures TypeTime(states[i], keys[i + 1..]) == states[|keys| - 1]
    decreases |keys| - i
  {
    if i + 1 < |keys| {
      TypeTimeFromState(keys, states, i + 1);
      assert keys[i + 1..][1..] == keys[i + 2..];
    }
  }

  lemma {:induction false} TypeTimeConcat(cur: string, a: string, b: string)
    ensures TypeTime(cur, a + b) == TypeTime(TypeTime(cur, a), b)
    decreases |a|
  {
    if a == [] {
      assert a + b == b;
    } else {
      assert (a + b)[0] == a[0] && (a + b)[1..] == a[1..] + b;
      TypeTimeConcat(TimeKey(cur, a[0]), a[1..], b);
    }
  }

  /** `%H:%M` reads two two-digit fields around a colon. */
  lemma ClockTextAt(hh: string, mm: string)
    requires |hh| == 2 && |mm| == 2 && AllDigits(hh) && AllDigits(mm)
    requires DigitsValue(hh) < 24 && DigitsValue(mm) < 60
    ensures ParseHm(hh + ":" + mm) == Some(TimeOfDay(DigitsValue(hh), DigitsValue(mm), 0, 0))
  {
    var s := hh + ":" + mm;
    IndexOfAt(s, ':', 2);
    assert s[..2] == hh && s[3..] == mm;
  }

  // ---------------------------------------------------------------------------
  // load_settings

  /** The settings file: absent, unreadable or not JSON, or the JSON value it holds. */
  datatype SettingsFile = NoFile | Unreadable | Holds(content: Record)

  /** `DEFAULT_SETTINGS`: automatic screenshots on, every 15 minutes. */
  const Defaults: map<string, Value> := map["autoscreen_enabled" := Bool(true), "autoscreen_interval" := Int(15)]

  /**
   * `load_settings()`: `{**DEFAULT_SETTINGS, **json.load(f)}`, the file's keys
   * winning; a missing or unreadable file, or one that holds no object
   * (`**` raises `TypeError`), gives a copy of the defaults.
   */
  function LoadSettings(f: SettingsFile): (s: map<string, Value>)
    ensures Defaults.Keys <= s.Keys
    ensures f.Holds? && f.content.Object? ==>
              s.Keys == Defaults.Keys + f.content.fields.Keys
              && forall k :: k in f.content.fields ==> s[k] == f.content.fields[k]
    ensures !(f.Holds? && f.content.Object?) ==> s == Defaults
  {
    match f
    case Holds(Object(m)) => Defaults + m
    case _ => Defaults
  }

  /** A default the file does not set keeps its default value. */
  lemma DefaultKept(f: SettingsFile, k: string)
    requires k in Defaults
    requires f.Holds? && f.content.Object? ==> k !in f.content.fields
    ensures LoadSettings(f)[k] == Defaults[k]
  {
  }
}
