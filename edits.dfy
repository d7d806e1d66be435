/**
 * The report's editing path: a double click on a row opens the log record
 * behind it (`on_edit_entry`), and the edit window previews the duration of
 * the typed times, saves them into that record, or deletes the record, and
 * then refreshes the report.
 */
module Edits {
  import opened Options
  import opened Text
  import opened DateTimes
  import opened Values
  import opened Tracker
  import opened Durations
  import opened Entries
  import opened Periods
  import opened Report

  // ---------------------------------------------------------------------------
  // Opening a record

  /**
   * `on_edit_entry`: the clicked row's iid read with `int()`, when it is the
   * index of a record of the log `raw`.
   */
  function EditTarget(iid: string, raw: seq<Record>): (r: Option<nat>)
    ensures r.Some? <==> ParseInt(iid).Some? && 0 <= ParseInt(iid).value < |raw|
    ensures r.Some? ==> r.value == ParseInt(iid).value
  {
    var n := ParseInt(iid);
    if n.Some? && 0 <= n.value < |raw| then Some(n.value) else None
  }

  /**
   * The row a refresh lists for an entry leads back, on a double click over an
   * unchanged log, to the very record that entry was read from.
   */
  lemma RowLocatesRecord(raw: seq<Record>, j: nat)
    requires Normalized(raw).Some? && j < |Normalized(raw).value|
    ensures var e := Normalized(raw).value[j];
            && ValidInstant(e.start) && ValidInstant(e.end)
            && EditTarget(RowOf(e).iid, raw) == Some(e.origIndex)
            && NormalizeOne(e.origIndex, raw[e.origIndex]) == Take(e)
  {
    var e := Normalized(raw).value[j];
    NormalizedEntries(raw);
    NormalizedInOrder(raw);
    RowReadsBack(e);
  }

  /**
   * The text `Entry.insert` shows for a stored value, as Tk converts it: a
   * string as is, an integer in decimal, a boolean as `1` or `0`, and `None`
   * as `"None"`. A float or a nested array or object is shown empty here.
   */
  function FieldText(v: Value): (s: string)
    ensures v.Str? ==> s == v.s
    ensures v.Bool? ==> s == (if v.b then "1" else "0")
    ensures v.Null? ==> s == "None"
  {
    match v
    case Str(s) => s
    case Int(i) => PadInt(i, 0)
    case Bool(b) => if b then "1" else "0"
    case Null => "None"
    case _ => ""
  }

  /** An integer shown in a field reads back with `int()` as itself. */
  lemma FieldTextReadsBack(i: int)
    ensures ParseInt(FieldText(Int(i))) == Some(i)
  {
    ParseIntPadInt(i, 0);
  }

  /**
   * `seconds_to_hm(entry.get("duration_seconds", 0))`: an integer (or a
   * boolean) is shown; anything else makes `//` or the `02d` format raise, so
   * `__init__` stops before the buttons are made.
   */
  function InitialDuration(d: map<string, Value>): (r: Option<string>)
    ensures r.Some? <==> "duration_seconds" !in d || d["duration_seconds"].Int? || d["duration_seconds"].Bool?
  {
    match GetOr(d, "duration_seconds", Int(0))
    case Int(i) => Some(HmText(i))
    case Bool(b) => Some(HmText(if b then 1 else 0))
    case _ => None
  }

  /** The duration label reads back as the stored duration (0 when absent) to the minute. */
  lemma InitialDurationShows(d: map<string, Value>)
    requires InitialDuration(d).Some?
    ensures var n := PyInt(GetOr(d, "duration_seconds", Int(0)));
            && n.Some?
            && ReadClock(InitialDuration(d).value, false) == Some(n.value / 60 * 60)
  {
    var n := PyInt(GetOr(d, "duration_seconds", Int(0)));
    ReadHmText(n.value);
  }

  // ---------------------------------------------------------------------------
  // The typed times

  /** The two typed times and the duration `save` computes from them. */
  datatype Amendment = Amendment(start: Instant, end: Instant, duration: int) {
    predicate Valid() {
      ValidInstant(start) && ValidInstant(end) && duration >= 0
    }
  }

  /**
   * `fromisoformat` on both fields and `max(0, int((end - start).total_seconds()))`;
   * `None` is the format error.
   */
  function ReadTimes(startText: string, endText: string): (r: Option<Amendment>)
    ensures r.Some? <==> ParseIso(startText).Some? && ParseIso(endText).Some?
    ensures r.Some? ==> r.value.start == ParseIso(startText).value && r.value.end == ParseIso(endText).value
    ensures r.Some? ==> r.value.Valid()
    ensures r.Some? && r.value.start <= r.value.end ==>
              Seconds(r.value.duration) <= r.value.end - r.value.start < Seconds(r.value.duration + 1)
    ensures r.Some? && r.value.end < r.value.start ==> r.value.duration == 0
  {
    var s, e := ParseIso(startText), ParseIso(endText);
    if s.None? || e.None? then None
    else
      var w := WholeSeconds(e.value - s.value);
      Some(Amendment(s.value, e.value, if w > 0 then w else 0))
  }

  /** `on_time_change`: the duration of the typed times as `чч:мм`, or `--:--`. */
  function Preview(startText: string, endText: string): string {
    var a := ReadTimes(startText, endText);
    if a.Some? then HmText(a.value.duration) else "--:--"
  }

  /**
   * The preview agrees with what a save would store: it shows the saved
   * duration to the minute when both times parse, and a text that is no
   * duration at all when a save would refuse them.
   */
  lemma PreviewMatchesSave(startText: string, endText: string)
    ensures var a := ReadTimes(startText, endText);
            var p := ReadClock(Preview(startText, endText), false);
            && (a.Some? ==> p.Some? && p.value == a.value.duration / 60 * 60)
            && (a.None? ==> p.None?)
  {
    var a := ReadTimes(startText, endText);
    if a.Some? {
      ReadHmText(a.value.duration);
    } else {
      assert Preview(startText, endText) == "--:--";
      assert IndexOf("--:--", ':') == 2 by {
        IndexOfAt("--:--", ':', 2);
      }
      assert ParseInt("--") == None by {
        assert Strip("--") == "--" by { StripUnchanged("--"); }
      }
    }
  }

  // ---------------------------------------------------------------------------
  // Saving and deleting

  /** The record's fields with `start`, `end` and `duration_seconds` set. */
  function WithTimes(d: map<string, Value>, start: Value, end: Value, duration: Value): map<string, Value> {
    d["start" := start]["end" := end]["duration_seconds" := duration]
  }

  /** Setting the three fields adds them and leaves every other field as it was. */
  lemma WithTimesKeeps(d: map<string, Value>, start: Value, end: Value, duration: Value)
    ensures var d' := WithTimes(d, start, end, duration);
            && d'.Keys == d.Keys + {"start", "end", "duration_seconds"}
            && d'["start"] == start && d'["end"] == end && d'["duration_seconds"] == duration
            && forall k :: k in d && k != "start" && k != "end" && k != "duration_seconds" ==> d'[k] == d[k]
  {
  }

  /** The record's fields after `save`: the times as `isoformat()` and the duration. */
  function Amend(d: map<string, Value>, a: Amendment): map<string, Value>
    requires a.Valid()
  {
    WithTimes(d, Str(FormatIso(a.start)), Str(FormatIso(a.end)), Int(a.duration))
  }

  /** How a press of "Сохранить" ends. */
  datatype SaveResult = BadFormat | OutOfRange | NotAnObject | Written

  /**
   * The log after `save` on record `index` with the typed times read as `a`:
   * the format error stops before the log is read, an index past the end does
   * nothing, a record that is not an object makes the item assignment raise,
   * and otherwise the record gets the new times and the whole array is written
   * back.
   */
  function SavedLog(f: LogFile, index: nat, a: Option<Amendment>): (LogFile, SaveResult)
    requires a.Some? ==> a.value.Valid()
  {
    if a.None? then (f, BadFormat)
    else
      var data := Load(f);
      if index >= |data| then (f, OutOfRange)
      else if !data[index].Object? then (f, NotAnObject)
      else (Stored(data[index := Object(Amend(data[index].fields, a.value))]), Written)
  }

  /**
   * A save writes exactly when both times parse and the index names an object
   * of the log; otherwise the file stays as it was.
   */
  lemma SaveWritesWhen(f: LogFile, index: nat, a: Option<Amendment>)
    requires a.Some? ==> a.value.Valid()
    ensures var (g, r) := SavedLog(f, index, a);
            && (r == Written <==> a.Some? && index < |Load(f)| && Load(f)[index].Object?)
            && (r == BadFormat <==> a.None?)
            && (r != Written ==> g == f)
  {
  }

  /** A save replaces one record and keeps every other record in place. */
  lemma SaveTouchesOne(f: LogFile, index: nat, a: Option<Amendment>)
    requires a.Some? ==> a.value.Valid()
    requires SavedLog(f, index, a).1 == Written
    ensures var g := SavedLog(f, index, a).0;
            index < |Load(f)| && Load(g) == Load(f)[index := Load(g)[index]]
  {
  }

  /**
   * The saved record keeps every field other than the three it sets, and those
   * hold the typed times as `isoformat()` text and the computed duration.
   */
  lemma SaveKeepsFields(f: LogFile, index: nat, a: Option<Amendment>)
    requires a.Some? ==> a.value.Valid()
    requires SavedLog(f, index, a).1 == Written
    ensures var g := SavedLog(f, index, a).0;
            var d, d' := Load(f)[index].fields, Load(g)[index].fields;
            && index < |Load(g)| && Load(g)[index].Object?
            && d'.Keys == d.Keys + {"start", "end", "duration_seconds"}
            && d'["start"] == Str(FormatIso(a.value.start)) && d'["end"] == Str(FormatIso(a.value.end))
            && d'["duration_seconds"] == Int(a.value.duration)
            && forall k :: k in d && k != "start" && k != "end" && k != "duration_seconds" ==> d'[k] == d[k]
  {
    var d := Load(f)[index].fields;
    var g := SavedLog(f, index, a).0;
    assert Load(g)[index] == Object(Amend(d, a.value));
    WithTimesKeeps(d, Str(FormatIso(a.value.start)), Str(FormatIso(a.value.end)), Int(a.value.duration));
  }

  /**
   * The report reads a saved record back with exactly the typed times and the
   * computed duration, keeping its task, project and section.
   */
  lemma SavedRecordReadsBack(f: LogFile, index: nat, a: Option<Amendment>)
    requires a.Some? ==> a.value.Valid()
    requires SavedLog(f, index, a).1 == Written
    ensures var g := SavedLog(f, index, a).0;
            var x := a.value;
            && index < |Load(g)| && Load(g)[index].Object?
            && NormalizeOne(index, Load(g)[index]) == Take(Describe(index, Load(f)[index].fields, x.start, x.end, x.duration))
  {
    var x := a.value;
    var d := Load(f)[index].fields;
    var d' := Amend(d, x);
    assert Load(SavedLog(f, index, a).0)[index] == Object(d');
    WithTimesKeeps(d, Str(FormatIso(x.start)), Str(FormatIso(x.end)), Int(x.duration));
    NormalizeStored(index, d', x.start, x.end, x.duration);
    DescribeWithTimes(index, d, Str(FormatIso(x.start)), Str(FormatIso(x.end)), Int(x.duration), x.start, x.end, x.duration);
  }

  /** Setting the times leaves the task, project and section an entry is shown with. */
  lemma DescribeWithTimes(idx: nat, d: map<string, Value>, start: Value, end: Value, duration: Value,
                          s: Instant, e: Instant, dur: int)
    ensures Describe(idx, WithTimes(d, start, end, duration), s, e, dur) == Describe(idx, d, s, e, dur)
  {
    WithTimesKeeps(d, start, end, duration);
  }

  /**
   * The log after a confirmed `delete` of record `index`: the record removed
   * when the index is in range, and the file untouched otherwise.
   */
  function DeletedLog(f: LogFile, index: nat): LogFile {
    var data := Load(f);
    if index < |data| then Stored(data[..index] + data[index + 1..]) else f
  }

  /** Deleting removes exactly one record and keeps the others in their order. */
  lemma DeleteKeepsOthers(f: LogFile, index: nat)
    ensures var g := DeletedLog(f, index);
            && (index >= |Load(f)| ==> g == f)
            && (index < |Load(f)| ==>
                  && |Load(g)| == |Load(f)| - 1
                  && forall j :: 0 <= j < |Load(g)| ==> Load(g)[j] == Load(f)[if j < index then j else j + 1])
  {
  }

  // ---------------------------------------------------------------------------
  // The window

  /** `EditEntryWindow`: the record's index and the window's fields. */
  class EditWindow {
    const index: nat
    var startText: string
    var endText: string
    var durationLabel: string
    var open: bool

    /** The window shows the record's `start`, `end` and duration. */
    constructor (index: nat, d: map<string, Value>)
      requires InitialDuration(d).Some?
      ensures this.index == index && open
      ensures startText == FieldText(GetOr(d, "start", Str("")))
      ensures endText == FieldText(GetOr(d, "end", Str("")))
      ensures durationLabel == InitialDuration(d).value
    {
      var s, e, dur := FieldText(GetOr(d, "start", Str(""))), FieldText(GetOr(d, "end", Str(""))), InitialDuration(d).value;
      this.index := index;
      startText, endText, durationLabel := s, e, dur;
      open := true;
    }

    /** A key released in either time field: the new texts, and `on_time_change`. */
    method Typed(startText: string, endText: string)
      modifies this
      ensures this.startText == startText && this.endText == endText
      ensures durationLabel == Preview(startText, endText)
      ensures open == old(open)
    {
      this.startText, this.endText := startText, endText;
      durationLabel := Preview(startText, endText);
    }

    /**
     * `save`: write the typed times into the record, then refresh the report
     * and close. A refresh that raises leaves the window open.
     */
    method Save(log: TimeLog, app: ReportApp, now: Instant, from: string, to: string) returns (r: SaveResult, halt: Option<Halt>)
      requires ValidInstant(now)
      modifies this, log, app
      ensures (log.file, r) == SavedLog(old(log.file), index, ReadTimes(startText, endText))
      ensures startText == old(startText) && endText == old(endText) && durationLabel == old(durationLabel)
      ensures app.opening == old(app.opening)
      ensures r != Written ==> halt.None? && open == old(open) && app.View() == old(app.View()) && app.choice == old(app.choice)
      ensures r == Written ==> halt.Some? && open == (old(open) && halt.value == Raised) && app.choice == old(app.choice)
      ensures r == Written ==>
                (app.View(), halt.value) == Refreshed(old(app.View()), Load(log.file), ModeOf(old(app.choice)), now, from, to)
    {
      var outcome := SavedLog(log.file, index, ReadTimes(startText, endText));
      r := outcome.1;
      if r != Written {
        return r, None;
      }
      log.file := outcome.0;
      var h := app.Update(log.file, "", now, from, to);
      halt := Some(h);
      if h != Raised {
        open := false;
      }
    }

    /**
     * `delete`: after a confirmation, remove the record when it is still in
     * range, then refresh the report and close, whether or not a record was
     * removed.
     */
    method Delete(log: TimeLog, app: ReportApp, confirmed: bool, now: Instant, from: string, to: string) returns (halt: Option<Halt>)
      requires ValidInstant(now)
      modifies this, log, app
      ensures startText == old(startText) && endText == old(endText) && durationLabel == old(durationLabel)
      ensures app.opening == old(app.opening)
      ensures !confirmed ==> halt.None? && log.file == old(log.file) && open == old(open)
                             && app.View() == old(app.View()) && app.choice == old(app.choice)
      ensures confirmed ==> log.file == DeletedLog(old(log.file), index)
      ensures confirmed ==> halt.Some? && open == (old(open) && halt.value == Raised) && app.choice == old(app.choice)
      ensures confirmed ==>
                (app.View(), halt.value) == Refreshed(old(app.View()), Load(log.file), ModeOf(old(app.choice)), now, from, to)
    {
      if !confirmed {
        return None;
      }
      log.file := DeletedLog(log.file, index);
      var h := app.Update(log.file, "", now, from, to);
      halt := Some(h);
      if h != Raised {
        open := false;
      }
    }
  }

  /**
   * `on_edit_entry`: the working window for the clicked row, or none when the
   * iid is not a record index of the log, or the record is not an object or
   * its duration cannot be shown (then `__init__` raises after the bare
   * top-level window is made).
   */
  method OpenEditor(iid: string, file: LogFile) returns (w: EditWindow?)
    ensures var raw := Load(file);
            var t := EditTarget(iid, raw);
            w != null <==> t.Some? && raw[t.value].Object? && InitialDuration(raw[t.value].fields).Some?
    ensures w != null ==> fresh(w) && w.open && w.index == EditTarget(iid, Load(file)).value
  {
    var raw := Load(file);
    var t := EditTarget(iid, raw);
    if t.None? || !raw[t.value].Object? || InitialDuration(raw[t.value].fields).None? {
      return null;
    }
    w := new EditWindow(t.value, raw[t.value].fields);
  }
}
