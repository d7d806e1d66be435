/**
 * The report's reading of the time log (`ReportApp._normalize_entries`):
 * every record becomes a report entry with its interval, its duration and its
 * position in the log, is skipped, or stops the report.
 */
module Entries {
  import opened Options
  import opened DateTimes
  import opened Values
  import opened Tracker

  /** One normalized entry: the labels as stored, the interval, the duration in seconds and the record's index. */
  datatype Entry = Entry(
    taskText: Value, project: Value, section: Value,
    start: Instant, end: Instant, duration: int, origIndex: nat)

  /**
   * What the loop body does with one record: keeps an entry, skips the record
   * (`continue`, or neither shape present), or raises out of the loop, which
   * `e.get` on a record that is not an object does.
   */
  datatype Outcome = Skip | Take(entry: Entry) | Crash

  /** The labels of the record, `"—"` when missing, with the given interval and duration. */
  function Describe(idx: nat, d: map<string, Value>, start: Instant, end: Instant, dur: int): (x: Entry)
    ensures x.origIndex == idx && x.start == start && x.end == end && x.duration == dur
    ensures x.taskText == (if "task_text" in d then d["task_text"] else Str("—"))
    ensures x.project == (if "project" in d then d["project"] else Str("—"))
    ensures x.section == (if "section" in d then d["section"] else Str("—"))
  {
    Entry(GetOr(d, "task_text", Str("—")), GetOr(d, "project", Str("—")), GetOr(d, "section", Str("—")),
          start, end, dur, idx)
  }

  /**
   * The `start`/`end` branch: both must parse, and the duration is
   * `int(e.get("duration_seconds", (end - start).total_seconds()))`. Any failure
   * skips the record; the legacy fields are not tried.
   */
  function IntervalEntry(idx: nat, d: map<string, Value>): (r: Outcome)
    requires "start" in d && "end" in d
    ensures !r.Crash?
    ensures r.Take? <==> IsoOf(d["start"]).Some? && IsoOf(d["end"]).Some?
                         && ("duration_seconds" in d ==> PyInt(d["duration_seconds"]).Some?)
    ensures r.Take? ==> r.entry.origIndex == idx
                        && r.entry.start == IsoOf(d["start"]).value && r.entry.end == IsoOf(d["end"]).value
    ensures r.Take? ==>
              r.entry.duration == (if "duration_seconds" in d then PyInt(d["duration_seconds"]).value
                                   else WholeSeconds(r.entry.end - r.entry.start))
  {
    var s, t := IsoOf(d["start"]), IsoOf(d["end"]);
    if s.None? || t.None? then Skip
    else
      var dur := if "duration_seconds" in d then PyInt(d["duration_seconds"]) else Some(WholeSeconds(t.value - s.value));
      if dur.None? then Skip else Take(Describe(idx, d, s.value, t.value, dur.value))
  }

  /**
   * The legacy branch: `timestamp` read with `"%Y-%m-%d %H:%M:%S"` is the end,
   * `int(seconds)` the duration, and the start lies that many seconds earlier;
   * an `OverflowError` from the subtraction skips the record.
   */
  function LegacyEntry(idx: nat, d: map<string, Value>): (r: Outcome)
    requires "timestamp" in d && "seconds" in d
    ensures !r.Crash?
    ensures r.Take? <==> TimestampOf(d["timestamp"]).Some? && PyInt(d["seconds"]).Some?
                         && ValidInstant(TimestampOf(d["timestamp"]).value - Seconds(PyInt(d["seconds"]).value))
    ensures r.Take? ==> r.entry.origIndex == idx && r.entry.end == TimestampOf(d["timestamp"]).value
                        && r.entry.duration == PyInt(d["seconds"]).value
                        && r.entry.start == r.entry.end - Seconds(r.entry.duration)
  {
    var ts, sec := TimestampOf(d["timestamp"]), PyInt(d["seconds"]);
    if ts.Some? && sec.Some? && ValidInstant(ts.value - Seconds(sec.value)) then
      Take(Describe(idx, d, ts.value - Seconds(sec.value), ts.value, sec.value))
    else Skip
  }

  /** One pass of the loop of `_normalize_entries` over record `e` at index `idx`. */
  function NormalizeOne(idx: nat, e: Record): (r: Outcome)
    ensures r.Crash? <==> e.NonObject?
    ensures r.Take? ==> r.entry.origIndex == idx && ValidInstant(r.entry.start) && ValidInstant(r.entry.end)
    ensures e.Object? && Truthy(Get(e.fields, "start")) && Truthy(Get(e.fields, "end")) ==>
              r == IntervalEntry(idx, e.fields)
    ensures e.Object? && !(Truthy(Get(e.fields, "start")) && Truthy(Get(e.fields, "end"))) ==>
              r == (if Truthy(Get(e.fields, "timestamp")) && Truthy(Get(e.fields, "seconds"))
                    then LegacyEntry(idx, e.fields) else Skip)
  {
    match e
    case NonObject(_) => Crash
    case Object(d) =>
      if Truthy(Get(d, "start")) && Truthy(Get(d, "end")) then IntervalEntry(idx, d)
      else if Truthy(Get(d, "timestamp")) && Truthy(Get(d, "seconds")) then LegacyEntry(idx, d)
      else Skip
  }

  /**
   * A legacy record whose `seconds` is falsy (`0` among them) is skipped by
   * the report, because the report asks for a truthy `seconds`.
   */
  lemma FalsySecondsSkipped(idx: nat, d: map<string, Value>)
    requires !(Truthy(Get(d, "start")) && Truthy(Get(d, "end")))
    requires !Truthy(Get(d, "seconds"))
    ensures NormalizeOne(idx, Object(d)) == Skip
  {
  }

  /**
   * `parse_range`, which asks only that `seconds` is not `None`, reads the
   * same record with `seconds == 0` as the empty interval at its timestamp,
   * where the report skips it.
   */
  lemma ZeroSecondsDisagree(idx: nat, d: map<string, Value>, ts: Instant)
    requires !(Truthy(Get(d, "start")) && Truthy(Get(d, "end")))
    requires "timestamp" in d && TimestampOf(d["timestamp"]) == Some(ts)
    requires "seconds" in d && d["seconds"] == Int(0)
    ensures NormalizeOne(idx, Object(d)) == Skip
    ensures ParseRange(Object(d)).span == Some(Span(ts, ts))
  {
    FalsySecondsSkipped(idx, d);
    assert SplitAtBlank("").None?;
    assert Truthy(d["timestamp"]);
    assert PyInt(Int(0)) == Some(0);
    assert IntervalForm(d).None?;
    assert LegacyForm(d) == Some(Span(ts, ts));
  }

  /** The outcome for every record of the log. */
  function Outcomes(raw: seq<Record>): (os: seq<Outcome>)
    ensures |os| == |raw| && forall i :: 0 <= i < |raw| ==> os[i] == NormalizeOne(i, raw[i])
  {
    seq(|raw|, i requires 0 <= i < |raw| => NormalizeOne(i, raw[i]))
  }

  /** The entries kept from a run of outcomes, or `None` when one of them raises. */
  function Collect(os: seq<Outcome>): (r: Option<seq<Entry>>)
    ensures r.Some? ==> |r.value| <= |os|
  {
    if os == [] then Some([])
    else
      match Collect(os[..|os| - 1])
      case None => None
      case Some(front) =>
        match os[|os| - 1]
        case Crash => None
        case Skip => Some(front)
        case Take(x) => Some(front + [x])
  }

  /** What `_normalize_entries(raw)` returns, or `None` when it raises. */
  function Normalized(raw: seq<Record>): Option<seq<Entry>> {
    Collect(Outcomes(raw))
  }

  /** `_normalize_entries(raw)`. */
  method NormalizeEntries(raw: seq<Record>) returns (out: Option<seq<Entry>>)
    ensures out == Normalized(raw)
  {
    ghost var os := Outcomes(raw);
    var acc: seq<Entry> := [];
    var idx := 0;
    while idx < |raw|
      invariant 0 <= idx <= |raw|
      invariant Collect(os[..idx]) == Some(acc)
    {
      var o := NormalizeOne(idx, raw[idx]);
      assert os[..idx + 1][..idx] == os[..idx] && os[..idx + 1][idx] == o;
      match o {
        case Crash =>
          CollectNoneExtends(os, idx + 1);
          assert os[..|os|] == os;
          return None;
        case Skip =>
        case Take(x) =>
          acc := acc + [x];
      }
      idx := idx + 1;
    }
    assert os[..idx] == os;
    return Some(acc);
  }

  /** Once a prefix of the outcomes raises, the whole run raises. */
  lemma {:induction false} CollectNoneExtends(os: seq<Outcome>, k: nat)
    requires k <= |os| && Collect(os[..k]).None?
    ensures Collect(os).None?
    decreases |os| - k
  {
    if k < |os| {
      assert os[..k + 1][..k] == os[..k];
      CollectNoneExtends(os, k + 1);
    } else {
      assert os[..k] == os;
    }
  }

  /** The run raises exactly when one of its outcomes does. */
  lemma {:induction false} CollectNone(os: seq<Outcome>)
    ensures Collect(os).None? <==> exists i :: 0 <= i < |os| && os[i].Crash?
  {
    if os != [] {
      var front := os[..|os| - 1];
      CollectNone(front);
      if exists i :: 0 <= i < |front| && front[i].Crash? {
        var i :| 0 <= i < |front| && front[i].Crash?;
        assert os[i].Crash?;
      }
      if exists i :: 0 <= i < |os| && os[i].Crash? {
        var i :| 0 <= i < |os| && os[i].Crash?;
        if i < |front| { assert front[i].Crash?; }
      }
    }
  }

  /** Each outcome that keeps an entry names its own index. */
  ghost predicate Indexed(os: seq<Outcome>) {
    forall i :: 0 <= i < |os| && os[i].Take? ==> os[i].entry.origIndex == i
  }

  /**
   * The kept entries are exactly the entries of the `Take` outcomes, in log
   * order: each one is the outcome at its own index, the indices increase,
   * and no kept outcome is missing.
   */
  lemma {:induction false} CollectEntries(os: seq<Outcome>)
    requires Indexed(os) && Collect(os).Some?
    ensures var out := Collect(os).value;
            && (forall j :: 0 <= j < |out| ==> out[j].origIndex < |os| && os[out[j].origIndex] == Take(out[j]))
            && (forall j, k :: 0 <= j < k < |out| ==> out[j].origIndex < out[k].origIndex)
            && (forall i :: 0 <= i < |os| && os[i].Take? ==> exists j :: 0 <= j < |out| && out[j].origIndex == i)
  {
    if os != [] {
      var front := os[..|os| - 1];
      var last := os[|os| - 1];
      assert Indexed(front) by {
        forall i | 0 <= i < |front| && front[i].Take? ensures front[i].entry.origIndex == i {
          assert front[i] == os[i];
        }
      }
      CollectEntries(front);
      var f := Collect(front).value;
      var out := Collect(os).value;
      forall j | 0 <= j < |f| ensures os[f[j].origIndex] == Take(f[j]) {
        assert front[f[j].origIndex] == os[f[j].origIndex];
      }
      forall i | 0 <= i < |os| && os[i].Take?
        ensures exists j :: 0 <= j < |out| && out[j].origIndex == i
      {
        if i < |front| {
          assert front[i] == os[i];
          var j :| 0 <= j < |f| && f[j].origIndex == i;
          assert out[j] == f[j];
        } else {
          assert out[|out| - 1] == last.entry;
        }
      }
    }
  }

  /** `_normalize_entries` raises exactly when some record of the log is not an object. */
  lemma NormalizedFails(raw: seq<Record>)
    ensures Normalized(raw).None? <==> exists i :: 0 <= i < |raw| && raw[i].NonObject?
  {
    var os := Outcomes(raw);
    CollectNone(os);
    if exists i :: 0 <= i < |raw| && raw[i].NonObject? {
      var i :| 0 <= i < |raw| && raw[i].NonObject?;
      assert os[i].Crash?;
    }
  }

  /**
   * Every entry of the report is what the loop body makes of the record at its
   * `orig_index`, the indices increase (so they are distinct tree-row ids),
   * and every record the loop body keeps is in the report.
   */
  lemma NormalizedEntries(raw: seq<Record>)
    requires Normalized(raw).Some?
    ensures var out := Normalized(raw).value;
            && (forall j :: 0 <= j < |out| ==>
                  out[j].origIndex < |raw| && NormalizeOne(out[j].origIndex, raw[out[j].origIndex]) == Take(out[j]))
            && (forall j, k :: 0 <= j < k < |out| ==> out[j].origIndex < out[k].origIndex)
            && (forall i :: 0 <= i < |raw| && NormalizeOne(i, raw[i]).Take? ==>
                  exists j :: 0 <= j < |out| && out[j].origIndex == i)
  {
    var os := Outcomes(raw);
    CollectEntries(os);
  }

  // ---------------------------------------------------------------------------
  // Agreement with parse_range

  /**
   * Every entry the report keeps covers the interval `parse_range` finds in
   * the same record. (The converse fails: `parse_range` falls back to the
   * legacy fields when `start`/`end` do not parse, and accepts `seconds` of 0,
   * where the report skips the record.)
   */
  lemma TakenAgreesWithParseRange(idx: nat, e: Record)
    requires NormalizeOne(idx, e).Take?
    ensures ParseRange(e).span.Some?
    ensures ParseRange(e).span.value == Span(NormalizeOne(idx, e).entry.start, NormalizeOne(idx, e).entry.end)
  {
    var d := e.fields;
    var x := NormalizeOne(idx, e).entry;
    if Truthy(Get(d, "start")) && Truthy(Get(d, "end")) {
      IntervalSpan(d, x.start, x.end);
    } else {
      LegacyAgrees(idx, d);
    }
  }

  lemma LegacyAgrees(idx: nat, d: map<string, Value>)
    requires !(Truthy(Get(d, "start")) && Truthy(Get(d, "end")))
    requires Truthy(Get(d, "timestamp")) && Truthy(Get(d, "seconds"))
    requires LegacyEntry(idx, d).Take?
    ensures ParseRange(Object(d)).span.Some?
    ensures ParseRange(Object(d)).span.value == Span(LegacyEntry(idx, d).entry.start, LegacyEntry(idx, d).entry.end)
  {
    assert IntervalForm(d).None?;
    var ts, sec := TimestampOf(d["timestamp"]), PyInt(d["seconds"]);
    assert ts.Some? && sec.Some? && ValidInstant(ts.value - Seconds(sec.value));
    var l := LegacyForm(d);
    assert l.Some? && l.value == Span(LegacyEntry(idx, d).entry.start, LegacyEntry(idx, d).entry.end);
  }

  /**
   * A record whose `start` and `end` were written by `isoformat()` and whose
   * `duration_seconds` is an integer is read back with exactly those values.
   */
  lemma NormalizeStored(idx: nat, d: map<string, Value>, start: Instant, end: Instant, dur: int)
    requires ValidInstant(start) && ValidInstant(end)
    requires "start" in d && d["start"] == Str(FormatIso(start))
    requires "end" in d && d["end"] == Str(FormatIso(end))
    requires "duration_seconds" in d && d["duration_seconds"] == Int(dur)
    ensures NormalizeOne(idx, Object(d)) == Take(Describe(idx, d, start, end, dur))
  {
    ParseFormatIso(start);
    ParseFormatIso(end);
    StoredInterval(idx, d, start, end, dur);
  }

  lemma StoredInterval(idx: nat, d: map<string, Value>, start: Instant, end: Instant, dur: int)
    requires "start" in d && "end" in d && "duration_seconds" in d && d["duration_seconds"] == Int(dur)
    requires d["start"].Str? && d["start"].s != [] && d["end"].Str? && d["end"].s != []
    requires IsoOf(d["start"]).Some? && IsoOf(d["start"]).value == start
    requires IsoOf(d["end"]).Some? && IsoOf(d["end"]).value == end
    ensures NormalizeOne(idx, Object(d)) == Take(Describe(idx, d, start, end, dur))
  {
    IntervalBranch(idx, d);
    StoredDuration(idx, d, start, end, dur);
  }

  /** With truthy `start` and `end`, the loop body is the interval branch. */
  lemma IntervalBranch(idx: nat, d: map<string, Value>)
    requires Truthy(Get(d, "start")) && Truthy(Get(d, "end"))
    ensures NormalizeOne(idx, Object(d)) == IntervalEntry(idx, d)
  {
  }

  lemma StoredDuration(idx: nat, d: map<string, Value>, start: Instant, end: Instant, dur: int)
    requires "start" in d && "end" in d && "duration_seconds" in d && d["duration_seconds"] == Int(dur)
    requires IsoOf(d["start"]).Some? && IsoOf(d["start"]).value == start
    requires IsoOf(d["end"]).Some? && IsoOf(d["end"]).value == end
    ensures IntervalEntry(idx, d) == Take(Describe(idx, d, start, end, dur))
  {
    var p := PyInt(d["duration_seconds"]);
    assert p.Some? && p.value == dur;
  }
}
