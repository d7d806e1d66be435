/**
 * The shared time-log helpers: reading the log, appending one entry,
 * recognising the two historical record shapes (`parse_range`), and listing
 * the logged intervals a new interval would overlap (`check_overlaps`).
 */
module Tracker {
  import opened Options
  import opened Text
  import opened DateTimes
  import opened Values

  // ---------------------------------------------------------------------------
  // The log file

  /**
   * The log file as `json.load` sees it: absent, not JSON (or not valid
   * UTF-8), or a JSON array of records.
   */
  datatype LogFile = Missing | Corrupt | Stored(records: seq<Record>)

  /** `load_time_log()`: the stored array, or `[]` when the file is missing or cannot be parsed. */
  function Load(f: LogFile): (rs: seq<Record>)
    ensures f.Stored? ==> rs == f.records
    ensures !f.Stored? ==> rs == []
  {
    if f.Stored? then f.records else []
  }

  /** The file `append_time_log(entry)` writes: what was readable before, then `entry`. */
  function Appended(f: LogFile, entry: Record): (g: LogFile)
    ensures g.Stored?
    ensures |Load(g)| == |Load(f)| + 1 && Load(g)[|Load(f)|] == entry
    ensures Load(g)[..|Load(f)|] == Load(f)
  {
    Stored(Load(f) + [entry])
  }

  /** The time log on disk, which the tracker reads and rewrites as a whole. */
  class TimeLog {
    var file: LogFile

    constructor (f: LogFile)
      ensures file == f
    {
      file := f;
    }

    /** `append_time_log(entry)`: read the array (or `[]`), add `entry` last, write it back. */
    method Append(entry: Record)
      modifies this
      ensures file == Appended(old(file), entry)
    {
      var data := Load(file);
      data := data + [entry];
      file := Stored(data);
    }
  }

  /** Appending keeps every earlier record in place and puts the new one last. */
  lemma AppendedRecords(f: LogFile, entry: Record, i: nat)
    requires i <= |Load(f)|
    ensures Load(Appended(f, entry))[i] == if i < |Load(f)| then Load(f)[i] else entry
  {
    var g := Appended(f, entry);
    if i < |Load(f)| {
      assert Load(g)[..|Load(f)|][i] == Load(f)[i];
    }
  }

  // ---------------------------------------------------------------------------
  // parse_range

  /** A parsed interval `(start_dt, end_dt)`. */
  datatype Span = Span(start: Instant, end: Instant)

  /** What `parse_range` returns: both datetimes or neither, and the label. */
  datatype Parsed = Parsed(span: Option<Span>, name: Option<Value>)

  /** `datetime.fromisoformat(v)`; anything but a `str` raises `TypeError`. */
  function IsoOf(v: Value): (r: Option<Instant>)
    ensures r.Some? ==> v.Str? && ValidInstant(r.value)
  {
    if v.Str? then ParseIso(v.s) else None
  }

  /** `datetime.strptime(v, "%Y-%m-%d %H:%M:%S")`; anything but a `str` raises `TypeError`. */
  function TimestampOf(v: Value): (r: Option<Instant>)
    ensures r.Some? ==> v.Str? && ValidInstant(r.value)
  {
    if v.Str? then ParseTimestamp(v.s) else None
  }

  /** `e.get("task_text") or e.get("task_id") or "?"`. */
  function Label(d: map<string, Value>): (r: Value)
    ensures Truthy(r)
    ensures Truthy(Get(d, "task_text")) ==> r == d["task_text"]
    ensures !Truthy(Get(d, "task_text")) && Truthy(Get(d, "task_id")) ==> r == d["task_id"]
    ensures !Truthy(Get(d, "task_text")) && !Truthy(Get(d, "task_id")) ==> r == Str("?")
  {
    Or(Or(Get(d, "task_text"), Get(d, "task_id")), Str("?"))
  }

  /** The `start`/`end` shape: both truthy and both read by `fromisoformat`. */
  function IntervalForm(d: map<string, Value>): (r: Option<Span>)
    ensures r.Some? ==> ValidInstant(r.value.start) && ValidInstant(r.value.end)
  {
    if Truthy(Get(d, "start")) && Truthy(Get(d, "end")) then
      var s, e := IsoOf(d["start"]), IsoOf(d["end"]);
      if s.Some? && e.Some? then Some(Span(s.value, e.value)) else None
    else None
  }

  /**
   * The legacy shape: a truthy `timestamp` that is the end of the interval and
   * a `seconds` that is not `None`. Subtracting the seconds must stay within
   * the `datetime` range, or `OverflowError` makes the shape fail.
   */
  function LegacyForm(d: map<string, Value>): (r: Option<Span>)
    ensures r.Some? ==> ValidInstant(r.value.start) && ValidInstant(r.value.end)
  {
    if Truthy(Get(d, "timestamp")) && Get(d, "seconds") != Null then
      var ts, sec := TimestampOf(d["timestamp"]), PyInt(d["seconds"]);
      if ts.Some? && sec.Some? && ValidInstant(ts.value - Seconds(sec.value)) then
        Some(Span(ts.value - Seconds(sec.value), ts.value))
      else None
    else None
  }

  /**
   * `parse_range(e)`: a record that is not an object gives no label and no
   * interval; otherwise the interval shape is tried first and the legacy
   * shape after it, whether or not `start`/`end` were present.
   */
  function ParseRange(e: Record): (r: Parsed)
    ensures r.name.None? <==> e.NonObject?
    ensures r.name.Some? ==> Truthy(r.name.value)
    ensures r.name.None? ==> r.span.None?
    ensures r.span.Some? ==> ValidInstant(r.span.value.start) && ValidInstant(r.span.value.end)
    ensures e.Object? && IntervalForm(e.fields).Some? ==> r.span == IntervalForm(e.fields)
    ensures e.Object? && IntervalForm(e.fields).None? ==> r.span == LegacyForm(e.fields)
  {
    match e
    case NonObject(_) => Parsed(None, None)
    case Object(d) =>
      var span := if IntervalForm(d).Some? then IntervalForm(d) else LegacyForm(d);
      Parsed(span, Some(Label(d)))
  }

  /** What `isoformat()` wrote into `start` and `end`, `parse_range` reads back. */
  lemma ParseRangeOfInterval(d: map<string, Value>, start: Instant, end: Instant)
    requires ValidInstant(start) && ValidInstant(end)
    requires "start" in d && d["start"] == Str(FormatIso(start))
    requires "end" in d && d["end"] == Str(FormatIso(end))
    ensures ParseRange(Object(d)).span.Some?
    ensures ParseRange(Object(d)).span.value == Span(start, end)
  {
    ParseFormatIso(start);
    ParseFormatIso(end);
    IntervalSpan(d, start, end);
  }

  lemma IntervalSpan(d: map<string, Value>, start: Instant, end: Instant)
    requires Truthy(Get(d, "start")) && Truthy(Get(d, "end"))
    requires IsoOf(d["start"]).Some? && IsoOf(d["start"]).value == start
    requires IsoOf(d["end"]).Some? && IsoOf(d["end"]).value == end
    ensures ParseRange(Object(d)).span.Some?
    ensures ParseRange(Object(d)).span.value == Span(start, end)
  {
    var r := IntervalForm(d);
    assert r.Some? && r.value == Span(start, end);
  }

  /**
   * A record whose `start` is missing or does not parse, with a parseable
   * `timestamp` and an integer `seconds`, yields the interval that ends at the
   * timestamp and starts `seconds` earlier, `seconds` of 0 included.
   */
  lemma ParseRangeLegacy(d: map<string, Value>, ts: Instant, sec: int)
    requires IsoOf(Get(d, "start")).None?
    requires Truthy(Get(d, "timestamp"))
    requires TimestampOf(d["timestamp"]).Some? && TimestampOf(d["timestamp"]).value == ts
    requires "seconds" in d && d["seconds"] == Int(sec)
    requires ValidInstant(ts - Seconds(sec))
    ensures ParseRange(Object(d)).span.Some?
    ensures ParseRange(Object(d)).span.value == Span(ts - Seconds(sec), ts)
  {
    IntervalFormFails(d);
    LegacyFormValue(d, ts, sec);
  }

  lemma IntervalFormFails(d: map<string, Value>)
    requires IsoOf(Get(d, "start")).None?
    ensures IntervalForm(d).None?
  {
  }

  lemma LegacyFormValue(d: map<string, Value>, ts: Instant, sec: int)
    requires Truthy(Get(d, "timestamp"))
    requires TimestampOf(d["timestamp"]).Some? && TimestampOf(d["timestamp"]).value == ts
    requires "seconds" in d && d["seconds"] == Int(sec)
    requires ValidInstant(ts - Seconds(sec))
    ensures LegacyForm(d).Some? && LegacyForm(d).value == Span(ts - Seconds(sec), ts)
  {
    var t := TimestampOf(d["timestamp"]);
    var n := PyInt(d["seconds"]);
    assert n.Some? && n.value == sec;
    assert t.Some? && ValidInstant(t.value - Seconds(n.value));
  }

  // ---------------------------------------------------------------------------
  // check_overlaps

  /** One overlap found: the logged interval and its label. */
  datatype Overlap = Overlap(start: Instant, end: Instant, name: Value)

  /** The half-open intervals `[sp.start, sp.end)` and `[start, end)` intersect. */
  predicate Intersects(sp: Span, start: Instant, end: Instant) {
    start < sp.end && sp.start < end
  }

  /** `parse_range` applied to every record of the log. */
  function ParseAll(rs: seq<Record>): (ps: seq<Parsed>)
    ensures |ps| == |rs| && forall i :: 0 <= i < |rs| ==> ps[i] == ParseRange(rs[i])
  {
    seq(|rs|, i requires 0 <= i < |rs| => ParseRange(rs[i]))
  }

  /** The overlap one parsed record contributes: its interval, when it intersects `[start, end)`. */
  function Hit(p: Parsed, start: Instant, end: Instant): (r: Option<Overlap>)
    ensures r.Some? <==> p.span.Some? && p.name.Some? && Intersects(p.span.value, start, end)
    ensures r.Some? ==> Span(r.value.start, r.value.end) == p.span.value && Some(r.value.name) == p.name
  {
    if p.span.Some? && p.name.Some? && Intersects(p.span.value, start, end) then
      Some(Overlap(p.span.value.start, p.span.value.end, p.name.value))
    else None
  }

  /** The overlaps among the parsed records `ps`, in log order. */
  function Hits(ps: seq<Parsed>, start: Instant, end: Instant): (out: seq<Overlap>)
    ensures |out| <= |ps|
  {
    if ps == [] then []
    else
      var front := Hits(ps[..|ps| - 1], start, end);
      match Hit(ps[|ps| - 1], start, end)
      case Some(o) => front + [o]
      case None => front
  }

  /** The overlaps `check_overlaps` finds among the logged records `rs`. */
  function Overlaps(rs: seq<Record>, start: Instant, end: Instant): (out: seq<Overlap>)
    ensures |out| <= |rs|
  {
    Hits(ParseAll(rs), start, end)
  }

  /** `check_overlaps(existing, start_dt, end_dt)`. */
  method CheckOverlaps(existing: seq<Record>, start: Instant, end: Instant) returns (out: seq<Overlap>)
    ensures out == Overlaps(existing, start, end)
  {
    ghost var ps := ParseAll(existing);
    out := [];
    var i := 0;
    while i < |existing|
      invariant 0 <= i <= |existing|
      invariant out == Hits(ps[..i], start, end)
    {
      var p := ParseRange(existing[i]);
      assert ps[..i + 1][..i] == ps[..i] && ps[..i + 1][i] == p;
      ghost var hit := Hit(p, start, end);
      if p.span.Some? && start < p.span.value.end && p.span.value.start < end {
        out := out + [Overlap(p.span.value.start, p.span.value.end, p.name.value)];
        assert hit == Some(Overlap(p.span.value.start, p.span.value.end, p.name.value));
      } else {
        assert hit.None?;
      }
      assert out == Hits(ps[..i + 1], start, end);
      i := i + 1;
    }
    assert ps[..i] == ps;
  }

  /** An overlap is reported exactly when some parsed record has an intersecting interval. */
  lemma {:induction false} HitsMember(ps: seq<Parsed>, start: Instant, end: Instant, o: Overlap)
    ensures o in Hits(ps, start, end) <==> exists i :: 0 <= i < |ps| && Hit(ps[i], start, end) == Some(o)
  {
    if ps != [] {
      var front := ps[..|ps| - 1];
      HitsMember(front, start, end, o);
      if o in Hits(ps, start, end) && o !in Hits(front, start, end) {
        assert Hit(ps[|ps| - 1], start, end) == Some(o);
      }
      if exists i :: 0 <= i < |ps| && Hit(ps[i], start, end) == Some(o) {
        var i :| 0 <= i < |ps| && Hit(ps[i], start, end) == Some(o);
        if i < |ps| - 1 {
          assert front[i] == ps[i];
        }
      }
    }
  }

  /** The overlaps of two stretches of the log, one after the other: log order is kept. */
  lemma {:induction false} HitsConcat(a: seq<Parsed>, b: seq<Parsed>, start: Instant, end: Instant)
    ensures Hits(a + b, start, end) == Hits(a, start, end) + Hits(b, start, end)
    decreases |b|
  {
    if b == [] {
      assert a + b == a;
    } else {
      var b' := b[..|b| - 1];
      assert (a + b)[..|a + b| - 1] == a + b';
      assert (a + b)[|a + b| - 1] == b[|b| - 1];
      HitsConcat(a, b', start, end);
    }
  }

  /**
   * An overlap is reported exactly when some logged record parses to an
   * interval intersecting `[start, end)`, with that record's label.
   */
  lemma OverlapsMember(rs: seq<Record>, start: Instant, end: Instant, o: Overlap)
    ensures o in Overlaps(rs, start, end) <==>
            exists i :: 0 <= i < |rs| && ParseRange(rs[i]).span == Some(Span(o.start, o.end))
                        && ParseRange(rs[i]).name == Some(o.name) && Intersects(Span(o.start, o.end), start, end)
  {
    var ps := ParseAll(rs);
    HitsMember(ps, start, end, o);
    if o in Overlaps(rs, start, end) {
      var i :| 0 <= i < |ps| && Hit(ps[i], start, end) == Some(o);
      assert ParseRange(rs[i]).span == Some(Span(o.start, o.end));
    }
    if exists i :: 0 <= i < |rs| && ParseRange(rs[i]).span == Some(Span(o.start, o.end))
                   && ParseRange(rs[i]).name == Some(o.name) && Intersects(Span(o.start, o.end), start, end) {
      var i :| 0 <= i < |rs| && ParseRange(rs[i]).span == Some(Span(o.start, o.end))
               && ParseRange(rs[i]).name == Some(o.name) && Intersects(Span(o.start, o.end), start, end);
      assert Hit(ps[i], start, end) == Some(o);
    }
  }

  /** Every reported overlap strictly intersects `[start, end)`: intervals that only touch it are not reported. */
  lemma OverlapsIntersect(rs: seq<Record>, start: Instant, end: Instant, o: Overlap)
    requires o in Overlaps(rs, start, end)
    ensures start < o.end && o.start < end
  {
    HitsMember(ParseAll(rs), start, end, o);
  }

  /** No overlap is reported exactly when no logged record parses to an interval intersecting `[start, end)`. */
  lemma NoOverlaps(rs: seq<Record>, start: Instant, end: Instant)
    ensures Overlaps(rs, start, end) == [] <==>
            forall i :: 0 <= i < |rs| && ParseRange(rs[i]).span.Some? ==> !Intersects(ParseRange(rs[i]).span.value, start, end)
  {
    var ps := ParseAll(rs);
    if Overlaps(rs, start, end) != [] {
      HitsMember(ps, start, end, Overlaps(rs, start, end)[0]);
    } else {
      forall i | 0 <= i < |rs| && ParseRange(rs[i]).span.Some?
        ensures !Intersects(ParseRange(rs[i]).span.value, start, end)
      {
        if Intersects(ps[i].span.value, start, end) {
          HitsMember(ps, start, end, Hit(ps[i], start, end).value);
        }
      }
    }
  }
}
