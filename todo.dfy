/**
 * The to-do window of `start.py`: the task list with its project and section
 * choices, the shown rows and their tags, marking and deleting tasks, the
 * timer that logs the time spent on a task, and the rule that admits a
 * manually entered activity into the time log.
 */
module Todo {
  import opened Options
  import opened Text
  import opened Calendar
  import opened DateTimes
  import opened Values
  import opened Tracker
  import opened Entries

  /** The project a task gets when none is typed, and the only choice offered when no task names one. */
  const General := "Общее"

  /** One element of `tasks.json`, as `add_task` writes it. */
  datatype Task = Task(id: string, text: string, project: string, section: string,
                       date: string, deadline: string, note: string, done: bool)

  // ---------------------------------------------------------------------------
  // get_projects / get_sections

  /** `s` is in strictly increasing `str` order, so no name appears twice. */
  ghost predicate StrictlySorted(s: seq<string>) {
    forall i, j :: 0 <= i < j < |s| ==> Less(s[i], s[j])
  }

  /** `x` added to the sorted names `s`, unless it is already there. */
  function InsertName(x: string, s: seq<string>): (r: seq<string>)
    ensures |r| <= |s| + 1
  {
    if s == [] then [x]
    else if x == s[0] then s
    else if Less(x, s[0]) then [x] + s
    else [s[0]] + InsertName(x, s[1..])
  }

  lemma {:induction false} InsertNameSorted(x: string, s: seq<string>)
    requires StrictlySorted(s)
    ensures StrictlySorted(InsertName(x, s))
    ensures forall y :: y in InsertName(x, s) <==> y == x || y in s
  {
    if s != [] && x != s[0] {
      if Less(x, s[0]) {
        forall j | 0 < j < |s| ensures Less(x, s[j]) { LessTransitive(x, s[0], s[j]); }
      } else {
        LessTotal(x, s[0]);
        InsertNameSorted(x, s[1..]);
        var r' := InsertName(x, s[1..]);
        assert InsertName(x, s) == [s[0]] + r';
        forall y | y in r' ensures Less(s[0], y) {
          if y != x {
            var j :| 0 <= j < |s[1..]| && s[1..][j] == y;
            assert s[j + 1] == y;
          }
        }
        assert s == [s[0]] + s[1..];
      }
    }
  }

  /** `sorted({v for v in values if v})`: the distinct non-empty names in `str` order. */
  function Names(values: seq<string>): seq<string>
  {
    if values == [] then []
    else
      var rest := Names(values[..|values| - 1]);
      var v := values[|values| - 1];
      if v == "" then rest else InsertName(v, rest)
  }

  lemma {:induction false} NamesSorted(values: seq<string>)
    ensures StrictlySorted(Names(values))
    ensures forall y :: y in Names(values) <==> y != "" && y in values
  {
    if values != [] {
      var front := values[..|values| - 1];
      NamesSorted(front);
      var v := values[|values| - 1];
      assert values == front + [v];
      if v != "" {
        InsertNameSorted(v, Names(front));
      }
    }
  }

  /** The sorted distinct non-empty names, or `["Общее"]` when there are none. */
  function Choices(values: seq<string>): (r: seq<string>)
    ensures r != []
  {
    var names := Names(values);
    if names == [] then [General] else names
  }

  /**
   * The choices are sorted without repetition; with no non-empty name they
   * are `["Общее"]`, and otherwise they are exactly the non-empty names.
   */
  lemma ChoicesAre(values: seq<string>)
    ensures StrictlySorted(Choices(values))
    ensures (forall v :: v in values ==> v == "") ==> Choices(values) == [General]
    ensures forall y :: y != "" && y in values ==> y in Choices(values)
    ensures forall y :: y in Choices(values) ==> y == General || (y != "" && y in values)
  {
    NamesSorted(values);
    if Names(values) != [] {
      assert Names(values)[0] in Names(values);
    }
    forall y | y != "" && y in values ensures y in Choices(values) {
      assert y in Names(values);
    }
  }

  function ProjectsOf(tasks: seq<Task>): (ps: seq<string>)
    ensures |ps| == |tasks| && forall i :: 0 <= i < |tasks| ==> ps[i] == tasks[i].project
  {
    seq(|tasks|, i requires 0 <= i < |tasks| => tasks[i].project)
  }

  function SectionsOf(tasks: seq<Task>): (ss: seq<string>)
    ensures |ss| == |tasks| && forall i :: 0 <= i < |tasks| ==> ss[i] == tasks[i].section
  {
    seq(|tasks|, i requires 0 <= i < |tasks| => tasks[i].section)
  }

  /** `get_projects()`. */
  function Projects(tasks: seq<Task>): seq<string> {
    Choices(ProjectsOf(tasks))
  }

  /** `get_sections()`. */
  function Sections(tasks: seq<Task>): seq<string> {
    Choices(SectionsOf(tasks))
  }

  /** Every task's non-empty project is offered, and nothing else is offered except the default. */
  lemma ProjectsOffered(tasks: seq<Task>)
    ensures StrictlySorted(Projects(tasks))
    ensures forall t :: t in tasks && t.project != "" ==> t.project in Projects(tasks)
    ensures forall y :: y in Projects(tasks) ==> y == General || exists t :: t in tasks && t.project == y && y != ""
  {
    var ps := ProjectsOf(tasks);
    ChoicesAre(ps);
    forall t | t in tasks && t.project != "" ensures t.project in Projects(tasks) {
      var i :| 0 <= i < |tasks| && tasks[i] == t;
      assert ps[i] == t.project;
    }
    forall y | y in Projects(tasks) && y != General
      ensures exists t :: t in tasks && t.project == y && y != ""
    {
      var i :| 0 <= i < |ps| && ps[i] == y;
      assert tasks[i] in tasks;
    }
  }

  /** Every task's non-empty section is offered, and nothing else is offered except the default. */
  lemma SectionsOffered(tasks: seq<Task>)
    ensures StrictlySorted(Sections(tasks))
    ensures forall t :: t in tasks && t.section != "" ==> t.section in Sections(tasks)
    ensures forall y :: y in Sections(tasks) ==> y == General || exists t :: t in tasks && t.section == y && y != ""
  {
    var ss := SectionsOf(tasks);
    ChoicesAre(ss);
    forall t | t in tasks && t.section != "" ensures t.section in Sections(tasks) {
      var i :| 0 <= i < |tasks| && tasks[i] == t;
      assert ss[i] == t.section;
    }
    forall y | y in Sections(tasks) && y != General
      ensures exists t :: t in tasks && t.section == y && y != ""
    {
      var i :| 0 <= i < |ss| && ss[i] == y;
      assert tasks[i] in tasks;
    }
  }

  // ---------------------------------------------------------------------------
  // refresh

  /** The row tag: `done`, `overdue`, or none. */
  datatype Tag = Plain | DoneTag | Overdue

  /** One row of the task list: its iid (the task id), the shown columns and the tag. */
  datatype TaskRow = TaskRow(iid: string, text: string, date: string, deadline: string,
                             project: string, section: string, note: string, mark: string, tag: Tag)

  /**
   * A done task is tagged `done`; otherwise it is `overdue` when it has a
   * deadline that reads as `dd.mm.yyyy` and falls before `today` (a day
   * number). A deadline that does not read is not an error.
   */
  function TagOf(t: Task, today: int): (tag: Tag)
    ensures tag == DoneTag <==> t.done
  {
    if t.done then DoneTag
    else if t.deadline != "" && ParseDmy(t.deadline).Some? && ParseDmy(t.deadline).value < today then Overdue
    else Plain
  }

  /** The row `refresh` inserts for `t`. */
  function RowFor(t: Task, today: int): TaskRow {
    TaskRow(t.id, t.text, t.date, t.deadline, t.project, t.section, t.note,
            if t.done then "✅" else "", TagOf(t, today))
  }

  /** "Скрыть готовые" hides done tasks. */
  predicate Hidden(t: Task, hideDone: bool) {
    hideDone && t.done
  }

  /** The rows of the list after `refresh`, in task order. */
  function Listing(tasks: seq<Task>, hideDone: bool, today: int): (rows: seq<TaskRow>)
    ensures |rows| <= |tasks|
  {
    if tasks == [] then []
    else
      var t := tasks[|tasks| - 1];
      Listing(tasks[..|tasks| - 1], hideDone, today) + (if Hidden(t, hideDone) then [] else [RowFor(t, today)])
  }

  /** A row is listed exactly when it is the row of some task that is not hidden. */
  lemma ListingMembers(tasks: seq<Task>, hideDone: bool, today: int, r: TaskRow)
    ensures r in Listing(tasks, hideDone, today) <==>
            exists i :: 0 <= i < |tasks| && !Hidden(tasks[i], hideDone) && r == RowFor(tasks[i], today)
  {
    if r in Listing(tasks, hideDone, today) {
      var i := ListedTask(tasks, hideDone, today, r);
    }
    if exists i :: 0 <= i < |tasks| && !Hidden(tasks[i], hideDone) && r == RowFor(tasks[i], today) {
      var i :| 0 <= i < |tasks| && !Hidden(tasks[i], hideDone) && r == RowFor(tasks[i], today);
      TaskListed(tasks, hideDone, today, i);
    }
  }

  /** Every listed row is the row of a task that is not hidden. */
  lemma {:induction false} ListedTask(tasks: seq<Task>, hideDone: bool, today: int, r: TaskRow) returns (i: nat)
    requires r in Listing(tasks, hideDone, today)
    ensures i < |tasks| && !Hidden(tasks[i], hideDone) && r == RowFor(tasks[i], today)
  {
    var front := tasks[..|tasks| - 1];
    if r in Listing(front, hideDone, today) {
      i := ListedTask(front, hideDone, today, r);
      assert tasks[i] == front[i];
    } else {
      i := |tasks| - 1;
    }
  }

  /** The row of a task that is not hidden is listed. */
  lemma {:induction false} TaskListed(tasks: seq<Task>, hideDone: bool, today: int, i: nat)
    requires i < |tasks| && !Hidden(tasks[i], hideDone)
    ensures RowFor(tasks[i], today) in Listing(tasks, hideDone, today)
  {
    var front := tasks[..|tasks| - 1];
    if i < |tasks| - 1 {
      TaskListed(front, hideDone, today, i);
      assert front[i] == tasks[i];
    }
  }

  /** A task has its row in the list exactly when it is not hidden. */
  lemma ShownUnlessHidden(tasks: seq<Task>, hideDone: bool, today: int, k: int)
    requires 0 <= k < |tasks|
    ensures RowFor(tasks[k], today) in Listing(tasks, hideDone, today) <==> !Hidden(tasks[k], hideDone)
  {
    var r := RowFor(tasks[k], today);
    ListingMembers(tasks, hideDone, today, r);
    if r in Listing(tasks, hideDone, today) {
      var i :| 0 <= i < |tasks| && !Hidden(tasks[i], hideDone) && r == RowFor(tasks[i], today);
      assert RowFor(tasks[i], today).mark == r.mark;
    }
  }

  /** A deadline written as `dd.mm.yyyy` makes an open task overdue exactly when it is before today. */
  lemma OverdueBeforeToday(t: Task, today: int, n: int)
    requires 0 <= n < DayCount && t.deadline == FormatDmy(n)
    ensures TagOf(t, today) == Overdue <==> !t.done && n < today
  {
    ParseFormattedDmy(n);
  }

  // ---------------------------------------------------------------------------
  // mark_done / delete_task

  /** The position of the first task with id `tid`, or `|tasks|` when there is none. */
  function FirstWith(tasks: seq<Task>, tid: string): (k: nat)
    ensures k <= |tasks|
    ensures k < |tasks| ==> tasks[k].id == tid
    ensures forall j :: 0 <= j < k ==> tasks[j].id != tid
  {
    if tasks == [] || tasks[0].id == tid then 0 else 1 + FirstWith(tasks[1..], tid)
  }

  /** The position the three properties of `FirstWith` describe is unique. */
  lemma FirstWithUnique(tasks: seq<Task>, tid: string, k: nat)
    requires k <= |tasks| && (k < |tasks| ==> tasks[k].id == tid)
    requires forall j :: 0 <= j < k ==> tasks[j].id != tid
    ensures FirstWith(tasks, tid) == k
  {
  }

  /** `next((t for t in tasks if t["id"] == tid), None)`. */
  function Find(tasks: seq<Task>, tid: string): (r: Option<Task>)
    ensures r.Some? <==> exists t :: t in tasks && t.id == tid
    ensures r.Some? ==> r.value in tasks && r.value.id == tid
  {
    var k := FirstWith(tasks, tid);
    if k < |tasks| then Some(tasks[k]) else None
  }

  /** The tasks after `mark_done` on `tid`: the first task with that id has `done` flipped. */
  function Toggled(tasks: seq<Task>, tid: string): seq<Task> {
    var k := FirstWith(tasks, tid);
    if k < |tasks| then tasks[k := tasks[k].(done := !tasks[k].done)] else tasks
  }

  /**
   * Only the first task with the id changes, and only in `done`; a later task
   * with the same id and every other task keep their values.
   */
  lemma ToggledChangesFirstOnly(tasks: seq<Task>, tid: string, i: int)
    requires 0 <= i < |tasks|
    ensures |Toggled(tasks, tid)| == |tasks|
    ensures Toggled(tasks, tid)[i] ==
            if i == FirstWith(tasks, tid) then tasks[i].(done := !tasks[i].done) else tasks[i]
  {
  }

  /** Marking the same task twice restores the list. */
  lemma {:induction false} ToggledTwice(tasks: seq<Task>, tid: string)
    ensures Toggled(Toggled(tasks, tid), tid) == tasks
  {
    var k := FirstWith(tasks, tid);
    var once := Toggled(tasks, tid);
    if k < |tasks| {
      FirstWithUnique(once, tid, k);
      assert once[k].id == tasks[k].id;
    }
  }

  /** `[t for t in tasks if t["id"] != tid]`. */
  function Without(tasks: seq<Task>, tid: string): seq<Task> {
    if tasks == [] then []
    else if tasks[0].id == tid then Without(tasks[1..], tid)
    else [tasks[0]] + Without(tasks[1..], tid)
  }

  /** Deleting keeps exactly the tasks with another id. */
  lemma {:induction false} WithoutMembers(tasks: seq<Task>, tid: string)
    ensures forall t :: t in Without(tasks, tid) <==> t in tasks && t.id != tid
  {
    if tasks != [] {
      WithoutMembers(tasks[1..], tid);
      assert tasks == [tasks[0]] + tasks[1..];
    }
  }

  /** Deleting works stretch by stretch, so the kept tasks stay in their order. */
  lemma {:induction false} WithoutConcat(a: seq<Task>, b: seq<Task>, tid: string)
    ensures Without(a + b, tid) == Without(a, tid) + Without(b, tid)
  {
    if a == [] {
      assert a + b == b;
    } else {
      assert (a + b)[1..] == a[1..] + b;
      WithoutConcat(a[1..], b, tid);
    }
  }

  /** When no task has the id, nothing is deleted. */
  lemma {:induction false} WithoutAbsent(tasks: seq<Task>, tid: string)
    requires forall t :: t in tasks ==> t.id != tid
    ensures Without(tasks, tid) == tasks
  {
    if tasks != [] {
      assert tasks[0] in tasks;
      assert forall t :: t in tasks[1..] ==> t in tasks;
      WithoutAbsent(tasks[1..], tid);
      assert tasks == [tasks[0]] + tasks[1..];
    }
  }

  // ---------------------------------------------------------------------------
  // The time-log record of a stretch of work

  /** The fields of a time-log record, with the two times given as stored values. */
  function Logged(id: Value, text: string, project: string, section: string,
                  start: Value, end: Value, duration: int): map<string, Value>
  {
    map["task_id" := id, "task_text" := Str(text), "project" := Str(project), "section" := Str(section),
        "start" := start, "end" := end, "duration_seconds" := Int(duration)]
  }

  lemma LoggedFields(id: Value, text: string, project: string, section: string,
                     start: Value, end: Value, duration: int)
    ensures var d := Logged(id, text, project, section, start, end, duration);
            && "start" in d && d["start"] == start && "end" in d && d["end"] == end
            && "duration_seconds" in d && d["duration_seconds"] == Int(duration)
            && GetOr(d, "task_text", Str("—")) == Str(text)
            && GetOr(d, "project", Str("—")) == Str(project)
            && GetOr(d, "section", Str("—")) == Str(section)
            && Label(d) == Or(Or(Str(text), id), Str("?"))
  {
  }

  /**
   * The record `stop_timer` and the manual entry append: the task, its texts,
   * both times as `isoformat()` and the whole seconds.
   */
  function TimeRecord(id: Value, text: string, project: string, section: string,
                      start: Instant, end: Instant, duration: int): Record
    requires ValidInstant(start) && ValidInstant(end)
  {
    Object(Logged(id, text, project, section, Str(FormatIso(start)), Str(FormatIso(end)), duration))
  }

  /**
   * The overlap check reads a logged record back as its interval and label,
   * and the report as an entry with the task's texts and the stored duration.
   */
  lemma TimeRecordReadsBack(id: Value, text: string, project: string, section: string,
                            start: Instant, end: Instant, duration: int, idx: nat)
    requires ValidInstant(start) && ValidInstant(end)
    ensures var r := TimeRecord(id, text, project, section, start, end, duration);
            && ParseRange(r).span == Some(Span(start, end))
            && ParseRange(r).name == Some(Or(Or(Str(text), id), Str("?")))
            && NormalizeOne(idx, r) == Take(Entry(Str(text), Str(project), Str(section), start, end, duration, idx))
  {
    var s, e := Str(FormatIso(start)), Str(FormatIso(end));
    var d := Logged(id, text, project, section, s, e, duration);
    LoggedFields(id, text, project, section, s, e, duration);
    ParseRangeOfInterval(d, start, end);
    NormalizeStored(idx, d, start, end, duration);
  }

  // ---------------------------------------------------------------------------
  // add_manual_activity: the admission rule of on_save

  /** `strptime(f"{date} {time}", "%d.%m.%Y %H:%M")` of the stripped texts. */
  function TypedInstant(dateText: string, timeText: string): (r: Option<Instant>)
    ensures r.Some? ==> ValidInstant(r.value)
  {
    ParseDmyHm(Strip(dateText) + " " + Strip(timeText))
  }

  /** A time read as `%H:%M` is a whole number of seconds after midnight. */
  lemma HmWholeSeconds(s: string) returns (n: int)
    requires ParseHm(s).Some?
    ensures ParseHm(s).value == Seconds(n)
  {
    var i := IndexOf(s, ':');
    var h, m := ShortField(s[..i]).value, ShortField(s[i + 1..]).value;
    n := h * 3600 + m * 60;
  }

  /** A date and time read as `%d.%m.%Y %H:%M` is a whole number of seconds. */
  lemma DmyHmWholeSeconds(s: string) returns (n: int)
    requires ParseDmyHm(s).Some?
    ensures ParseDmyHm(s).value == Seconds(n)
  {
    var parts := SplitAtBlank(s).value;
    var day := ParseDmy(parts.0).value;
    var k := HmWholeSeconds(parts.1);
    n := day * 86400 + k;
  }

  /** One line of the overlap notice: `• <start> — <end>` and the overlapping record's label. */
  datatype NoticeLine = NoticeLine(span: string, name: Value)

  /** The overlap notice: the count in its header, at most ten lines, and whether `...и другие` follows. */
  datatype Notice = Notice(count: nat, lines: seq<NoticeLine>, more: bool)

  predicate ValidOverlaps(found: seq<Overlap>) {
    forall i :: 0 <= i < |found| ==> ValidInstant(found[i].start) && ValidInstant(found[i].end)
  }

  function NoticeLines(found: seq<Overlap>): (lines: seq<NoticeLine>)
    requires ValidOverlaps(found)
    ensures |lines| == |found|
    ensures forall i :: 0 <= i < |found| ==> lines[i].name == found[i].name
  {
    seq(|found|, i requires 0 <= i < |found| && ValidOverlaps(found) =>
      NoticeLine("• " + FormatYmdHm(found[i].start) + " — " + FormatHm(found[i].end), found[i].name))
  }

  /** The notice for the overlaps `found`: all of them counted, the first ten listed, a tail line when there are more. */
  function NoticeOf(found: seq<Overlap>): (n: Notice)
    requires ValidOverlaps(found)
    ensures n.count == |found|
    ensures |n.lines| == if |found| <= 10 then |found| else 10
    ensures forall i :: 0 <= i < |n.lines| ==> n.lines[i].name == found[i].name
    ensures n.more <==> |found| > 10
  {
    var shown := if |found| <= 10 then found else found[..10];
    Notice(|found|, NoticeLines(shown), |found| > 10)
  }

  /** The header line of a notice. */
  function NoticeHeader(n: Notice): string {
    "Найдены перекрытия (" + PadInt(n.count, 0) + "):"
  }

  /** The intervals the overlap check reports are ones the log holds, so they are valid instants. */
  lemma OverlapsValid(raw: seq<Record>, start: Instant, end: Instant)
    ensures ValidOverlaps(Overlaps(raw, start, end))
  {
    var found := Overlaps(raw, start, end);
    forall i | 0 <= i < |found| ensures ValidInstant(found[i].start) && ValidInstant(found[i].end) {
      OverlapsMember(raw, start, end, found[i]);
    }
  }

  /** How a press of "Сохранить" in the manual-entry dialog ends. */
  datatype Verdict =
    | BadFormat
    | NotAfterStart
    | InFuture
    | Overlapping(found: seq<Overlap>)
    | Admitted(start: Instant, end: Instant)

  /**
   * `on_save` with the log `raw`, the typed start and end as read (`None`
   * when the text does not read) and the clock reading `now`: both must
   * read, the end must come after the start, neither may lie after `now`, and
   * no logged interval may overlap.
   */
  function Admission(raw: seq<Record>, start: Option<Instant>, end: Option<Instant>, now: Instant): (v: Verdict)
    requires start.Some? ==> ValidInstant(start.value)
    requires end.Some? ==> ValidInstant(end.value)
    ensures v.Overlapping? ==> start.Some? && end.Some? && v.found != [] && v.found == Overlaps(raw, start.value, end.value)
    ensures v.Admitted? ==> ValidInstant(v.start) && ValidInstant(v.end)
  {
    if start.None? || end.None? then BadFormat
    else if end.value <= start.value then NotAfterStart
    else if start.value > now || end.value > now then InFuture
    else
      var found := Overlaps(raw, start.value, end.value);
      if found != [] then Overlapping(found) else Admitted(start.value, end.value)
  }

  /**
   * An activity is admitted exactly when both times read, the end is after
   * the start and not after `now`, and no logged interval intersects it.
   */
  lemma AdmittedWhen(raw: seq<Record>, start: Option<Instant>, end: Option<Instant>, now: Instant)
    requires start.Some? ==> ValidInstant(start.value)
    requires end.Some? ==> ValidInstant(end.value)
    ensures var v := Admission(raw, start, end, now);
            && (v.Admitted? <==> start.Some? && end.Some? && start.value < end.value <= now
                                 && forall i :: 0 <= i < |raw| && ParseRange(raw[i]).span.Some? ==>
                                      !Intersects(ParseRange(raw[i]).span.value, start.value, end.value))
            && (v.Admitted? ==> v.start == start.value && v.end == end.value)
  {
    if start.Some? && end.Some? {
      NoOverlaps(raw, start.value, end.value);
    }
  }

  /** The record of an admitted activity: the task, its texts, the typed times and their whole seconds. */
  function ActivityRecord(tid: string, task: Task, start: Instant, end: Instant): Record
    requires ValidInstant(start) && ValidInstant(end)
  {
    TimeRecord(Str(tid), task.text, task.project, task.section, start, end, WholeSeconds(end - start))
  }

  /** Typed times are whole seconds, so the stored duration is the typed interval exactly. */
  lemma TypedDurationExact(dateText: string, startText: string, endText: string, start: Instant, end: Instant)
    requires TypedInstant(dateText, startText) == Some(start) && TypedInstant(dateText, endText) == Some(end)
    ensures Seconds(WholeSeconds(end - start)) == end - start
  {
    var a := TypedWholeSeconds(dateText, startText);
    var b := TypedWholeSeconds(dateText, endText);
    WholeDifference(start, end, a, b);
  }

  lemma TypedWholeSeconds(dateText: string, timeText: string) returns (n: int)
    requires TypedInstant(dateText, timeText).Some?
    ensures TypedInstant(dateText, timeText).value == Seconds(n)
  {
    n := DmyHmWholeSeconds(Strip(dateText) + " " + Strip(timeText));
  }

  lemma WholeDifference(s: int, e: int, a: int, b: int)
    requires s == Seconds(a) && e == Seconds(b)
    ensures Seconds(WholeSeconds(e - s)) == e - s
  {
    assert e - s == Seconds(b - a);
    ExactSeconds(b - a);
  }

  lemma ExactSeconds(n: int)
    ensures Seconds(WholeSeconds(Seconds(n))) == Seconds(n)
  {
    var w := WholeSeconds(Seconds(n));
    if n >= 0 {
      assert Seconds(w) <= Seconds(n) < Seconds(w + 1);
    } else {
      assert Seconds(w - 1) < Seconds(n) <= Seconds(w);
    }
  }

  /**
   * No two logged intervals intersect. The manual entry keeps this true; the
   * timer does not check it.
   */
  ghost predicate Disjoint(rs: seq<Record>) {
    forall i, j :: 0 <= i < j < |rs| && ParseRange(rs[i]).span.Some? && ParseRange(rs[j]).span.Some? ==>
      !Intersects(ParseRange(rs[i]).span.value, ParseRange(rs[j]).span.value.start, ParseRange(rs[j]).span.value.end)
  }

  /** Appending a record whose interval no logged interval intersects keeps the log disjoint. */
  lemma AppendKeepsDisjoint(f: LogFile, record: Record, start: Instant, end: Instant)
    requires Disjoint(Load(f))
    requires ParseRange(record).span == Some(Span(start, end))
    requires Overlaps(Load(f), start, end) == []
    ensures Disjoint(Load(Appended(f, record)))
  {
    var raw := Load(f);
    NoOverlaps(raw, start, end);
    var rs := Load(Appended(f, record));
    forall k | 0 <= k <= |raw| ensures k < |rs| && rs[k] == if k < |raw| then raw[k] else record {
      AppendedRecords(f, record, k);
    }
    assert |rs| == |raw| + 1;
    forall i, j | 0 <= i < j < |rs| && ParseRange(rs[i]).span.Some? && ParseRange(rs[j]).span.Some?
      ensures !Intersects(ParseRange(rs[i]).span.value, ParseRange(rs[j]).span.value.start, ParseRange(rs[j]).span.value.end)
    {
      assert rs[i] == raw[i];
      if j < |raw| {
        assert rs[j] == raw[j];
      }
    }
  }

  /** An admitted activity keeps the logged intervals pairwise disjoint. */
  lemma AdmittedKeepsDisjoint(f: LogFile, tid: string, task: Task,
                              start: Option<Instant>, end: Option<Instant>, now: Instant)
    requires start.Some? ==> ValidInstant(start.value)
    requires end.Some? ==> ValidInstant(end.value)
    requires Disjoint(Load(f))
    requires Admission(Load(f), start, end, now).Admitted?
    ensures Disjoint(Load(Appended(f, ActivityRecord(tid, task, start.value, end.value))))
  {
    var s, e := start.value, end.value;
    AdmittedWhen(Load(f), start, end, now);
    ActivitySpan(tid, task, s, e);
    AppendKeepsDisjoint(f, ActivityRecord(tid, task, s, e), s, e);
  }

  lemma ActivitySpan(tid: string, task: Task, start: Instant, end: Instant)
    requires ValidInstant(start) && ValidInstant(end)
    ensures ParseRange(ActivityRecord(tid, task, start, end)).span == Some(Span(start, end))
  {
    TimeRecordReadsBack(Str(tid), task.text, task.project, task.section, start, end, WholeSeconds(end - start), 0);
  }

  /**
   * `on_save` after the texts are read: the checks in order, with an early
   * return for each failure, and only an admitted activity appended.
   */
  method Judge(log: TimeLog, tid: string, task: Task, start: Option<Instant>, end: Option<Instant>, now: Instant)
    returns (v: Verdict)
    requires start.Some? ==> ValidInstant(start.value)
    requires end.Some? ==> ValidInstant(end.value)
    modifies log
    ensures v == Admission(Load(old(log.file)), start, end, now)
    ensures v.Admitted? ==> log.file == Appended(old(log.file), ActivityRecord(tid, task, v.start, v.end))
    ensures !v.Admitted? ==> log.file == old(log.file)
  {
    if start.None? || end.None? {
      return BadFormat;
    }
    if end.value <= start.value {
      return NotAfterStart;
    }
    if start.value > now || end.value > now {
      return InFuture;
    }
    var found := CheckOverlaps(Load(log.file), start.value, end.value);
    if found != [] {
      return Overlapping(found);
    }
    log.Append(ActivityRecord(tid, task, start.value, end.value));
    return Admitted(start.value, end.value);
  }

  // ---------------------------------------------------------------------------
  // The window

  /** The `TodoApp` window: its tasks, the shown list and choices, and the timer. */
  class TodoApp {
    var tasks: seq<Task>
    var hideDone: bool
    var rows: seq<TaskRow>
    var projectChoices: seq<string>
    var sectionChoices: seq<string>
    var timerRunning: bool
    var currentTaskId: Option<string>
    var timerStart: Instant

    /** The timer start is a real instant, and a running timer has a task. */
    predicate Valid()
      reads this
    {
      ValidInstant(timerStart) && (timerRunning ==> currentTaskId.Some?)
    }

    /** `__init__`: the loaded tasks, done tasks hidden, no timer, and the first `refresh`. */
    constructor (loaded: seq<Task>, today: int)
      ensures Valid()
      ensures tasks == loaded && hideDone && !timerRunning && currentTaskId.None?
      ensures rows == Listing(loaded, true, today)
      ensures projectChoices == Projects(loaded) && sectionChoices == Sections(loaded)
    {
      tasks := loaded;
      hideDone := true;
      timerRunning := false;
      currentTaskId := None;
      timerStart := 0;
      new;
      Refresh(today);
    }

    /** `refresh`: the choices from the tasks, and one row per task that is not hidden. */
    method Refresh(today: int)
      modifies this
      ensures rows == Listing(tasks, hideDone, today)
      ensures projectChoices == Projects(tasks) && sectionChoices == Sections(tasks)
      ensures tasks == old(tasks) && hideDone == old(hideDone)
      ensures timerRunning == old(timerRunning) && currentTaskId == old(currentTaskId) && timerStart == old(timerStart)
    {
      projectChoices := Projects(tasks);
      sectionChoices := Sections(tasks);
      var shown: seq<TaskRow> := [];
      for i := 0 to |tasks|
        invariant shown == Listing(tasks[..i], hideDone, today)
      {
        assert tasks[..i + 1][..i] == tasks[..i];
        if !(hideDone && tasks[i].done) {
          shown := shown + [RowFor(tasks[i], today)];
        }
      }
      assert tasks[..|tasks|] == tasks;
      rows := shown;
    }

    /** The "Скрыть готовые" box: set the flag and `refresh`. */
    method SetHideDone(checked: bool, today: int)
      modifies this
      ensures hideDone == checked && rows == Listing(tasks, checked, today)
      ensures tasks == old(tasks) && projectChoices == Projects(tasks) && sectionChoices == Sections(tasks)
      ensures timerRunning == old(timerRunning) && currentTaskId == old(currentTaskId) && timerStart == old(timerStart)
    {
      hideDone := checked;
      Refresh(today);
    }

    /**
     * `add_task` with the typed texts and a fresh `id`: a text that is blank
     * after stripping changes nothing; otherwise the new open task, dated
     * `today`, is appended and the list refreshed.
     */
    method AddTask(text: string, project: string, section: string, deadline: string, note: string,
                   id: string, today: int) returns (added: bool)
      requires 0 <= today < DayCount
      modifies this
      ensures added <==> Strip(text) != ""
      ensures !added ==> tasks == old(tasks) && rows == old(rows)
                         && projectChoices == old(projectChoices) && sectionChoices == old(sectionChoices)
      ensures added ==> tasks == old(tasks) + [NewTask(Strip(text), Strip(project), Strip(section),
                                                       Strip(deadline), Strip(note), id, today)]
      ensures added ==> rows == Listing(tasks, hideDone, today)
                        && projectChoices == Projects(tasks) && sectionChoices == Sections(tasks)
      ensures hideDone == old(hideDone) && timerRunning == old(timerRunning)
      ensures currentTaskId == old(currentTaskId) && timerStart == old(timerStart)
    {
      if Strip(text) == "" {
        return false;
      }
      var t := NewTask(Strip(text), Strip(project), Strip(section), Strip(deadline), Strip(note), id, today);
      tasks := tasks + [t];
      Refresh(today);
      return true;
    }

    /** `mark_done`: flip `done` on the first task with the selected id, then `refresh`. */
    method MarkDone(sel: Option<string>, today: int)
      modifies this
      ensures sel.None? ==> tasks == old(tasks) && rows == old(rows)
                            && projectChoices == old(projectChoices) && sectionChoices == old(sectionChoices)
      ensures sel.Some? ==> tasks == Toggled(old(tasks), sel.value) && rows == Listing(tasks, hideDone, today)
                            && projectChoices == Projects(tasks) && sectionChoices == Sections(tasks)
      ensures hideDone == old(hideDone) && timerRunning == old(timerRunning)
      ensures currentTaskId == old(currentTaskId) && timerStart == old(timerStart)
    {
      if sel.None? {
        return;
      }
      var tid := sel.value;
      var i := 0;
      while i < |tasks| && tasks[i].id != tid
        invariant 0 <= i <= |tasks|
        invariant forall j :: 0 <= j < i ==> tasks[j].id != tid
      {
        i := i + 1;
      }
      FirstWithUnique(tasks, tid, i);
      if i < |tasks| {
        tasks := tasks[i := tasks[i].(done := !tasks[i].done)];
      }
      Refresh(today);
    }

    /** `delete_task`: when confirmed, drop every task with the selected id, then `refresh`. */
    method DeleteTask(sel: Option<string>, confirmed: bool, today: int)
      modifies this
      ensures sel.None? || !confirmed ==>
                tasks == old(tasks) && rows == old(rows)
                && projectChoices == old(projectChoices) && sectionChoices == old(sectionChoices)
      ensures sel.Some? && confirmed ==>
                tasks == Without(old(tasks), sel.value) && rows == Listing(tasks, hideDone, today)
                && projectChoices == Projects(tasks) && sectionChoices == Sections(tasks)
      ensures hideDone == old(hideDone) && timerRunning == old(timerRunning)
      ensures currentTaskId == old(currentTaskId) && timerStart == old(timerStart)
    {
      if sel.None? || !confirmed {
        return;
      }
      tasks := Without(tasks, sel.value);
      Refresh(today);
    }

    /**
     * `start_timer`: with a task selected, remember it and the clock reading
     * and mark the timer running (a running timer is restarted).
     */
    method StartTimer(sel: Option<string>, now: Instant)
      requires Valid() && ValidInstant(now)
      modifies this
      ensures Valid()
      ensures sel.None? ==> timerRunning == old(timerRunning) && currentTaskId == old(currentTaskId) && timerStart == old(timerStart)
      ensures sel.Some? ==> timerRunning && currentTaskId == sel && timerStart == now
      ensures tasks == old(tasks) && rows == old(rows) && hideDone == old(hideDone)
      ensures projectChoices == old(projectChoices) && sectionChoices == old(sectionChoices)
    {
      if sel.None? {
        return;
      }
      currentTaskId := sel;
      timerStart := now;
      timerRunning := true;
    }

    /**
     * `stop_timer`: a stopped timer does nothing; a running one is stopped,
     * the stretch from its start to `now` is appended to the time log under
     * the current task, the task is forgotten and the list refreshed.
     */
    method StopTimer(log: TimeLog, now: Instant, today: int) returns (entry: Option<Record>)
      requires Valid() && ValidInstant(now)
      modifies this, log
      ensures Valid()
      ensures !old(timerRunning) ==> entry.None? && log.file == old(log.file) && rows == old(rows)
                                     && currentTaskId == old(currentTaskId)
                                     && projectChoices == old(projectChoices) && sectionChoices == old(sectionChoices)
      ensures old(timerRunning) ==> entry == Some(TimerRecord(tasks, old(currentTaskId).value, old(timerStart), now))
                                    && log.file == Appended(old(log.file), entry.value)
                                    && currentTaskId.None? && rows == Listing(tasks, hideDone, today)
                                    && projectChoices == Projects(tasks) && sectionChoices == Sections(tasks)
      ensures !timerRunning && tasks == old(tasks) && hideDone == old(hideDone) && timerStart == old(timerStart)
    {
      if !timerRunning {
        return None;
      }
      var record := LogStretch(log, tasks, currentTaskId.value, timerStart, now);
      Stopped(today);
      return Some(record);
    }

    /** The window's side of `stop_timer`: not running, no current task, the list refreshed. */
    method Stopped(today: int)
      requires ValidInstant(timerStart)
      modifies this
      ensures Valid() && !timerRunning && currentTaskId.None?
      ensures rows == Listing(tasks, hideDone, today)
      ensures projectChoices == Projects(tasks) && sectionChoices == Sections(tasks)
      ensures tasks == old(tasks) && hideDone == old(hideDone) && timerStart == old(timerStart)
    {
      timerRunning := false;
      currentTaskId := None;
      Refresh(today);
    }

    /**
     * `add_manual_activity` and its `on_save`: nothing without a selected task
     * that exists; otherwise the stripped texts are read as `dd.mm.yyyy HH:MM`
     * and judged by `Admission`, an admitted activity is appended to the time
     * log, and overlaps are reported in a notice.
     */
    method AddActivity(log: TimeLog, sel: Option<string>, dateText: string, startText: string,
                       endText: string, now: Instant) returns (v: Option<Verdict>, notice: Option<Notice>)
      modifies log
      ensures sel.None? || Find(tasks, sel.value).None? ==> v.None? && log.file == old(log.file)
      ensures sel.Some? && Find(tasks, sel.value).Some? ==>
                v == Some(Admission(Load(old(log.file)), TypedInstant(dateText, startText),
                                    TypedInstant(dateText, endText), now))
      ensures v.Some? && v.value.Admitted? ==>
                log.file == Appended(old(log.file), ActivityRecord(sel.value, Find(tasks, sel.value).value,
                                                                   v.value.start, v.value.end))
      ensures v.Some? && !v.value.Admitted? ==> log.file == old(log.file)
      ensures notice.Some? <==> v.Some? && v.value.Overlapping?
      ensures notice.Some? ==> ValidOverlaps(v.value.found) && notice.value == NoticeOf(v.value.found)
    {
      if sel.None? {
        return None, None;
      }
      var found := Find(tasks, sel.value);
      if found.None? {
        return None, None;
      }
      var s, e := TypedInstant(dateText, startText), TypedInstant(dateText, endText);
      var verdict := Judge(log, sel.value, found.value, s, e, now);
      v := Some(verdict);
      notice := None;
      if verdict.Overlapping? {
        OverlapsValid(Load(old(log.file)), s.value, e.value);
        notice := Some(NoticeOf(verdict.found));
      }
    }
  }

  /** The task `add_task` appends, from the stripped texts: the default project, today's date, not done. */
  function NewTask(text: string, project: string, section: string, deadline: string, note: string,
                   id: string, today: int): (t: Task)
    requires 0 <= today < DayCount
    ensures t.id == id && t.text == text && !t.done
    ensures t.project != "" && (project != "" ==> t.project == project) && (project == "" ==> t.project == General)
    ensures t.section == section && t.deadline == deadline && t.note == note
  {
    Task(id, text, if project == "" then General else project, section, FormatDmy(today), deadline, note, false)
  }

  /** A new task is dated today, counts as neither done nor overdue, and its project is offered afterwards. */
  lemma NewTaskListed(tasks: seq<Task>, text: string, project: string, section: string, deadline: string,
                      note: string, id: string, today: int)
    requires 0 <= today < DayCount
    ensures var t := NewTask(text, project, section, deadline, note, id, today);
            && ParseDmy(t.date) == Some(today)
            && t.project in Projects(tasks + [t])
            && TagOf(t, today) != DoneTag
  {
    var t := NewTask(text, project, section, deadline, note, id, today);
    ParseFormattedDmy(today);
    ProjectOffered(tasks + [t], |tasks|);
  }

  /** The project of any task that names one is offered. */
  lemma ProjectOffered(tasks: seq<Task>, k: int)
    requires 0 <= k < |tasks| && tasks[k].project != ""
    ensures tasks[k].project in Projects(tasks)
  {
    ProjectsOffered(tasks);
    assert tasks[k] in tasks;
  }

  /**
   * The record `stop_timer` appends for the task `tid` timed from `start` to
   * `end`: the task's texts (empty when the task is gone) and the whole
   * seconds elapsed, truncated.
   */
  function TimerRecord(tasks: seq<Task>, tid: string, start: Instant, end: Instant): Record
    requires ValidInstant(start) && ValidInstant(end)
  {
    var task := Find(tasks, tid);
    TimeRecord(Str(tid), if task.Some? then task.value.text else "",
               if task.Some? then task.value.project else "",
               if task.Some? then task.value.section else "",
               start, end, WholeSeconds(end - start))
  }

  /** Appends the timer's record for the stretch from `start` to `end` to the time log. */
  method LogStretch(log: TimeLog, tasks: seq<Task>, tid: string, start: Instant, end: Instant) returns (record: Record)
    requires ValidInstant(start) && ValidInstant(end)
    modifies log
    ensures record == TimerRecord(tasks, tid, start, end)
    ensures log.file == Appended(old(log.file), record)
  {
    record := TimerRecord(tasks, tid, start, end);
    log.Append(record);
  }

  /** The timer's record reads back as the timed interval, labelled with the task, and its whole seconds. */
  lemma TimerRecordReadsBack(tasks: seq<Task>, tid: string, start: Instant, end: Instant, idx: nat)
    requires ValidInstant(start) && ValidInstant(end) && start <= end
    ensures var r := TimerRecord(tasks, tid, start, end);
            && ParseRange(r).span == Some(Span(start, end))
            && NormalizeOne(idx, r).Take?
            && var x := NormalizeOne(idx, r).entry;
               Seconds(x.duration) <= end - start < Seconds(x.duration + 1)
               && (Find(tasks, tid).Some? ==> x.taskText == Str(Find(tasks, tid).value.text))
  {
    var task := Find(tasks, tid);
    TimeRecordReadsBack(Str(tid), if task.Some? then task.value.text else "",
                        if task.Some? then task.value.project else "",
                        if task.Some? then task.value.section else "",
                        start, end, WholeSeconds(end - start), idx);
  }
}
