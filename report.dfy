/**
 * The report window's refresh (`ReportApp.update`): it reads the log, keeps
 * the entries that meet the chosen period, lists them with their total, sums
 * them per project and per task (largest first), and for a week or a month
 * sums them per day or per ISO week (by label).
 */
module Report {
  import opened Options
  import opened Text
  import opened Calendar
  import opened DateTimes
  import opened Values
  import opened Tracker
  import opened Durations
  import opened Periods
  import opened Entries
  import opened Totals
  import opened Sorting

  /** Every entry has instants a `datetime` can hold. */
  predicate ValidEntries(es: seq<Entry>) {
    forall i :: 0 <= i < |es| ==> ValidInstant(es[i].start) && ValidInstant(es[i].end)
  }

  /** The entry indices strictly increase. */
  predicate InLogOrder(es: seq<Entry>) {
    forall j, k :: 0 <= j < k < |es| ==> es[j].origIndex < es[k].origIndex
  }

  /** The normalized entries have valid instants and come in log order. */
  lemma NormalizedInOrder(raw: seq<Record>)
    requires Normalized(raw).Some?
    ensures ValidEntries(Normalized(raw).value) && InLogOrder(Normalized(raw).value)
  {
    NormalizedEntries(raw);
  }

  // ---------------------------------------------------------------------------
  // The entries shown and their total

  /** `[e for e in entries if not (e["end"] < start or e["start"] > end)]`. */
  function Shown(es: seq<Entry>, w: Window): (r: seq<Entry>)
    ensures |r| <= |es|
    ensures forall x :: x in r <==> x in es && Meets(x.start, x.end, w)
  {
    if es == [] then []
    else (if Meets(es[0].start, es[0].end, w) then [es[0]] else []) + Shown(es[1..], w)
  }

  /** Filtering keeps the log order and the validity of the entries. */
  lemma {:induction false} ShownInOrder(es: seq<Entry>, w: Window)
    requires ValidEntries(es) && InLogOrder(es)
    ensures ValidEntries(Shown(es, w)) && InLogOrder(Shown(es, w))
  {
    if es != [] {
      var t := Shown(es[1..], w);
      ShownInOrder(es[1..], w);
      forall k | 0 <= k < |t| ensures es[0].origIndex < t[k].origIndex {
        assert t[k] in es[1..];
        var i :| 0 <= i < |es| - 1 && es[1..][i] == t[k];
        assert es[i + 1] == t[k];
      }
    }
  }

  /** `sum(e["duration_seconds"] for e in filtered)`. */
  function Total(es: seq<Entry>): int {
    if es == [] then 0 else Total(es[..|es| - 1]) + es[|es| - 1].duration
  }

  /** The label under the entries: `f"Итого: {seconds_to_hms(total)}"`. */
  function TotalText(total: int): string {
    "Итого: " + HmsText(total, 0)
  }

  /** One line of the entry list: the iid `str(orig_index)` and the shown values. */
  datatype Row = Row(iid: string, task: Value, project: Value, section: Value,
                     start: string, end: string, duration: string)

  function RowOf(e: Entry): Row
    requires ValidInstant(e.start) && ValidInstant(e.end)
  {
    Row(PadInt(e.origIndex, 0), e.taskText, e.project, e.section,
        FormatTimestamp(e.start), FormatTimestamp(e.end), HmsText(e.duration, 0))
  }

  /**
   * A row reads back as its entry: the iid as the entry's index (which is how
   * a double click finds the record), the times to the second, the duration
   * exactly.
   */
  lemma RowReadsBack(e: Entry)
    requires ValidInstant(e.start) && ValidInstant(e.end)
    ensures ParseInt(RowOf(e).iid) == Some(e.origIndex)
    ensures ParseTimestamp(RowOf(e).start).Some? && ParseTimestamp(RowOf(e).start).value == e.start - ClockOf(e.start).micro
    ensures ParseTimestamp(RowOf(e).end).Some? && ParseTimestamp(RowOf(e).end).value == e.end - ClockOf(e.end).micro
    ensures ReadClock(RowOf(e).duration, true).Some? && ReadClock(RowOf(e).duration, true).value == e.duration
  {
    var r := RowOf(e);
    assert r.iid == PadInt(e.origIndex, 0) && r.duration == HmsText(e.duration, 0);
    assert r.start == FormatTimestamp(e.start) && r.end == FormatTimestamp(e.end);
    ParseIntPadInt(e.origIndex, 0);
    ParseFormatTimestamp(e.start);
    ParseFormatTimestamp(e.end);
    ReadHmsText(e.duration, 0);
  }

  function RowsOf(es: seq<Entry>): (rows: seq<Row>)
    requires ValidEntries(es)
    ensures |rows| == |es| && forall i :: 0 <= i < |es| ==> rows[i] == RowOf(es[i])
  {
    seq(|es|, i requires 0 <= i < |es| && ValidEntries(es) => RowOf(es[i]))
  }

  /** Entries in log order get distinct iids, so no `insert` clashes. */
  lemma RowIdsDistinct(es: seq<Entry>)
    requires ValidEntries(es) && InLogOrder(es)
    ensures var rows := RowsOf(es); forall j, k :: 0 <= j < k < |rows| ==> rows[j].iid != rows[k].iid
  {
    var rows := RowsOf(es);
    forall j, k | 0 <= j < k < |rows| ensures rows[j].iid != rows[k].iid {
      RowReadsBack(es[j]);
      RowReadsBack(es[k]);
    }
  }

  // ---------------------------------------------------------------------------
  // Totals per project and per task

  /** A key a `dict` accepts: a list or an object raises `TypeError: unhashable type`. */
  predicate Hashable(v: Value) {
    !v.Compound?
  }

  /** Every project and task of the entries can be a dict key. */
  predicate Keyable(es: seq<Entry>) {
    forall i :: 0 <= i < |es| ==> Hashable(es[i].project) && Hashable(es[i].taskText)
  }

  /** The `(key, duration)` pairs of the `proj` loop, each project filed under its dict key. */
  function ProjectPairs(es: seq<Entry>): (ps: seq<(Value, int)>)
    ensures |ps| == |es| && forall i :: 0 <= i < |es| ==> ps[i] == (KeyOf(es[i].project), es[i].duration)
  {
    seq(|es|, i requires 0 <= i < |es| => (KeyOf(es[i].project), es[i].duration))
  }

  /** The `(key, duration)` pairs of the `task` loop. */
  function TaskPairs(es: seq<Entry>): (ps: seq<(Value, int)>)
    ensures |ps| == |es| && forall i :: 0 <= i < |es| ==> ps[i] == (KeyOf(es[i].taskText), es[i].duration)
  {
    seq(|es|, i requires 0 <= i < |es| => (KeyOf(es[i].taskText), es[i].duration))
  }

  /** The projects in the order the loop meets them. */
  function ProjectNames(es: seq<Entry>): (names: seq<Value>)
    ensures |names| == |es| && forall i :: 0 <= i < |es| ==> names[i] == es[i].project
  {
    seq(|es|, i requires 0 <= i < |es| => es[i].project)
  }

  /** The tasks in the order the loop meets them. */
  function TaskNames(es: seq<Entry>): (names: seq<Value>)
    ensures |names| == |es| && forall i :: 0 <= i < |es| ==> names[i] == es[i].taskText
  {
    seq(|es|, i requires 0 <= i < |es| => es[i].taskText)
  }

  /** The first of `names` filed under key `k`, or `|names|` when there is none. */
  function FirstFiled(names: seq<Value>, k: Value): (i: nat)
    ensures i <= |names|
    ensures i < |names| ==> KeyOf(names[i]) == k
    ensures forall j :: 0 <= j < i ==> KeyOf(names[j]) != k
  {
    if names == [] || KeyOf(names[0]) == k then 0 else 1 + FirstFiled(names[1..], k)
  }

  /**
   * The key object a dict shows for key `k`: an existing key keeps the object
   * it was first stored with, so `True` stays `True` when `1` is added to it.
   */
  function StoredKey(names: seq<Value>, k: Value): Value {
    var i := FirstFiled(names, k);
    if i < |names| then names[i] else k
  }

  /** The lines with the key objects the dict kept. */
  function WithStoredKeys(names: seq<Value>, lines: seq<(Value, string)>): (r: seq<(Value, string)>)
    ensures |r| == |lines|
    ensures forall i :: 0 <= i < |lines| ==> r[i] == (StoredKey(names, lines[i].0), lines[i].1)
  {
    seq(|lines|, i requires 0 <= i < |lines| => (StoredKey(names, lines[i].0), lines[i].1))
  }

  /** Label and `seconds_to_hms` of each item. */
  function Lines<K>(items: seq<(K, int)>): (lines: seq<(K, string)>)
    ensures |lines| == |items|
    ensures forall i :: 0 <= i < |items| ==> lines[i] == (items[i].0, HmsText(items[i].1, 0))
  {
    seq(|items|, i requires 0 <= i < |items| => (items[i].0, HmsText(items[i].1, 0)))
  }

  /**
   * `sorted(d.items(), key=lambda x: -x[1])` of the per-key totals, as table
   * lines showing the key objects met first among `names`.
   */
  function Ranked(names: seq<Value>, ps: seq<(Value, int)>): seq<(Value, string)> {
    WithStoredKeys(names, Lines(SortDesc(Items(Tally(ps)))))
  }

  /** The project table. */
  function ProjectTable(es: seq<Entry>): seq<(Value, string)> {
    Ranked(ProjectNames(es), ProjectPairs(es))
  }

  /** The task table. */
  function TaskTable(es: seq<Entry>): seq<(Value, string)> {
    Ranked(TaskNames(es), TaskPairs(es))
  }

  /** Pairs carrying the entries' durations add up to the total. */
  lemma {:induction false} AmountsAddUp<K>(ps: seq<(K, int)>, es: seq<Entry>)
    requires |ps| == |es| && forall i :: 0 <= i < |es| ==> ps[i].1 == es[i].duration
    ensures SumAll(ps) == Total(es)
  {
    if es != [] {
      AmountsAddUp(ps[..|ps| - 1], es[..|es| - 1]);
    }
  }

  /**
   * The project table: one line per distinct project, the amounts adding up to
   * the total and each being that project's sum, largest first.
   */
  lemma ProjectTotals(es: seq<Entry>)
    ensures SumAll(Items(Tally(ProjectPairs(es)))) == Total(es)
    ensures Descending(SortDesc(Items(Tally(ProjectPairs(es)))))
    ensures forall p :: p in Tally(ProjectPairs(es)).vals ==>
              Tally(ProjectPairs(es)).vals[p] == SumFor(ProjectPairs(es), p)
  {
    var ps := ProjectPairs(es);
    AmountsAddUp(ps, es);
    TallyTotal(ps);
    SortDescSorted(Items(Tally(ps)));
    forall p | p in Tally(ps).vals ensures Tally(ps).vals[p] == SumFor(ps, p) {
      TallyValues(ps, p);
    }
  }

  /** The task table, likewise. */
  lemma TaskTotals(es: seq<Entry>)
    ensures SumAll(Items(Tally(TaskPairs(es)))) == Total(es)
    ensures Descending(SortDesc(Items(Tally(TaskPairs(es)))))
    ensures forall t :: t in Tally(TaskPairs(es)).vals ==>
              Tally(TaskPairs(es)).vals[t] == SumFor(TaskPairs(es), t)
  {
    var ps := TaskPairs(es);
    AmountsAddUp(ps, es);
    TallyTotal(ps);
    SortDescSorted(Items(Tally(ps)));
    forall t | t in Tally(ps).vals ensures Tally(ps).vals[t] == SumFor(ps, t) {
      TallyValues(ps, t);
    }
  }

  /**
   * The rows of a ranked table name keys Python finds pairwise unequal, so
   * `True`, `1` and `1.0` share one row; each row shows one of `names`.
   */
  lemma RankedDistinct(names: seq<Value>, ps: seq<(Value, int)>)
    requires |ps| == |names|
    requires forall m :: 0 <= m < |ps| ==> ps[m].0 == KeyOf(names[m]) && Hashable(names[m])
    ensures forall i :: 0 <= i < |Ranked(names, ps)| ==> Ranked(names, ps)[i].0 in names
    ensures forall i, j :: 0 <= i < j < |Ranked(names, ps)| ==> !PyEq(Ranked(names, ps)[i].0, Ranked(names, ps)[j].0)
  {
    var sorted := SortDesc(Items(Tally(ps)));
    var r := WithStoredKeys(names, Lines(sorted));
    assert r == Ranked(names, ps);
    forall i | 0 <= i < |r| ensures r[i].0 in names {
      SortedKeyStored(names, ps, i);
    }
    forall i, j | 0 <= i < j < |r| ensures !PyEq(r[i].0, r[j].0) {
      SortedKeyStored(names, ps, i);
      SortedKeyStored(names, ps, j);
      SortedKeysDistinct(ps, i, j);
      var a, b := FirstFiled(names, sorted[i].0), FirstFiled(names, sorted[j].0);
      assert r[i].0 == names[a] && r[j].0 == names[b];
      assert Hashable(names[a]) && Hashable(names[b]);
      KeyOfAgrees(names[a], names[b]);
    }
  }

  /** Each ranked row shows a name filed under the row's key. */
  lemma SortedKeyStored(names: seq<Value>, ps: seq<(Value, int)>, i: nat)
    requires |ps| == |names|
    requires forall m :: 0 <= m < |ps| ==> ps[m].0 == KeyOf(names[m])
    requires i < |SortDesc(Items(Tally(ps)))|
    ensures FirstFiled(names, SortDesc(Items(Tally(ps)))[i].0) < |names|
    ensures StoredKey(names, SortDesc(Items(Tally(ps)))[i].0) in names
    ensures KeyOf(StoredKey(names, SortDesc(Items(Tally(ps)))[i].0)) == SortDesc(Items(Tally(ps)))[i].0
  {
    var d := Tally(ps);
    var items := Items(d);
    var sorted := SortDesc(items);
    TallyValid(ps);
    assert sorted[i] in multiset(items);
    var a :| 0 <= a < |items| && items[a] == sorted[i];
    assert d.keys[a] in d.vals;
    TallyKeys(ps, sorted[i].0);
    var m :| 0 <= m < |ps| && ps[m].0 == sorted[i].0;
    StoredKeyFiled(names, sorted[i].0, m);
  }

  /** The ranked items keep the dict's distinct keys. */
  lemma SortedKeysDistinct(ps: seq<(Value, int)>, i: nat, j: nat)
    requires i < j < |SortDesc(Items(Tally(ps)))|
    ensures SortDesc(Items(Tally(ps)))[i].0 != SortDesc(Items(Tally(ps)))[j].0
  {
    var d := Tally(ps);
    var items := Items(d);
    TallyValid(ps);
    assert forall a, b :: 0 <= a < b < |items| ==> items[a].0 != items[b].0;
    DistinctLabelsStay(items, SortDesc(items), i, j);
  }

  /** A key some name is filed under shows the first such name. */
  lemma StoredKeyFiled(names: seq<Value>, k: Value, m: nat)
    requires m < |names| && KeyOf(names[m]) == k
    ensures FirstFiled(names, k) < |names|
    ensures StoredKey(names, k) in names && KeyOf(StoredKey(names, k)) == k
  {
    assert FirstFiled(names, k) <= m;
  }

  /** The project table has one row per project as Python's `==` tells them apart. */
  lemma ProjectRowsDistinct(es: seq<Entry>)
    requires Keyable(es)
    ensures forall i :: 0 <= i < |ProjectTable(es)| ==> ProjectTable(es)[i].0 in ProjectNames(es)
    ensures forall i, j :: 0 <= i < j < |ProjectTable(es)| ==> !PyEq(ProjectTable(es)[i].0, ProjectTable(es)[j].0)
  {
    RankedDistinct(ProjectNames(es), ProjectPairs(es));
  }

  /** The task table, likewise. */
  lemma TaskRowsDistinct(es: seq<Entry>)
    requires Keyable(es)
    ensures forall i :: 0 <= i < |TaskTable(es)| ==> TaskTable(es)[i].0 in TaskNames(es)
    ensures forall i, j :: 0 <= i < j < |TaskTable(es)| ==> !PyEq(TaskTable(es)[i].0, TaskTable(es)[j].0)
  {
    RankedDistinct(TaskNames(es), TaskPairs(es));
  }

  // ---------------------------------------------------------------------------
  // The summary per day or per ISO week

  /** `%a` in the C locale. */
  const DayNames: seq<string> := ["Mon", "Tue", "Wed", "Thu", "Fri", "Sat", "Sun"]

  /** `strftime("%Y-%m-%d (%a)")` of day `n`. */
  function DayLabel(n: int): string
    requires 0 <= n < DayCount
  {
    FormatDate(n) + " (" + DayNames[Weekday(n)] + ")"
  }

  /** Different days get different labels. */
  lemma DayLabelInjective(a: int, b: int)
    requires 0 <= a < DayCount && 0 <= b < DayCount
    requires DayLabel(a) == DayLabel(b)
    ensures a == b
  {
    DayLabelStartsWithDate(a);
    DayLabelStartsWithDate(b);
    ParseFormattedDate(a);
    ParseFormattedDate(b);
  }

  lemma DayLabelStartsWithDate(n: int)
    requires 0 <= n < DayCount
    ensures DayLabel(n)[..10] == FormatDate(n)
  {
    SliceBefore(FormatDate(n), " (", DayNames[Weekday(n)], ")");
  }

  lemma SliceBefore(a: string, b: string, c: string, d: string)
    ensures (a + b + c + d)[..|a|] == a
  {
    assert a + b + c + d == a + (b + c + d);
  }

  /** `f"Неделя {week} ({year})"`. */
  function WeekText(year: nat, week: nat): string {
    "Неделя " + Decimal(week) + " (" + Decimal(year) + ")"
  }

  /** The week label of day `n`, from `isocalendar()`. */
  function WeekLabel(n: int): string
    requires 0 <= n < DayCount
  {
    var c := IsoCalendar(n);
    WeekText(c.year, c.week)
  }

  /** Different ISO weeks get different labels. */
  lemma WeekTextInjective(y1: nat, w1: nat, y2: nat, w2: nat)
    requires WeekText(y1, w1) == WeekText(y2, w2)
    ensures y1 == y2 && w1 == w2
  {
    WeekTextAfterWord(y1, w1);
    WeekTextAfterWord(y2, w2);
    DigitsBeforeBlank(Decimal(w1), " (" + Decimal(y1) + ")", Decimal(w2), " (" + Decimal(y2) + ")");
    InParentheses(Decimal(y1), Decimal(y2));
  }

  /** What follows the word "Неделя " in a week label. */
  lemma WeekTextAfterWord(year: nat, week: nat)
    ensures WeekText(year, week)[|"Неделя "|..] == Decimal(week) + (" (" + Decimal(year) + ")")
  {
    SliceAfter("Неделя ", Decimal(week), " (", Decimal(year), ")");
  }

  lemma SliceAfter(p: string, b: string, c: string, d: string, e: string)
    ensures (p + b + c + d + e)[|p|..] == b + (c + d + e)
  {
    assert p + b + c + d + e == p + (b + (c + d + e));
  }

  lemma InParentheses(a: string, b: string)
    requires " (" + a + ")" == " (" + b + ")"
    ensures a == b
  {
    assert a == (" (" + a + ")")[2..|a| + 2];
    assert b == (" (" + b + ")")[2..|b| + 2];
  }

  /** Digits followed by a blank split only one way. */
  lemma DigitsBeforeBlank(u1: string, r1: string, u2: string, r2: string)
    requires AllDigits(u1) && AllDigits(u2) && u1 + r1 == u2 + r2
    requires r1 != [] && r2 != [] && r1[0] == ' ' && r2[0] == ' '
    ensures u1 == u2 && r1 == r2
  {
    assert u1 == (u1 + r1)[..|u1|] && u2 == (u2 + r2)[..|u2|];
    assert r1 == (u1 + r1)[|u1|..] && r2 == (u2 + r2)[|u2|..];
  }

  /** The labels sort as text, so week 10 of a year is listed before its week 9. */
  lemma WeekTenBeforeNine(year: nat)
    ensures Less(WeekText(year, 10), WeekText(year, 9))
  {
    var p := "Неделя ";
    assert Decimal(10) == "10" && Decimal(9) == "9";
    assert WeekText(year, 10) == p + ("1" + "0 (" + Decimal(year) + ")");
    assert WeekText(year, 9) == p + ("9" + " (" + Decimal(year) + ")");
    LessAfterPrefix(p, "1" + "0 (" + Decimal(year) + ")", "9" + " (" + Decimal(year) + ")");
  }

  /** Text after a common prefix decides the order. */
  lemma {:induction false} LessAfterPrefix(p: string, a: string, b: string)
    requires Less(a, b)
    ensures Less(p + a, p + b)
  {
    if p != [] {
      assert (p + a)[1..] == p[1..] + a && (p + b)[1..] == p[1..] + b;
      assert (p + a)[0] == p[0] == (p + b)[0];
      assert Less(p + a, p + b) == Less((p + a)[1..], (p + b)[1..]);
      LessAfterPrefix(p[1..], a, b);
    } else {
      assert p + a == a && p + b == b;
    }
  }

  /** The label of each entry's start day. */
  function DayLabels(es: seq<Entry>): (labels: seq<string>)
    requires ValidEntries(es)
    ensures |labels| == |es|
  {
    seq(|es|, i requires 0 <= i < |es| && ValidEntries(es) => DayLabel(DayOf(es[i].start)))
  }

  /** The label of each entry's start week. */
  function WeekLabels(es: seq<Entry>): (labels: seq<string>)
    requires ValidEntries(es)
    ensures |labels| == |es|
  {
    seq(|es|, i requires 0 <= i < |es| && ValidEntries(es) => WeekLabel(DayOf(es[i].start)))
  }

  /** The `(label, duration)` pairs the `by_day` or `by_week` loop adds up. */
  function Labeled(labels: seq<string>, es: seq<Entry>): (ps: seq<(string, int)>)
    requires |labels| == |es|
    ensures |ps| == |es| && forall i :: 0 <= i < |es| ==> ps[i] == (labels[i], es[i].duration)
  {
    seq(|es|, i requires 0 <= i < |es| && |labels| == |es| => (labels[i], es[i].duration))
  }

  /** `sorted(d.items())` of the per-label totals, as table lines. */
  function ByLabel(ps: seq<(string, int)>): seq<(string, string)> {
    Lines(SortByKey(Items(Tally(ps))))
  }

  /** The summary table of a grouping; without one it stays empty. */
  function Summary(es: seq<Entry>, g: Grouping): seq<(string, string)>
    requires ValidEntries(es)
  {
    match g
    case Ungrouped => []
    case ByDay => ByLabel(Labeled(DayLabels(es), es))
    case ByWeek => ByLabel(Labeled(WeekLabels(es), es))
  }

  /**
   * The summary lists each label once, in strictly increasing label order, and
   * its amounts add up to the total.
   */
  lemma SummaryTotals(ps: seq<(string, int)>)
    ensures var items := Items(Tally(ps));
            var sorted := SortByKey(items);
            && SumAll(items) == SumAll(ps)
            && multiset(sorted) == multiset(items)
            && forall i, j :: 0 <= i < j < |sorted| ==> Less(sorted[i].0, sorted[j].0)
  {
    var d := Tally(ps);
    var items := Items(d);
    TallyTotal(ps);
    TallyValid(ps);
    forall i, j | 0 <= i < j < |items| ensures items[i].0 != items[j].0 {
      assert items[i].0 == d.keys[i] && items[j].0 == d.keys[j];
    }
    SortByKeySorted(items);
    SortByKeyStrict(items);
  }

  // ---------------------------------------------------------------------------
  // The refresh

  /** What the report window shows. */
  datatype Screen = Screen(rows: seq<Row>, total: string, projects: seq<(Value, string)>,
                           tasks: seq<(Value, string)>, summary: seq<(string, string)>)

  /** How a refresh ends: normally, with the date-format message, or with an exception. */
  datatype Halt = Completed | DateError | Raised

  /** How far a refresh gets: stopped before touching the window, or on to showing `shown`. */
  datatype Plan = Stop(halt: Halt) | Show(shown: seq<Entry>, grouping: Grouping)

  /**
   * The first half of `update(mode)` with log records `raw` at time `now`:
   * normalize the log, resolve the period, filter.
   */
  function PlanOf(raw: seq<Record>, mode: Mode, now: Instant, from: string, to: string): (p: Plan)
    requires ValidInstant(now)
    ensures p.Show? ==> ValidEntries(p.shown) && InLogOrder(p.shown)
  {
    match Normalized(raw)
    case None => Stop(Raised)
    case Some(entries) =>
      match Resolve(mode, now, from, to)
      case Overflow => Stop(Raised)
      case BadDate => Stop(DateError)
      case Resolved(w, g) =>
        NormalizedInOrder(raw);
        ShownInOrder(entries, w);
        Show(Shown(entries, w), g)
  }

  /**
   * The second half: the entry list and the total are replaced before the
   * per-key totals are built, so an unhashable project or task leaves those
   * two replaced and the rest as they were.
   */
  function Rendered(s: Screen, shown: seq<Entry>, g: Grouping): (Screen, Halt)
    requires ValidEntries(shown)
  {
    var listed := s.(rows := RowsOf(shown), total := TotalText(Total(shown)));
    if !Keyable(shown) then (listed, Raised)
    else
      (listed.(projects := ProjectTable(shown), tasks := TaskTable(shown),
               summary := Summary(shown, g)), Completed)
  }

  /** `update(mode)` on a window showing `s`. */
  function Refreshed(s: Screen, raw: seq<Record>, mode: Mode, now: Instant, from: string, to: string): (Screen, Halt)
    requires ValidInstant(now)
  {
    match PlanOf(raw, mode, now, from, to)
    case Stop(h) => (s, h)
    case Show(shown, g) => Rendered(s, shown, g)
  }

  /**
   * A refresh leaves the window as it was exactly when the log holds a
   * non-object, the month or week runs past year 9999, or the custom dates do
   * not parse; only the last of these shows the message.
   */
  lemma RefreshKeepsScreen(s: Screen, raw: seq<Record>, mode: Mode, now: Instant, from: string, to: string)
    requires ValidInstant(now)
    ensures var r := Refreshed(s, raw, mode, now, from, to);
            var stopped := Normalized(raw).None? || !Resolve(mode, now, from, to).Resolved?;
            && (stopped ==> r.0 == s)
            && (r.1 == DateError <==> Normalized(raw).Some? && mode == Custom && CustomWindow(from, to).None?)
            && (r.1 == Completed <==> !stopped && Keyable(Shown(Normalized(raw).value, Resolve(mode, now, from, to).window)))
  {
  }

  /**
   * After a refresh that gets as far as the list, the list holds exactly the
   * log's entries that meet the period, one row each, in log order, with
   * distinct iids, and the total is their sum.
   */
  lemma RefreshLists(s: Screen, raw: seq<Record>, mode: Mode, now: Instant, from: string, to: string,
                     entries: seq<Entry>, w: Window)
    requires ValidInstant(now)
    requires Normalized(raw) == Some(entries) && Resolve(mode, now, from, to).Resolved?
    requires Resolve(mode, now, from, to).window == w
    ensures ValidEntries(Shown(entries, w)) && InLogOrder(Shown(entries, w))
    ensures Refreshed(s, raw, mode, now, from, to).0.rows == RowsOf(Shown(entries, w))
    ensures Refreshed(s, raw, mode, now, from, to).0.total == TotalText(Total(Shown(entries, w)))
    ensures forall x :: x in Shown(entries, w) <==> x in entries && Meets(x.start, x.end, w)
    ensures forall j, k :: 0 <= j < k < |RowsOf(Shown(entries, w))| ==>
              RowsOf(Shown(entries, w))[j].iid != RowsOf(Shown(entries, w))[k].iid
  {
    NormalizedInOrder(raw);
    ShownInOrder(entries, w);
    RowIdsDistinct(Shown(entries, w));
    PlanShows(raw, mode, now, from, to, entries, w);
    RenderedLists(s, Shown(entries, w), Resolve(mode, now, from, to).grouping);
  }

  lemma PlanShows(raw: seq<Record>, mode: Mode, now: Instant, from: string, to: string, entries: seq<Entry>, w: Window)
    requires ValidInstant(now)
    requires Normalized(raw) == Some(entries) && Resolve(mode, now, from, to).Resolved?
    requires Resolve(mode, now, from, to).window == w
    ensures PlanOf(raw, mode, now, from, to) == Show(Shown(entries, w), Resolve(mode, now, from, to).grouping)
  {
  }

  lemma RenderedLists(s: Screen, shown: seq<Entry>, g: Grouping)
    requires ValidEntries(shown)
    ensures Rendered(s, shown, g).0.rows == RowsOf(shown) && Rendered(s, shown, g).0.total == TotalText(Total(shown))
  {
  }

  /** The first half of `update`, reading the log `file`. */
  method PlanRefresh(file: LogFile, mode: Mode, now: Instant, from: string, to: string) returns (p: Plan)
    requires ValidInstant(now)
    ensures p == PlanOf(Load(file), mode, now, from, to)
  {
    var raw := Load(file);
    var entries := NormalizeEntries(raw);
    if entries.None? {
      return Stop(Raised);
    }
    var res := Resolve(mode, now, from, to);
    if res.Overflow? {
      return Stop(Raised);
    }
    if res.BadDate? {
      return Stop(DateError);
    }
    p := Show(Shown(entries.value, res.window), res.grouping);
  }

  /**
   * The loop filling `proj` and `task`; `None` is the `TypeError` of the
   * first project or task that cannot be a key.
   */
  method CountByKey(shown: seq<Entry>) returns (r: Option<(Dict<Value>, Dict<Value>)>)
    ensures r.Some? <==> Keyable(shown)
    ensures r.Some? ==> r.value == (Tally(ProjectPairs(shown)), Tally(TaskPairs(shown)))
  {
    var pp, tp := ProjectPairs(shown), TaskPairs(shown);
    var proj, task := EmptyDict(), EmptyDict();
    for i := 0 to |shown|
      invariant forall j :: 0 <= j < i ==> Hashable(shown[j].project) && Hashable(shown[j].taskText)
      invariant proj == Tally(pp[..i]) && task == Tally(tp[..i])
    {
      var e := shown[i];
      if !Hashable(e.project) || !Hashable(e.taskText) {
        return None;
      }
      TallyStep(pp, i);
      TallyStep(tp, i);
      proj := Bump(proj, KeyOf(e.project), e.duration);
      task := Bump(task, KeyOf(e.taskText), e.duration);
    }
    assert pp[..|shown|] == pp && tp[..|shown|] == tp;
    return Some((proj, task));
  }

  /** The project and task tables: the per-key totals, largest first. */
  method RankTables(shown: seq<Entry>) returns (projects: seq<(Value, string)>, tasks: seq<(Value, string)>)
    requires Keyable(shown)
    ensures projects == ProjectTable(shown) && tasks == TaskTable(shown)
  {
    var tallies := CountByKey(shown);
    var (proj, task) := tallies.value;
    projects := WithStoredKeys(ProjectNames(shown), Lines(SortDesc(Items(proj))));
    tasks := WithStoredKeys(TaskNames(shown), Lines(SortDesc(Items(task))));
  }

  /** The `by_day` and `by_week` loops and the summary rows they produce. */
  method Summarize(shown: seq<Entry>, g: Grouping) returns (lines: seq<(string, string)>)
    requires ValidEntries(shown)
    ensures lines == Summary(shown, g)
  {
    lines := [];
    match g {
      case Ungrouped =>
      case ByDay =>
        var days := TallyLoop(Labeled(DayLabels(shown), shown));
        lines := Lines(SortByKey(Items(days)));
      case ByWeek =>
        var weeks := TallyLoop(Labeled(WeekLabels(shown), shown));
        lines := Lines(SortByKey(Items(weeks)));
    }
  }

  /** The screen the window is built with, before its first refresh. */
  const Blank: Screen := Screen([], "Итого: 0:00:00", [], [], [])

  /**
   * The report window's tables, the period chosen in its combobox, and how the
   * first refresh ended. The combobox text reaches the tables only through
   * `Update`, which `ChangeMode` calls as `on_mode_change` does.
   */
  class ReportApp {
    var choice: string
    var rows: seq<Row>
    var total: string
    var projects: seq<(Value, string)>
    var tasks: seq<(Value, string)>
    var summary: seq<(string, string)>
    var opening: Halt

    function View(): Screen
      reads this
    {
      Screen(rows, total, projects, tasks, summary)
    }

    /**
     * The window is built on the first period, "День", and refreshed with it;
     * `opening` is how that refresh ended, and `Raised` means the exception
     * leaves `ReportApp(root)` (see `Open`).
     */
    constructor (file: LogFile, now: Instant)
      requires ValidInstant(now)
      ensures choice == "День"
      ensures (View(), opening) == Refreshed(Blank, Load(file), Day, now, "", "")
    {
      choice := "День";
      rows, total, projects, tasks, summary := [], "Итого: 0:00:00", [], [], [];
      new;
      opening := Update(file, "День", now, "", "");
    }

    /**
     * `on_mode_change` with the combobox now reading `mode`: "Пользовательский"
     * only shows the date fields (filled as `DefaultRange` says) and waits for
     * Return; any other choice refreshes at once with the date fields' texts
     * `from` and `to`.
     */
    method ChangeMode(file: LogFile, mode: string, now: Instant, from: string, to: string) returns (halt: Option<Halt>)
      requires ValidInstant(now)
      modifies this
      ensures choice == mode && opening == old(opening)
      ensures mode == "Пользовательский" ==> halt.None? && View() == old(View())
      ensures mode != "Пользовательский" ==>
                halt.Some? && (View(), halt.value) == Refreshed(old(View()), Load(file), ModeOf(mode), now, from, to)
    {
      choice := mode;
      if mode == "Пользовательский" {
        return None;
      }
      var h := Update(file, mode, now, from, to);
      return Some(h);
    }

    /**
     * `update(mode)`: an empty `mode` means the current choice. `from` and
     * `to` are the custom date fields.
     */
    method Update(file: LogFile, mode: string, now: Instant, from: string, to: string) returns (halt: Halt)
      requires ValidInstant(now)
      modifies this
      ensures choice == old(choice) && opening == old(opening)
      ensures (View(), halt) == Refreshed(old(View()), Load(file), ModeOf(if mode == "" then choice else mode), now, from, to)
    {
      var p := PlanRefresh(file, ModeOf(if mode == "" then choice else mode), now, from, to);
      if p.Stop? {
        return p.halt;
      }
      halt := Render(p.shown, p.grouping);
    }

    /** The second half of `update`: fill the tables from the shown entries. */
    method Render(shown: seq<Entry>, g: Grouping) returns (halt: Halt)
      requires ValidEntries(shown)
      modifies this
      ensures choice == old(choice) && opening == old(opening)
      ensures (View(), halt) == Rendered(old(View()), shown, g)
    {
      ShowList(shown);
      ShowTotal(shown);
      var tallies := CountByKey(shown);
      if tallies.None? {
        return Raised;
      }
      ShowTables(shown, g);
      return Completed;
    }

    /** The entry list, replaced first. */
    method ShowList(shown: seq<Entry>)
      requires ValidEntries(shown)
      modifies this
      ensures rows == RowsOf(shown)
      ensures choice == old(choice) && opening == old(opening) && total == old(total)
      ensures projects == old(projects) && tasks == old(tasks) && summary == old(summary)
    {
      rows := RowsOf(shown);
    }

    /** The total label under the list. */
    method ShowTotal(shown: seq<Entry>)
      modifies this
      ensures total == TotalText(Total(shown))
      ensures choice == old(choice) && opening == old(opening) && rows == old(rows)
      ensures projects == old(projects) && tasks == old(tasks) && summary == old(summary)
    {
      total := TotalText(Total(shown));
    }

    /** The project, task and summary tables, once every key is hashable. */
    method ShowTables(shown: seq<Entry>, g: Grouping)
      requires ValidEntries(shown) && Keyable(shown)
      modifies this
      ensures projects == ProjectTable(shown) && tasks == TaskTable(shown)
      ensures summary == Summary(shown, g)
      ensures choice == old(choice) && opening == old(opening) && rows == old(rows) && total == old(total)
    {
      ShowRanked(shown);
      ShowSummary(shown, g);
    }

    /** The project and task tables. */
    method ShowRanked(shown: seq<Entry>)
      requires Keyable(shown)
      modifies this
      ensures projects == ProjectTable(shown) && tasks == TaskTable(shown)
      ensures choice == old(choice) && opening == old(opening) && rows == old(rows) && total == old(total) && summary == old(summary)
    {
      projects, tasks := RankTables(shown);
    }

    /** The summary table. */
    method ShowSummary(shown: seq<Entry>, g: Grouping)
      requires ValidEntries(shown)
      modifies this
      ensures summary == Summary(shown, g)
      ensures choice == old(choice) && opening == old(opening) && rows == old(rows) && total == old(total)
      ensures projects == old(projects) && tasks == old(tasks)
    {
      summary := Summarize(shown, g);
    }
  }

  /**
   * `ReportApp(root)` at start-up: the window, or none when its first refresh
   * raises, since the exception leaves the constructor and the program.
   */
  method Open(file: LogFile, now: Instant) returns (app: Option<ReportApp>)
    requires ValidInstant(now)
    ensures app.None? <==> Refreshed(Blank, Load(file), Day, now, "", "").1 == Raised
    ensures app.Some? ==> fresh(app.value) && app.value.choice == "День"
                          && app.value.View() == Refreshed(Blank, Load(file), Day, now, "", "").0
  {
    var a := new ReportApp(file, now);
    if a.opening == Raised {
      return None;
    }
    return Some(a);
  }
}
