# To-Do Plus time tracking, modelled in Dafny

To-Do Plus is a desktop to-do list with a built-in time tracker. It has four
pieces of logic:

- **Task window** (`start.py`, class `TodoApp`). It keeps a list of tasks and
  lists them with "done" and "overdue" tags, optionally hiding done tasks. It
  offers the known projects and sections. A timer runs against the selected
  task. Stopping the timer appends a record to the time log. A dialog adds a
  past activity by hand, but only when its interval is well formed, lies in
  the past and overlaps nothing already logged.
- **Time log** (`time_tracker/tracker.py`). The log is a JSON array of
  schema-less records:
  - `load_time_log` reads it; a missing or corrupt file reads as empty;
  - `append_time_log` adds one record at the end;
  - `parse_range` reads a record in the `start`/`end` shape or the older
    `timestamp`/`seconds` shape;
  - `check_overlaps` lists the logged intervals that intersect a candidate.
- **Report window** (`report_time_tracker.py`, classes `ReportApp` and
  `EditEntryWindow`).
  - It normalizes the log with its own reader, which has no legacy fallback.
  - It picks a period: today, this week, this month, all time, or a custom
    date range.
  - It keeps the entries that meet the period and lists them with a total.
  - It adds up per-project and per-task totals, sorted largest first.
  - For a week it adds per-day sums; for a month, per-ISO-week sums.
  - A double click on an entry opens an editor that rewrites or deletes that
    one record.
- **Utilities** (`utils.py`, duplicated in `start.py`). These are the
  `HH:MM:SS` clock text, keystroke masks for `dd.mm.yyyy` and `HH:MM` fields,
  and settings merged over their defaults.

The Dafny modules follow this structure:

| module | models |
|---|---|
| `Calendar` | proleptic Gregorian calendar, day numbers, weekday, ISO week |
| `DateTimes` | instants in microseconds since 0001-01-01, and the parsers and formatters used (`fromisoformat`, `isoformat`, the fixed `strptime`/`strftime` layouts) |
| `Values` | the JSON values of the log and Python's `or`, `int()` and truthiness on them |
| `Text` | digits, `str(n)`, zero padding, `strip()` and string order |
| `Durations` | `seconds_to_hms` and `seconds_to_hm` of the report |
| `Tracker` | `time_tracker/tracker.py` |
| `Periods` | the report's period windows |
| `Entries` | `ReportApp._normalize_entries` |
| `Totals` | the insertion-ordered dicts the report adds up |
| `Sorting` | `sorted(..., key=-amount)` (stable) and `sorted(items)` |
| `Report` | `ReportApp.update` and its window state |
| `Edits` | `EditEntryWindow` and `ReportApp.on_edit_entry` |
| `Todo` | `TodoApp` and the manual-activity admission rule |
| `Utils` | `utils.py` and its copies in `start.py` |

Files are modelled as values: a `LogFile` is missing, corrupt, or stores an
array of records. The tracker's `TimeLog` class holds the current file and
appends to it in place. Clock readings (`time.time()`, `datetime.now()`),
fresh `uuid`s, the user's confirmations and the selected tree row are
parameters.

The report's day and week summaries are sorted by label text, and this is
proved as written: `Report.WeekTenBeforeNine` shows that "Неделя 10 (y)" is
listed before "Неделя 9 (y)".

## Model

| member | source | states |
|---|---|---|
| Tracker.Load | time_tracker/tracker.py:16-23 | the log is the stored array, and empty when the file is missing or does not parse |
| Tracker.Appended | time_tracker/tracker.py:25-35 | after an append the file is an array that is the previously readable log (or empty) with exactly one more record, the entry, at the end |
| Tracker.TimeLog.Append | time_tracker/tracker.py:25-35 | the time log's file becomes the appended file and nothing else changes |
| Tracker.AppendedRecords | time_tracker/tracker.py:33 | every earlier index still holds its record, and the new last index holds the entry |
| Tracker.IsoOf | time_tracker/tracker.py:49-50 | only a string is read by `fromisoformat`, and only into the datetime range |
| Tracker.TimestampOf | time_tracker/tracker.py:56 | only a string is read by `strptime`, and only into the datetime range |
| Tracker.Label | time_tracker/tracker.py:46 | the label is `task_text` if truthy, else `task_id` if truthy, else `"?"`, and is always truthy |
| Tracker.IntervalForm | time_tracker/tracker.py:47-53 | an interval read from `start`/`end` has valid instants |
| Tracker.LegacyForm | time_tracker/tracker.py:54-63 | an interval read from `timestamp`/`seconds` has valid instants |
| Tracker.ParseRange | time_tracker/tracker.py:37-64 | a non-object gives no label and no interval; an object always gets a truthy label; the `start`/`end` shape wins when it reads, and the legacy shape is tried whenever it does not |
| Tracker.ParseRangeOfInterval | time_tracker/tracker.py:47-51 | `start`/`end` written by `isoformat()` are read back as exactly that interval |
| Tracker.IntervalSpan | time_tracker/tracker.py:47-51 | truthy `start`/`end` that `fromisoformat` reads give exactly that interval |
| Tracker.ParseRangeLegacy | time_tracker/tracker.py:54-61 | when `start` does not read, an integer `seconds` (including 0) and a readable `timestamp` give the interval ending at the timestamp and starting `seconds` earlier |
| Tracker.Hit | time_tracker/tracker.py:75-79 | a record contributes an overlap exactly when it has an interval that intersects the candidate, and then it contributes that interval and its label |
| Tracker.Hits | time_tracker/tracker.py:73-80 | at most one overlap per parsed record |
| Tracker.Overlaps | time_tracker/tracker.py:66-80 | the overlaps are never more than the records |
| Tracker.CheckOverlaps | time_tracker/tracker.py:66-80 | the loop that appends to `out` returns exactly the overlaps of the log |
| Tracker.HitsMember | time_tracker/tracker.py:73-80 | an overlap is reported exactly when some parsed record yields it |
| Tracker.HitsConcat | time_tracker/tracker.py:74-79 | the overlaps of two stretches of the log are those of the first followed by those of the second, so log order is kept |
| Tracker.OverlapsMember | time_tracker/tracker.py:66-80 | an overlap is reported exactly when some logged record parses to that interval and label and intersects `[start, end)` |
| Tracker.OverlapsIntersect | time_tracker/tracker.py:78 | every reported interval strictly intersects the candidate, so intervals that only touch it are not reported |
| Tracker.NoOverlaps | time_tracker/tracker.py:66-80 | nothing is reported exactly when no logged interval intersects the candidate |
| Durations.Split | report_time_tracker.py:21-25 | `h*3600 + m*60 + s` recomposes the seconds, with minutes and seconds in `0..59` |
| Durations.SplitUnique | report_time_tracker.py:21-25 | that split is the only one with minutes and seconds below 60 |
| Durations.ReadHmsText | report_time_tracker.py:21-25 | the `H:MM:SS` text reads back as the same number of seconds, for any hours width |
| Durations.ReadHmText | report_time_tracker.py:27-30 | the `HH:MM` text reads back as the seconds rounded down to whole minutes |
| Durations.HmsTextInjective | report_time_tracker.py:21-25 | different durations never share a clock text |
| Values.Or | time_tracker/tracker.py:46 | `a or b` is truthy exactly when one of them is, and is `a` when `a` is truthy |
| Values.Trunc | start.py:79 | `int(x)` of a real truncates toward zero |
| Values.PyInt | report_time_tracker.py:140 | `int()` keeps an integer, maps booleans to 1 and 0, and raises on `None` and compound values |
| Values.ParseIntPadInt | report_time_tracker.py:214 | `int(str(n))` is `n`, also with zero padding |
| Values.ParseIntUnderscored | report_time_tracker.py:140 | `int()` of a string drops one underscore between digit groups, so `"12_345"` reads as 12345 |
| Values.DigitsGrouped | report_time_tracker.py:140 | plain digits are a valid `int()` body and read as themselves |
| Values.ParseIntDigits | report_time_tracker.py:140 | `int()` of plain digits is their decimal value |
| Values.ParseIntSigned | report_time_tracker.py:140 | `int()` of a minus sign before digits is the negated value |
| Values.KeyOfAgrees | report_time_tracker.py:225-226 | two hashable values share a dict key exactly when Python's `==` finds them equal, as `True == 1 == 1.0` |
| Text.Strip | start.py:236 | `strip()` is empty exactly for all-blank text, otherwise it neither starts nor ends with a blank and is the text with its blank ends cut off; blanks are Python's whitespace, Unicode spaces such as U+00A0 included |
| Text.StripUnchanged | start.py:236 | text without blank ends, in Python's whitespace sense, is its own `strip()` |
| Text.Decimal | report_time_tracker.py:250 | `str(n)` is digits without a leading zero whose value is `n` |
| Text.PadInt | report_time_tracker.py:25 | `f"{n:0w}"` has at least `w` characters: the digits of `n`, after a minus sign when `n` is negative |
| Text.LessIrreflexive | report_time_tracker.py:243 | no text sorts before itself |
| Text.LessTransitive | report_time_tracker.py:243 | string order is transitive |
| Text.LessTotal | report_time_tracker.py:243 | any two different texts are ordered one way |
| Text.LessAsymmetric | report_time_tracker.py:243 | two texts are never ordered both ways |
| Calendar.DaysInMonth | report_time_tracker.py:192-193 | every month has 28 to 31 days |
| Calendar.FromDayNumber | report_time_tracker.py:191 | the calendar date of a day number is a valid date with that day number |
| Calendar.FromDayNumberInverse | report_time_tracker.py:191 | every valid date is found again from its day number |
| Calendar.Weekday | report_time_tracker.py:187 | `weekday()` is in `0..6` |
| Calendar.IsoCalendar | report_time_tracker.py:249 | the ISO year holds the Thursday of the day's Monday-to-Sunday week, the week number counts weeks from that year's week 1 and is in `1..53`, and the ISO weekday is `weekday() + 1` |
| DateTimes.DayOf | report_time_tracker.py:183 | `now.date()` is the day whose midnight is at or before the instant, less than a day before |
| DateTimes.DayAndTimeOf | report_time_tracker.py:183-184 | `datetime.combine` of a date and a time splits back into them |
| DateTimes.WholeSeconds | report_time_tracker.py:297 | `int(td.total_seconds())` truncates toward zero |
| DateTimes.DayOfFields | start.py:277 | parsed fields give a day exactly when they form a valid date, and it is that date |
| DateTimes.ShortField | start.py:437 | a `%d`/`%m`/`%H`/`%M` field is one or two ASCII digits read as their value |
| DateTimes.YearField | start.py:437 | `%Y` is exactly four ASCII digits read as their value |
| DateTimes.ParseIso | report_time_tracker.py:138-139 | `fromisoformat` yields only instants in the datetime range |
| DateTimes.ParseFormatIso | report_time_tracker.py:313-314 | what `isoformat()` writes, `fromisoformat()` reads back as the same instant |
| DateTimes.ParseFormatTimestamp | report_time_tracker.py:216-217 | the listed `"%Y-%m-%d %H:%M:%S"` text reads back as the instant without its microseconds |
| DateTimes.ParseFormattedDmy | start.py:277 | a date written with `"%d.%m.%Y"` is read back by `strptime` as the same day |
| DateTimes.ParseFormattedYmd | report_time_tracker.py:123-124 | a date written with `"%Y-%m-%d"` is read back as the same day |
| Periods.ModeOf | report_time_tracker.py:182-199 | each period label selects its mode, both spellings of week and month included, and any other label is the custom range |
| Periods.DayWindow | report_time_tracker.py:182-185 | the day window has valid ends |
| Periods.DayWindowHolds | report_time_tracker.py:182-185 | the day window holds exactly the instants of the date of `now` |
| Periods.WeekWindow | report_time_tracker.py:186-189 | the week runs from Monday 00:00 of `now`'s week to 6 days 23:59:59 later, and overflows only when that end is past year 9999 |
| Periods.MonthWindowIsMonth | report_time_tracker.py:190-194 | the month window runs from the 1st at 00:00 to the end of the month's true last day, leap February included, and overflows only in December 9999 |
| Periods.CustomWindow | report_time_tracker.py:199-206 | a custom window that reads has valid ends |
| Periods.CustomWindowOfDates | report_time_tracker.py:199-202 | dates typed as `YYYY-MM-DD` give the window from the first day's midnight to the last day's 23:59:59 |
| Periods.DefaultRange | report_time_tracker.py:121-124 | the custom fields start as a week ago and today, unless a week ago is before year 1 |
| Periods.DefaultRangeWindow | report_time_tracker.py:121-126 | the default range reads back as the eight days ending with today |
| Periods.Resolve | report_time_tracker.py:182-206 | only week and month can overflow, a bad date happens exactly for an unreadable custom range, week groups by day and month by ISO week |
| Periods.MeetsShares | report_time_tracker.py:208 | for well-ordered intervals, the filter keeps an entry exactly when it shares an instant with the window |
| Periods.AllTimeMeetsAll | report_time_tracker.py:195-198 | the all-time window keeps every entry |
| Entries.Describe | report_time_tracker.py:153-159 | an entry keeps the record's index, interval and duration, and its `task_text`, `project` and `section`, each `"—"` when missing |
| Entries.IntervalEntry | report_time_tracker.py:136-142 | the `start`/`end` branch keeps the record exactly when both times read and any stored duration is one `int()` accepts, with those times and that duration, else end − start in whole seconds; otherwise it skips the record |
| Entries.LegacyEntry | report_time_tracker.py:143-151 | the legacy branch ends at `timestamp`, lasts `int(seconds)` and starts that much earlier, and skips when either does not read or the start leaves the datetime range |
| Entries.NormalizeOne | report_time_tracker.py:134-159 | the loop body raises exactly on a non-object; truthy `start` and `end` take the interval branch, otherwise truthy `timestamp` and `seconds` take the legacy branch, otherwise the record is skipped; every kept entry has its own index and valid instants |
| Entries.FalsySecondsSkipped | report_time_tracker.py:143 | a record outside the interval branch whose `seconds` is falsy (`0` among them) is skipped |
| Entries.ZeroSecondsDisagree | report_time_tracker.py:143 | a legacy record with `seconds == 0` is skipped by the report but read by `parse_range` as the empty interval at its timestamp |
| Entries.NormalizeEntries | report_time_tracker.py:132-160 | the loop returns exactly the normalized log |
| Entries.NormalizedFails | report_time_tracker.py:132-160 | normalizing raises exactly when some record is not an object |
| Entries.NormalizedEntries | report_time_tracker.py:133-159 | each entry is the loop body's result for the record at its `orig_index`, indices strictly increase, and every record the body keeps is there |
| Entries.TakenAgreesWithParseRange | report_time_tracker.py:136-151 | every entry the report keeps has the same interval that `parse_range` finds in the record |
| Entries.NormalizeStored | report_time_tracker.py:136-140 | a record with `isoformat()` times and an integer `duration_seconds` is read back with exactly those values |
| Totals.TallyLoop | report_time_tracker.py:223-226 | the accumulating loop builds the dict that the pairs define |
| Totals.Items | report_time_tracker.py:229 | `d.items()` lists each key once in insertion order with its amount |
| Totals.TallyKeys | report_time_tracker.py:224-226 | a key has a total exactly when some entry has that key |
| Totals.TallyValues | report_time_tracker.py:224-226 | a key's total is the sum of the durations paired with it |
| Totals.TallyTotal | report_time_tracker.py:209-226 | the per-key totals add up to the sum of all durations |
| Totals.TallyOrder | report_time_tracker.py:224-226 | the keys come in the order of their first occurrence |
| Sorting.SortDesc | report_time_tracker.py:229 | sorting rearranges the items |
| Sorting.SortDescSorted | report_time_tracker.py:229 | the result is largest first and a permutation of the items |
| Sorting.SortDescStable | report_time_tracker.py:229 | items with equal amounts keep their relative order |
| Sorting.SortByKey | report_time_tracker.py:243 | sorting rearranges the summary items |
| Sorting.SortByKeySorted | report_time_tracker.py:243 | summary rows come in label order and are a permutation of the items |
| Sorting.SortByKeyStrict | report_time_tracker.py:252 | with distinct labels each row's label is strictly below every later one |
| Report.NormalizedInOrder | report_time_tracker.py:133-159 | normalized entries have valid instants and come in log order |
| Report.Shown | report_time_tracker.py:208 | an entry is shown exactly when it is normalized and meets the window |
| Report.ShownInOrder | report_time_tracker.py:208 | filtering keeps log order and valid instants |
| Report.RowReadsBack | report_time_tracker.py:212-219 | a row's iid reads back as the entry's index, its times as the entry's to the second, and its duration exactly |
| Report.RowsOf | report_time_tracker.py:212-219 | one row per shown entry, in order |
| Report.RowIdsDistinct | report_time_tracker.py:214 | rows get distinct iids, so no tree insert clashes |
| Report.Lines | report_time_tracker.py:230 | each table line is a label and its `seconds_to_hms` |
| Report.AmountsAddUp | report_time_tracker.py:209 | the shown durations add up to the total |
| Report.ProjectTotals | report_time_tracker.py:223-230 | project totals add up to the total, each is the sum over the entries whose project has that dict key, and the table is largest first |
| Report.TaskTotals | report_time_tracker.py:223-234 | task totals add up to the total, each is the sum over the entries whose task has that dict key, and the table is largest first |
| Report.FirstFiled | report_time_tracker.py:225 | the first project or task the loop files under a key, which the dict keeps as that key |
| Report.StoredKeyFiled | report_time_tracker.py:225-230 | a key some name is filed under is shown as a name filed under it |
| Report.RankedDistinct | report_time_tracker.py:223-234 | the rows of a ranked table name pairwise unequal keys by Python's `==`, each one of the names met |
| Report.SortedKeysDistinct | report_time_tracker.py:228-229 | sorting the items keeps the dict's keys distinct |
| Report.SortedKeyStored | report_time_tracker.py:228-230 | each ranked row shows a name filed under the row's key |
| Report.ProjectRowsDistinct | report_time_tracker.py:223-230 | the project table has one row per project as Python's `==` tells them apart, so `True` and `1` share a row |
| Report.TaskRowsDistinct | report_time_tracker.py:223-234 | the task table, likewise |
| Report.DayLabelInjective | report_time_tracker.py:241 | different days get different labels |
| Report.WeekTextInjective | report_time_tracker.py:249-250 | different ISO weeks get different labels |
| Report.WeekTenBeforeNine | report_time_tracker.py:250-252 | labels sort as text, so week 10 is listed before week 9 |
| Report.SummaryTotals | report_time_tracker.py:238-253 | the summary lists each label once in strictly increasing label order, and its amounts add up to the total |
| Report.PlanOf | report_time_tracker.py:176-209 | what is shown has valid instants and is in log order |
| Report.RefreshKeepsScreen | report_time_tracker.py:176-209 | the window is left as it was exactly when the log holds a non-object, the week or month overflows, or the custom dates do not read; only the last shows the date message |
| Report.RefreshLists | report_time_tracker.py:208-221 | after a refresh the list holds exactly the entries that meet the period, one row each, in log order, with distinct iids, and the total is their sum |
| Report.PlanRefresh | report_time_tracker.py:176-209 | reading the file, normalizing, resolving and filtering give the plan |
| Report.CountByKey | report_time_tracker.py:223-226 | the loops build the project and task dicts, filing equal keys together, and raise exactly when a key is unhashable |
| Report.RankTables | report_time_tracker.py:228-234 | the project and task tables are the ranked totals |
| Report.Summarize | report_time_tracker.py:236-253 | the `by_day`/`by_week` loops produce the summary rows |
| Report.ReportApp.constructor | report_time_tracker.py:114 | the window is built on "День", shows its refresh, and records whether that refresh raised |
| Report.ReportApp.ChangeMode | report_time_tracker.py:116-130 | choosing "Пользовательский" only shows the date fields; any other choice refreshes with it at once |
| Report.Open | report_time_tracker.py:332-335 | the report window exists exactly when its first refresh does not raise, and then shows that refresh |
| Report.ReportApp.Update | report_time_tracker.py:176-253 | `update` reads the log and shows the refresh of the chosen mode, an empty mode meaning the current choice |
| Report.ReportApp.Render | report_time_tracker.py:208-253 | the list, total and tables are filled from the shown entries |
| Report.ReportApp.ShowList | report_time_tracker.py:211-219 | the list is replaced by the rows of the shown entries, nothing else changes |
| Report.ReportApp.ShowTotal | report_time_tracker.py:221 | the total label shows the sum, nothing else changes |
| Report.ReportApp.ShowTables | report_time_tracker.py:223-253 | the project, task and summary tables are replaced, nothing else changes |
| Report.ReportApp.ShowRanked | report_time_tracker.py:228-234 | the project and task tables become the ranked totals, nothing else changes |
| Report.ReportApp.ShowSummary | report_time_tracker.py:236-253 | the summary table becomes the grouped rows, nothing else changes |
| Edits.EditTarget | report_time_tracker.py:162-174 | a click edits exactly when the iid reads as an index of the log |
| Edits.RowLocatesRecord | report_time_tracker.py:168-174 | a listed row leads back, over an unchanged log, to the record its entry was read from |
| Edits.FieldText | report_time_tracker.py:273 | a string field is shown as is, a boolean as `1` or `0`, and `None` as `None`, as Tk converts them |
| Edits.InitialDuration | report_time_tracker.py:284 | the window opens exactly when the stored duration is absent, an integer or a boolean |
| Edits.InitialDurationShows | report_time_tracker.py:284 | the duration label reads back as the stored duration (0 when absent) to the minute |
| Edits.ReadTimes | report_time_tracker.py:303-306 | the times read exactly when both fields parse; the duration is the whole seconds between them, clamped at 0 |
| Edits.PreviewMatchesSave | report_time_tracker.py:293-306 | the live preview shows the duration a save would store, to the minute, and no duration when a save would refuse |
| Edits.WithTimesKeeps | report_time_tracker.py:313-315 | setting the three fields adds them and keeps every other field |
| Edits.SaveWritesWhen | report_time_tracker.py:302-316 | a save writes exactly when both times parse and the index names an object of the log; otherwise the file is unchanged |
| Edits.SaveTouchesOne | report_time_tracker.py:311-316 | a save replaces exactly one record and keeps every other in place |
| Edits.SaveKeepsFields | report_time_tracker.py:313-315 | the saved record keeps its other fields and holds the typed times in `isoformat()` and the computed duration |
| Edits.SavedRecordReadsBack | report_time_tracker.py:313-315 | the report reads the saved record back with exactly the typed times and duration, keeping its labels |
| Edits.DeleteKeepsOthers | report_time_tracker.py:324-327 | a delete removes exactly the one slot and keeps the others in order; an out-of-range index changes nothing |
| Edits.EditWindow.constructor | report_time_tracker.py:255-285 | the window shows the record's `start`, `end` and duration |
| Edits.EditWindow.Typed | report_time_tracker.py:293-300 | a key release refreshes the duration preview |
| Edits.EditWindow.Save | report_time_tracker.py:302-319 | the log becomes the saved log; only a write refreshes the report and closes the window |
| Edits.EditWindow.Delete | report_time_tracker.py:321-330 | after confirmation the log loses that record and the report refreshes; without it nothing changes |
| Edits.OpenEditor | report_time_tracker.py:162-174 | a working editor, with its buttons, opens exactly for an in-range object whose duration can be shown, on that record |
| Todo.InsertNameSorted | start.py:229 | adding a name keeps the list strictly sorted and adds exactly that name |
| Todo.NamesSorted | start.py:229 | the names are sorted without repetition and are exactly the non-empty values |
| Todo.Choices | start.py:229-230 | the choices are never empty |
| Todo.ChoicesAre | start.py:228-233 | the choices are sorted, distinct, exactly the non-empty names, or `["Общее"]` when there are none |
| Todo.ProjectsOffered | start.py:231-233 | every non-empty project is offered, and nothing else but the default |
| Todo.SectionsOffered | start.py:228-230 | every non-empty section is offered, and nothing else but the default |
| Todo.ProjectOffered | start.py:231-233 | the project of any task that names one is offered |
| Todo.TagOf | start.py:271-279 | a task is tagged done exactly when it is done |
| Todo.OverdueBeforeToday | start.py:272-278 | an open task with a `dd.mm.yyyy` deadline is overdue exactly when the deadline is before today |
| Todo.Listing | start.py:269-283 | no more rows than tasks |
| Todo.ListingMembers | start.py:269-283 | a row is listed exactly when it is the row of a task that is not hidden |
| Todo.ShownUnlessHidden | start.py:270 | a task has its row exactly when it is not hidden |
| Todo.FirstWith | start.py:289-292 | the position of the first task with the id, or the end |
| Todo.Find | start.py:412 | `next(...)` finds a task exactly when one has the id, and it has that id |
| Todo.ToggledChangesFirstOnly | start.py:288-292 | only the first task with the id changes, and only in `done` |
| Todo.ToggledTwice | start.py:289-292 | marking the same task twice restores the list |
| Todo.WithoutMembers | start.py:301 | deleting keeps exactly the tasks with another id |
| Todo.WithoutConcat | start.py:301 | deleting works stretch by stretch, so kept tasks stay in order |
| Todo.WithoutAbsent | start.py:301 | with no task of that id nothing is deleted |
| Todo.NewTask | start.py:240-249 | the new task has the id, the text, section, deadline and note as typed, is not done, and has the typed project or `"Общее"` when none is typed |
| Todo.NewTaskListed | start.py:240-257 | a new task is dated today, is neither done nor overdue, and its project is offered afterwards |
| Todo.LoggedFields | start.py:360-368 | the logged record holds the interval, the duration, the task's texts and the label `parse_range` gives it |
| Todo.TimeRecordReadsBack | start.py:360-369 | the overlap check reads a logged record back as its interval and label, the report as an entry with the task's texts and the duration |
| Todo.TimerRecordReadsBack | start.py:358-369 | the timer's record reads back as the timed interval, labelled with the task, with its whole seconds |
| Todo.LogStretch | start.py:358-369 | the timer's record is appended to the log |
| Todo.TypedInstant | start.py:435-438 | the typed date and time read only into the datetime range |
| Todo.NoticeOf | start.py:453-457 | the notice counts all overlaps, lists the first ten, and adds a tail line exactly when there are more than ten |
| Todo.Admission | start.py:434-459 | a refusal for overlaps names exactly the non-empty overlaps; an admitted interval is valid |
| Todo.AdmittedWhen | start.py:441-459 | an activity is admitted exactly when both times read, the end is after the start and not after now, and no logged interval intersects it |
| Todo.TypedDurationExact | start.py:461 | typed times are whole seconds, so the stored duration is exactly the interval |
| Todo.AppendKeepsDisjoint | start.py:449-472 | appending a record that overlaps nothing keeps the log's intervals disjoint |
| Todo.AdmittedKeepsDisjoint | start.py:441-472 | an admitted activity keeps the logged intervals pairwise disjoint |
| Todo.Judge | start.py:441-476 | the checks run in order and only an admitted activity is appended |
| Todo.TodoApp.constructor | start.py:126-224 | the window starts with the loaded tasks, done tasks hidden, no timer, and the first refresh |
| Todo.TodoApp.Refresh | start.py:259-283 | the choices and rows are rebuilt from the tasks, nothing else changes |
| Todo.TodoApp.SetHideDone | start.py:174-175 | the box sets the flag and refreshes |
| Todo.TodoApp.AddTask | start.py:235-257 | blank text changes nothing; otherwise exactly the new task is appended and the rows and both choice lists are rebuilt |
| Todo.TodoApp.MarkDone | start.py:285-294 | with a selection, the first task with the id is toggled and the rows and both choice lists are rebuilt; without one nothing changes |
| Todo.TodoApp.DeleteTask | start.py:296-303 | with a selection and confirmation, every task with the id is removed and the rows and both choice lists are rebuilt; otherwise nothing changes |
| Todo.TodoApp.StartTimer | start.py:338-352 | with a selection, the timer runs for that task from now; without one nothing changes; the tasks, rows and choices stay |
| Todo.TodoApp.StopTimer | start.py:354-372 | a stopped timer does nothing; a running one logs its stretch, forgets the task, and rebuilds the rows and both choice lists |
| Todo.TodoApp.Stopped | start.py:372 | the timer is stopped with no current task, and the rows and both choice lists are rebuilt |
| Todo.TodoApp.AddActivity | start.py:408-476 | without an existing selected task nothing happens; otherwise the typed times are judged, only an admitted activity is logged, and the notice is shown exactly for overlaps |
| Utils.ElapsedTextReadsBack | utils.py:76-79 | `seconds_to_hms` reads back as `int(sec)`, which is within one second below a non-negative `sec` |
| Utils.UtilsDateMaskAccepts | utils.py:26-36 | a change is accepted exactly when it is not an insertion of non-digits and the value fits in 10 characters; the dot is added exactly after 2 or 5 characters without one |
| Utils.DateMasksAgree | start.py:31-45 | the two date validators accept the same changes, and add the dot in the same cases |
| Utils.DotCallbackClears | start.py:36-42 | as written, two digits typed into an empty date field leave it empty |
| Utils.TypedDateFixed | start.py:31-45 | with the dot appended directly, eight digits give `dd.mm.yyyy`, a ninth is refused, and `strptime` reads the typed date |
| Utils.TimeMask | utils.py:41-57 | a value is accepted exactly when it has at most 5 characters, all digits or `:`; the colon is scheduled exactly for two accepted characters without one |
| Utils.TypedClock | start.py:47-63 | four digits give `hh:mm`, a fifth is refused, and `%H:%M` reads the typed time |
| Utils.LoadSettings | utils.py:60-68 | every default key is present and the file's keys win; a missing, unreadable or non-object file gives the defaults |
| Utils.DefaultKept | start.py:65-72 | a default the file does not set keeps its default value |

## Left out

- Tk widgets, layout, `Toast`, message boxes, `update_timer`, `highlight_current_task` and `open_reports` are user interface and are not modelled.
- `time_tracker/screenshot_manager.py` is not part of this model, and neither are the screenshot settings it consumes beyond `load_settings`.
- JSON serialization is not modelled. The log is a value that is missing, corrupt or an array of records; a stored value that is not an array is not distinguished.
- JSON floats are modelled as exact reals. `NaN` and `Infinity`, which `json.load` accepts, and the rounding of doubles are not modelled.
- `save_tasks`, `save_settings` and `open_edit`/`save_edit` are not modelled. Task persistence is the `tasks` field, and `tasks.json` is assumed to be as `add_task` writes it.
- Time zones, daylight saving and `fromtimestamp` are not modelled. Clock readings are instants given as parameters.
- The `%a` weekday name is the English abbreviation, whatever the locale.
- `fromisoformat` is modelled for the fixed-position layouts that `isoformat()` writes, without UTC offsets. `strptime` is modelled for the fixed zero-padded layouts the program uses, plus one-digit fields.
- Tracker.Load: a log file that exists but cannot be opened (a permission error) makes `load_time_log` raise, since `open` is outside its `try`; the model has no such file, and reads every existing file as stored or corrupt.
- Tracker.IsoOf: a `datetime` with a UTC offset is not modelled, so offset-bearing strings never read.
- DateTimes.ParseIso: only the fixed-position layouts that `isoformat()` writes are read. The C parser of CPython 3.7 to 3.10 also accepts a fraction after the hour or the minutes (`T10.123456`, `T10:30.500`) and a `:` before the fraction (`T10:30:00:123`); those are refused here. The wider grammar of 3.11 and later is not modelled either: the basic format `20240101T103000`, fractions of 1 to 6 digits, a trailing `Z` and ISO week dates.
- Tracker.IsoOf: a stored string in one of those extra C-parser forms reads as an instant in Python but as no instant here.
- DateTimes.WholeSeconds: `total_seconds()` returns a double. Its rounding is not modelled, so spans of 2^34 seconds (about 544 years) or more, with a fraction just under a second, read one second short of Python's result.
- Edits.ReadTimes: the same double rounding of `total_seconds()` is not modelled.
- Edits.ReadTimes: a typed time in one of the extra C-parser forms of `fromisoformat` (`T10:30.500`, `T10.123456`, `T10:30:00:123`) is saved by Python but refused here.
- DateTimes.FormatDate: years 1 to 999 are written with four digits; glibc's `strftime` writes `%Y` unpadded there (`"999-01-01"`).
- DateTimes.FormatDmy: the same four-digit years below 1000 as `FormatDate`.
- DateTimes.FormatTimestamp: the same four-digit years below 1000 as `FormatDate`.
- DateTimes.ShortField: `strptime` also lets `%d`, `%m`, `%H` and `%M` start with a space (`" 5"`) and take non-ASCII decimal digits; both are refused here.
- DateTimes.YearField: `strptime`'s `%Y` also takes non-ASCII decimal digits; they are refused here.
- DateTimes.ParseFormatTimestamp: proved for the four-digit years the model writes. With glibc's unpadded years 1 to 999, `strptime` refuses the text the source writes, so the round trip fails there in the source.
- DateTimes.ParseFormattedDmy: the same; with glibc, `"01.01.999"` does not read back under `%Y`.
- DateTimes.ParseFormattedYmd: the same; with glibc, `"999-01-01"` does not read back under `%Y`.
- Report.RowReadsBack: the row's times read back only for years 1000 and later with glibc, because of the unpadded years below 1000.
- Values.PyInt: `int()` of a string takes ASCII digits only; Unicode decimal digits such as "٣", which Python also accepts, are refused.
- Values.ParseInt: the same ASCII-only digits as `PyInt`.
- Utils.UtilsDateMaskAccepts: `str.isdigit()` is modelled for ASCII digits only. Unicode digits such as "٣" or "²", which Python accepts, are refused.
- Utils.DateMasksAgree: the agreement is shown for the same ASCII-only `isdigit()`.
- Utils.TimeMask: the same ASCII-only `isdigit()`.
- Edits.FieldText: a float or a nested array or object is shown empty, where Tk shows its Tcl text.
- Edits.EditWindow.constructor: the same float and nested-value gap as `FieldText`.
- Edits.OpenEditor: a record that makes `__init__` raise leaves a bare top-level window on screen, without Save or Delete; that window is not modelled.
- Todo.TodoApp.Refresh: a duplicate task id, which makes `tree.insert` raise `TclError`, is not modelled.
- Todo.TodoApp.StartTimer: the selected id is not checked against the tasks, as in the source.
- Todo.TodoApp.StopTimer: the elapsed time is `end - start` in microseconds truncated to seconds; the float rounding of `time.time()` is not modelled.
- Utils.TimeMask: the mask's in-place edits are modelled only by `TypeTime`. Validation is assumed not to be re-entrant, and edits made inside the validator are not modelled.
- Utils.UtilsDateMask: the `delete`/`insert` calls made inside the validator of `utils.py` are not modelled.
- Utils.TypedDateFixed: this assumes that Tk validates the program's own `insert` and `delete` calls, as it does for typed keys.

## Findings

| source | as written | input that shows it | evidently intended | confidence | as-written member | corrected member |
|---|---|---|---|---|---|---|
| start.py:36-42 | the `_insert` callback clears the date field and inserts `cur + "."`, but the field's own validator refuses that insertion because `"dd."` is not all digits, and allows the clearing | two digits typed into an empty deadline or date field | the field reads `dd.` and then `dd.mm.yyyy` | not executed; depends on Tk validating the program's own insert and delete calls | Utils.DotCallbackClears | Utils.TypedDateFixed |
