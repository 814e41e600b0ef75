# Gantt scheduling and MS Project field codecs, in Dafny

This project models the scheduling core of the Hybrid PMP / Agile project
plan tooling:

- `GanttCalculator` (`ms_project_integration/scripts/gantt_calculator.py`).
  - `calculate_dates` dates every task of the Gantt sheet in input order. A
    task starts after its latest already-dated predecessor and lasts its
    duration in working days.
  - `calculate_critical_path` runs a forward pass and a backward pass, and
    returns the tasks with zero slack.
  - Helpers: the working-day calendar, the parsing of the free-text
    `Dependencies` column, and the substring search for successors.
- The field decoders of `MSProjectImporter` and the field encoders of
  `MSProjectExporter._add_task`: how one task row becomes the child
  elements of an MS Project `<Task>`, and back.

Representation:

- A date is an integer day number; its weekday is `d % 7`, with day 0 a
  Monday.
- The current date (`datetime.now()`) is a parameter.
- A task row is a typed record. The task table is a `map<nat, Task>` and
  the input order is a `seq<nat>`.
- Failures the Python code raises are `Err` values:
  - TypeError on a missing date;
  - the ValueError of `min([])`;
  - the IndexError of `task_order[-1]`.
- An XML `<Task>` is the map from its child tags to their text.

Modules:

- `Base`: Option, Result, Max/Min, Distinct, Reverse, and the key order
  of a dict built by assignment (`Dedup`).
- `Text`: digit filtering, `str(n)`, `int(s)`, `strip`, `split`, `join`,
  substring search, `lower`.
- `Calendar`, `Dependencies`, `Schedule` and `CriticalPath` model the
  calculator.
- `Sweeps` holds the loop shape both passes share: visit the ids in
  order and record one value per id, stopping at the first failure.
- `XmlTask`, `Importer`, `Exporter` and `Interchange` model the
  importer, the exporter and their round trip.
- `Scenarios` holds worked examples on concrete tasks.

Behaviour of the code that is easy to miss:

- Dependencies: "3SS+2" names task 32. Relation codes and lags are not
  read; every digit of a comma-separated term is run together into one id
  (`Scenarios.RelationCodeDigitsRunTogether`).
- Start and finish days: five working days from a Monday finish on the
  next Monday, not on Friday, because the start day itself is never
  counted. A dependent task then starts on Tuesday
  (`Scenarios.TwoTasksDates`).
- Order: no topological order is computed and cycles are not detected. A
  predecessor listed after its successor is simply not seen
  (`Scenarios.LaterPredecessorIgnored`).
- The backward pass:
  - It pins only the last task of the input order; there is no per-sink
    handling.
  - It finds successors by substring, so a task depending on "12" is a
    successor of task 1 (`Scenarios.SubstringSuccessor`).
  - It raises when a successor has not been visited yet
    (`Scenarios.BackwardsLinkFails`).
- The exporter writes the digits of the whole dependency text as one
  predecessor UID: "4,5" becomes UID 45 (`Scenarios.ListExportsOneUid`).

## Model

| member | source | states |
|---|---|---|
| `Calendar.GetWorkingDays` | ms_project_integration/scripts/gantt_calculator.py:55-65 | Succeeds exactly when every key flagged true is a weekday name; the result then holds exactly the weekday numbers of the keys flagged true. Otherwise it fails with the first such key that is unknown. |
| `Calendar.NextWorkingDay` | ms_project_integration/scripts/gantt_calculator.py:161-164 | The first working day strictly after `d`, at most a week later, with no working day in between. |
| `Calendar.AddWorkingDays` | ms_project_integration/scripts/gantt_calculator.py:156-166 | No days to add gives the start back. Otherwise the result is a working day strictly after the start. |
| `Calendar.AddWorkingDaysCounts` | ms_project_integration/scripts/gantt_calculator.py:156-166 | Exactly `n` working days lie between the start (excluded) and the result (included). |
| `Calendar.AddWorkingDaysCharacterization` | ms_project_integration/scripts/gantt_calculator.py:156-166 | A day is the result if and only if it is a working day after the start with exactly `n` working days up to it. |
| `Calendar.AddWorkingDaysCompose` | ms_project_integration/scripts/gantt_calculator.py:156-166 | Adding `a` and then `b` working days is the same as adding `a + b`. |
| `Calendar.AddWorkingDaysStrictlyIncreasing` | ms_project_integration/scripts/gantt_calculator.py:156-166 | More working days always land strictly later. |
| `Calendar.AddWorkingDaysStepwise` | ms_project_integration/scripts/gantt_calculator.py:156-166 | The day-by-day loop as written computes `AddWorkingDays` and counts exactly `days` working days. |
| `Dependencies.StrippedTermIdIsTermId` | ms_project_integration/scripts/gantt_calculator.py:141-147 | Stripping a term first and skipping empty terms names the same id as reading the digits of the raw term. |
| `Dependencies.ParseDependencyIdsMembers` | ms_project_integration/scripts/gantt_calculator.py:141-147 | An id is parsed from a dependency text exactly when some comma-separated term has digits whose value is that id. |
| `Dependencies.NoIdsIffNoDigits` | ms_project_integration/scripts/gantt_calculator.py:141-147 | A dependency text names no predecessor exactly when it holds no digit. |
| `Dependencies.ParseRenderedIds` | ms_project_integration/scripts/gantt_calculator.py:139-147 | Writing ids as "4,5,..." and parsing the text gives the same ids back, in order. |
| `Dependencies.LookupSpec` | ms_project_integration/scripts/gantt_calculator.py:150-152 | The collected values are empty exactly when no id is in the table. They hold the value of every id that is in the table, and nothing else. |
| `Schedule.LatestFinishSpec` | ms_project_integration/scripts/gantt_calculator.py:149-154 | None exactly when no named predecessor is dated. Otherwise it is the finish of one of them and no earlier than any of their finishes. |
| `Schedule.LatestDependencyFinishIsMax` | ms_project_integration/scripts/gantt_calculator.py:135-154 | Equals Python's `max` over the finishes collected in the order the text names them, and None when none is collected. |
| `Schedule.ScheduleTask` | ms_project_integration/scripts/gantt_calculator.py:104-131 | Defined whenever the loop body ends: with a working weekday, or for a task that has no dated predecessor and no positive duration. The finish is never before the start. A task with no positive duration finishes on its start. Otherwise it finishes on a working day, exactly `duration` working days after its start. |
| `Schedule.ScheduleTaskStart` | ms_project_integration/scripts/gantt_calculator.py:111-119 | With no dated predecessor, a task starts on its own start date, or today when it has none. Otherwise it starts on a working day after every dated predecessor's finish, exactly one working day after one of them. |
| `Schedule.CalculateDates` | ms_project_integration/scripts/gantt_calculator.py:97-133 | Every task of the order is dated. Its finish is never before its start and equals the start when the duration is not positive; otherwise the finish is a working day exactly `duration` working days after the start. |
| `Schedule.CalculateDatesKeys` | ms_project_integration/scripts/gantt_calculator.py:101-133 | Exactly the tasks of the order are dated. |
| `Schedule.CalculateDatesAt` | ms_project_integration/scripts/gantt_calculator.py:101-131 | With no repeated ids, a task's dates are what the loop body computes from the dates of the tasks before it in the order. |
| `Schedule.EarlierPredecessorFinishesFirst` | ms_project_integration/scripts/gantt_calculator.py:103-115 | When a predecessor is listed earlier and no id repeats, the successor starts on a working day strictly after the predecessor finishes. |
| `CriticalPath.StartMoment` | ms_project_integration/scripts/gantt_calculator.py:197 | A missing start column gives `now`, a date gives itself, and only a non-date cell gives a non-date. |
| `CriticalPath.MaxMoment` | ms_project_integration/scripts/gantt_calculator.py:210 | Python's `max` over moments fails exactly when there are several and one is not a date. Otherwise it returns an element that is no earlier than any other. |
| `CriticalPath.MinMoment` | ms_project_integration/scripts/gantt_calculator.py:245 | Python's `min` over moments, with the same failure condition as `max`. It returns an element no later than any other. |
| `CriticalPath.AddWorkingDaysTo` | ms_project_integration/scripts/gantt_calculator.py:156-166 | Defined whenever `_add_working_days` ends: no days to add, a non-date (whose first step raises), or a working weekday. With no days to add, the moment comes back unchanged, even a non-date. Otherwise it fails exactly on a non-date and lands on a working day after the start, with exactly `n` working days up to it. |
| `CriticalPath.ForwardStep` | ms_project_integration/scripts/gantt_calculator.py:196-221 | Defined whenever the loop body ends: no positive duration, a working weekday, or an earliest start that raises or is not a date. Fails only by arithmetic on a non-date. On success, the start is the earliest start the dependencies give. A task with no positive duration finishes on its start; otherwise both are days and the finish is a working day exactly `duration` working days after the start. |
| `CriticalPath.ForwardStepWithoutWorkingDays` | ms_project_integration/scripts/gantt_calculator.py:156-166 | With no working weekday, a step with days to add that ends does so by raising. |
| `CriticalPath.ForwardPass` | ms_project_integration/scripts/gantt_calculator.py:191-223 | On success, every task of the order has earliest times. |
| `CriticalPath.ForwardAt` | ms_project_integration/scripts/gantt_calculator.py:195-221 | With no repeated ids, a task's earliest times are the step computed from the earliest times of the tasks before it in the order. |
| `CriticalPath.ForwardRecordsSpan` | ms_project_integration/scripts/gantt_calculator.py:216-221 | Every task of the order gets earliest times that span its duration: the finish is the start for no positive duration, and otherwise a working day exactly `duration` working days after it. |
| `CriticalPath.ForwardPassDated` | ms_project_integration/scripts/gantt_calculator.py:191-223 | When no start cell is a non-date, the forward pass succeeds and every record it makes is a pair of days. |
| `CriticalPath.ForwardStepAfterPredecessors` | ms_project_integration/scripts/gantt_calculator.py:202-212 | A task starts after the finish of every named predecessor in the table, and exactly one calendar day after the latest of them. |
| `CriticalPath.EarliestStartAfterPredecessors` | ms_project_integration/scripts/gantt_calculator.py:202-214 | The earliest start is after the finish of every named predecessor in the table, and exactly one calendar day after the latest of them. |
| `CriticalPath.ForwardEarlierPredecessor` | ms_project_integration/scripts/gantt_calculator.py:195-221 | When a predecessor is listed earlier and no id repeats, the successor's earliest start is after the predecessor's earliest finish. |
| `CriticalPath.FindSuccessors` | ms_project_integration/scripts/gantt_calculator.py:258-267 | Exactly the tasks whose dependency text contains the decimal text of the id, in key order. |
| `CriticalPath.BackwardStep` | ms_project_integration/scripts/gantt_calculator.py:238-254 | On success, both times are days and the start is the duration before the finish, in calendar days; a step fails only by arithmetic on a non-date, or for lack of a visited successor, and it fails for that reason exactly when the task has successors and none of them has been visited yet. |
| `CriticalPath.NoProcessedSuccessorWhen` | ms_project_integration/scripts/gantt_calculator.py:244-245 | The list `min` is given is empty exactly when none of the successors has been visited. |
| `CriticalPath.BackwardStepSpec` | ms_project_integration/scripts/gantt_calculator.py:241-249 | A task without successors keeps its earliest finish. Otherwise its latest finish is before the latest start of every successor already visited, and exactly one day before one of them. |
| `CriticalPath.BackwardPass` | ms_project_integration/scripts/gantt_calculator.py:225-256 | On success, every task of the order has latest times. |
| `CriticalPath.BackwardPassEmptyOrder` | ms_project_integration/scripts/gantt_calculator.py:229-230 | The pass fails with the empty-order failure exactly when the order is empty. |
| `CriticalPath.BackwardSweepKeys` | ms_project_integration/scripts/gantt_calculator.py:227-256 | Every task of the order but the last has a row to visit: the task and its earliest times. On success, every task of the order has a record, the last one from the start. |
| `CriticalPath.LastTaskPinned` | ms_project_integration/scripts/gantt_calculator.py:229-234 | The last task of the order keeps its earliest times when it does not also occur earlier. |
| `CriticalPath.BackwardRecordsSpan` | ms_project_integration/scripts/gantt_calculator.py:249-254 | Every task but the last gets latest times that are days, exactly its duration apart in calendar days. |
| `CriticalPath.BackwardAt` | ms_project_integration/scripts/gantt_calculator.py:237-254 | With no repeated ids, a task's latest times are the step computed from a table that holds exactly the tasks after it in the order, with their final times. |
| `CriticalPath.LatestBeforeSuccessors` | ms_project_integration/scripts/gantt_calculator.py:242-247 | With no repeated ids, a task's latest finish is before the latest start of every successor listed after it, and exactly one day before that of one of them: the least of their latest starts minus a day. Without successors, the latest finish is the earliest finish. |
| `CriticalPath.Slack` | ms_project_integration/scripts/gantt_calculator.py:183 | Defined exactly when both finishes are days; it is then the number of days between them. |
| `CriticalPath.ZeroSlackTasks` | ms_project_integration/scripts/gantt_calculator.py:179-186 | Succeeds exactly when every slack is defined. The result is a subsequence of the order, and a task of the order is in it if and only if its slack is zero. |
| `CriticalPath.ZeroSlackMembers` | ms_project_integration/scripts/gantt_calculator.py:179-186 | A task is selected exactly when it is in the order and its two finishes are the same day. |
| `CriticalPath.CalculateCriticalPath` | ms_project_integration/scripts/gantt_calculator.py:168-189 | An empty order fails with the IndexError of `task_order[-1]`. A result is a subsequence of the order. |
| `CriticalPath.CriticalPathMembers` | ms_project_integration/scripts/gantt_calculator.py:168-189 | A task is on the critical path exactly when it is in the order and its latest and earliest finish are the same day. |
| `CriticalPath.LastTaskIsCritical` | ms_project_integration/scripts/gantt_calculator.py:229-234 | A successful critical path contains the last task of the order when that task does not also occur earlier. |
| `Importer.GetText` | ms_project_integration/scripts/ms_project_importer.py:110-116 | The child's text when present and non-empty, otherwise the default. |
| `Importer.ParsePriority` | ms_project_integration/scripts/ms_project_importer.py:148-159 | High exactly from 700, Low exactly below 300, and Medium between them and for any text `int()` rejects. |
| `Importer.ParsePriorityMonotone` | ms_project_integration/scripts/ms_project_importer.py:148-159 | A higher number never reads as a lower level. |
| `Importer.ParsePercent` | ms_project_integration/scripts/ms_project_importer.py:141-146 | Text `int()` rejects reads as 0; in particular, any text with no digit at all does. |
| `Importer.ParsePercentPadded` | ms_project_integration/scripts/ms_project_importer.py:141-146 | White space `int()` skips around a number written with `str` is ignored: it reads back as that number. |
| `Importer.ParsePercentOfIntToString` | ms_project_integration/scripts/ms_project_importer.py:141-146 | A percentage written with `str` reads back as itself. |
| `Importer.Status` | ms_project_integration/scripts/ms_project_importer.py:100-106 | Not Started exactly at 0, Completed exactly at 100, In Progress otherwise. |
| `Importer.ParseDuration` | ms_project_integration/scripts/ms_project_importer.py:128-139 | An empty text, "0", a text without "H", a text without "PT", and an hour text `int()` rejects all read as no duration. |
| `Importer.ParseDurationReadsHours` | ms_project_integration/scripts/ms_project_importer.py:128-139 | "PT<h>H" followed by anything reads as h / 8 days. |
| `Importer.ParseDurationOfHours` | ms_project_integration/scripts/ms_project_importer.py:128-139 | "PT<h>H0M0S", the text the exporter writes, reads back as h / 8 days. |
| `Importer.ExtractTask` | ms_project_integration/scripts/ms_project_importer.py:84-108 | Milestone and Critical hold exactly when their element reads "1", and the status follows the progress. |
| `Importer.ExtractTaskDefaults` | ms_project_integration/scripts/ms_project_importer.py:86-97 | Missing elements read as their defaults: no duration, no progress (so Not Started), Medium, not a milestone, not critical. |
| `Exporter.PriorityCode` | ms_project_integration/scripts/ms_project_exporter.py:195-199 | 800 exactly for High, 200 exactly for Low, 500 for anything else. |
| `Exporter.DurationText` | ms_project_integration/scripts/ms_project_exporter.py:182-187 | A Duration element is written exactly for a positive duration. |
| `Exporter.PercentText` | ms_project_integration/scripts/ms_project_exporter.py:189-193 | A PercentComplete element is written exactly for a non-zero progress. |
| `Exporter.PredecessorLink` | ms_project_integration/scripts/ms_project_exporter.py:217-234 | A link element is written exactly for a non-empty cell. A UID, when written, is all the digits of the text run together. Text with digits always gets one; a number, and text without digits, get an empty link. |
| `Exporter.ExportTask` | ms_project_integration/scripts/ms_project_exporter.py:156-234 | Which elements are written, each exactly under the condition the exporter tests, and the text of each; the predecessor link is the one the dependency cell gives. |
| `Interchange.PriorityRoundTrip` | ms_project_integration/scripts/ms_project_exporter.py:195-199 | Each of High, Medium and Low reads back as itself, and any other level reads back as Medium. |
| `Interchange.DurationRoundTrip` | ms_project_integration/scripts/ms_project_importer.py:128-139 | A positive duration reads back as its truncated hours over 8, never more than an eighth of a day less. |
| `Interchange.WholeDaysRoundTrip` | ms_project_integration/scripts/ms_project_exporter.py:182-187 | Whole days read back exactly. |
| `Interchange.ExportThenImport` | ms_project_integration/scripts/ms_project_importer.py:84-108 | What the importer reads from an exported task, field by field. |
| `Interchange.ImportedDuration` | ms_project_integration/scripts/ms_project_importer.py:90 | The duration read from the elements the exporter writes. |
| `Interchange.ImportedProgress` | ms_project_integration/scripts/ms_project_importer.py:91 | The progress read from the elements the exporter writes is the truncated progress. |
| `Interchange.SingleTermUid` | ms_project_integration/scripts/ms_project_exporter.py:224-228 | For a text without commas, the exported UID is the digits of the one id the calculator reads. |
| `Interchange.ListUid` | ms_project_integration/scripts/ms_project_exporter.py:224-228 | For "a,b,...", the exported UID runs all the ids' digits together, while the calculator reads the ids back one by one. |
| `Scenarios.RelationCodeDigitsRunTogether` | ms_project_integration/scripts/gantt_calculator.py:139-147 | "3SS+2" names task 32. |
| `Scenarios.ListExportsOneUid` | ms_project_integration/scripts/ms_project_exporter.py:225 | "4,5" is tasks 4 and 5 to the calculator but one UID, 45, to the exporter. |
| `Scenarios.SubstringSuccessor` | ms_project_integration/scripts/gantt_calculator.py:258-267 | A task depending on "12" is a successor of task 1. |
| `Scenarios.FiveDaysFromMonday` | ms_project_integration/scripts/gantt_calculator.py:156-166 | Five working days from a Monday land on the next Monday. |
| `Scenarios.TwoTasksDates` | ms_project_integration/scripts/gantt_calculator.py:97-133 | Task 1 runs from Monday to the next Monday; task 2, which depends on it, runs from Tuesday to Friday. |
| `Scenarios.LaterPredecessorIgnored` | ms_project_integration/scripts/gantt_calculator.py:103-119 | Listed first, the dependent task starts today, long after its predecessor finishes. |
| `Scenarios.TwoTasksCritical` | ms_project_integration/scripts/gantt_calculator.py:168-189 | Both tasks of the two-task example have zero slack. |
| `Scenarios.SeparatorBeforeNumber` | ms_project_integration/scripts/ms_project_importer.py:141-146 | U+001C before a number is white space to `strip()` but makes `int()` raise. |
| `Scenarios.BackwardsLinkFails` | ms_project_integration/scripts/gantt_calculator.py:242-245 | A task whose successor comes earlier in the order makes `min` of nothing raise. |

## Left out

- Reading and writing Excel workbooks and XML files, logging, and the
  `main` entry points are not modelled. This covers `load_tasks`,
  `update_excel`, `_add_project_metadata` and the importer's file and
  namespace handling. A `<Task>` is given as a map from tag to text.
- Date text is not modelled. This covers `_parse_date`, the Start and
  Finish elements, the exporter's `isoformat` output and the
  ResourceNames element.
- The importer's Predecessors field reads the PredecessorLink element's
  own text, not its PredecessorUID child. It is not modelled.
- Python's `str.isdigit`, `str.lower` and `int()` accept Unicode digits
  and letters. The model uses ASCII digits and letters. White space for
  `str.strip()` is exactly Python's `str.isspace` set: the ASCII and
  Latin-1 spaces and controls, U+1680, U+2000 to U+200A, U+2028, U+2029,
  U+202F, U+205F and U+3000. `int()` skips the same set around a number
  except the ASCII separators U+001C to U+001F.
- Floats are modelled as exact reals. `float(duration) * 8` and `hours / 8`
  can round in Python.
- Time of day is not modelled. The forward pass's `datetime.now()` and
  `calculate_dates`'s midnight "today" are both whole day numbers, given
  as parameters, and the forward pass uses one `now` for every task. The
  source calls `datetime.now()` afresh for each task without a Start Date
  column (gantt_calculator.py:197), and `.days` (line 183) floors a
  difference of less than a day. So two such times a moment apart can
  give a slack of -1 where the model gives 0: with order [3, 1, 2], no
  Start Date column, all durations 0 and task 2 depending on "12,3", task
  1 is critical in the model but not in the source.
- Task ids are natural numbers. Ids of other types are not modelled:
  string ids, which `int(dep_id) in earliest` can never match, and the
  float cells `openpyxl` may return.
- Cells are not modelled as loosely typed values:
  - A `Start Date` cell that is not a date is one non-date value.
    - `None` and a string behave alike on every path the code takes here:
      any arithmetic on them raises.
    - Two strings can be compared by `max`, but the following `+ timedelta`
      raises, so the outcome is the same.
  - A duration cell is its `int(float(...))` value. A cell that `float()`
    rejects, which raises in the source, is not modelled.
  - A cell holding `None` and exported with `str()` would read "None". The
    exporter's `Row` holds text or an absent column only.
- `Schedule.CalculateDates`: requires at least one working weekday. With
  none, the source loops forever on the first task that has a dated
  predecessor or a positive duration. Runs with no working weekday in
  which no task has either end in the source but are not covered. One
  loop body, `Schedule.ScheduleTask`, requires exactly its own
  termination condition.
- `CriticalPath.ForwardPass`: requires at least one working weekday. With
  none, the source loops forever on the first task with a positive
  duration whose earliest start is a date; a task with a positive
  duration whose earliest start raises or is not a date ends the pass
  with an error instead. Runs with no working weekday that end in the
  source, by finishing or by raising, are not covered. One step,
  `CriticalPath.ForwardStep`, requires exactly its own termination
  condition.
- `CriticalPath.CalculateCriticalPath`: requires at least one working
  weekday, like `CriticalPath.ForwardPass`. Its own contract states only
  the empty-order failure and the subsequence property; membership is
  stated by `CriticalPath.CriticalPathMembers`.
- `Importer.ExtractTask`: its contract states only the flags and the
  status. The other fields are stated by `Importer.ExtractTaskDefaults`
  and `Interchange.ExportThenImport`. The id, name and notes are the
  element text or the default, as `Importer.GetText` states.
