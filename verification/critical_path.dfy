/** `GanttCalculator.calculate_critical_path`: a forward pass that gives
    every task its earliest start and finish, a backward pass from the last
    task of the input order that gives its latest start and finish, and the
    tasks whose latest and earliest finish coincide.

    Unlike `calculate_dates`, the passes move by calendar days where they
    step over a dependency (one day after the latest predecessor finish,
    one day before the earliest successor start, the duration back from
    the latest finish); only a task's own duration is counted in working
    days. Successors are found by looking for the decimal text of an id
    anywhere in another task's dependency text. */
module CriticalPath {
  import opened Base
  import opened Text
  import opened Calendar
  import opened Dependencies
  import opened Sweeps
  import opened Schedule

  /** A value the passes record as a start or finish: a day, or the None an
      empty `Start Date` cell holds. Any arithmetic on None, and comparing
      it with anything, raises TypeError. */
  datatype Moment = Day(day: int) | NonDate

  /** One task's `{'start': ..., 'finish': ...}` entry. */
  datatype Times = Times(start: Moment, finish: Moment)

  /** Why `calculate_critical_path` raises: TypeError on a non-date, the
      ValueError of `min([])` when a task has successors but none of them
      is in the backward table yet, or the IndexError of `task_order[-1]`
      on an empty order. */
  datatype Failure = NonDateArithmetic | NoProcessedSuccessor(id: nat) | EmptyTaskOrder

  /** `task.get('Start Date', datetime.now())`. */
  function StartMoment(cell: StartCell, now: int): (m: Moment)
    ensures m.NonDate? <==> cell.NotADate?
    ensures cell.StartsOn? ==> m == Day(cell.day)
    ensures cell.Absent? ==> m == Day(now)
  {
    match cell
    case Absent => Day(now)
    case NotADate => NonDate
    case StartsOn(d) => Day(d)
  }

  /** `m + timedelta(days=n)`. */
  function Shift(m: Moment, n: int): (r: Result<Moment, Failure>)
    ensures r.Ok? <==> m.Day?
    ensures r.Ok? ==> r.value.Day? && r.value.day - m.day == n
  {
    match m
    case Day(d) => Ok(Day(d + n))
    case NonDate => Err(NonDateArithmetic)
  }

  predicate AllDays(ms: seq<Moment>) {
    forall i :: 0 <= i < |ms| ==> ms[i].Day?
  }

  function DaysOf(ms: seq<Moment>): (ds: seq<int>)
    requires AllDays(ms)
    ensures |ds| == |ms|
    ensures forall i :: 0 <= i < |ms| ==> ds[i] == ms[i].day
    decreases |ms|
  {
    if ms == [] then [] else [ms[0].day] + DaysOf(ms[1..])
  }

  /** Python's `max` over moments: a single element is returned without a
      comparison; with more, a non-date in any comparison raises. */
  function MaxMoment(ms: seq<Moment>): (r: Result<Moment, Failure>)
    requires |ms| > 0
    ensures r.Err? <==> |ms| > 1 && !AllDays(ms)
    ensures r.Ok? ==> r.value in ms
    ensures r.Ok? && AllDays(ms) ==> forall i :: 0 <= i < |ms| ==> ms[i].day <= r.value.day
  {
    if |ms| == 1 then Ok(ms[0])
    else if AllDays(ms) then
      var m := Max(DaysOf(ms));
      var i :| 0 <= i < |ms| && DaysOf(ms)[i] == m;
      Ok(Day(m))
    else Err(NonDateArithmetic)
  }

  /** Python's `min` over moments, with the same failures as `MaxMoment`. */
  function MinMoment(ms: seq<Moment>): (r: Result<Moment, Failure>)
    requires |ms| > 0
    ensures r.Err? <==> |ms| > 1 && !AllDays(ms)
    ensures r.Ok? ==> r.value in ms
    ensures r.Ok? && AllDays(ms) ==> forall i :: 0 <= i < |ms| ==> r.value.day <= ms[i].day
  {
    if |ms| == 1 then Ok(ms[0])
    else if AllDays(ms) then
      var m := Min(DaysOf(ms));
      var i :| 0 <= i < |ms| && DaysOf(ms)[i] == m;
      Ok(Day(m))
    else Err(NonDateArithmetic)
  }

  /** `_add_working_days` on a moment: with no day to add the loop never
      runs and the moment comes back unchanged, even a non-date; on a
      non-date the first `+= timedelta` raises; on a date the loop ends
      once there is a working weekday to find. */
  function AddWorkingDaysTo(m: Moment, n: int, workingDays: seq<int>): (r: Result<Moment, Failure>)
    requires n <= 0 || m.NonDate? || HasWorkingDay(workingDays)
    ensures n <= 0 ==> r == Ok(m)
    ensures n > 0 ==> (r.Ok? <==> m.Day?)
    ensures n > 0 && r.Ok? ==>
              && r.value.Day? && m.day < r.value.day && IsWorkingDay(r.value.day, workingDays)
              && CountWorking(m.day, r.value.day, workingDays) == n
  {
    if n <= 0 then Ok(m)
    else match m
      case NonDate => Err(NonDateArithmetic)
      case Day(d) =>
        AddWorkingDaysCounts(d, n, workingDays);
        Ok(Day(AddWorkingDays(d, n, workingDays)))
  }

  /** The finishes of the predecessors already in the forward table, in the
      order the dependency text names them. */
  function PredecessorFinishes(task: Task, earliest: map<nat, Times>): seq<Moment> {
    Lookup(ParseDependencyIds(task.dependencies), earliest, (t: Times) => t.finish)
  }

  /** The earliest start `_forward_pass` gives a task: its own start cell
      when no named predecessor is in the table, otherwise the day after
      the latest of their finishes. */
  function EarliestStart(task: Task, earliest: map<nat, Times>, now: int): (r: Result<Moment, Failure>) {
    var finishes := PredecessorFinishes(task, earliest);
    if finishes == [] then Ok(StartMoment(task.start, now))
    else
      match MaxMoment(finishes)
      case Err(e) => Err(e)
      case Ok(m) => Shift(m, 1)
  }

  /** What a forward step promises of the earliest times it records: a
      task without working days to add finishes when it starts; otherwise
      both are days and the finish is the working day on which the
      `duration`-th working day after the start falls. */
  predicate SpansForward(workingDays: seq<int>, task: Task, t: Times) {
    && (task.duration <= 0 ==> t.finish == t.start)
    && (task.duration > 0 ==>
          && t.start.Day? && t.finish.Day? && t.start.day < t.finish.day
          && IsWorkingDay(t.finish.day, workingDays)
          && CountWorking(t.start.day, t.finish.day, workingDays) == task.duration)
  }

  /** The body of the `_forward_pass` loop ends for this task: with no
      working day to add, when `max` raises or the start is not a date (the
      first step of `_add_working_days` raises), or with a working weekday. */
  predicate ForwardStepEnds(task: Task, earliest: map<nat, Times>, workingDays: seq<int>, now: int) {
    || task.duration <= 0
    || HasWorkingDay(workingDays)
    || !(EarliestStart(task, earliest, now).Ok? && EarliestStart(task, earliest, now).value.Day?)
  }

  /** The body of the `_forward_pass` loop for one task. */
  function ForwardStep(task: Task, earliest: map<nat, Times>, workingDays: seq<int>, now: int): (r: Result<Times, Failure>)
    requires ForwardStepEnds(task, earliest, workingDays, now)
    ensures r.Ok? ==> EarliestStart(task, earliest, now) == Ok(r.value.start)
    ensures r.Ok? ==> SpansForward(workingDays, task, r.value)
    ensures r.Err? ==> r.error == NonDateArithmetic
  {
    match EarliestStart(task, earliest, now)
    case Err(e) => Err(e)
    case Ok(s) =>
      match AddWorkingDaysTo(s, task.duration, workingDays)
      case Err(e) => Err(e)
      case Ok(f) => Ok(Times(s, f))
  }

  /** With no working weekday, a step that has days to add and ends does
      so by raising: `_add_working_days` only ever stops on a working day. */
  lemma ForwardStepWithoutWorkingDays(task: Task, earliest: map<nat, Times>, workingDays: seq<int>, now: int)
    requires !HasWorkingDay(workingDays) && task.duration > 0
    requires ForwardStepEnds(task, earliest, workingDays, now)
    ensures ForwardStep(task, earliest, workingDays, now) == Err(NonDateArithmetic)
  {
  }

  function ForwardStepFn(workingDays: seq<int>, now: int): (map<nat, Times>, nat, Task) -> Result<Times, Failure>
    requires HasWorkingDay(workingDays)
  {
    (earliest: map<nat, Times>, id: nat, task: Task) => ForwardStep(task, earliest, workingDays, now)
  }

  /** `_forward_pass`: the earliest times of every task of `order`, computed
      in that order. */
  function ForwardPass(tasks: map<nat, Task>, order: seq<nat>, workingDays: seq<int>, now: int): (r: Result<map<nat, Times>, Failure>)
    requires Loaded(tasks, order) && HasWorkingDay(workingDays)
    ensures r.Ok? ==> forall i :: 0 <= i < |order| ==> order[i] in r.value
  {
    SweepOrFail(map[], tasks, order, |order|, ForwardStepFn(workingDays, now))
  }

  /** `_find_successors(id)`: the tasks, in the key order of the task dict,
      whose dependency text contains the decimal text of `id` anywhere. */
  function FindSuccessors(tasks: map<nat, Task>, keys: seq<nat>, id: nat): (r: seq<nat>)
    requires forall i :: 0 <= i < |keys| ==> keys[i] in tasks
    ensures IsSubsequence(r, keys)
    ensures forall i :: 0 <= i < |r| ==> r[i] in tasks && Contains(tasks[r[i]].dependencies, NatToString(id))
    ensures forall i :: 0 <= i < |keys| && Contains(tasks[keys[i]].dependencies, NatToString(id)) ==> keys[i] in r
    decreases |keys|
  {
    if keys == [] then []
    else
      var rest := FindSuccessors(tasks, keys[1..], id);
      assert forall i :: 1 <= i < |keys| ==> keys[i] == keys[1..][i - 1];
      if Contains(tasks[keys[0]].dependencies, NatToString(id)) then [keys[0]] + rest else rest
  }

  /** The latest finish `_backward_pass` gives a task that is not the last:
      the day before the earliest start of its successors already in the
      backward table; its earliest finish when it has no successor at all. */
  function LatestFinishFromSuccessors(tasks: map<nat, Task>, keys: seq<nat>, id: nat, early: Times, latest: map<nat, Times>):
    (r: Result<Moment, Failure>)
    requires forall i :: 0 <= i < |keys| ==> keys[i] in tasks
  {
    var succs := FindSuccessors(tasks, keys, id);
    if succs == [] then Ok(early.finish)
    else
      var starts := Lookup(succs, latest, (t: Times) => t.start);
      if starts == [] then Err(NoProcessedSuccessor(id))
      else
        match MinMoment(starts)
        case Err(e) => Err(e)
        case Ok(m) => Shift(m, -1)
  }

  /** The body of the `_backward_pass` loop for one task; `row` pairs the
      task with its earliest times. */
  function BackwardStep(tasks: map<nat, Task>, keys: seq<nat>, id: nat, row: (Task, Times), latest: map<nat, Times>):
    (r: Result<Times, Failure>)
    requires forall i :: 0 <= i < |keys| ==> keys[i] in tasks
    ensures r.Ok? ==> LatestFinishFromSuccessors(tasks, keys, id, row.1, latest) == Ok(r.value.finish)
    ensures r.Ok? ==> r.value.start.Day? && r.value.finish.Day? && r.value.finish.day - r.value.start.day == row.0.duration
    ensures r.Err? ==> r.error == NonDateArithmetic || r.error == NoProcessedSuccessor(id)
    ensures r == Err(NoProcessedSuccessor(id)) <==>
              FindSuccessors(tasks, keys, id) != [] && forall s :: s in FindSuccessors(tasks, keys, id) ==> s !in latest
  {
    NoProcessedSuccessorWhen(tasks, keys, id, latest);
    match LatestFinishFromSuccessors(tasks, keys, id, row.1, latest)
    case Err(e) => Err(e)
    case Ok(f) =>
      match Shift(f, -row.0.duration)
      case Err(e) => Err(e)
      case Ok(s) => Ok(Times(s, f))
  }

  /** The successors are looked up in the backward table exactly when
      there are some, and the lookup is empty exactly when none of them is
      in the table yet. */
  lemma NoProcessedSuccessorWhen(tasks: map<nat, Task>, keys: seq<nat>, id: nat, latest: map<nat, Times>)
    requires forall i :: 0 <= i < |keys| ==> keys[i] in tasks
    ensures var succs := FindSuccessors(tasks, keys, id);
            Lookup(succs, latest, (t: Times) => t.start) == [] <==> forall s :: s in succs ==> s !in latest
  {
    var succs := FindSuccessors(tasks, keys, id);
    LookupSpec(succs, latest, (t: Times) => t.start);
    if exists s :: s in succs && s in latest {
      var s :| s in succs && s in latest;
      var i :| 0 <= i < |succs| && succs[i] == s;
    }
  }

  function BackwardStepFn(tasks: map<nat, Task>, keys: seq<nat>): (map<nat, Times>, nat, (Task, Times)) -> Result<Times, Failure>
    requires forall i :: 0 <= i < |keys| ==> keys[i] in tasks
  {
    (latest: map<nat, Times>, id: nat, row: (Task, Times)) => BackwardStep(tasks, keys, id, row, latest)
  }

  /** Each task with its earliest times. */
  function BackwardRows(tasks: map<nat, Task>, earliest: map<nat, Times>): map<nat, (Task, Times)> {
    map id | id in tasks && id in earliest :: (tasks[id], earliest[id])
  }

  /** `reversed(task_order[:-1])`. */
  function BackwardOrder(order: seq<nat>): (r: seq<nat>)
    requires |order| > 0
    ensures |r| == |order| - 1
    ensures forall i :: 0 <= i < |r| ==> r[i] == order[|order| - 2 - i]
  {
    Reverse(order[..|order| - 1])
  }

  /** `_backward_pass`: the last task of the order keeps its earliest
      times; the others are visited from the back. */
  function BackwardPass(tasks: map<nat, Task>, order: seq<nat>, earliest: map<nat, Times>): (r: Result<map<nat, Times>, Failure>)
    requires Loaded(tasks, order)
    requires forall i :: 0 <= i < |order| ==> order[i] in earliest
    ensures r.Ok? ==> forall i :: 0 <= i < |order| ==> order[i] in r.value
  {
    if order == [] then Err(EmptyTaskOrder)
    else
      var last := order[|order| - 1];
      BackwardSweepKeys(tasks, order, earliest);
      SweepOrFail(map[last := earliest[last]], BackwardRows(tasks, earliest), BackwardOrder(order), |order| - 1,
                  BackwardStepFn(tasks, Dedup(order)))
  }

  /** Every task of the order has a row for the backward sweep. */
  lemma BackwardRowsLoaded(tasks: map<nat, Task>, order: seq<nat>, earliest: map<nat, Times>)
    requires Loaded(tasks, order) && order != []
    requires forall i :: 0 <= i < |order| ==> order[i] in earliest
    ensures Loaded(BackwardRows(tasks, earliest), BackwardOrder(order))
  {
    var back := BackwardOrder(order);
    forall i | 0 <= i < |back|
      ensures back[i] in BackwardRows(tasks, earliest)
    {
      var j := |order| - 2 - i;
      assert back[i] == order[j];
    }
  }

  /** Every task of the order has a row for the backward sweep, and a
      successful sweep has a record for each of them. */
  lemma {:induction false} BackwardSweepKeys(tasks: map<nat, Task>, order: seq<nat>, earliest: map<nat, Times>)
    requires Loaded(tasks, order) && order != []
    requires forall i :: 0 <= i < |order| ==> order[i] in earliest
    ensures Loaded(BackwardRows(tasks, earliest), BackwardOrder(order))
    ensures var last := order[|order| - 1];
            var r := SweepOrFail(map[last := earliest[last]], BackwardRows(tasks, earliest), BackwardOrder(order), |order| - 1,
                                 BackwardStepFn(tasks, Dedup(order)));
            r.Ok? ==> forall i :: 0 <= i < |order| ==> order[i] in r.value
  {
    BackwardRowsLoaded(tasks, order, earliest);
    var last := order[|order| - 1];
    var init, rows, step := map[last := earliest[last]], BackwardRows(tasks, earliest), BackwardStepFn(tasks, Dedup(order));
    ReversedSweepKeys(init, rows, order, step);
  }

  /** A sweep over all but the last id of the order, backwards, from records
      that hold the last one, ends with a record for every id of the order. */
  lemma ReversedSweepKeys<R>(init: map<nat, Times>, rows: map<nat, R>, order: seq<nat>,
                             step: (map<nat, Times>, nat, R) -> Result<Times, Failure>)
    requires order != [] && order[|order| - 1] in init
    requires Loaded(rows, BackwardOrder(order))
    ensures var r := SweepOrFail(init, rows, BackwardOrder(order), |order| - 1, step);
            r.Ok? ==> forall i :: 0 <= i < |order| ==> order[i] in r.value
  {
    var n := |order|;
    var back := BackwardOrder(order);
    var r := SweepOrFail(init, rows, back, n - 1, step);
    if r.Ok? {
      forall i | 0 <= i < n
        ensures order[i] in r.value
      {
        if i < n - 1 {
          assert order[i] == back[n - 2 - i];
        } else {
          SweepOrFailKeys(init, rows, back, n - 1, step);
        }
      }
    }
  }

  /** `_backward_pass` raises IndexError exactly on an empty order; its other
      failures are a non-date or a missing successor. */
  lemma BackwardPassEmptyOrder(tasks: map<nat, Task>, order: seq<nat>, earliest: map<nat, Times>)
    requires Loaded(tasks, order)
    requires forall i :: 0 <= i < |order| ==> order[i] in earliest
    ensures BackwardPass(tasks, order, earliest) == Err(EmptyTaskOrder) <==> order == []
  {
    if order != [] {
      var n := |order|;
      var last := order[n - 1];
      var keys := Dedup(order);
      var step := BackwardStepFn(tasks, keys);
      assert forall m, id, row :: step(m, id, row).Err? ==> step(m, id, row).error != EmptyTaskOrder;
      BackwardSweepKeys(tasks, order, earliest);
      SweepNeverEmptyOrder(map[last := earliest[last]], BackwardRows(tasks, earliest), BackwardOrder(order), n - 1, step);
    }
  }

  /** A sweep whose steps never report an empty order does not either. */
  lemma {:induction false} SweepNeverEmptyOrder<R>(init: map<nat, Times>, rows: map<nat, R>, order: seq<nat>, k: nat,
                                                  step: (map<nat, Times>, nat, R) -> Result<Times, Failure>)
    requires Loaded(rows, order) && k <= |order|
    requires forall m, id, row :: step(m, id, row).Err? ==> step(m, id, row).error != EmptyTaskOrder
    ensures SweepOrFail(init, rows, order, k, step).Err? ==> SweepOrFail(init, rows, order, k, step).error != EmptyTaskOrder
    decreases k
  {
    if k > 0 {
      SweepNeverEmptyOrder(init, rows, order, k - 1, step);
    }
  }

  /** `(latest_finish - earliest_finish).days`. */
  function Slack(late: Moment, early: Moment): (r: Result<int, Failure>)
    ensures r.Ok? <==> late.Day? && early.Day?
    ensures r.Ok? ==> early.day + r.value == late.day
  {
    if late.Day? && early.Day? then Ok(late.day - early.day) else Err(NonDateArithmetic)
  }

  /** The loop of `calculate_critical_path` over the order: the tasks with
      zero slack, in order; the first non-date finish raises. */
  function ZeroSlackTasks(order: seq<nat>, earliest: map<nat, Times>, latest: map<nat, Times>): (r: Result<seq<nat>, Failure>)
    requires forall i :: 0 <= i < |order| ==> order[i] in earliest && order[i] in latest
    ensures r.Ok? <==> forall i :: 0 <= i < |order| ==> Slack(latest[order[i]].finish, earliest[order[i]].finish).Ok?
    ensures r.Ok? ==> IsSubsequence(r.value, order)
    ensures r.Ok? ==> forall i :: 0 <= i < |r.value| ==> r.value[i] in earliest && r.value[i] in latest &&
                                                         Slack(latest[r.value[i]].finish, earliest[r.value[i]].finish) == Ok(0)
    ensures r.Ok? ==> forall i :: 0 <= i < |order| && Slack(latest[order[i]].finish, earliest[order[i]].finish) == Ok(0) ==>
                                    order[i] in r.value
    decreases |order|
  {
    if order == [] then Ok([])
    else
      var id := order[0];
      assert forall i :: 1 <= i < |order| ==> order[i] == order[1..][i - 1];
      match Slack(latest[id].finish, earliest[id].finish)
      case Err(e) => Err(e)
      case Ok(s) =>
        match ZeroSlackTasks(order[1..], earliest, latest)
        case Err(e) => Err(e)
        case Ok(rest) => if s == 0 then Ok([id] + rest) else Ok(rest)
  }

  /** `calculate_critical_path`. */
  function CalculateCriticalPath(tasks: map<nat, Task>, order: seq<nat>, workingDays: seq<int>, now: int):
    (r: Result<seq<nat>, Failure>)
    requires Loaded(tasks, order) && HasWorkingDay(workingDays)
    ensures order == [] ==> r == Err(EmptyTaskOrder)
    ensures r.Ok? ==> IsSubsequence(r.value, order)
  {
    match ForwardPass(tasks, order, workingDays, now)
    case Err(e) => Err(e)
    case Ok(earliest) =>
      match BackwardPass(tasks, order, earliest)
      case Err(e) => Err(e)
      case Ok(latest) => ZeroSlackTasks(order, earliest, latest)
  }

  /** Both moments of a record are days. */
  predicate Dated(t: Times) {
    t.start.Day? && t.finish.Day?
  }

  /** Fed dated records, the forward step of a task with a start date (or
      no start column) succeeds and yields dated times. */
  lemma ForwardStepDated(task: Task, earliest: map<nat, Times>, workingDays: seq<int>, now: int)
    requires task.duration <= 0 || HasWorkingDay(workingDays)
    requires !task.start.NotADate?
    requires Every(earliest, Dated)
    ensures ForwardStep(task, earliest, workingDays, now).Ok?
    ensures Dated(ForwardStep(task, earliest, workingDays, now).value)
  {
    var ids := ParseDependencyIds(task.dependencies);
    var finishes := PredecessorFinishes(task, earliest);
    LookupSpec(ids, earliest, (t: Times) => t.finish);
    assert AllDays(finishes) by {
      forall i | 0 <= i < |finishes|
        ensures finishes[i].Day?
      {
        assert finishes[i] in finishes;
      }
    }
  }

  /** When no start cell is a non-date, the forward pass succeeds and dates
      every task. */
  lemma ForwardPassDated(tasks: map<nat, Task>, order: seq<nat>, workingDays: seq<int>, now: int)
    requires Loaded(tasks, order) && HasWorkingDay(workingDays)
    requires forall i :: 0 <= i < |order| ==> !tasks[order[i]].start.NotADate?
    ensures ForwardPass(tasks, order, workingDays, now).Ok?
    ensures Every(ForwardPass(tasks, order, workingDays, now).value, Dated)
  {
    var step := ForwardStepFn(workingDays, now);
    forall m, i | 0 <= i < |order| && Every(m, Dated)
      ensures step(m, order[i], tasks[order[i]]).Ok? && Dated(step(m, order[i], tasks[order[i]]).value)
    {
      ForwardStepDated(tasks[order[i]], m, workingDays, now);
    }
    SweepOrFailSucceeds(map[], tasks, order, |order|, step, Dated);
  }

  /** With no repeated ids, the earliest times of the task at position `i`
      are what the forward step computes from the forward pass over the
      tasks before it. */
  lemma ForwardAt(tasks: map<nat, Task>, order: seq<nat>, workingDays: seq<int>, now: int, i: nat)
    requires Loaded(tasks, order) && HasWorkingDay(workingDays)
    requires Distinct(order) && i < |order|
    requires ForwardPass(tasks, order, workingDays, now).Ok?
    ensures Loaded(tasks, order[..i])
    ensures ForwardPass(tasks, order[..i], workingDays, now).Ok?
    ensures ForwardStep(tasks[order[i]], ForwardPass(tasks, order[..i], workingDays, now).value, workingDays, now) ==
            Ok(ForwardPass(tasks, order, workingDays, now).value[order[i]])
  {
    var step := ForwardStepFn(workingDays, now);
    PrefixLoaded(tasks, order, i);
    SweepOrFailAt(map[], tasks, order, |order|, i, step);
    SweepOrFailAgree(map[], tasks, order, order[..i], i, step);
  }

  /** After a successful forward pass every listed task, repeated or not,
      has earliest times that span its duration: its finish is the working
      day `duration` working days after its start. */
  lemma ForwardRecordsSpan(tasks: map<nat, Task>, order: seq<nat>, workingDays: seq<int>, now: int)
    requires Loaded(tasks, order) && HasWorkingDay(workingDays)
    requires ForwardPass(tasks, order, workingDays, now).Ok?
    ensures var earliest := ForwardPass(tasks, order, workingDays, now).value;
            forall i :: 0 <= i < |order| ==> SpansForward(workingDays, tasks[order[i]], earliest[order[i]])
  {
    var step := ForwardStepFn(workingDays, now);
    var spans := (id: nat, task: Task, t: Times) => SpansForward(workingDays, task, t);
    forall m, id, task | step(m, id, task).Ok?
      ensures spans(id, task, step(m, id, task).value)
    {
    }
    SweepOrFailHolds(map[], tasks, order, |order|, step, spans);
  }

  /** A successful forward step starts a task with a dated predecessor the
      calendar day after the latest predecessor finish: later than every
      named predecessor in the table, which are all dated. */
  lemma ForwardStepAfterPredecessors(task: Task, earliest: map<nat, Times>, workingDays: seq<int>, now: int)
    requires ForwardStepEnds(task, earliest, workingDays, now)
    requires ForwardStep(task, earliest, workingDays, now).Ok?
    ensures var r := ForwardStep(task, earliest, workingDays, now).value;
            var ids := ParseDependencyIds(task.dependencies);
            forall id :: id in ids && id in earliest ==>
              earliest[id].finish.Day? && r.start.Day? && earliest[id].finish.day < r.start.day
    ensures var r := ForwardStep(task, earliest, workingDays, now).value;
            var ids := ParseDependencyIds(task.dependencies);
            HasResolvedPredecessor(ids, earliest) ==>
              exists id :: id in ids && id in earliest && earliest[id].finish == Day(r.start.day - 1)
  {
    var r := ForwardStep(task, earliest, workingDays, now).value;
    EarliestStartAfterPredecessors(task, earliest, now);
  }

  /** The start a task gets from its dated predecessors. */
  lemma EarliestStartAfterPredecessors(task: Task, earliest: map<nat, Times>, now: int)
    requires EarliestStart(task, earliest, now).Ok?
    ensures var s := EarliestStart(task, earliest, now).value;
            var ids := ParseDependencyIds(task.dependencies);
            forall id :: id in ids && id in earliest ==>
              earliest[id].finish.Day? && s.Day? && earliest[id].finish.day < s.day
    ensures var s := EarliestStart(task, earliest, now).value;
            var ids := ParseDependencyIds(task.dependencies);
            HasResolvedPredecessor(ids, earliest) ==>
              exists id :: id in ids && id in earliest && earliest[id].finish == Day(s.day - 1)
  {
    var ids := ParseDependencyIds(task.dependencies);
    var finishes := PredecessorFinishes(task, earliest);
    LookupSpec(ids, earliest, (t: Times) => t.finish);
    if finishes != [] {
      var m := MaxMoment(finishes);
      assert m.Ok?;
      assert AllDays(finishes) by {
        if |finishes| == 1 {
          assert finishes[0] == m.value;
        }
      }
      forall id | id in ids && id in earliest
        ensures earliest[id].finish.Day? && earliest[id].finish.day <= m.value.day
      {
        var i :| 0 <= i < |ids| && ids[i] == id;
        var k :| 0 <= k < |finishes| && finishes[k] == earliest[id].finish;
      }
      var k :| 0 <= k < |finishes| && finishes[k] == m.value;
      var i :| 0 <= i < |ids| && ids[i] in earliest && earliest[ids[i]].finish == finishes[k];
      assert ids[i] in ids;
    }
  }

  /** When a predecessor comes earlier in the order (and no id is repeated),
      a successful forward pass dates both and starts the successor after
      the predecessor's earliest finish. */
  lemma ForwardEarlierPredecessor(tasks: map<nat, Task>, order: seq<nat>, i: nat, j: nat, workingDays: seq<int>, now: int)
    requires Loaded(tasks, order) && HasWorkingDay(workingDays)
    requires Distinct(order) && i < j < |order|
    requires order[i] in ParseDependencyIds(tasks[order[j]].dependencies)
    requires ForwardPass(tasks, order, workingDays, now).Ok?
    ensures var e := ForwardPass(tasks, order, workingDays, now).value;
            e[order[i]].finish.Day? && e[order[j]].start.Day? && e[order[i]].finish.day < e[order[j]].start.day
  {
    var step := ForwardStepFn(workingDays, now);
    var n := |order|;
    SweepOrFailAt(map[], tasks, order, n, j, step);
    SweepOrFailAt(map[], tasks, order, n, i, step);
    SweepOrFailAt(map[], tasks, order, j, i, step);
    var before := SweepOrFail(map[], tasks, order, j, step).value;
    assert order[i] in before;
    ForwardStepAfterPredecessors(tasks[order[j]], before, workingDays, now);
  }

  /** A successful backward step: a task without successors keeps its
      earliest finish; one with successors finishes the calendar day before
      the earliest start among those already in the table, which are all
      dated and all start after it. */
  lemma BackwardStepSpec(tasks: map<nat, Task>, keys: seq<nat>, id: nat, row: (Task, Times), latest: map<nat, Times>)
    requires forall i :: 0 <= i < |keys| ==> keys[i] in tasks
    requires BackwardStep(tasks, keys, id, row, latest).Ok?
    ensures var r := BackwardStep(tasks, keys, id, row, latest).value;
            FindSuccessors(tasks, keys, id) == [] ==> r.finish == row.1.finish
    ensures var r := BackwardStep(tasks, keys, id, row, latest).value;
            forall s :: s in FindSuccessors(tasks, keys, id) && s in latest ==>
              latest[s].start.Day? && r.finish.day < latest[s].start.day
    ensures var r := BackwardStep(tasks, keys, id, row, latest).value;
            FindSuccessors(tasks, keys, id) != [] ==>
              exists s :: s in FindSuccessors(tasks, keys, id) && s in latest && latest[s].start == Day(r.finish.day + 1)
  {
    var succs := FindSuccessors(tasks, keys, id);
    if succs != [] {
      var starts := Lookup(succs, latest, (t: Times) => t.start);
      LookupSpec(succs, latest, (t: Times) => t.start);
      var m := MinMoment(starts);
      assert m.Ok?;
      assert AllDays(starts) by {
        if |starts| == 1 {
          assert starts[0] == m.value;
        }
      }
      forall s | s in succs && s in latest
        ensures latest[s].start.Day? && latest[s].start.day >= m.value.day
      {
        var i :| 0 <= i < |succs| && succs[i] == s;
        var k :| 0 <= k < |starts| && starts[k] == latest[s].start;
      }
      var k :| 0 <= k < |starts| && starts[k] == m.value;
      var i :| 0 <= i < |succs| && succs[i] in latest && latest[succs[i]].start == starts[k];
      assert succs[i] in succs;
    }
  }

  /** The last task of the order keeps its earliest times when it does not
      also occur earlier in the order. */
  lemma LastTaskPinned(tasks: map<nat, Task>, order: seq<nat>, earliest: map<nat, Times>)
    requires Loaded(tasks, order) && order != []
    requires forall i :: 0 <= i < |order| ==> order[i] in earliest
    requires forall i :: 0 <= i < |order| - 1 ==> order[i] != order[|order| - 1]
    requires BackwardPass(tasks, order, earliest).Ok?
    ensures var last := order[|order| - 1];
            BackwardPass(tasks, order, earliest).value[last] == earliest[last]
  {
    var last := order[|order| - 1];
    BackwardRowsLoaded(tasks, order, earliest);
    ReversedSweepKeepsLast(map[last := earliest[last]], BackwardRows(tasks, earliest), order,
                           BackwardStepFn(tasks, Dedup(order)));
  }

  /** A sweep backwards over all but the last id keeps the initial record
      of the last id when that id does not occur earlier. */
  lemma ReversedSweepKeepsLast<R>(init: map<nat, Times>, rows: map<nat, R>, order: seq<nat>,
                                  step: (map<nat, Times>, nat, R) -> Result<Times, Failure>)
    requires order != [] && order[|order| - 1] in init
    requires forall i :: 0 <= i < |order| - 1 ==> order[i] != order[|order| - 1]
    requires Loaded(rows, BackwardOrder(order))
    requires SweepOrFail(init, rows, BackwardOrder(order), |order| - 1, step).Ok?
    ensures var r := SweepOrFail(init, rows, BackwardOrder(order), |order| - 1, step).value;
            order[|order| - 1] in r && r[order[|order| - 1]] == init[order[|order| - 1]]
  {
    var n := |order|;
    var last := order[n - 1];
    var back := BackwardOrder(order);
    forall i | 0 <= i < n - 1
      ensures back[i] != last
    {
      assert back[i] == order[n - 2 - i];
    }
    SweepOrFailKeeps(init, rows, back, n - 1, step, last);
  }

  /** What every backward step promises of the record it makes: both
      moments are days, the duration apart in calendar days. */
  predicate SpansBack(id: nat, row: (Task, Times), t: Times) {
    Dated(t) && t.finish.day - t.start.day == row.0.duration
  }

  /** After a successful backward pass, every task but the last (unless it
      also occurs earlier) has latest times that are days, its latest start
      exactly its duration in calendar days before its latest finish. */
  lemma BackwardRecordsSpan(tasks: map<nat, Task>, order: seq<nat>, earliest: map<nat, Times>)
    requires Loaded(tasks, order) && order != []
    requires forall i :: 0 <= i < |order| ==> order[i] in earliest
    requires BackwardPass(tasks, order, earliest).Ok?
    ensures var latest := BackwardPass(tasks, order, earliest).value;
            forall i :: 0 <= i < |order| - 1 ==>
              Dated(latest[order[i]]) && latest[order[i]].finish.day - latest[order[i]].start.day == tasks[order[i]].duration
  {
    var last := order[|order| - 1];
    var step := BackwardStepFn(tasks, Dedup(order));
    BackwardRowsLoaded(tasks, order, earliest);
    forall m, id, row | step(m, id, row).Ok?
      ensures SpansBack(id, row, step(m, id, row).value)
    {
    }
    ReversedSweepHolds(map[last := earliest[last]], BackwardRows(tasks, earliest), order, step, SpansBack);
  }

  /** A property every successful step has holds, after a successful sweep
      backwards over all but the last id, of the record of each of those ids. */
  lemma ReversedSweepHolds<R>(init: map<nat, Times>, rows: map<nat, R>, order: seq<nat>,
                              step: (map<nat, Times>, nat, R) -> Result<Times, Failure>, p: (nat, R, Times) -> bool)
    requires order != [] && Loaded(rows, BackwardOrder(order))
    requires forall m, id, row :: step(m, id, row).Ok? ==> p(id, row, step(m, id, row).value)
    requires SweepOrFail(init, rows, BackwardOrder(order), |order| - 1, step).Ok?
    ensures var r := SweepOrFail(init, rows, BackwardOrder(order), |order| - 1, step).value;
            forall i :: 0 <= i < |order| - 1 ==> order[i] in rows && order[i] in r && p(order[i], rows[order[i]], r[order[i]])
  {
    var n := |order|;
    var back := BackwardOrder(order);
    SweepOrFailHolds(init, rows, back, n - 1, step, p);
    forall i | 0 <= i < n - 1
      ensures order[i] == back[n - 2 - i]
    {
    }
  }

  /** With no repeated ids, the latest times of a task that is not the last
      are what the backward step computes from a table that agrees with the
      final one on every task after it in the order. */
  lemma BackwardAt(tasks: map<nat, Task>, order: seq<nat>, earliest: map<nat, Times>, i: nat) returns (before: map<nat, Times>)
    requires Loaded(tasks, order) && Distinct(order) && i < |order| - 1
    requires forall k :: 0 <= k < |order| ==> order[k] in earliest
    requires BackwardPass(tasks, order, earliest).Ok?
    ensures var latest := BackwardPass(tasks, order, earliest).value;
            BackwardStep(tasks, Dedup(order), order[i], (tasks[order[i]], earliest[order[i]]), before) == Ok(latest[order[i]])
    ensures var latest := BackwardPass(tasks, order, earliest).value;
            forall q :: i < q < |order| ==> order[q] in before && before[order[q]] == latest[order[q]]
    ensures forall id :: id in before <==> exists q :: i < q < |order| && order[q] == id
  {
    var last := order[|order| - 1];
    var rows := BackwardRows(tasks, earliest);
    var step := BackwardStepFn(tasks, Dedup(order));
    BackwardRowsLoaded(tasks, order, earliest);
    var init := map[last := earliest[last]];
    before := ReversedSweepAt(init, rows, order, step, i);
    LaterKeys(order, i, init, before);
    assert rows[order[i]] == (tasks[order[i]], earliest[order[i]]);
  }

  /** The position lemma for a sweep backwards over all but the last id,
      from records that hold the last one. */
  lemma ReversedSweepAt<R>(init: map<nat, Times>, rows: map<nat, R>, order: seq<nat>,
                           step: (map<nat, Times>, nat, R) -> Result<Times, Failure>, i: nat) returns (before: map<nat, Times>)
    requires Distinct(order) && i < |order| - 1 && order[|order| - 1] in init
    requires Loaded(rows, BackwardOrder(order))
    requires SweepOrFail(init, rows, BackwardOrder(order), |order| - 1, step).Ok?
    ensures var r := SweepOrFail(init, rows, BackwardOrder(order), |order| - 1, step).value;
            order[i] in rows && order[i] in r && step(before, order[i], rows[order[i]]) == Ok(r[order[i]])
    ensures var r := SweepOrFail(init, rows, BackwardOrder(order), |order| - 1, step).value;
            forall q :: i < q < |order| ==> order[q] in before && order[q] in r && before[order[q]] == r[order[q]]
    ensures forall id :: id in before <==> id in init || exists q :: i < q < |order| - 1 && order[q] == id
  {
    var n := |order|;
    var last := order[n - 1];
    var back := BackwardOrder(order);
    assert Distinct(back) by {
      forall x, y | 0 <= x < y < |back|
        ensures back[x] != back[y]
      {
        assert back[x] == order[n - 2 - x] && back[y] == order[n - 2 - y];
      }
    }
    var b := n - 2 - i;
    assert back[b] == order[i];
    SweepOrFailAt(init, rows, back, n - 1, b, step);
    before := SweepOrFail(init, rows, back, b, step).value;
    var latest := SweepOrFail(init, rows, back, n - 1, step).value;
    ReversedSweepKeysBefore(init, rows, order, step, i);
    forall q | i < q < n
      ensures order[q] in before && order[q] in latest && before[order[q]] == latest[order[q]]
    {
      if q == n - 1 {
        forall k | 0 <= k < n - 1
          ensures back[k] != last
        {
          assert back[k] == order[n - 2 - k];
        }
        SweepOrFailKeeps(init, rows, back, b, step, last);
        SweepOrFailKeeps(init, rows, back, n - 1, step, last);
      } else {
        var c := n - 2 - q;
        assert back[c] == order[q];
        SweepOrFailAt(init, rows, back, b, c, step);
        SweepOrFailAt(init, rows, back, n - 1, c, step);
      }
    }
  }

  /** The backward sweep has records, before it reaches the task at
      position `i`, for its initial ids and the ids listed after `i` but
      before the last. */
  lemma ReversedSweepKeysBefore<R>(init: map<nat, Times>, rows: map<nat, R>, order: seq<nat>,
                                   step: (map<nat, Times>, nat, R) -> Result<Times, Failure>, i: nat)
    requires i < |order| - 1
    requires Loaded(rows, BackwardOrder(order))
    requires SweepOrFail(init, rows, BackwardOrder(order), |order| - 2 - i, step).Ok?
    ensures forall id :: id in SweepOrFail(init, rows, BackwardOrder(order), |order| - 2 - i, step).value <==>
                         id in init || exists q :: i < q < |order| - 1 && order[q] == id
  {
    var back := BackwardOrder(order);
    var b := |order| - 2 - i;
    SweepOrFailKeys(init, rows, back, b, step);
    ReversedPrefix(order, back[..b], i);
  }

  /** A table holding the last id and the ids listed after position `i`
      holds exactly the ids listed after `i`. */
  lemma LaterKeys(order: seq<nat>, i: nat, init: map<nat, Times>, before: map<nat, Times>)
    requires i < |order| - 1 && init.Keys == {order[|order| - 1]}
    requires forall id :: id in before <==> id in init || exists q :: i < q < |order| - 1 && order[q] == id
    ensures forall id :: id in before <==> exists q :: i < q < |order| && order[q] == id
  {
    forall id
      ensures id in before <==> exists q :: i < q < |order| && order[q] == id
    {
      if id in init {
        assert order[|order| - 1] == id;
      } else if exists q :: i < q < |order| && order[q] == id {
        var q :| i < q < |order| && order[q] == id;
        assert q < |order| - 1;
      }
    }
  }

  /** The ids the backward sweep visits before the task at position `i`
      are those listed after it, the last one excepted. */
  lemma ReversedPrefix(order: seq<nat>, prefix: seq<nat>, i: nat)
    requires i < |order| - 1 && prefix == BackwardOrder(order)[..|order| - 2 - i]
    ensures forall id :: id in prefix <==> exists q :: i < q < |order| - 1 && order[q] == id
  {
    var n := |order|;
    forall id
      ensures id in prefix <==> exists q :: i < q < n - 1 && order[q] == id
    {
      if id in prefix {
        var k :| 0 <= k < |prefix| && prefix[k] == id;
        assert order[n - 2 - k] == id;
      }
      if exists q :: i < q < n - 1 && order[q] == id {
        var q :| i < q < n - 1 && order[q] == id;
        assert prefix[n - 2 - q] == id;
      }
    }
  }

  /** A successor in a table of the later tasks, whose records agree with
      the final ones, is a later task with the same final record. */
  lemma LaterSuccessor(order: seq<nat>, i: nat, succs: seq<nat>, before: map<nat, Times>, latest: map<nat, Times>, m: Moment)
    requires forall q :: i < q < |order| ==> order[q] in before && order[q] in latest && before[order[q]] == latest[order[q]]
    requires forall id :: id in before <==> exists q :: i < q < |order| && order[q] == id
    requires exists s :: s in succs && s in before && before[s].start == m
    ensures exists q :: i < q < |order| && order[q] in succs && order[q] in latest && latest[order[q]].start == m
  {
    var s :| s in succs && s in before && before[s].start == m;
    var q :| i < q < |order| && order[q] == s;
    assert order[q] in succs && order[q] in latest && latest[order[q]].start == m;
  }

  /** With no repeated ids, a task that is not the last finishes, at the
      latest, before every successor after it in the order starts at the
      latest; with no successor at all, its latest finish is its earliest. */
  lemma LatestBeforeSuccessors(tasks: map<nat, Task>, order: seq<nat>, earliest: map<nat, Times>, i: nat)
    requires Loaded(tasks, order) && Distinct(order) && i < |order| - 1
    requires forall k :: 0 <= k < |order| ==> order[k] in earliest
    requires BackwardPass(tasks, order, earliest).Ok?
    ensures var latest := BackwardPass(tasks, order, earliest).value;
            forall q :: i < q < |order| && order[q] in FindSuccessors(tasks, Dedup(order), order[i]) ==>
              latest[order[i]].finish.Day? && latest[order[q]].start.Day? &&
              latest[order[i]].finish.day < latest[order[q]].start.day
    ensures var latest := BackwardPass(tasks, order, earliest).value;
            FindSuccessors(tasks, Dedup(order), order[i]) == [] ==> latest[order[i]].finish == earliest[order[i]].finish
    ensures var latest := BackwardPass(tasks, order, earliest).value;
            FindSuccessors(tasks, Dedup(order), order[i]) != [] ==>
              && latest[order[i]].finish.Day?
              && exists q :: i < q < |order| && order[q] in FindSuccessors(tasks, Dedup(order), order[i]) &&
                               latest[order[q]].start == Day(latest[order[i]].finish.day + 1)
  {
    var latest := BackwardPass(tasks, order, earliest).value;
    var before := BackwardAt(tasks, order, earliest, i);
    var keys, id, row := Dedup(order), order[i], (tasks[order[i]], earliest[order[i]]);
    var succs := FindSuccessors(tasks, keys, id);
    BackwardStepSpec(tasks, keys, id, row, before);
    if succs != [] {
      var r := latest[id];
      LaterSuccessor(order, i, succs, before, latest, Day(r.finish.day + 1));
    }
  }

  /** A successful critical path contains the last task of the order when
      it does not also occur earlier: it keeps its earliest times, so its
      slack is zero. */
  lemma LastTaskIsCritical(tasks: map<nat, Task>, order: seq<nat>, workingDays: seq<int>, now: int)
    requires Loaded(tasks, order) && HasWorkingDay(workingDays)
    requires forall i :: 0 <= i < |order| - 1 ==> order[i] != order[|order| - 1]
    requires CalculateCriticalPath(tasks, order, workingDays, now).Ok?
    ensures order[|order| - 1] in CalculateCriticalPath(tasks, order, workingDays, now).value
  {
    var earliest := ForwardPass(tasks, order, workingDays, now).value;
    LastTaskPinned(tasks, order, earliest);
    PinnedIsCritical(order, earliest, BackwardPass(tasks, order, earliest).value);
  }

  /** A task of the order whose latest times are its earliest ones has zero
      slack, so a successful slack scan lists it. */
  lemma PinnedIsCritical(order: seq<nat>, earliest: map<nat, Times>, latest: map<nat, Times>)
    requires forall i :: 0 <= i < |order| ==> order[i] in earliest && order[i] in latest
    requires |order| > 0 && latest[order[|order| - 1]] == earliest[order[|order| - 1]]
    requires ZeroSlackTasks(order, earliest, latest).Ok?
    ensures order[|order| - 1] in ZeroSlackTasks(order, earliest, latest).value
  {
    var n := |order|;
    assert Slack(latest[order[n - 1]].finish, earliest[order[n - 1]].finish).Ok?;
  }

  /** A task is on the critical path exactly when it is in the order and
      its latest and earliest finish are the same day. */
  lemma CriticalPathMembers(tasks: map<nat, Task>, order: seq<nat>, workingDays: seq<int>, now: int)
    requires Loaded(tasks, order) && HasWorkingDay(workingDays)
    requires CalculateCriticalPath(tasks, order, workingDays, now).Ok?
    ensures var earliest := ForwardPass(tasks, order, workingDays, now).value;
            var latest := BackwardPass(tasks, order, earliest).value;
            forall id :: id in CalculateCriticalPath(tasks, order, workingDays, now).value <==>
                           id in order && latest[id].finish.Day? && latest[id].finish == earliest[id].finish
  {
    var earliest := ForwardPass(tasks, order, workingDays, now).value;
    ZeroSlackMembers(order, earliest, BackwardPass(tasks, order, earliest).value);
  }

  /** The zero-slack tasks are the tasks of the order whose two finishes
      are the same day. */
  lemma ZeroSlackMembers(order: seq<nat>, earliest: map<nat, Times>, latest: map<nat, Times>)
    requires forall i :: 0 <= i < |order| ==> order[i] in earliest && order[i] in latest
    requires ZeroSlackTasks(order, earliest, latest).Ok?
    ensures forall id :: id in ZeroSlackTasks(order, earliest, latest).value <==>
                         id in order && latest[id].finish.Day? && latest[id].finish == earliest[id].finish
  {
    var r := ZeroSlackTasks(order, earliest, latest).value;
    forall id
      ensures id in r <==> id in order && latest[id].finish.Day? && latest[id].finish == earliest[id].finish
    {
      if id in r {
        var k :| 0 <= k < |r| && r[k] == id;
        assert r[k] in earliest;
      }
      if id in order && latest[id].finish.Day? && latest[id].finish == earliest[id].finish {
        var k :| 0 <= k < |order| && order[k] == id;
        assert Slack(latest[order[k]].finish, earliest[order[k]].finish) == Ok(0);
      }
    }
  }
}
