/** `GanttCalculator.calculate_dates`: tasks are dated one after the other
    in input order (`task_order`); a task whose dependency text names an
    already dated task starts on the first working day after the latest
    such predecessor finishes, and every task finishes `duration` working
    days after it starts. No topological order is computed: a predecessor
    listed later than its successor is simply not seen. */
module Schedule {
  import opened Base
  import opened Text
  import opened Calendar
  import opened Dependencies
  import opened Sweeps

  /** What a row's `Start Date` cell gives: no such column (the key is
      absent), something that is not a datetime (an empty cell, a string),
      or a date. */
  datatype StartCell = Absent | NotADate | StartsOn(day: int)

  /** One row of the Gantt sheet, as far as scheduling reads it. `duration`
      is `int(float(cell))` of the `Duration (Days)` cell (0 when empty). */
  datatype Task = Task(start: StartCell, duration: int, dependencies: string)

  /** The `Start Date` / `Finish Date` pair `calculate_dates` records. */
  datatype Dates = Dates(start: int, finish: int)

  /** Some of the named predecessors is already in the table. */
  predicate HasResolvedPredecessor<V>(ids: seq<nat>, table: map<nat, V>) {
    exists id :: id in ids && id in table
  }

  /** The latest finish among the named predecessors that are already
      dated; None when none of them is. */
  function LatestFinish(ids: seq<nat>, calculated: map<nat, Dates>): Option<int>
    decreases |ids|
  {
    if ids == [] then None
    else
      var rest := LatestFinish(ids[1..], calculated);
      if ids[0] !in calculated then rest
      else if rest.Some? && rest.value >= calculated[ids[0]].finish then rest
      else Some(calculated[ids[0]].finish)
  }

  /** The latest finish is absent exactly when no named predecessor is
      dated; otherwise it is the finish of one of them and no earlier than
      the finish of any of them. */
  lemma {:induction false} LatestFinishSpec(ids: seq<nat>, calculated: map<nat, Dates>)
    ensures var r := LatestFinish(ids, calculated);
            r.None? <==> !HasResolvedPredecessor(ids, calculated)
    ensures var r := LatestFinish(ids, calculated);
            r.Some? ==> exists id :: id in ids && id in calculated && calculated[id].finish == r.value
    ensures var r := LatestFinish(ids, calculated);
            r.Some? ==> forall id :: id in ids && id in calculated ==> calculated[id].finish <= r.value
    decreases |ids|
  {
    if ids != [] {
      LatestFinishSpec(ids[1..], calculated);
      assert forall id :: id in ids <==> id == ids[0] || id in ids[1..];
    }
  }

  /** `_get_latest_dependency_finish`: the latest finish of the dated tasks
      the dependency text names. */
  function LatestDependencyFinish(deps: string, calculated: map<nat, Dates>): Option<int> {
    LatestFinish(ParseDependencyIds(deps), calculated)
  }

  /** Python's `max` over the finishes the source collects is what
      `LatestFinish` returns; an empty collection (where `max([])` would
      raise, and the source returns None first) gives None. */
  lemma {:induction false} LatestFinishIsMax(ids: seq<nat>, calculated: map<nat, Dates>)
    ensures var finishes := Lookup(ids, calculated, (d: Dates) => d.finish);
            LatestFinish(ids, calculated) == if finishes == [] then None else Some(Max(finishes))
    decreases |ids|
  {
    if ids != [] {
      var field := (d: Dates) => d.finish;
      LatestFinishIsMax(ids[1..], calculated);
      var finishes := Lookup(ids, calculated, field);
      var rest := Lookup(ids[1..], calculated, field);
      var r := LatestFinish(ids[1..], calculated);
      assert r == if rest == [] then None else Some(Max(rest));
      if ids[0] in calculated {
        var f := calculated[ids[0]].finish;
        assert finishes == [f] + rest;
        if rest != [] {
          assert finishes[1..] == rest;
          assert Max(finishes) == if f >= Max(rest) then f else Max(rest);
        }
      } else {
        assert finishes == rest;
      }
    }
  }

  /** `_get_latest_dependency_finish` as written agrees with `LatestDependencyFinish`. */
  lemma LatestDependencyFinishIsMax(deps: string, calculated: map<nat, Dates>)
    ensures var finishes := Lookup(ParseDependencyIds(deps), calculated, (d: Dates) => d.finish);
            LatestDependencyFinish(deps, calculated) == if finishes == [] then None else Some(Max(finishes))
  {
    LatestFinishIsMax(ParseDependencyIds(deps), calculated);
  }

  /** The loop body ends for this task: `_add_working_days` only loops when
      it has a working day to add, from a dated predecessor's finish or for
      the task's own duration, and then needs a working weekday to find. */
  predicate CanSchedule(task: Task, calculated: map<nat, Dates>, workingDays: seq<int>) {
    || HasWorkingDay(workingDays)
    || (task.duration <= 0 && !HasResolvedPredecessor(ParseDependencyIds(task.dependencies), calculated))
  }

  /** The body of the loop of `calculate_dates` for one task, given the
      dates computed so far: the task lasts `duration` working days from its
      start (none when `duration <= 0`). */
  function ScheduleTask(task: Task, calculated: map<nat, Dates>, workingDays: seq<int>, today: int): (r: Dates)
    requires CanSchedule(task, calculated, workingDays)
    ensures r.start <= r.finish
    ensures task.duration <= 0 ==> r.finish == r.start
    ensures task.duration > 0 ==>
              IsWorkingDay(r.finish, workingDays) && CountWorking(r.start, r.finish, workingDays) == task.duration
  {
    LatestFinishSpec(ParseDependencyIds(task.dependencies), calculated);
    var start := (
      match LatestDependencyFinish(task.dependencies, calculated)
      case Some(f) => AddWorkingDays(f, 1, workingDays)
      case None => if task.start.StartsOn? then task.start.day else today);
    AddWorkingDaysCounts(start, task.duration, workingDays);
    Dates(start, AddWorkingDays(start, task.duration, workingDays))
  }

  /** Where a task starts: on its own start date (today when it has none)
      if no named predecessor is dated yet; otherwise on the first working
      day after the latest finish among the dated predecessors. */
  lemma ScheduleTaskStart(task: Task, calculated: map<nat, Dates>, workingDays: seq<int>, today: int)
    requires CanSchedule(task, calculated, workingDays)
    ensures var r := ScheduleTask(task, calculated, workingDays, today);
            var preds := ParseDependencyIds(task.dependencies);
            !HasResolvedPredecessor(preds, calculated) ==>
              r.start == (if task.start.StartsOn? then task.start.day else today)
    ensures var r := ScheduleTask(task, calculated, workingDays, today);
            var preds := ParseDependencyIds(task.dependencies);
            HasResolvedPredecessor(preds, calculated) ==>
              && IsWorkingDay(r.start, workingDays)
              && (forall id :: id in preds && id in calculated ==> calculated[id].finish < r.start)
              && (exists id :: id in preds && id in calculated &&
                    CountWorking(calculated[id].finish, r.start, workingDays) == 1)
  {
    var preds := ParseDependencyIds(task.dependencies);
    LatestFinishSpec(preds, calculated);
    match LatestFinish(preds, calculated)
    case Some(f) => AddWorkingDaysCounts(f, 1, workingDays);
    case None =>
  }

  /** The loop body of `calculate_dates` as a step of the sweep over `task_order`. */
  function DateStep(workingDays: seq<int>, today: int): (map<nat, Dates>, nat, Task) -> Dates
    requires HasWorkingDay(workingDays)
  {
    (calculated: map<nat, Dates>, id: nat, task: Task) => ScheduleTask(task, calculated, workingDays, today)
  }

  /** What `calculate_dates` promises of one task's dates. */
  predicate SpansDuration(workingDays: seq<int>, task: Task, d: Dates) {
    && d.start <= d.finish
    && (task.duration <= 0 ==> d.finish == d.start)
    && (task.duration > 0 ==> IsWorkingDay(d.finish, workingDays) && CountWorking(d.start, d.finish, workingDays) == task.duration)
  }

  /** `calculate_dates`: the dates of every task of `order`, computed in that
      order; every listed task gets dates that span its duration in working days. */
  function CalculateDates(tasks: map<nat, Task>, order: seq<nat>, workingDays: seq<int>, today: int): (r: map<nat, Dates>)
    requires Loaded(tasks, order)
    requires HasWorkingDay(workingDays)
    ensures forall i :: 0 <= i < |order| ==> order[i] in r
    ensures forall i :: 0 <= i < |order| ==> r[order[i]].start <= r[order[i]].finish
    ensures forall i :: 0 <= i < |order| && tasks[order[i]].duration <= 0 ==> r[order[i]].finish == r[order[i]].start
    ensures forall i :: 0 <= i < |order| && tasks[order[i]].duration > 0 ==>
              && IsWorkingDay(r[order[i]].finish, workingDays)
              && CountWorking(r[order[i]].start, r[order[i]].finish, workingDays) == tasks[order[i]].duration
  {
    var step := DateStep(workingDays, today);
    SweepHolds(tasks, order, |order|, step, (id: nat, task: Task, d: Dates) => SpansDuration(workingDays, task, d));
    Sweep(tasks, order, |order|, step)
  }

  /** Exactly the listed tasks are dated. */
  lemma CalculateDatesKeys(tasks: map<nat, Task>, order: seq<nat>, workingDays: seq<int>, today: int)
    requires Loaded(tasks, order)
    requires HasWorkingDay(workingDays)
    ensures forall id :: id in CalculateDates(tasks, order, workingDays, today) <==> id in order
  {
    SweepKeys(tasks, order, |order|, DateStep(workingDays, today));
    assert order[..|order|] == order;
  }

  /** With no repeated ids, the dates of the task at position `i` are what
      the loop body computes from the dates of the tasks before it. */
  lemma CalculateDatesAt(tasks: map<nat, Task>, order: seq<nat>, workingDays: seq<int>, today: int, i: nat)
    requires Loaded(tasks, order) && HasWorkingDay(workingDays)
    requires Distinct(order) && i < |order|
    ensures Loaded(tasks, order[..i])
    ensures CalculateDates(tasks, order, workingDays, today)[order[i]] ==
            ScheduleTask(tasks[order[i]], CalculateDates(tasks, order[..i], workingDays, today), workingDays, today)
  {
    var step := DateStep(workingDays, today);
    PrefixLoaded(tasks, order, i);
    SweepAt(tasks, order, |order|, i, step);
    SweepAgree(tasks, order, order[..i], i, step);
  }

  /** When a predecessor comes earlier in the input order (and no id is
      repeated), the successor starts on a working day, strictly after the
      predecessor finishes. */
  lemma EarlierPredecessorFinishesFirst(tasks: map<nat, Task>, order: seq<nat>, i: nat, j: nat, workingDays: seq<int>, today: int)
    requires Loaded(tasks, order) && HasWorkingDay(workingDays)
    requires Distinct(order) && i < j < |order|
    requires order[i] in ParseDependencyIds(tasks[order[j]].dependencies)
    ensures var r := CalculateDates(tasks, order, workingDays, today);
            r[order[i]].finish < r[order[j]].start && IsWorkingDay(r[order[j]].start, workingDays)
  {
    var step := DateStep(workingDays, today);
    var n := |order|;
    SweepAt(tasks, order, n, j, step);
    SweepAt(tasks, order, n, i, step);
    SweepAt(tasks, order, j, i, step);
    var before := Sweep(tasks, order, j, step);
    assert order[i] in before;
    ScheduleTaskStart(tasks[order[j]], before, workingDays, today);
  }
}
