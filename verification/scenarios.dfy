/** Small worked examples of what the scheduling code does on concrete
    input, where it departs from what a reader of the column names would
    expect: relation codes and lags are read as digits, a predecessor listed
    after its successor is not seen, and successors are found by substring. */
module Scenarios {
  import opened Base
  import opened Text
  import opened Calendar
  import opened Dependencies
  import opened Sweeps
  import opened Schedule
  import opened CriticalPath
  import opened Exporter

  /** "3SS+2" (start-to-start, lag 2) names task 32, not task 3. */
  lemma RelationCodeDigitsRunTogether()
    ensures ParseDependencyIds("3SS+2") == [32]
  {
    assert Split("3SS+2", ',') == ["3SS+2"] by {
      SplitWithoutSeparator("3SS+2", ',');
    }
    assert Digits("3SS+2") == "32";
    assert DecimalValue("32") == 32 by {
      assert "32"[..1] == "3";
      assert "3"[..0] == "";
    }
  }

  /** "4,5" names tasks 4 and 5 to the calculator, but the exporter writes
      one predecessor UID, "45". */
  lemma ListExportsOneUid()
    ensures ParseDependencyIds("4,5") == [4, 5]
    ensures PredecessorLink(TextCell("4,5")) == Some(Link(Some("45")))
  {
    ListSplits();
    assert Digits("4,5") == "45";
  }

  /** "4,5" splits at its comma into "4" and "5". */
  lemma ListSplits()
    ensures Split("4,5", ',') == ["4", "5"]
  {
    assert Split("5", ',') == ["5"] by {
      SplitWithoutSeparator("5", ',');
    }
    SplitAfterPiece("4", "5", ',');
    assert "4" + [','] + "5" == "4,5";
  }

  /** Task 2, which depends on "12", counts as a successor of task 1: the
      text "1" occurs in "12". */
  lemma SubstringSuccessor()
    ensures FindSuccessors(map[1 := Task(Absent, 1, ""), 2 := Task(Absent, 1, "12")], [1, 2], 1) == [2]
  {
    assert OccursAt("12", NatToString(1), 0);
    assert !Contains("", NatToString(1));
  }

  /** A file separator (U+001C) is white space to `str.strip()` but not
      around a number to `int()`: `int("\x1c5")` raises. */
  lemma SeparatorBeforeNumber()
    ensures Strip(StrBlanks, "\U{1C}5") == "5"
    ensures ParseInt("\U{1C}5") == None
  {
    var s := "\U{1C}5";
    assert IsBlank(StrBlanks, s[0]) && s[1..] == "5";
    assert !IsBlank(IntBlanks, s[0]);
    assert !IsBlank(StrBlanks, '5');
  }

  /** Monday to Friday. */
  function Weekdays(): (w: seq<int>)
    ensures HasWorkingDay(w)
    ensures forall d :: IsWorkingDay(d, w) <==> Weekday(d) < 5
  {
    assert 0 in [0, 1, 2, 3, 4];
    [0, 1, 2, 3, 4]
  }

  /** Five working days from Monday (day 0) land on the next Monday: the
      start day itself is not counted. */
  lemma FiveDaysFromMonday()
    ensures AddWorkingDays(0, 5, Weekdays()) == 7
  {
    var w := Weekdays();
    AddWorkingDaysCharacterization(0, 5, 7, w);
    assert CountWorking(0, 1, w) == 1;
    assert CountWorking(0, 2, w) == 2;
    assert CountWorking(0, 3, w) == 3;
    assert CountWorking(0, 4, w) == 4;
    assert CountWorking(0, 5, w) == 4;
    assert CountWorking(0, 6, w) == 4;
    assert CountWorking(0, 7, w) == 5;
  }

  /** Tuesday is the first working day after Monday, and three working
      days after Tuesday is Friday. */
  lemma TuesdayToFriday()
    ensures AddWorkingDays(7, 1, Weekdays()) == 8
    ensures AddWorkingDays(8, 3, Weekdays()) == 11
  {
    var w := Weekdays();
    AddWorkingDaysCharacterization(7, 1, 8, w);
    AddWorkingDaysCharacterization(8, 3, 11, w);
    assert CountWorking(8, 9, w) == 1;
    assert CountWorking(8, 10, w) == 2;
  }

  /** Task 1 lasts five days from Monday (day 0); task 2 lasts three days
      and depends on task 1. */
  function TwoTasks(): map<nat, Task> {
    map[1 := Task(StartsOn(0), 5, ""), 2 := Task(Absent, 3, "1")]
  }

  lemma NoDependencies()
    ensures ParseDependencyIds("") == []
  {
  }

  lemma DependsOnOne()
    ensures ParseDependencyIds("1") == [1]
  {
    SplitWithoutSeparator("1", ',');
    assert Digits("1") == "1";
    assert DecimalValue("1") == 1 by {
      assert "1"[..0] == "";
    }
  }

  /** Task 1 runs from day 0 to the next Monday, day 7. */
  lemma FirstTaskDates(calculated: map<nat, Dates>)
    ensures ScheduleTask(TwoTasks()[1], calculated, Weekdays(), 100) == Dates(0, 7)
  {
    NoDependencies();
    FiveDaysFromMonday();
  }

  /** Task 2 starts on the next working day after day 7, Tuesday, and
      finishes on Friday. */
  lemma SecondTaskDates()
    ensures ScheduleTask(TwoTasks()[2], map[1 := Dates(0, 7)], Weekdays(), 100) == Dates(8, 11)
  {
    DependsOnOne();
    TuesdayToFriday();
    assert LatestFinish([1], map[1 := Dates(0, 7)]) == Some(7);
  }

  /** Scheduled in the order 1, 2, task 2 starts after task 1 finishes. */
  lemma TwoTasksDates()
    ensures var r := CalculateDates(TwoTasks(), [1, 2], Weekdays(), 100);
            r[1] == Dates(0, 7) && r[2] == Dates(8, 11)
  {
    var tasks, order, w := TwoTasks(), [1, 2], Weekdays();
    var step := DateStep(w, 100);
    SweepAt(tasks, order, 2, 0, step);
    SweepAt(tasks, order, 2, 1, step);
    FirstTaskDates(map[]);
    var first := Sweep(tasks, order, 1, step);
    assert first == map[1 := Dates(0, 7)];
    SecondTaskDates();
  }

  /** Listed before task 1, task 2 does not see its predecessor and starts
      today (day 100), long after task 1 has finished. */
  lemma LaterPredecessorIgnored()
    ensures var r := CalculateDates(TwoTasks(), [2, 1], Weekdays(), 100);
            r[2].start == 100 && r[1] == Dates(0, 7)
  {
    var tasks, order, w := TwoTasks(), [2, 1], Weekdays();
    var step := DateStep(w, 100);
    SweepAt(tasks, order, 2, 0, step);
    SweepAt(tasks, order, 2, 1, step);
    SecondTaskAlone();
    assert Sweep(tasks, order, 0, step) == map[];
    FirstTaskDates(Sweep(tasks, order, 1, step));
  }

  /** With nothing dated yet, task 2 starts today. */
  lemma SecondTaskAlone()
    ensures ScheduleTask(TwoTasks()[2], map[], Weekdays(), 100).start == 100
  {
    DependsOnOne();
    assert LatestFinish([1], map[]) == None;
  }

  /** The earliest times of task 1: its own start, five working days. */
  lemma ForwardFirstStep()
    ensures ForwardStep(TwoTasks()[1], map[], Weekdays(), 100) == Ok(Times(Day(0), Day(7)))
  {
    NoDependencies();
    FiveDaysFromMonday();
    assert PredecessorFinishes(TwoTasks()[1], map[]) == [];
  }

  /** The earliest times of task 2: the calendar day after task 1 finishes,
      three working days. */
  lemma ForwardSecondStep()
    ensures ForwardStep(TwoTasks()[2], map[1 := Times(Day(0), Day(7))], Weekdays(), 100) == Ok(Times(Day(8), Day(11)))
  {
    DependsOnOne();
    TuesdayToFriday();
    var finishes := PredecessorFinishes(TwoTasks()[2], map[1 := Times(Day(0), Day(7))]);
    assert finishes == [Day(7)];
    assert MaxMoment(finishes) == Ok(Day(7));
    assert EarliestStart(TwoTasks()[2], map[1 := Times(Day(0), Day(7))], 100) == Ok(Day(8));
  }

  /** A sweep through one id is one step from the initial records. */
  lemma SweepOrFailOne<R, T, E>(init: map<nat, T>, rows: map<nat, R>, order: seq<nat>,
                                step: (map<nat, T>, nat, R) -> Result<T, E>)
    requires Loaded(rows, order) && |order| >= 1
    ensures var r := step(init, order[0], rows[order[0]]);
            SweepOrFail(init, rows, order, 1, step) == if r.Ok? then Ok(init[order[0] := r.value]) else Err(r.error)
  {
  }

  /** A sweep through two ids whose steps both succeed records both results. */
  lemma SweepOrFailTwo<R, T, E>(init: map<nat, T>, rows: map<nat, R>, order: seq<nat>,
                                step: (map<nat, T>, nat, R) -> Result<T, E>, a: T, b: T)
    requires Loaded(rows, order) && |order| >= 2
    requires step(init, order[0], rows[order[0]]) == Ok(a)
    requires step(init[order[0] := a], order[1], rows[order[1]]) == Ok(b)
    ensures SweepOrFail(init, rows, order, 2, step) == Ok(init[order[0] := a][order[1] := b])
  {
    SweepOrFailOne(init, rows, order, step);
  }

  /** The forward pass gives the same days as `calculate_dates` here: the
      calendar day after Monday is a working day. */
  lemma ForwardTwoTasks()
    ensures ForwardPass(TwoTasks(), [1, 2], Weekdays(), 100) ==
            Ok(map[1 := Times(Day(0), Day(7)), 2 := Times(Day(8), Day(11))])
  {
    var tasks, order: seq<nat> := TwoTasks(), [1, 2];
    assert order[0] == 1 && order[1] == 2;
    assert Loaded(tasks, order);
    var step := ForwardStepFn(Weekdays(), 100);
    var a, b := Times(Day(0), Day(7)), Times(Day(8), Day(11));
    var empty: map<nat, Times> := map[];
    ForwardFirstStep();
    assert step(empty, 1, tasks[1]) == Ok(a);
    ForwardSecondStep();
    assert empty[1 := a] == map[1 := a];
    assert step(empty[1 := a], 2, tasks[2]) == Ok(b);
    SweepOrFailTwo(empty, tasks, order, step, a, b);
  }

  /** Task 1's latest finish is the day before task 2's latest start, and
      its latest start five calendar days before that. */
  lemma BackwardStepOfFirst()
    ensures BackwardStep(TwoTasks(), [1, 2], 1, (TwoTasks()[1], Times(Day(0), Day(7))), map[2 := Times(Day(8), Day(11))]) ==
            Ok(Times(Day(2), Day(7)))
  {
    var tasks := TwoTasks();
    assert FindSuccessors(tasks, [1, 2], 1) == [2] by {
      assert OccursAt("1", NatToString(1), 0);
      assert !Contains("", NatToString(1));
    }
  }

  /** Listing distinct ids as dict keys keeps them as they are. */
  lemma {:induction false} DedupDistinct(s: seq<nat>)
    requires Distinct(s)
    ensures Dedup(s) == s
    decreases |s|
  {
    if s != [] {
      var init := s[..|s| - 1];
      assert Distinct(init);
      DedupDistinct(init);
      assert s[|s| - 1] !in init;
      assert init + [s[|s| - 1]] == s;
    }
  }

  /** The backward pass on a non-empty order is the sweep from the last task. */
  lemma BackwardPassIsSweep(tasks: map<nat, Task>, order: seq<nat>, earliest: map<nat, Times>)
    requires Loaded(tasks, order) && order != []
    requires forall i :: 0 <= i < |order| ==> order[i] in earliest
    ensures Loaded(BackwardRows(tasks, earliest), BackwardOrder(order))
    ensures var last := order[|order| - 1];
            BackwardPass(tasks, order, earliest) ==
            SweepOrFail(map[last := earliest[last]], BackwardRows(tasks, earliest), BackwardOrder(order), |order| - 1,
                        BackwardStepFn(tasks, Dedup(order)))
  {
    BackwardRowsLoaded(tasks, order, earliest);
  }

  /** The backward pass pins task 2 and dates task 1 from it. */
  lemma BackwardTwoTasks()
    ensures var earliest := map[1 := Times(Day(0), Day(7)), 2 := Times(Day(8), Day(11))];
            BackwardPass(TwoTasks(), [1, 2], earliest) ==
            Ok(map[2 := Times(Day(8), Day(11)), 1 := Times(Day(2), Day(7))])
  {
    var tasks := TwoTasks();
    var order: seq<nat> := [1, 2];
    var earliest := map[1 := Times(Day(0), Day(7)), 2 := Times(Day(8), Day(11))];
    var init := map[2 := Times(Day(8), Day(11))];
    var rows := BackwardRows(tasks, earliest);
    BackwardPassIsSweep(tasks, order, earliest);
    DedupDistinct(order);
    var step := BackwardStepFn(tasks, order);
    var back := BackwardOrder(order);
    assert back == [1];
    assert rows[1] == (tasks[1], Times(Day(0), Day(7)));
    BackwardStepOfFirst();
    assert step(init, 1, rows[1]) == Ok(Times(Day(2), Day(7)));
    SweepOrFailOne(init, rows, back, step);
  }

  /** Both tasks have zero slack: the critical path is 1, 2. */
  lemma TwoTasksCritical()
    ensures CalculateCriticalPath(TwoTasks(), [1, 2], Weekdays(), 100) == Ok([1, 2])
  {
    ForwardTwoTasks();
    BackwardTwoTasks();
    TwoTasksSlack();
  }

  lemma TwoTasksSlack()
    ensures var earliest := map[1 := Times(Day(0), Day(7)), 2 := Times(Day(8), Day(11))];
            var latest := map[2 := Times(Day(8), Day(11)), 1 := Times(Day(2), Day(7))];
            ZeroSlackTasks([1, 2], earliest, latest) == Ok([1, 2])
  {
    var earliest := map[1 := Times(Day(0), Day(7)), 2 := Times(Day(8), Day(11))];
    var latest := map[2 := Times(Day(8), Day(11)), 1 := Times(Day(2), Day(7))];
    var order: seq<nat> := [1, 2];
    var two: seq<nat> := [2];
    var none: seq<nat> := [];
    assert order[0] == 1 && order[1..] == two && two[0] == 2 && two[1..] == none;
    assert Slack(latest[1].finish, earliest[1].finish) == Ok(0);
    assert Slack(latest[2].finish, earliest[2].finish) == Ok(0);
    assert ZeroSlackTasks(none, earliest, latest) == Ok(none);
    assert ZeroSlackTasks(two, earliest, latest) == Ok([2] + none);
    assert [2] + none == two;
    assert Slack(latest[order[0]].finish, earliest[order[0]].finish) == Ok(0);
    assert ZeroSlackTasks(order[1..], earliest, latest) == Ok(two);
    assert ZeroSlackTasks(order, earliest, latest) == Ok([order[0]] + two);
    assert [order[0]] + two == order;
  }

  /** Task 5 depends on task 6, which comes after it in the order; task 7
      comes last. */
  function BackwardsLink(): map<nat, Task> {
    map[5 := Task(StartsOn(0), 1, "6"), 6 := Task(StartsOn(0), 1, ""), 7 := Task(StartsOn(0), 1, "")]
  }

  /** Task 5 is the one successor of task 6: its text "6" contains "6". */
  lemma SuccessorsOfSix()
    ensures FindSuccessors(BackwardsLink(), [5, 6, 7], 6) == [5]
  {
    var keys: seq<nat> := [5, 6, 7];
    assert OccursAt("6", NatToString(6), 0);
    assert !Contains("", NatToString(6));
    assert keys[1..] == [6, 7] && keys[1..][1..] == [7] && keys[1..][1..][1..] == [];
  }

  /** Visited before task 5, task 6 has a successor (task 5) but none in
      the backward table yet: `min` of nothing raises. */
  lemma SuccessorNotYetProcessed(earliest: map<nat, Times>)
    requires 5 in earliest && 6 in earliest && 7 in earliest
    ensures BackwardPass(BackwardsLink(), [5, 6, 7], earliest) == Err(NoProcessedSuccessor(6))
  {
    var order: seq<nat> := [5, 6, 7];
    DedupDistinct(order);
    assert BackwardOrder(order) == [6, 5];
    BackwardSweepFails(earliest);
    BackwardPassIsSweep(BackwardsLink(), order, earliest);
  }

  /** The backward sweep over [6, 5] stops at its first step. */
  lemma BackwardSweepFails(earliest: map<nat, Times>)
    requires 5 in earliest && 6 in earliest && 7 in earliest
    ensures SweepOrFail(map[7 := earliest[7]], BackwardRows(BackwardsLink(), earliest), [6, 5], 2,
                        BackwardStepFn(BackwardsLink(), [5, 6, 7])) == Err(NoProcessedSuccessor(6))
  {
    var init := map[7 := earliest[7]];
    var rows := BackwardRows(BackwardsLink(), earliest);
    SixFailsFirst(init, rows[6]);
    SweepOrFailFirstFails(init, rows, [6, 5], 2, BackwardStepFn(BackwardsLink(), [5, 6, 7]));
  }

  /** The first backward step, for task 6, finds no visited successor. */
  lemma SixFailsFirst(init: map<nat, Times>, row: (Task, Times))
    requires 5 !in init
    ensures BackwardStep(BackwardsLink(), [5, 6, 7], 6, row, init) == Err(NoProcessedSuccessor(6))
  {
    SuccessorsOfSix();
  }

  /** The whole computation raises although every task has a date. */
  lemma BackwardsLinkFails()
    ensures CalculateCriticalPath(BackwardsLink(), [5, 6, 7], Weekdays(), 100) == Err(NoProcessedSuccessor(6))
  {
    ForwardPassDated(BackwardsLink(), [5, 6, 7], Weekdays(), 100);
    SuccessorNotYetProcessed(ForwardPass(BackwardsLink(), [5, 6, 7], Weekdays(), 100).value);
  }
}
