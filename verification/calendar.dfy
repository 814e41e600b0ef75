/** The working-day calendar of `GanttCalculator`: which weekdays are
    worked, and stepping a date forward by a number of working days.

    A date is an integer day number; its weekday is `d % 7` with 0 for
    Monday, as Python's `date.weekday()` numbers them (day 0 is a Monday). */
module Calendar {
  import opened Base

  /** `date.weekday()`: 0 = Monday, ..., 6 = Sunday. */
  function Weekday(d: int): (w: int)
    ensures 0 <= w < 7
  {
    d % 7
  }

  /** The `day_map` of `_get_working_days`: a configuration key to its weekday. */
  function DayIndex(name: string): (r: Option<int>)
    ensures r.Some? ==> 0 <= r.value < 7
  {
    match name
    case "monday" => Some(0)
    case "tuesday" => Some(1)
    case "wednesday" => Some(2)
    case "thursday" => Some(3)
    case "friday" => Some(4)
    case "saturday" => Some(5)
    case "sunday" => Some(6)
    case _ => None
  }

  /** `_get_working_days`: the weekday of every key whose flag is true, in
      configuration order. A true flag on a key outside `day_map` raises
      KeyError, reported here as `Err(key)` for the first such key; a false
      flag is never looked up, so an unknown key with a false flag is harmless. */
  function GetWorkingDays(config: seq<(string, bool)>): (r: Result<seq<int>, string>)
    ensures r.Ok? <==> forall i :: 0 <= i < |config| && config[i].1 ==> DayIndex(config[i].0).Some?
    ensures r.Err? ==> exists i :: && 0 <= i < |config| && config[i].1 && DayIndex(config[i].0).None?
                                   && r.error == config[i].0
                                   && forall j :: 0 <= j < i ==> !(config[j].1 && DayIndex(config[j].0).None?)
    ensures r.Ok? ==> forall k :: k in r.value <==>
                        exists i :: 0 <= i < |config| && config[i].1 && DayIndex(config[i].0) == Some(k)
    ensures r.Ok? ==> forall i :: 0 <= i < |r.value| ==> 0 <= r.value[i] < 7
    decreases |config|
  {
    if config == [] then Ok([])
    else
      var rest := GetWorkingDays(config[1..]);
      if !config[0].1 then rest
      else match DayIndex(config[0].0)
        case None => Err(config[0].0)
        case Some(k) =>
          match rest
          case Err(e) => Err(e)
          case Ok(ks) => Ok([k] + ks)
  }

  predicate IsWorkingDay(d: int, workingDays: seq<int>) {
    Weekday(d) in workingDays
  }

  /** At least one weekday is worked; without this, stepping forward by a
      positive number of working days never ends. */
  predicate HasWorkingDay(workingDays: seq<int>) {
    exists w :: w in workingDays && 0 <= w < 7
  }

  /** Every stretch of seven consecutive days meets every weekday once. */
  lemma WeekHasWorkingDay(d: int, workingDays: seq<int>)
    requires HasWorkingDay(workingDays)
    ensures exists y :: d < y <= d + 7 && IsWorkingDay(y, workingDays)
  {
    var w :| w in workingDays && 0 <= w < 7;
    var q := (w - d - 1) / 7;
    var y := w - 7 * q;
    assert w - d - 1 == 7 * q + (w - d - 1) % 7;
    assert d < y <= d + 7;
    assert Weekday(y) == w;
    assert IsWorkingDay(y, workingDays);
  }

  /** Looks at day `d + k`, `d + k + 1`, ..., `d + 7` for a working day. */
  function ScanForWorkingDay(d: int, k: int, workingDays: seq<int>): (r: int)
    requires 1 <= k <= 7
    ensures d + k <= r <= d + 7
    ensures IsWorkingDay(r, workingDays) || r == d + 7
    ensures forall y :: d + k <= y < r ==> !IsWorkingDay(y, workingDays)
    decreases 7 - k
  {
    if IsWorkingDay(d + k, workingDays) || k == 7 then d + k
    else ScanForWorkingDay(d, k + 1, workingDays)
  }

  /** The first working day strictly after `d`. */
  function NextWorkingDay(d: int, workingDays: seq<int>): (r: int)
    requires HasWorkingDay(workingDays)
    ensures d < r <= d + 7
    ensures IsWorkingDay(r, workingDays)
    ensures forall y :: d < y < r ==> !IsWorkingDay(y, workingDays)
  {
    WeekHasWorkingDay(d, workingDays);
    ScanForWorkingDay(d, 1, workingDays)
  }

  /** `_add_working_days(d, n)`: the day on which the n-th working day after
      `d` falls; `d` itself when `n <= 0`, since the source's loop then never runs. */
  function AddWorkingDays(d: int, n: int, workingDays: seq<int>): (r: int)
    requires n <= 0 || HasWorkingDay(workingDays)
    ensures n <= 0 ==> r == d
    ensures n > 0 ==> d < r && IsWorkingDay(r, workingDays)
    decreases n
  {
    if n <= 0 then d
    else NextWorkingDay(AddWorkingDays(d, n - 1, workingDays), workingDays)
  }

  /** The number of working days in the half-open range (lo, hi]. */
  function CountWorking(lo: int, hi: int, workingDays: seq<int>): nat
    decreases hi - lo
  {
    if hi <= lo then 0
    else CountWorking(lo, hi - 1, workingDays) + (if IsWorkingDay(hi, workingDays) then 1 else 0)
  }

  lemma {:induction false} CountSplit(a: int, b: int, c: int, workingDays: seq<int>)
    requires a <= b <= c
    ensures CountWorking(a, c, workingDays) == CountWorking(a, b, workingDays) + CountWorking(b, c, workingDays)
    decreases c - b
  {
    if c > b {
      CountSplit(a, b, c - 1, workingDays);
    }
  }

  lemma CountMonotone(a: int, b: int, c: int, workingDays: seq<int>)
    requires a <= b <= c
    ensures CountWorking(a, b, workingDays) <= CountWorking(a, c, workingDays)
  {
    CountSplit(a, b, c, workingDays);
  }

  lemma {:induction false} CountIdle(a: int, b: int, workingDays: seq<int>)
    requires forall y :: a < y <= b ==> !IsWorkingDay(y, workingDays)
    ensures CountWorking(a, b, workingDays) == 0
    decreases b - a
  {
    if b > a {
      CountIdle(a, b - 1, workingDays);
    }
  }

  lemma CountToNextWorkingDay(d: int, workingDays: seq<int>)
    requires HasWorkingDay(workingDays)
    ensures CountWorking(d, NextWorkingDay(d, workingDays), workingDays) == 1
  {
    var r := NextWorkingDay(d, workingDays);
    CountIdle(d, r - 1, workingDays);
  }

  /** Exactly `n` working days lie in (d, AddWorkingDays(d, n)]. */
  lemma {:induction false} AddWorkingDaysCounts(d: int, n: int, workingDays: seq<int>)
    requires n <= 0 || HasWorkingDay(workingDays)
    ensures CountWorking(d, AddWorkingDays(d, n, workingDays), workingDays) == if n <= 0 then 0 else n
    decreases n
  {
    if n > 0 {
      var p := AddWorkingDays(d, n - 1, workingDays);
      AddWorkingDaysCounts(d, n - 1, workingDays);
      CountToNextWorkingDay(p, workingDays);
      CountSplit(d, p, NextWorkingDay(p, workingDays), workingDays);
    }
  }

  /** `AddWorkingDays(d, n)` for `n > 0` is the one working day `r` after `d`
      with exactly `n` working days in (d, r]. */
  lemma AddWorkingDaysCharacterization(d: int, n: int, r: int, workingDays: seq<int>)
    requires n > 0 && HasWorkingDay(workingDays)
    ensures r == AddWorkingDays(d, n, workingDays) <==>
            d < r && IsWorkingDay(r, workingDays) && CountWorking(d, r, workingDays) == n
  {
    var a := AddWorkingDays(d, n, workingDays);
    AddWorkingDaysCounts(d, n, workingDays);
    if d < r && IsWorkingDay(r, workingDays) && CountWorking(d, r, workingDays) == n {
      var p := AddWorkingDays(d, n - 1, workingDays);
      AddWorkingDaysCounts(d, n - 1, workingDays);
      if r < a {
        if r <= p {
          CountMonotone(d, r, p, workingDays);
        }
        assert false;
      } else if r > a {
        CountSplit(d, a, r, workingDays);
        assert false;
      }
    }
  }

  /** Stepping `a` then `b` working days is stepping `a + b` working days. */
  lemma {:induction false} AddWorkingDaysCompose(d: int, a: nat, b: nat, workingDays: seq<int>)
    requires HasWorkingDay(workingDays)
    ensures AddWorkingDays(AddWorkingDays(d, a, workingDays), b, workingDays) == AddWorkingDays(d, a + b, workingDays)
  {
    var x := AddWorkingDays(d, a, workingDays);
    var r := AddWorkingDays(x, b, workingDays);
    if b > 0 {
      AddWorkingDaysCounts(d, a, workingDays);
      AddWorkingDaysCounts(x, b, workingDays);
      assert d <= x < r;
      CountSplit(d, x, r, workingDays);
      assert CountWorking(d, r, workingDays) == a + b;
      AddWorkingDaysCharacterization(d, a + b, r, workingDays);
    } else {
      assert r == x && a + b == a;
    }
  }

  /** More working days always land strictly later. */
  lemma {:induction false} AddWorkingDaysStrictlyIncreasing(d: int, m: nat, n: nat, workingDays: seq<int>)
    requires HasWorkingDay(workingDays)
    requires m < n
    ensures AddWorkingDays(d, m, workingDays) < AddWorkingDays(d, n, workingDays)
    decreases n
  {
    if m < n - 1 {
      AddWorkingDaysStrictlyIncreasing(d, m, n - 1, workingDays);
    }
  }

  /** The loop of `_add_working_days` as written: one calendar day at a
      time, counting the working ones, until `days` have been counted. */
  method AddWorkingDaysStepwise(start: int, days: int, workingDays: seq<int>) returns (current: int)
    requires days <= 0 || HasWorkingDay(workingDays)
    ensures current == AddWorkingDays(start, days, workingDays)
    ensures days > 0 ==> CountWorking(start, current, workingDays) == days
  {
    current := start;
    var added := 0;
    ghost var target := AddWorkingDays(start, days, workingDays);
    if days > 0 {
      AddWorkingDaysCounts(start, days, workingDays);
    }
    while added < days
      invariant start <= current
      invariant days <= 0 ==> current == start
      invariant added == 0 || added <= days
      invariant CountWorking(start, current, workingDays) == added
      invariant days > 0 && added == days ==> start < current && IsWorkingDay(current, workingDays)
      decreases target - current
    {
      if current >= target {
        CountMonotone(start, target, current, workingDays);
      }
      current := current + 1;
      if IsWorkingDay(current, workingDays) {
        added := added + 1;
      }
    }
    if days > 0 {
      AddWorkingDaysCharacterization(start, days, current, workingDays);
    }
  }
}
