/** The loop shape shared by `calculate_dates` and `_forward_pass`: visit the
    ids of `task_order` in turn and record, for each, a value computed from
    its row and from what has been recorded so far. A later visit of the
    same id overwrites the earlier record, as assigning a dict key does. */
module Sweeps {
  import opened Base

  /** Every id in the order has a row. */
  predicate Loaded<R>(rows: map<nat, R>, order: seq<nat>) {
    forall i :: 0 <= i < |order| ==> order[i] in rows
  }

  /** The records after visiting the first `k` ids of `order`. */
  function Sweep<R, T>(rows: map<nat, R>, order: seq<nat>, k: nat, step: (map<nat, T>, nat, R) -> T): (r: map<nat, T>)
    requires Loaded(rows, order) && k <= |order|
    ensures forall i :: 0 <= i < k ==> order[i] in r
    decreases k
  {
    if k == 0 then map[]
    else
      var prev := Sweep(rows, order, k - 1, step);
      var id := order[k - 1];
      prev[id := step(prev, id, rows[id])]
  }

  /** Two orders that agree on their first `k` ids give the same records
      after `k` visits. */
  lemma {:induction false} SweepAgree<R, T>(rows: map<nat, R>, a: seq<nat>, b: seq<nat>, k: nat, step: (map<nat, T>, nat, R) -> T)
    requires Loaded(rows, a) && Loaded(rows, b) && k <= |a| && k <= |b| && a[..k] == b[..k]
    ensures Sweep(rows, a, k, step) == Sweep(rows, b, k, step)
    decreases k
  {
    if k > 0 {
      assert a[..k - 1] == a[..k][..k - 1] && b[..k - 1] == b[..k][..k - 1];
      assert a[k - 1] == a[..k][k - 1] && b[k - 1] == b[..k][k - 1];
      SweepAgree(rows, a, b, k - 1, step);
    }
  }

  /** Only the ids of the first `k` positions are recorded. */
  lemma {:induction false} SweepKeys<R, T>(rows: map<nat, R>, order: seq<nat>, k: nat, step: (map<nat, T>, nat, R) -> T)
    requires Loaded(rows, order) && k <= |order|
    ensures forall id :: id in Sweep(rows, order, k, step) <==> id in order[..k]
    decreases k
  {
    if k > 0 {
      SweepKeys(rows, order, k - 1, step);
      assert order[..k] == order[..k - 1] + [order[k - 1]];
    }
  }

  /** With no repeated ids, the record of the id at position `i` is what the
      step computed from the records of the ids before it. */
  lemma {:induction false} SweepAt<R, T>(rows: map<nat, R>, order: seq<nat>, k: nat, i: nat, step: (map<nat, T>, nat, R) -> T)
    requires Loaded(rows, order) && Distinct(order) && i < k <= |order|
    ensures Sweep(rows, order, k, step)[order[i]] == step(Sweep(rows, order, i, step), order[i], rows[order[i]])
    decreases k
  {
    if i < k - 1 {
      SweepAt(rows, order, k - 1, i, step);
      assert order[i] != order[k - 1];
    }
  }

  /** A property every step result has, of its id and row, holds of every
      record, repeated ids included. */
  lemma {:induction false} SweepHolds<R, T>(rows: map<nat, R>, order: seq<nat>, k: nat, step: (map<nat, T>, nat, R) -> T,
                                           p: (nat, R, T) -> bool)
    requires Loaded(rows, order) && k <= |order|
    requires forall m, id, row :: p(id, row, step(m, id, row))
    ensures forall i :: 0 <= i < k ==> p(order[i], rows[order[i]], Sweep(rows, order, k, step)[order[i]])
    decreases k
  {
    if k > 0 {
      SweepHolds(rows, order, k - 1, step, p);
    }
  }

  /** The same loop when a step can fail, starting from the records `init`:
      the first failure ends the sweep, as an exception leaves the Python loop. */
  function SweepOrFail<R, T, E>(init: map<nat, T>, rows: map<nat, R>, order: seq<nat>, k: nat, step: (map<nat, T>, nat, R) -> Result<T, E>):
    (r: Result<map<nat, T>, E>)
    requires Loaded(rows, order) && k <= |order|
    ensures r.Ok? ==> forall i :: 0 <= i < k ==> order[i] in r.value
    decreases k
  {
    if k == 0 then Ok(init)
    else
      match SweepOrFail(init, rows, order, k - 1, step)
      case Err(e) => Err(e)
      case Ok(prev) =>
        var id := order[k - 1];
        match step(prev, id, rows[id])
        case Err(e) => Err(e)
        case Ok(v) => Ok(prev[id := v])
  }

  /** A sweep that got through `k` ids got through every shorter prefix. */
  lemma {:induction false} SweepOrFailPrefix<R, T, E>(init: map<nat, T>, rows: map<nat, R>, order: seq<nat>, j: nat, k: nat,
                                                    step: (map<nat, T>, nat, R) -> Result<T, E>)
    requires Loaded(rows, order) && j <= k <= |order|
    requires SweepOrFail(init, rows, order, k, step).Ok?
    ensures SweepOrFail(init, rows, order, j, step).Ok?
    decreases k
  {
    if j < k {
      SweepOrFailPrefix(init, rows, order, j, k - 1, step);
    }
  }

  /** Two orders that agree on their first `k` ids give the same outcome
      after `k` visits. */
  lemma {:induction false} SweepOrFailAgree<R, T, E>(init: map<nat, T>, rows: map<nat, R>, a: seq<nat>, b: seq<nat>, k: nat,
                                                   step: (map<nat, T>, nat, R) -> Result<T, E>)
    requires Loaded(rows, a) && Loaded(rows, b) && k <= |a| && k <= |b| && a[..k] == b[..k]
    ensures SweepOrFail(init, rows, a, k, step) == SweepOrFail(init, rows, b, k, step)
    decreases k
  {
    if k > 0 {
      assert a[..k - 1] == a[..k][..k - 1] && b[..k - 1] == b[..k][..k - 1];
      assert a[k - 1] == a[..k][k - 1] && b[k - 1] == b[..k][k - 1];
      SweepOrFailAgree(init, rows, a, b, k - 1, step);
    }
  }

  /** The ids of a prefix of a loaded order have rows. */
  lemma PrefixLoaded<R>(rows: map<nat, R>, order: seq<nat>, k: nat)
    requires Loaded(rows, order) && k <= |order|
    ensures Loaded(rows, order[..k]) && |order[..k]| == k && order[..k][..k] == order[..k]
  {
    forall j | 0 <= j < k
      ensures order[..k][j] in rows
    {
      assert order[..k][j] == order[j];
    }
  }

  /** When the very first step fails, the sweep stops with its error. */
  lemma {:induction false} SweepOrFailFirstFails<R, T, E>(init: map<nat, T>, rows: map<nat, R>, order: seq<nat>, k: nat,
                                                        step: (map<nat, T>, nat, R) -> Result<T, E>)
    requires Loaded(rows, order) && 1 <= k <= |order|
    requires step(init, order[0], rows[order[0]]).Err?
    ensures SweepOrFail(init, rows, order, k, step) == Err(step(init, order[0], rows[order[0]]).error)
    decreases k
  {
    if k > 1 {
      SweepOrFailFirstFails(init, rows, order, k - 1, step);
    }
  }

  /** The sweep got through the first `i` ids and the step at position `i` fails. */
  predicate FailsAt<R, T, E>(init: map<nat, T>, rows: map<nat, R>, order: seq<nat>, i: nat,
                             step: (map<nat, T>, nat, R) -> Result<T, E>)
    requires Loaded(rows, order) && i < |order|
  {
    var prev := SweepOrFail(init, rows, order, i, step);
    prev.Ok? && step(prev.value, order[i], rows[order[i]]).Err?
  }

  /** The sweep fails exactly when some step, fed the records before it, fails. */
  lemma {:induction false} SweepOrFailFails<R, T, E>(init: map<nat, T>, rows: map<nat, R>, order: seq<nat>, k: nat,
                                                   step: (map<nat, T>, nat, R) -> Result<T, E>)
    requires Loaded(rows, order) && k <= |order|
    ensures SweepOrFail(init, rows, order, k, step).Err? <==> exists i :: 0 <= i < k && FailsAt(init, rows, order, i, step)
    decreases k
  {
    if k > 0 {
      SweepOrFailFails(init, rows, order, k - 1, step);
      if SweepOrFail(init, rows, order, k - 1, step).Err? {
        var i :| 0 <= i < k - 1 && FailsAt(init, rows, order, i, step);
      } else {
        // no earlier step failed, so only the last one can
        assert SweepOrFail(init, rows, order, k, step).Err? <==> FailsAt(init, rows, order, k - 1, step);
      }
    }
  }

  /** Only the initial ids and those of the first `k` positions are recorded. */
  lemma {:induction false} SweepOrFailKeys<R, T, E>(init: map<nat, T>, rows: map<nat, R>, order: seq<nat>, k: nat,
                                                  step: (map<nat, T>, nat, R) -> Result<T, E>)
    requires Loaded(rows, order) && k <= |order|
    requires SweepOrFail(init, rows, order, k, step).Ok?
    ensures forall id :: id in SweepOrFail(init, rows, order, k, step).value <==> id in init || id in order[..k]
    decreases k
  {
    if k > 0 {
      SweepOrFailKeys(init, rows, order, k - 1, step);
      assert order[..k] == order[..k - 1] + [order[k - 1]];
    }
  }

  /** With no repeated ids, the record of the id at position `i` is what the
      step computed from the records of the ids before it. */
  lemma {:induction false} SweepOrFailAt<R, T, E>(init: map<nat, T>, rows: map<nat, R>, order: seq<nat>, k: nat, i: nat,
                                                step: (map<nat, T>, nat, R) -> Result<T, E>)
    requires Loaded(rows, order) && Distinct(order) && i < k <= |order|
    requires SweepOrFail(init, rows, order, k, step).Ok?
    ensures SweepOrFail(init, rows, order, i, step).Ok?
    ensures step(SweepOrFail(init, rows, order, i, step).value, order[i], rows[order[i]]) ==
            Ok(SweepOrFail(init, rows, order, k, step).value[order[i]])
    decreases k
  {
    SweepOrFailPrefix(init, rows, order, i, k, step);
    if i < k - 1 {
      SweepOrFailAt(init, rows, order, k - 1, i, step);
      assert order[i] != order[k - 1];
    }
  }

  /** A property every successful step result has holds of the record of
      every visited id. */
  lemma {:induction false} SweepOrFailHolds<R, T, E>(init: map<nat, T>, rows: map<nat, R>, order: seq<nat>, k: nat,
                                                   step: (map<nat, T>, nat, R) -> Result<T, E>, p: (nat, R, T) -> bool)
    requires Loaded(rows, order) && k <= |order|
    requires forall m, id, row :: step(m, id, row).Ok? ==> p(id, row, step(m, id, row).value)
    requires SweepOrFail(init, rows, order, k, step).Ok?
    ensures forall i :: 0 <= i < k ==> p(order[i], rows[order[i]], SweepOrFail(init, rows, order, k, step).value[order[i]])
    decreases k
  {
    if k > 0 {
      SweepOrFailPrefix(init, rows, order, k - 1, k, step);
      SweepOrFailHolds(init, rows, order, k - 1, step, p);
      // a fresh name for the records lets the step's quantifier match
      var prev: map<nat, T> :| prev == SweepOrFail(init, rows, order, k - 1, step).value;
      var id := order[k - 1];
      var next := step(prev, id, rows[id]);
      assert next.Ok? && SweepOrFail(init, rows, order, k, step).value == prev[id := next.value];
    }
  }

  /** Every record satisfies `good`. */
  predicate Every<T>(records: map<nat, T>, good: T -> bool) {
    forall id :: id in records ==> good(records[id])
  }

  /** When the initial records are good and, fed good records, the step at
      every visited position succeeds with a good record, the sweep succeeds
      and all its records are good. */
  lemma {:induction false} SweepOrFailSucceeds<R, T, E>(init: map<nat, T>, rows: map<nat, R>, order: seq<nat>, k: nat,
                                                      step: (map<nat, T>, nat, R) -> Result<T, E>, good: T -> bool)
    requires Loaded(rows, order) && k <= |order|
    requires Every(init, good)
    requires forall m, i :: 0 <= i < k && Every(m, good) ==>
               step(m, order[i], rows[order[i]]).Ok? && good(step(m, order[i], rows[order[i]]).value)
    ensures SweepOrFail(init, rows, order, k, step).Ok?
    ensures Every(SweepOrFail(init, rows, order, k, step).value, good)
    decreases k
  {
    if k > 0 {
      SweepOrFailSucceeds(init, rows, order, k - 1, step, good);
      var prev: map<nat, T> :| prev == SweepOrFail(init, rows, order, k - 1, step).value;
      var id := order[k - 1];
      var next := step(prev, id, rows[id]);
      assert next.Ok? && good(next.value);
      assert SweepOrFail(init, rows, order, k, step).value == prev[id := next.value];
    }
  }

  /** An initial record whose id is not visited survives the sweep. */
  lemma {:induction false} SweepOrFailKeeps<R, T, E>(init: map<nat, T>, rows: map<nat, R>, order: seq<nat>, k: nat,
                                                   step: (map<nat, T>, nat, R) -> Result<T, E>, id: nat)
    requires Loaded(rows, order) && k <= |order|
    requires SweepOrFail(init, rows, order, k, step).Ok?
    requires id in init && forall i :: 0 <= i < k ==> order[i] != id
    ensures id in SweepOrFail(init, rows, order, k, step).value
    ensures SweepOrFail(init, rows, order, k, step).value[id] == init[id]
    decreases k
  {
    if k > 0 {
      SweepOrFailPrefix(init, rows, order, k - 1, k, step);
      SweepOrFailKeeps(init, rows, order, k - 1, step, id);
    }
  }
}
