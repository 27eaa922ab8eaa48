/** The aggregates GetUserStats reads off the ledger: how many rows a user has, how many
    of them are done, the completion rate and the exercises over completed rows. */
module Stats {
  import opened Models
  import Ledger

  /** The number of the user's rows, whatever their status or date. */
  function AssignedCount(rows: seq<UserWorkout>, userId: int): (n: nat)
    ensures n <= |rows|
  {
    if rows == [] then 0
    else
      var last := rows[|rows| - 1];
      AssignedCount(rows[..|rows| - 1], userId) + (if last.userId == userId then 1 else 0)
  }

  /** The number of the user's rows with IsDone = true. */
  function DoneCount(rows: seq<UserWorkout>, userId: int): (n: nat)
    ensures n <= AssignedCount(rows, userId)
  {
    if rows == [] then 0
    else
      var last := rows[|rows| - 1];
      DoneCount(rows[..|rows| - 1], userId) + (if last.userId == userId && last.isDone then 1 else 0)
  }

  /** The user's completed rows, in table order. */
  function DoneRows(rows: seq<UserWorkout>, userId: int): (done: seq<UserWorkout>)
    ensures |done| == DoneCount(rows, userId)
    ensures forall r :: r in done <==> r in rows && r.userId == userId && r.isDone
  {
    if rows == [] then []
    else
      var last := rows[|rows| - 1];
      var init := rows[..|rows| - 1];
      assert rows == init + [last];
      DoneRows(init, userId) + (if last.userId == userId && last.isDone then [last] else [])
  }

  /** Every row of the user is either done or still open. */
  lemma {:induction false} AssignedSplits(rows: seq<UserWorkout>, userId: int)
    ensures AssignedCount(rows, userId) == DoneCount(rows, userId) + Ledger.IncompleteCount(rows, userId)
  {
    if rows != [] {
      AssignedSplits(rows[..|rows| - 1], userId);
    }
  }

  /** The number of exercises of a template; a row whose template is gone preloads an
      empty template and so contributes nothing. */
  function ExerciseCount(catalog: map<int, Workout>, workoutId: int): nat
  {
    if workoutId in catalog then |catalog[workoutId].exercises| else 0
  }

  /** The exercise count summed over a list of rows. */
  function SumExercises(rows: seq<UserWorkout>, catalog: map<int, Workout>): nat
  {
    if rows == [] then 0
    else SumExercises(rows[..|rows| - 1], catalog) + ExerciseCount(catalog, rows[|rows| - 1].workoutId)
  }

  /** The completion rate in tenths of a percent: done / total * 100 rounded half-up to one
      decimal, and 0 for a user with no rows. */
  function CompletionRate(done: nat, total: nat): (tenths: nat)
    ensures total == 0 ==> tenths == 0
    ensures total > 0 ==> 2 * total * tenths <= 2000 * done + total < 2 * total * (tenths + 1)
  {
    if total == 0 then 0 else (2000 * done + total) / (2 * total)
  }

  /** The rate is a percentage: between 0 and 100.0, exactly 100.0 when every row of a user
      with rows is done, and 0 when nothing is done. (99.95% and above also reads 100.0.) */
  lemma RateBounds(done: nat, total: nat)
    requires done <= total
    ensures CompletionRate(done, total) <= 1000
    ensures total > 0 && done == total ==> CompletionRate(done, total) == 1000
    ensures done == 0 ==> CompletionRate(done, total) == 0
  {
    if total > 0 {
      var t := CompletionRate(done, total);
      var a2 := 2 * total;
      if t > 1000 {
        MulMono(a2, 1001, t);
      }
      if done == total && t < 1000 {
        MulMono(a2, t + 1, 1000);
      }
      if done == 0 && t > 0 {
        MulMono(a2, 1, t);
      }
    }
  }

  /** More completed rows never give a lower rate. */
  lemma RateMonotone(done: nat, more: nat, total: nat)
    requires done <= more
    ensures CompletionRate(done, total) <= CompletionRate(more, total)
  {
    if total > 0 {
      var t1, t2 := CompletionRate(done, total), CompletionRate(more, total);
      if t1 > t2 {
        MulMono(2 * total, t2 + 1, t1);
      }
    }
  }

  lemma MulMono(k: nat, x: int, y: int)
    requires x <= y
    ensures k * x <= k * y
  {
    MulNonneg(k, y - x);
    assert k * y - k * x == k * (y - x);
  }

  /** One completed row out of three reads 33.3%, two out of three 66.7%. */
  lemma RateThirds()
    ensures CompletionRate(1, 3) == 333
    ensures CompletionRate(2, 3) == 667
  {
  }
}
