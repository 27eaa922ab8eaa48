/** The records the assignment ledger works on: users, workout templates with their
    exercises, ledger rows and the two response shapes. */
module Models {

  datatype Option<T> = None | Some(value: T)

  /** A point in time, in whole seconds since 1970-01-01T00:00:00Z. */
  type Instant = int

  const SecondsPerDay: int := 86400

  /** The UTC calendar day an instant falls on, counted in days since the epoch.
      Dafny's division is Euclidean, so this is the floor for instants before the epoch too. */
  function Day(t: Instant): (d: int)
    ensures d * SecondsPerDay <= t < (d + 1) * SecondsPerDay
  {
    t / SecondsPerDay
  }

  /** The instant rounded down to a whole number of days (Go's Truncate(24 * time.Hour),
      which works on absolute time, so day boundaries are UTC midnights). */
  function StartOfDay(t: Instant): (r: Instant)
    ensures r <= t < r + SecondsPerDay
    ensures r % SecondsPerDay == 0
    ensures Day(r) == Day(t)
  {
    t - t % SecondsPerDay
  }

  // ----- arithmetic on day counts -----

  lemma MulNonneg(a: int, b: int)
    requires a >= 0 && b >= 0
    ensures a * b >= 0
  {
  }

  /** Division leaves a unique remainder. */
  lemma ModUnique(x: int, m: int, q: int, r: int)
    requires m > 0 && 0 <= r < m && x == q * m + r
    ensures x % m == r
  {
    var q2, r2 := x / m, x % m;
    var d := q - q2;
    assert d * m == r2 - r by {
      assert q * m - q2 * m == (q - q2) * m;
    }
    if d > 0 {
      MulNonneg(d - 1, m);
    } else if d < 0 {
      MulNonneg(-d - 1, m);
    }
  }

  lemma ModStep(i: nat, m: nat)
    requires m > 0
    ensures (i + m) % m == i % m
  {
    assert i + m == (i / m + 1) * m + i % m;
    ModUnique(i + m, m, i / m + 1, i % m);
  }

  /** One exercise of a workout template. */
  datatype Exercise = Exercise(id: int, title: string, desc: string, sets: int, reps: int, rest: int)

  /** A workout template of the catalog; its identifier is its key in the catalog map. */
  datatype Workout = Workout(title: string, desc: string, difficult: int, aim: int, exercises: seq<Exercise>)

  /** The part of a user's profile the ledger reads: goal and difficulty tags. */
  datatype User = User(aim: int, difficult: int)

  /** The composite primary key of a ledger row. */
  datatype RowKey = RowKey(userId: int, workoutId: int, scheduledDate: Instant)

  /** One ledger row: user `userId` is to perform template `workoutId` at `scheduledDate`. */
  datatype UserWorkout = UserWorkout(userId: int, workoutId: int, scheduledDate: Instant, isDone: bool)
  {
    function Key(): RowKey
    {
      RowKey(userId, workoutId, scheduledDate)
    }
  }

  /** A ledger row as shown to the client, with its template's details attached. */
  datatype UserWorkoutResponse = UserWorkoutResponse(
    workoutId: int,
    title: string,
    desc: string,
    scheduledDate: Instant,
    isDone: bool,
    exercises: seq<Exercise>)

  /** Progress statistics; the completion rate is kept in tenths of a percent (333 is 33.3%). */
  datatype UserStatsResponse = UserStatsResponse(
    totalWorkouts: int,
    completionRateTenths: int,
    totalExercises: int,
    currentStreak: int,
    favoriteWorkout: string)
}
