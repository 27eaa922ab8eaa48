/** The store: the user table and the workout catalog, which this code only reads, and the
    assignment ledger, which AutoAssignWorkouts and CompleteWorkout change in place. */
module Storage {
  import opened Models
  import opened Ledger
  import opened Stats
  import opened Completion
  import opened Schedule

  datatype Error =
    | UserNotFound        // the user lookup failed
    | NoWorkoutsFound     // no template carries the user's goal and difficulty
    | DuplicateKey        // an insert hit an existing (UserID, WorkoutID, ScheduledDate) key
    | AssignmentNotFound  // a completion request matched no row

  /** Go's `error` result: nil or an error. */
  datatype Outcome = Pass | Fail(error: Error)

  class Store {
    /** The user table, keyed by user id. */
    const users: map<int, User>
    /** The workout templates, keyed by template id. */
    const catalog: map<int, Workout>
    /** The user_workouts table, in the store's row order. */
    var rows: seq<UserWorkout>

    /** The table's primary key holds. */
    ghost predicate Valid()
      reads this
    {
      UniqueKeys(rows)
    }

    constructor (users: map<int, User>, catalog: map<int, Workout>, rows: seq<UserWorkout>)
      requires UniqueKeys(rows)
      ensures Valid()
      ensures this.users == users && this.catalog == catalog && this.rows == rows
    {
      this.users := users;
      this.catalog := catalog;
      this.rows := rows;
    }

    /** Tops the user's plan up to three incomplete rows in one transaction: deletes the
        user's incomplete rows whose template no longer matches the user's tags, then, if fewer
        than three incomplete rows remain, inserts the missing ones round-robin over the
        selected templates, dated tomorrow and every second day after. `suitable` is the
        catalog query's answer and `now` the clock. On an insert clash the transaction rolls
        back and the entries built so far come back with the error. */
    method AutoAssignWorkouts(userId: int, suitable: seq<int>, now: Instant)
      returns (response: seq<UserWorkoutResponse>, outcome: Outcome)
      requires Valid()
      requires userId in users ==> IsSelection(catalog, users[userId], suitable)
      modifies this
      ensures Valid()
      ensures userId !in users ==> response == [] && outcome == Fail(UserNotFound) && rows == old(rows)
      ensures userId in users && suitable == [] ==> response == [] && outcome == Fail(NoWorkoutsFound) && rows == old(rows)
      ensures userId in users && suitable != [] ==>
        var pruned := Prune(old(rows), catalog, userId, users[userId]);
        var created := NewRows(userId, suitable, StartOfDay(now + SecondsPerDay), Needed(IncompleteCount(pruned, userId)));
        var k := FirstClash(pruned, created);
        && response == NewResponses(catalog, created[..k])
        && (k == |created| ==> outcome == Pass && rows == pruned + created)
        && (k < |created| ==> outcome == Fail(DuplicateKey) && rows == old(rows))
    {
      if userId !in users {
        return [], Fail(UserNotFound);
      }
      if |suitable| == 0 {
        return [], Fail(NoWorkoutsFound);
      }
      var snapshot := rows;
      response, outcome := TopUpTransaction(userId, users[userId], suitable, now);
      if outcome.Fail? {
        rows := snapshot;
      }
    }

    /** The body of the top-up transaction: the delete step, the count, and the inserts.
        It stops at the first insert whose key is taken, leaving the rollback to the caller. */
    method TopUpTransaction(userId: int, user: User, suitable: seq<int>, now: Instant)
      returns (response: seq<UserWorkoutResponse>, outcome: Outcome)
      requires Valid() && |suitable| > 0
      requires forall id | id in suitable :: id in catalog
      modifies this
      ensures var pruned := Prune(old(rows), catalog, userId, user);
        var created := NewRows(userId, suitable, StartOfDay(now + SecondsPerDay), Needed(IncompleteCount(pruned, userId)));
        var k := FirstClash(pruned, created);
        && response == NewResponses(catalog, created[..k])
        && (k == |created| ==> outcome == Pass && rows == pruned + created && Valid())
        && (k < |created| ==> outcome == Fail(DuplicateKey) && rows == pruned + created[..k])
    {
      rows := Prune(rows, catalog, userId, user);
      var count := IncompleteCount(rows, userId);
      var tomorrow := StartOfDay(now + SecondsPerDay);
      if count < PlanSize {
        response, outcome := InsertPlan(userId, suitable, tomorrow, PlanSize - count);
      } else {
        response, outcome := [], Pass;
        assert NewRows(userId, suitable, tomorrow, 0) == [];
      }
      if outcome.Pass? {
        TopUpUnique(old(rows), catalog, userId, user, suitable, tomorrow);
      }
    }

    /** The insert loop: creates `n` rows for the user, templates round-robin over `suitable`,
        the first dated `tomorrow` and each next one two days later, and builds the response
        entry of each. Stops at the first insert whose key is already taken. */
    method InsertPlan(userId: int, suitable: seq<int>, tomorrow: Instant, n: nat)
      returns (response: seq<UserWorkoutResponse>, outcome: Outcome)
      requires |suitable| > 0
      requires forall id | id in suitable :: id in catalog
      modifies this
      ensures var created := NewRows(userId, suitable, tomorrow, n);
        var k := FirstClash(old(rows), created);
        && response == NewResponses(catalog, created[..k])
        && (k == n ==> outcome == Pass && rows == old(rows) + created)
        && (k < n ==> outcome == Fail(DuplicateKey) && rows == old(rows) + created[..k])
    {
      ghost var table := rows;
      ghost var created := NewRows(userId, suitable, tomorrow, n);
      NewRowsIncreasing(userId, suitable, tomorrow, n);
      response := [];
      var nextDate := tomorrow;
      var i := 0;
      while i < n
        invariant 0 <= i <= n
        invariant rows == table + created[..i]
        invariant response == NewResponses(catalog, created[..i])
        invariant nextDate == tomorrow + DaysApart * i * SecondsPerDay
        invariant forall j | 0 <= j < i :: !HasKey(table, created[j].Key())
      {
        var row := UserWorkout(userId, suitable[i % |suitable|], nextDate, false);
        assert row == created[i];
        InsertStep(table, created, i);
        if HasKey(rows, row.Key()) {
          FirstClashAt(table, created, i);
          return response, Fail(DuplicateKey);
        }
        NewResponsesSnoc(catalog, created[..i], row);
        assert created[..i + 1] == created[..i] + [row];
        rows := rows + [row];
        response := response + [NewResponse(catalog, row)];
        nextDate := nextDate + DaysApart * SecondsPerDay;
        i := i + 1;
      }
      assert created[..n] == created;
      FirstClashAt(table, created, n);
      outcome := Pass;
    }

    /** Marks done every row of the user and template whose scheduled calendar day is the day
        of `date`; fails when no row matched. */
    method CompleteWorkout(userId: int, workoutId: int, date: Option<Instant>) returns (outcome: Outcome)
      requires Valid()
      modifies this
      ensures Valid()
      ensures rows == MarkDone(old(rows), userId, workoutId, date)
      ensures outcome == if MatchCount(old(rows), userId, workoutId, date) == 0 then Fail(AssignmentNotFound) else Pass
    {
      var updated, affected := MarkMatching(rows, userId, workoutId, date);
      MarkDoneKeepsKeys(rows, userId, workoutId, date);
      rows := updated;
      if affected == 0 {
        return Fail(AssignmentNotFound);
      }
      return Pass;
    }

    /** The user's progress: completed rows, completion rate, exercises over completed rows. */
    method GetUserStats(userId: int) returns (stats: UserStatsResponse)
      ensures stats.totalWorkouts == DoneCount(rows, userId)
      ensures stats.completionRateTenths == CompletionRate(DoneCount(rows, userId), AssignedCount(rows, userId))
      ensures stats.totalExercises == SumExercises(DoneRows(rows, userId), catalog)
      ensures stats.currentStreak == 0 && stats.favoriteWorkout == ""
    {
      var totalAssigned := AssignedCount(rows, userId);
      var totalDone := DoneCount(rows, userId);
      stats := UserStatsResponse(totalDone, CompletionRate(totalDone, totalAssigned), 0, 0, "");

      var completed := DoneRows(rows, userId);
      var exCount := 0;
      var i := 0;
      while i < |completed|
        invariant 0 <= i <= |completed|
        invariant exCount == SumExercises(completed[..i], catalog)
      {
        assert completed[..i + 1][..i] == completed[..i];
        exCount := exCount + ExerciseCount(catalog, completed[i].workoutId);
        i := i + 1;
      }
      assert completed[..i] == completed;
      stats := stats.(totalExercises := exCount);
    }

    /** The exercise list the i-th schedule entry ends up with. */
    function Exercises(i: nat, workoutId: int, lookupFails: set<nat>): seq<Exercise>
      requires workoutId in catalog
    {
      if i in lookupFails then [] else catalog[workoutId].exercises
    }

    /** The user's rows that have a template, in non-decreasing date order, each with its
        template's title, description and exercises; an entry whose exercise lookup fails
        (its index is in `lookupFails`) keeps an empty exercise list. */
    method GetUserSchedule(userId: int, lookupFails: set<nat>) returns (results: seq<UserWorkoutResponse>)
      ensures SortedByDate(results)
      ensures multiset(WithoutExercises(results)) == multiset(Joined(rows, catalog, userId))
      ensures forall i | 0 <= i < |results| :: results[i].workoutId in catalog
      ensures forall i | 0 <= i < |results| ::
        results[i].exercises == if i in lookupFails then [] else catalog[results[i].workoutId].exercises
    {
      var sorted := SortByDate(Joined(rows, catalog, userId));
      SortedJoinedShape(rows, catalog, userId);
      results := LoadExercises(sorted, lookupFails);
      FillKeepsEntries(sorted, results);
    }

    /** The second step of GetUserSchedule: attaches to each entry its template's exercises,
        in place, leaving the entry untouched where the lookup fails. */
    method LoadExercises(entries: seq<UserWorkoutResponse>, lookupFails: set<nat>) returns (results: seq<UserWorkoutResponse>)
      requires forall i | 0 <= i < |entries| :: entries[i].workoutId in catalog && entries[i].exercises == []
      ensures |results| == |entries|
      ensures forall i | 0 <= i < |results| ::
        results[i] == entries[i].(exercises := Exercises(i, entries[i].workoutId, lookupFails))
    {
      var a := new UserWorkoutResponse[|entries|](i requires 0 <= i < |entries| => entries[i]);
      for i := 0 to a.Length
        invariant forall j | 0 <= j < i :: a[j] == entries[j].(exercises := Exercises(j, entries[j].workoutId, lookupFails))
        invariant forall j | i <= j < a.Length :: a[j] == entries[j]
      {
        if i !in lookupFails {
          a[i] := a[i].(exercises := catalog[a[i].workoutId].exercises);
        }
      }
      results := a[..];
    }
  }
}
