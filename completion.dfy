/** What CompleteWorkout does to the ledger: it marks done every row of the user and template
    whose scheduled calendar day is the requested one. */
module Completion {
  import opened Models
  import opened Stats
  import Ledger

  /** Whether a completion request selects row `r`: same user, same template and the same UTC
      calendar day, whatever the time of day on either side. A date the store cannot read
      (None) selects nothing. */
  predicate Selected(r: UserWorkout, userId: int, workoutId: int, date: Option<Instant>)
  {
    r.userId == userId && r.workoutId == workoutId && date.Some? && Day(r.scheduledDate) == Day(date.value)
  }

  function MarkRow(r: UserWorkout, userId: int, workoutId: int, date: Option<Instant>): UserWorkout
  {
    if Selected(r, userId, workoutId, date) then r.(isDone := true) else r
  }

  /** The ledger after the update: selected rows are done, every key and every other row is
      as it was, and no row goes from done back to not done. */
  function MarkDone(rows: seq<UserWorkout>, userId: int, workoutId: int, date: Option<Instant>): (marked: seq<UserWorkout>)
    ensures |marked| == |rows|
    ensures forall i | 0 <= i < |rows| :: marked[i].Key() == rows[i].Key()
    ensures forall i | 0 <= i < |rows| :: marked[i].isDone <==> rows[i].isDone || Selected(rows[i], userId, workoutId, date)
  {
    seq(|rows|, i requires 0 <= i < |rows| => MarkRow(rows[i], userId, workoutId, date))
  }

  /** The UPDATE statement, row by row: marks each selected row done and counts the rows
      it matched. */
  method MarkMatching(rows: seq<UserWorkout>, userId: int, workoutId: int, date: Option<Instant>)
    returns (updated: seq<UserWorkout>, affected: nat)
    ensures updated == MarkDone(rows, userId, workoutId, date)
    ensures affected == MatchCount(rows, userId, workoutId, date)
  {
    updated := rows;
    affected := 0;
    var i := 0;
    while i < |updated|
      invariant 0 <= i <= |updated| == |rows|
      invariant forall j | 0 <= j < i :: updated[j] == MarkRow(rows[j], userId, workoutId, date)
      invariant forall j | i <= j < |updated| :: updated[j] == rows[j]
      invariant affected == MatchCount(rows[..i], userId, workoutId, date)
    {
      assert rows[..i + 1][..i] == rows[..i];
      if Selected(updated[i], userId, workoutId, date) {
        updated := updated[i := updated[i].(isDone := true)];
        affected := affected + 1;
      }
      i := i + 1;
    }
    assert rows[..i] == rows;
  }

  /** The number of rows the update matches (the store's affected-row count, which counts
      matched rows even when they were already done). */
  function MatchCount(rows: seq<UserWorkout>, userId: int, workoutId: int, date: Option<Instant>): (n: nat)
    ensures n <= |rows|
    ensures n == 0 <==> forall i | 0 <= i < |rows| :: !Selected(rows[i], userId, workoutId, date)
  {
    if rows == [] then 0
    else
      var init := rows[..|rows| - 1];
      var last := rows[|rows| - 1];
      assert forall i | 0 <= i < |init| :: init[i] == rows[i];
      MatchCount(init, userId, workoutId, date) + (if Selected(last, userId, workoutId, date) then 1 else 0)
  }

  /** The number of matched rows that were not yet done. */
  function NewlyDone(rows: seq<UserWorkout>, userId: int, workoutId: int, date: Option<Instant>): nat
  {
    if rows == [] then 0
    else
      var last := rows[|rows| - 1];
      NewlyDone(rows[..|rows| - 1], userId, workoutId, date)
        + (if Selected(last, userId, workoutId, date) && !last.isDone then 1 else 0)
  }

  lemma {:induction false} MarkDonePrefix(rows: seq<UserWorkout>, userId: int, workoutId: int, date: Option<Instant>)
    requires rows != []
    ensures MarkDone(rows, userId, workoutId, date)[..|rows| - 1] == MarkDone(rows[..|rows| - 1], userId, workoutId, date)
  {
  }

  /** Completing a workout adds exactly the newly done rows to the user's done count and
      leaves every user's row count, and every other user's done count, as it was. */
  lemma {:induction false} MarkDoneCounts(rows: seq<UserWorkout>, userId: int, workoutId: int, date: Option<Instant>, u: int)
    ensures AssignedCount(MarkDone(rows, userId, workoutId, date), u) == AssignedCount(rows, u)
    ensures DoneCount(MarkDone(rows, userId, workoutId, date), u)
         == DoneCount(rows, u) + (if u == userId then NewlyDone(rows, userId, workoutId, date) else 0)
  {
    if rows != [] {
      MarkDonePrefix(rows, userId, workoutId, date);
      MarkDoneCounts(rows[..|rows| - 1], userId, workoutId, date, u);
    }
  }

  /** Completing a workout changes no key, so the primary key still holds afterwards. */
  lemma MarkDoneKeepsKeys(rows: seq<UserWorkout>, userId: int, workoutId: int, date: Option<Instant>)
    requires Ledger.UniqueKeys(rows)
    ensures Ledger.UniqueKeys(MarkDone(rows, userId, workoutId, date))
  {
  }

  /** Completing a workout never lowers the user's completion rate. */
  lemma MarkDoneRate(rows: seq<UserWorkout>, userId: int, workoutId: int, date: Option<Instant>)
    ensures var marked := MarkDone(rows, userId, workoutId, date);
      CompletionRate(DoneCount(rows, userId), AssignedCount(rows, userId))
        <= CompletionRate(DoneCount(marked, userId), AssignedCount(marked, userId))
  {
    MarkDoneCounts(rows, userId, workoutId, date, userId);
    RateMonotone(DoneCount(rows, userId), DoneCount(MarkDone(rows, userId, workoutId, date), userId), AssignedCount(rows, userId));
  }

  /** A row scheduled on some day is selected by a request carrying any time of that day,
      and by no time of the day before or the day after. */
  lemma SameDayOnly(r: UserWorkout, t: Instant)
    requires r.scheduledDate % SecondsPerDay == 0
    ensures r.scheduledDate <= t < r.scheduledDate + SecondsPerDay ==> Selected(r, r.userId, r.workoutId, Some(t))
    ensures t < r.scheduledDate || r.scheduledDate + SecondsPerDay <= t ==> !Selected(r, r.userId, r.workoutId, Some(t))
  {
    var d := r.scheduledDate / SecondsPerDay;
    assert r.scheduledDate == d * SecondsPerDay;
    if r.scheduledDate <= t < r.scheduledDate + SecondsPerDay {
      ModUnique(t, SecondsPerDay, d, t - r.scheduledDate);
    }
  }

  /** A step of SameDayRepeatClashes: the open-row count on its three-row table, where only the
      first row is done. */
  lemma IncompleteCountThree(rows: seq<UserWorkout>, userId: int)
    requires |rows| == 3 && rows[0].isDone
    requires !rows[1].isDone && rows[1].userId == userId && !rows[2].isDone && rows[2].userId == userId
    ensures Ledger.IncompleteCount(rows, userId) == 2
  {
    assert rows[..2][..1][..0] == [];
    assert Ledger.IncompleteCount(rows[..2][..1], userId) == 0;
  }

  /** Shifting an instant by whole days shifts its calendar day by as many days. */
  lemma DayShift(t: Instant, k: int)
    ensures Day(t + k * SecondsPerDay) == Day(t) + k
  {
    var q := t / SecondsPerDay;
    var r := t % SecondsPerDay;
    assert t + k * SecondsPerDay == (q + k) * SecondsPerDay + r;
    ModUnique(t + k * SecondsPerDay, SecondsPerDay, q + k, r);
  }

  /** A second top-up on the same day clashes on the primary key: on an empty ledger a user
      gets three new rows and completes the first one with a request carrying any time `t` of
      its day; the next top-up with the same tomorrow and the same selection recreates exactly
      that row's key as its first insert, so it fails and rolls back. */
  lemma {:induction false} SameDayRepeatClashes(catalog: map<int, Workout>, userId: int, user: User,
                                                suitable: seq<int>, tomorrow: Instant, t: Instant)
    requires |suitable| > 0 && Ledger.IsSelection(catalog, user, suitable)
    requires Day(t) == Day(tomorrow)
    ensures var first := Ledger.TopUp([], catalog, userId, user, suitable, tomorrow);
      var marked := MarkDone(first, userId, suitable[0], Some(t));
      var pruned := Ledger.Prune(marked, catalog, userId, user);
      var created := Ledger.NewRows(userId, suitable, tomorrow, Ledger.Needed(Ledger.IncompleteCount(pruned, userId)));
      && pruned == marked
      && |created| == 1
      && Ledger.FirstClash(pruned, created) == 0
  {
    var first := Ledger.TopUp([], catalog, userId, user, suitable, tomorrow);
    assert Ledger.Prune([], catalog, userId, user) == [];
    assert first == Ledger.NewRows(userId, suitable, tomorrow, 3);
    var marked := MarkDone(first, userId, suitable[0], Some(t));
    forall i | 0 <= i < 3
      ensures first[i] == Ledger.NewRow(userId, suitable, tomorrow, i)
    {
      Ledger.NewRowsAt(userId, suitable, tomorrow, 3, i);
    }
    Ledger.RoundRobinFirst(userId, suitable, tomorrow, 0);
    DayShift(tomorrow, 2);
    DayShift(tomorrow, 4);
    assert marked[0] == first[0].(isDone := true);
    assert marked[1] == first[1];
    assert marked[2] == first[2];
    Ledger.PruneKeepsAll(marked, catalog, userId, user);
    IncompleteCountThree(marked, userId);
    var created := Ledger.NewRows(userId, suitable, tomorrow, 1);
    Ledger.NewRowsAt(userId, suitable, tomorrow, 1, 0);
    assert created[0].Key() == marked[0].Key();
    assert Ledger.HasKey(marked, created[0].Key());
  }
}
