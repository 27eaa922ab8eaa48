/** What GetUserSchedule reads: the user's rows joined with their templates, ordered by
    scheduled date. */
module Schedule {
  import opened Models
  import Stats

  /** A row as the schedule query returns it: the template's title and description, the row's
      date and status, and no exercises yet. */
  function ScheduleEntry(catalog: map<int, Workout>, r: UserWorkout): UserWorkoutResponse
    requires r.workoutId in catalog
  {
    var w := catalog[r.workoutId];
    UserWorkoutResponse(r.workoutId, w.title, w.desc, r.scheduledDate, r.isDone, [])
  }

  /** The inner join of the user's rows with the catalog, in table order: a row whose
      template is gone has no entry. */
  function Joined(rows: seq<UserWorkout>, catalog: map<int, Workout>, userId: int): (js: seq<UserWorkoutResponse>)
    ensures |js| <= |rows|
    ensures forall i | 0 <= i < |js| :: js[i].workoutId in catalog && js[i].exercises == []
  {
    if rows == [] then []
    else
      var last := rows[|rows| - 1];
      Joined(rows[..|rows| - 1], catalog, userId)
        + (if last.userId == userId && last.workoutId in catalog then [ScheduleEntry(catalog, last)] else [])
  }

  /** Every entry comes from one of the user's rows whose template exists, and every such row
      gives an entry. */
  lemma {:induction false} JoinedMembers(rows: seq<UserWorkout>, catalog: map<int, Workout>, userId: int)
    ensures forall r | r in rows && r.userId == userId && r.workoutId in catalog :: ScheduleEntry(catalog, r) in Joined(rows, catalog, userId)
    ensures forall e | e in Joined(rows, catalog, userId) ::
      exists r | r in rows && r.userId == userId && r.workoutId in catalog :: e == ScheduleEntry(catalog, r)
  {
    if rows != [] {
      var init := rows[..|rows| - 1];
      JoinedMembers(init, catalog, userId);
      assert rows == init + [rows[|rows| - 1]];
    }
  }

  /** When every template the user's rows point at exists, the schedule has one entry per
      row of the user. */
  lemma {:induction false} JoinedCount(rows: seq<UserWorkout>, catalog: map<int, Workout>, userId: int)
    requires forall i | 0 <= i < |rows| :: rows[i].userId == userId ==> rows[i].workoutId in catalog
    ensures |Joined(rows, catalog, userId)| == Stats.AssignedCount(rows, userId)
  {
    if rows != [] {
      JoinedCount(rows[..|rows| - 1], catalog, userId);
    }
  }

  predicate SortedByDate(s: seq<UserWorkoutResponse>)
  {
    forall i, j | 0 <= i < j < |s| :: s[i].scheduledDate <= s[j].scheduledDate
  }

  lemma SortedCons(x: UserWorkoutResponse, t: seq<UserWorkoutResponse>)
    requires SortedByDate(t)
    requires forall i | 0 <= i < |t| :: x.scheduledDate <= t[i].scheduledDate
    ensures SortedByDate([x] + t)
  {
    var r := [x] + t;
    forall i, j | 0 <= i < j < |r|
      ensures r[i].scheduledDate <= r[j].scheduledDate
    {
      if i > 0 {
        assert r[i] == t[i - 1] && r[j] == t[j - 1];
      } else {
        assert r[j] == t[j - 1];
      }
    }
  }

  /** Places `e` after every entry dated no later than it. */
  function InsertByDate(e: UserWorkoutResponse, s: seq<UserWorkoutResponse>): (r: seq<UserWorkoutResponse>)
    requires SortedByDate(s)
    ensures SortedByDate(r)
    ensures multiset(r) == multiset(s) + multiset{e}
  {
    if s == [] then [e]
    else if e.scheduledDate < s[0].scheduledDate then [e] + s
    else
      var rest := InsertByDate(e, s[1..]);
      assert s == [s[0]] + s[1..];
      forall i | 0 <= i < |rest|
        ensures s[0].scheduledDate <= rest[i].scheduledDate
      {
        assert rest[i] in multiset(rest);
        if rest[i] != e {
          assert rest[i] in multiset(s[1..]);
          var j :| 0 <= j < |s[1..]| && s[1..][j] == rest[i];
          assert s[1 + j] == rest[i];
        }
      }
      SortedCons(s[0], rest);
      [s[0]] + rest
  }

  /** The query's ORDER BY scheduled_date ASC: the same entries, in non-decreasing date order.
      Entries with equal dates keep their table order here; the store leaves that order open. */
  function SortByDate(s: seq<UserWorkoutResponse>): (r: seq<UserWorkoutResponse>)
    ensures SortedByDate(r)
    ensures multiset(r) == multiset(s)
  {
    if s == [] then []
    else
      var init := s[..|s| - 1];
      assert s == init + [s[|s| - 1]];
      InsertByDate(s[|s| - 1], SortByDate(init))
  }

  /** The entries with their exercise lists emptied. */
  function WithoutExercises(s: seq<UserWorkoutResponse>): (r: seq<UserWorkoutResponse>)
    ensures |r| == |s|
  {
    seq(|s|, i requires 0 <= i < |s| => s[i].(exercises := []))
  }

  /** Every entry of the sorted join names an existing template and carries no exercises yet. */
  lemma SortedJoinedShape(rows: seq<UserWorkout>, catalog: map<int, Workout>, userId: int)
    ensures forall i | 0 <= i < |SortByDate(Joined(rows, catalog, userId))| ::
      var e := SortByDate(Joined(rows, catalog, userId))[i];
      e.workoutId in catalog && e.exercises == []
  {
    var joined := Joined(rows, catalog, userId);
    var sorted := SortByDate(joined);
    forall i | 0 <= i < |sorted|
      ensures sorted[i].workoutId in catalog && sorted[i].exercises == []
    {
      assert sorted[i] in multiset(joined);
    }
  }

  /** Filling in exercise lists keeps the date order and changes nothing else. */
  lemma FillKeepsEntries(sorted: seq<UserWorkoutResponse>, filled: seq<UserWorkoutResponse>)
    requires SortedByDate(sorted) && |filled| == |sorted|
    requires forall i | 0 <= i < |sorted| :: sorted[i].exercises == [] && filled[i] == sorted[i].(exercises := filled[i].exercises)
    ensures SortedByDate(filled)
    ensures WithoutExercises(filled) == sorted
  {
    assert forall i, j | 0 <= i < j < |filled| :: filled[i].scheduledDate == sorted[i].scheduledDate && filled[j].scheduledDate == sorted[j].scheduledDate;
  }
}
