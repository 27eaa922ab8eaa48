/** The assignment ledger as a table of rows, and the pieces of the top-up that
    AutoAssignWorkouts performs on it: the delete step, the count of incomplete rows,
    the rows it creates and the first insert that would break the primary key. */
module Ledger {
  import opened Models

  /** The number of incomplete rows a top-up brings a user up to. */
  const PlanSize: nat := 3
  /** The catalog query returns at most this many templates. */
  const SelectionLimit: nat := 3
  /** Days between two consecutive rows created by one top-up. */
  const DaysApart: int := 2

  // ----- primary key (UserID, WorkoutID, ScheduledDate) -----

  predicate HasKey(rows: seq<UserWorkout>, k: RowKey)
  {
    exists i | 0 <= i < |rows| :: rows[i].Key() == k
  }

  predicate UniqueKeys(rows: seq<UserWorkout>)
  {
    forall i, j | 0 <= i < j < |rows| :: rows[i].Key() != rows[j].Key()
  }

  /** Appending a row keeps the key unique exactly when its key is not yet taken. */
  lemma UniqueKeysAppend(rows: seq<UserWorkout>, r: UserWorkout)
    ensures UniqueKeys(rows + [r]) <==> UniqueKeys(rows) && !HasKey(rows, r.Key())
  {
    var s := rows + [r];
    if UniqueKeys(s) {
      assert forall i | 0 <= i < |rows| :: s[i] == rows[i];
      assert s[|rows|] == r;
    }
  }

  lemma HasKeyAppend(a: seq<UserWorkout>, b: seq<UserWorkout>, k: RowKey)
    ensures HasKey(a + b, k) <==> HasKey(a, k) || HasKey(b, k)
  {
    if HasKey(a, k) {
      var i :| 0 <= i < |a| && a[i].Key() == k;
      assert (a + b)[i] == a[i];
    }
    if HasKey(b, k) {
      var i :| 0 <= i < |b| && b[i].Key() == k;
      assert (a + b)[|a| + i] == b[i];
    }
    if HasKey(a + b, k) {
      var i :| 0 <= i < |a + b| && (a + b)[i].Key() == k;
      if i >= |a| {
        var j := i - |a|;
        assert 0 <= j < |b| && b[j] == (a + b)[i];
      } else {
        assert a[i] == (a + b)[i];
      }
    }
  }

  // ----- tag matching and the delete step -----

  /** Whether a template carries the user's goal and difficulty tags. */
  predicate Matches(w: Workout, user: User)
  {
    w.aim == user.aim && w.difficult == user.difficult
  }

  /** The rows the delete step of a top-up for `userId` removes: the user's incomplete rows
      whose template exists in the catalog and no longer matches the user's tags. */
  predicate Stale(catalog: map<int, Workout>, userId: int, user: User, r: UserWorkout)
  {
    r.userId == userId && !r.isDone && r.workoutId in catalog && !Matches(catalog[r.workoutId], user)
  }

  /** The table after the delete step; the rows that stay keep their order. */
  function Prune(rows: seq<UserWorkout>, catalog: map<int, Workout>, userId: int, user: User): (kept: seq<UserWorkout>)
    ensures |kept| <= |rows|
  {
    if rows == [] then []
    else
      var last := rows[|rows| - 1];
      Prune(rows[..|rows| - 1], catalog, userId, user) + (if Stale(catalog, userId, user, last) then [] else [last])
  }

  /** The delete step removes exactly the stale rows: completed rows, rows of other users,
      rows whose template still matches and rows whose template is gone all stay. */
  lemma {:induction false} PruneMembers(rows: seq<UserWorkout>, catalog: map<int, Workout>, userId: int, user: User)
    ensures forall r :: r in Prune(rows, catalog, userId, user) <==> r in rows && !Stale(catalog, userId, user, r)
  {
    if rows != [] {
      var init := rows[..|rows| - 1];
      PruneMembers(init, catalog, userId, user);
      assert rows == init + [rows[|rows| - 1]];
    }
  }

  lemma {:induction false} PruneAppend(a: seq<UserWorkout>, b: seq<UserWorkout>, catalog: map<int, Workout>, userId: int, user: User)
    ensures Prune(a + b, catalog, userId, user) == Prune(a, catalog, userId, user) + Prune(b, catalog, userId, user)
  {
    if b != [] {
      var initB := b[..|b| - 1];
      PruneAppend(a, initB, catalog, userId, user);
      assert (a + b)[..|a + b| - 1] == a + initB;
    } else {
      assert a + b == a;
    }
  }

  /** Running the delete step twice removes nothing more. */
  lemma {:induction false} PruneIdempotent(rows: seq<UserWorkout>, catalog: map<int, Workout>, userId: int, user: User)
    ensures Prune(Prune(rows, catalog, userId, user), catalog, userId, user) == Prune(rows, catalog, userId, user)
  {
    if rows != [] {
      var init := rows[..|rows| - 1];
      var last := rows[|rows| - 1];
      var p := Prune(init, catalog, userId, user);
      PruneIdempotent(init, catalog, userId, user);
      if !Stale(catalog, userId, user, last) {
        assert Prune(rows, catalog, userId, user) == p + [last];
        PruneAppend(p, [last], catalog, userId, user);
        assert [last][..0] == [];
        assert Prune([last], catalog, userId, user) == [last];
      } else {
        assert Prune(rows, catalog, userId, user) == p;
      }
    }
  }

  /** The delete step keeps the primary key unique. */
  lemma {:induction false} PruneUnique(rows: seq<UserWorkout>, catalog: map<int, Workout>, userId: int, user: User)
    requires UniqueKeys(rows)
    ensures UniqueKeys(Prune(rows, catalog, userId, user))
  {
    if rows != [] {
      var init := rows[..|rows| - 1];
      var last := rows[|rows| - 1];
      var p := Prune(init, catalog, userId, user);
      PruneUnique(init, catalog, userId, user);
      if !Stale(catalog, userId, user, last) {
        PruneMembers(init, catalog, userId, user);
        forall i | 0 <= i < |p|
          ensures p[i].Key() != last.Key()
        {
          assert p[i] in init;
          var j :| 0 <= j < |init| && init[j] == p[i];
          assert rows[j] == init[j];
        }
        UniqueKeysAppend(p, last);
      }
    }
  }

  // ----- counting the plan -----

  /** The number of the user's rows with IsDone = false (any date, any template). */
  function IncompleteCount(rows: seq<UserWorkout>, userId: int): (n: nat)
    ensures n <= |rows|
  {
    if rows == [] then 0
    else
      var last := rows[|rows| - 1];
      IncompleteCount(rows[..|rows| - 1], userId) + (if last.userId == userId && !last.isDone then 1 else 0)
  }

  lemma {:induction false} IncompleteCountAppend(a: seq<UserWorkout>, b: seq<UserWorkout>, userId: int)
    ensures IncompleteCount(a + b, userId) == IncompleteCount(a, userId) + IncompleteCount(b, userId)
  {
    if b != [] {
      IncompleteCountAppend(a, b[..|b| - 1], userId);
      assert (a + b)[..|a + b| - 1] == a + b[..|b| - 1];
    } else {
      assert a + b == a;
    }
  }

  /** How many rows a top-up creates when `count` incomplete rows remain: enough to reach
      the plan size, and none when the plan is already full. */
  function Needed(count: nat): (n: nat)
    ensures count + n == if count < PlanSize then PlanSize else count
    ensures n <= PlanSize
  {
    if count < PlanSize then PlanSize - count else 0
  }

  // ----- the rows a top-up creates -----

  /** The catalog query's answer: at most three distinct templates that match the user's tags,
      and every matching template when fewer than three are returned. Its order is the store's. */
  predicate IsSelection(catalog: map<int, Workout>, user: User, suitable: seq<int>)
  {
    && |suitable| <= SelectionLimit
    && (forall id | id in suitable :: id in catalog && Matches(catalog[id], user))
    && (forall i, j | 0 <= i < j < |suitable| :: suitable[i] != suitable[j])
    && (|suitable| < SelectionLimit ==> forall id | id in catalog && Matches(catalog[id], user) :: id in suitable)
  }

  /** The i-th row a top-up creates (0-based): templates taken round-robin, two days apart. */
  function NewRow(userId: int, suitable: seq<int>, tomorrow: Instant, i: nat): UserWorkout
    requires |suitable| > 0
  {
    UserWorkout(userId, suitable[i % |suitable|], tomorrow + DaysApart * i * SecondsPerDay, false)
  }

  /** The `n` rows a top-up creates, in insertion order: incomplete rows of the user, each
      with one of the selected templates. */
  function NewRows(userId: int, suitable: seq<int>, tomorrow: Instant, n: nat): (created: seq<UserWorkout>)
    requires |suitable| > 0
    ensures |created| == n
    ensures forall i | 0 <= i < n :: created[i].userId == userId && !created[i].isDone && created[i].workoutId in suitable
  {
    seq(n, i requires 0 <= i => NewRow(userId, suitable, tomorrow, i))
  }

  /** Templates are taken round-robin, first part: the first rows use the selection in its
      order. */
  lemma NewRowsFirstPass(userId: int, suitable: seq<int>, tomorrow: Instant, n: nat)
    requires |suitable| > 0
    ensures forall i | 0 <= i < n && i < |suitable| :: NewRows(userId, suitable, tomorrow, n)[i].workoutId == suitable[i]
  {
    forall i | 0 <= i < n && i < |suitable|
      ensures NewRows(userId, suitable, tomorrow, n)[i].workoutId == suitable[i]
    {
      NewRowsAt(userId, suitable, tomorrow, n, i);
      RoundRobinFirst(userId, suitable, tomorrow, i);
    }
  }

  /** Templates are taken round-robin, second part: each row repeats the template of the row
      |suitable| places before it. */
  lemma NewRowsRepeat(userId: int, suitable: seq<int>, tomorrow: Instant, n: nat)
    requires |suitable| > 0
    ensures forall i | 0 <= i && i + |suitable| < n ::
      NewRows(userId, suitable, tomorrow, n)[i + |suitable|].workoutId == NewRows(userId, suitable, tomorrow, n)[i].workoutId
  {
    forall i | 0 <= i && i + |suitable| < n
      ensures NewRows(userId, suitable, tomorrow, n)[i + |suitable|].workoutId == NewRows(userId, suitable, tomorrow, n)[i].workoutId
    {
      NewRowsAt(userId, suitable, tomorrow, n, i);
      NewRowsAt(userId, suitable, tomorrow, n, i + |suitable|);
      RoundRobinStep(userId, suitable, tomorrow, i);
    }
  }

  lemma NewRowsAt(userId: int, suitable: seq<int>, tomorrow: Instant, n: nat, i: nat)
    requires |suitable| > 0 && i < n
    ensures NewRows(userId, suitable, tomorrow, n)[i] == NewRow(userId, suitable, tomorrow, i)
  {
  }

  lemma RoundRobinFirst(userId: int, suitable: seq<int>, tomorrow: Instant, i: nat)
    requires i < |suitable|
    ensures NewRow(userId, suitable, tomorrow, i).workoutId == suitable[i]
  {
    ModUnique(i, |suitable|, 0, i);
  }

  lemma RoundRobinStep(userId: int, suitable: seq<int>, tomorrow: Instant, i: nat)
    requires |suitable| > 0
    ensures NewRow(userId, suitable, tomorrow, i + |suitable|).workoutId == NewRow(userId, suitable, tomorrow, i).workoutId
  {
    ModStep(i, |suitable|);
  }

  /** The created rows are dated tomorrow and every second day after, so their dates strictly
      increase and their keys are distinct. */
  lemma {:induction false} NewRowsIncreasing(userId: int, suitable: seq<int>, tomorrow: Instant, n: nat)
    requires |suitable| > 0
    ensures n > 0 ==> NewRows(userId, suitable, tomorrow, n)[0].scheduledDate == tomorrow
    ensures forall i | 0 < i < n ::
      NewRows(userId, suitable, tomorrow, n)[i].scheduledDate
        == NewRows(userId, suitable, tomorrow, n)[i - 1].scheduledDate + DaysApart * SecondsPerDay
    ensures forall i, j | 0 <= i < j < n ::
      NewRows(userId, suitable, tomorrow, n)[i].scheduledDate < NewRows(userId, suitable, tomorrow, n)[j].scheduledDate
    ensures UniqueKeys(NewRows(userId, suitable, tomorrow, n))
  {
    var created := NewRows(userId, suitable, tomorrow, n);
    forall i | 0 < i < n
      ensures created[i].scheduledDate == created[i - 1].scheduledDate + DaysApart * SecondsPerDay
    {
      assert created[i] == NewRow(userId, suitable, tomorrow, i);
      assert created[i - 1] == NewRow(userId, suitable, tomorrow, i - 1);
    }
    forall i, j | 0 <= i < j < n
      ensures created[i].scheduledDate < created[j].scheduledDate
    {
      assert created[i] == NewRow(userId, suitable, tomorrow, i);
      assert created[j] == NewRow(userId, suitable, tomorrow, j);
    }
  }

  /** Every created row is one more incomplete row of the user. */
  lemma {:induction false} NewRowsIncomplete(userId: int, suitable: seq<int>, tomorrow: Instant, n: nat)
    requires |suitable| > 0
    ensures IncompleteCount(NewRows(userId, suitable, tomorrow, n), userId) == n
  {
    if n > 0 {
      var created := NewRows(userId, suitable, tomorrow, n);
      NewRowsIncomplete(userId, suitable, tomorrow, n - 1);
      assert created[..n - 1] == NewRows(userId, suitable, tomorrow, n - 1);
    }
  }

  /** The index of the first created row whose key is already taken in `table`, or |created|
      when every insert succeeds. */
  function FirstClash(table: seq<UserWorkout>, created: seq<UserWorkout>): (k: nat)
    ensures k <= |created|
    ensures forall j | 0 <= j < k :: !HasKey(table, created[j].Key())
    ensures k < |created| ==> HasKey(table, created[k].Key())
  {
    if created == [] || HasKey(table, created[0].Key()) then 0
    else 1 + FirstClash(table, created[1..])
  }

  /** While inserting the created rows one by one, the i-th insert clashes exactly when its
      key is taken in the table the inserts started from. */
  lemma InsertStep(table: seq<UserWorkout>, created: seq<UserWorkout>, i: nat)
    requires i < |created|
    requires forall a, b | 0 <= a < b < |created| :: created[a].scheduledDate < created[b].scheduledDate
    ensures HasKey(table + created[..i], created[i].Key()) <==> HasKey(table, created[i].Key())
    ensures table + created[..i + 1] == table + created[..i] + [created[i]]
  {
    var before := created[..i];
    HasKeyAppend(table, before, created[i].Key());
    forall j | 0 <= j < i
      ensures before[j].Key() != created[i].Key()
    {
      assert before[j].scheduledDate < created[i].scheduledDate;
    }
    assert !HasKey(before, created[i].Key());
    assert created[..i + 1] == before + [created[i]];
    assert table + (before + [created[i]]) == (table + before) + [created[i]];
  }

  /** The first clash is the first index whose key is taken. */
  lemma FirstClashAt(table: seq<UserWorkout>, created: seq<UserWorkout>, i: nat)
    requires i <= |created|
    requires forall j | 0 <= j < i :: !HasKey(table, created[j].Key())
    requires i < |created| ==> HasKey(table, created[i].Key())
    ensures FirstClash(table, created) == i
  {
  }

  /** The response entry for a created row: template id, title, date and exercises;
      the description and the done flag are left at their zero values. */
  function NewResponse(catalog: map<int, Workout>, r: UserWorkout): UserWorkoutResponse
    requires r.workoutId in catalog
  {
    var w := catalog[r.workoutId];
    UserWorkoutResponse(r.workoutId, w.title, "", r.scheduledDate, false, w.exercises)
  }

  function NewResponses(catalog: map<int, Workout>, rows: seq<UserWorkout>): (rs: seq<UserWorkoutResponse>)
    requires forall i | 0 <= i < |rows| :: rows[i].workoutId in catalog
    ensures |rs| == |rows|
    ensures forall i | 0 <= i < |rows| ::
      rs[i].workoutId == rows[i].workoutId && rs[i].scheduledDate == rows[i].scheduledDate && !rs[i].isDone
  {
    seq(|rows|, i requires 0 <= i < |rows| => NewResponse(catalog, rows[i]))
  }

  lemma NewResponsesSnoc(catalog: map<int, Workout>, rows: seq<UserWorkout>, r: UserWorkout)
    requires forall i | 0 <= i < |rows| :: rows[i].workoutId in catalog
    requires r.workoutId in catalog
    ensures NewResponses(catalog, rows + [r]) == NewResponses(catalog, rows) + [NewResponse(catalog, r)]
  {
  }

  // ----- the ledger after a successful top-up -----

  /** The table a top-up commits when no insert clashes: the delete step, then the new rows. */
  function TopUp(rows: seq<UserWorkout>, catalog: map<int, Workout>, userId: int, user: User,
                 suitable: seq<int>, tomorrow: Instant): seq<UserWorkout>
    requires |suitable| > 0
  {
    var pruned := Prune(rows, catalog, userId, user);
    pruned + NewRows(userId, suitable, tomorrow, Needed(IncompleteCount(pruned, userId)))
  }

  /** After a top-up the user has max(3, count) incomplete rows, where count is what the
      delete step left; nothing is created when count is already 3 or more. */
  lemma {:induction false} TopUpFillsPlan(rows: seq<UserWorkout>, catalog: map<int, Workout>, userId: int, user: User,
                                          suitable: seq<int>, tomorrow: Instant)
    requires |suitable| > 0
    ensures var count := IncompleteCount(Prune(rows, catalog, userId, user), userId);
      && IncompleteCount(TopUp(rows, catalog, userId, user, suitable, tomorrow), userId)
         == (if count < PlanSize then PlanSize else count)
      && (count >= PlanSize ==> TopUp(rows, catalog, userId, user, suitable, tomorrow) == Prune(rows, catalog, userId, user))
  {
    var pruned := Prune(rows, catalog, userId, user);
    var n := Needed(IncompleteCount(pruned, userId));
    IncompleteCountAppend(pruned, NewRows(userId, suitable, tomorrow, n), userId);
    NewRowsIncomplete(userId, suitable, tomorrow, n);
    if n == 0 {
      assert pruned + NewRows(userId, suitable, tomorrow, n) == pruned;
    }
  }

  /** A top-up keeps history: every row of the table that is not stale survives, and every
      row afterwards is either such a survivor or one of the rows the top-up created. */
  lemma {:induction false} TopUpKeepsHistory(rows: seq<UserWorkout>, catalog: map<int, Workout>, userId: int, user: User,
                                             suitable: seq<int>, tomorrow: Instant)
    requires |suitable| > 0
    ensures forall r | r in rows ::
      r in TopUp(rows, catalog, userId, user, suitable, tomorrow) <== !Stale(catalog, userId, user, r)
    ensures forall r | r in TopUp(rows, catalog, userId, user, suitable, tomorrow) ::
      (r in rows && !Stale(catalog, userId, user, r))
      || r in NewRows(userId, suitable, tomorrow, Needed(IncompleteCount(Prune(rows, catalog, userId, user), userId)))
  {
    PruneMembers(rows, catalog, userId, user);
  }

  /** With the catalog query's selection, a row of the table survives a top-up exactly when it
      is not stale: the created rows use matching templates, so none of them is stale. */
  lemma {:induction false} TopUpDropsStale(rows: seq<UserWorkout>, catalog: map<int, Workout>, userId: int, user: User,
                                           suitable: seq<int>, tomorrow: Instant)
    requires |suitable| > 0 && IsSelection(catalog, user, suitable)
    ensures forall r | r in rows ::
      r in TopUp(rows, catalog, userId, user, suitable, tomorrow) <==> !Stale(catalog, userId, user, r)
  {
    var pruned := Prune(rows, catalog, userId, user);
    var created := NewRows(userId, suitable, tomorrow, Needed(IncompleteCount(pruned, userId)));
    PruneMembers(rows, catalog, userId, user);
    forall r | r in created
      ensures !Stale(catalog, userId, user, r)
    {
      var i :| 0 <= i < |created| && created[i] == r;
      assert r.workoutId in suitable;
    }
  }

  /** A top-up keeps the primary key unique when none of its inserts clashes. */
  lemma {:induction false} TopUpUnique(rows: seq<UserWorkout>, catalog: map<int, Workout>, userId: int, user: User,
                                       suitable: seq<int>, tomorrow: Instant)
    requires |suitable| > 0 && UniqueKeys(rows)
    requires var pruned := Prune(rows, catalog, userId, user);
      var created := NewRows(userId, suitable, tomorrow, Needed(IncompleteCount(pruned, userId)));
      FirstClash(pruned, created) == |created|
    ensures UniqueKeys(TopUp(rows, catalog, userId, user, suitable, tomorrow))
  {
    var pruned := Prune(rows, catalog, userId, user);
    var created := NewRows(userId, suitable, tomorrow, Needed(IncompleteCount(pruned, userId)));
    PruneUnique(rows, catalog, userId, user);
    NewRowsIncreasing(userId, suitable, tomorrow, |created|);
    var i := 0;
    while i < |created|
      invariant 0 <= i <= |created|
      invariant UniqueKeys(pruned + created[..i])
    {
      HasKeyAppend(pruned, created[..i], created[i].Key());
      assert !HasKey(created[..i], created[i].Key());
      UniqueKeysAppend(pruned + created[..i], created[i]);
      assert pruned + created[..i + 1] == pruned + created[..i] + [created[i]];
      i := i + 1;
    }
    assert created[..|created|] == created;
  }

  /** A second top-up straight after a successful one, with the same tags and catalog,
      deletes nothing and creates nothing. */
  lemma {:induction false} TopUpStable(rows: seq<UserWorkout>, catalog: map<int, Workout>, userId: int, user: User,
                                       suitable: seq<int>, tomorrow: Instant)
    requires |suitable| > 0 && IsSelection(catalog, user, suitable)
    ensures var after := TopUp(rows, catalog, userId, user, suitable, tomorrow);
      && Prune(after, catalog, userId, user) == after
      && Needed(IncompleteCount(after, userId)) == 0
  {
    var pruned := Prune(rows, catalog, userId, user);
    var created := NewRows(userId, suitable, tomorrow, Needed(IncompleteCount(pruned, userId)));
    PruneAppend(pruned, created, catalog, userId, user);
    PruneIdempotent(rows, catalog, userId, user);
    PruneMembers(created, catalog, userId, user);
    PruneKeepsAll(created, catalog, userId, user);
    TopUpFillsPlan(rows, catalog, userId, user, suitable, tomorrow);
  }

  /** The delete step keeps a table none of whose rows is stale. */
  lemma {:induction false} PruneKeepsAll(rows: seq<UserWorkout>, catalog: map<int, Workout>, userId: int, user: User)
    requires forall i | 0 <= i < |rows| :: !Stale(catalog, userId, user, rows[i])
    ensures Prune(rows, catalog, userId, user) == rows
  {
    if rows != [] {
      PruneKeepsAll(rows[..|rows| - 1], catalog, userId, user);
      assert rows == rows[..|rows| - 1] + [rows[|rows| - 1]];
    }
  }
}
