# Workout assignment ledger, modelled in Dafny

This project models the assignment ledger of a small fitness back end in Dafny. The ledger is kept
in `internal/storage.go` over the records of `internal/models.go`.

The store has three parts:
- the user table, which supplies each user's goal (`Aim`) and difficulty (`Difficult`) tags;
- the catalog of workout templates, each with its tags and its exercises;
- the `user_workouts` ledger. Each row says that a user is to do a template on a date, and carries
  an `IsDone` flag. The row's primary key is the triple (user, template, scheduled date).

Four operations work on the store:

- **AutoAssignWorkouts** tops a user's plan up to three open rows, in one transaction:
  1. It deletes the user's open rows whose template no longer carries the user's tags.
  2. It counts the open rows that remain.
  3. It inserts the missing rows. Templates are taken round-robin from at most three matching
     templates. The first row is dated tomorrow (midnight UTC), and each next row two days later.
  4. It returns response entries for the rows it created.

  If an insert hits an existing key, the transaction rolls back. The entries built so far are
  still returned, together with the error.
- **CompleteWorkout** marks done every row of a user and template that is scheduled on a given
  calendar day. It fails when no row matched.
- **GetUserStats** counts the user's done rows, works out the completion rate to one decimal, and
  adds up the exercises of the done rows' templates.
- **GetUserSchedule** joins the user's rows with their templates and sorts them by date. It then
  loads each entry's exercise list, and an entry keeps an empty list when its lookup fails.

The modules follow that structure:
- `Models` holds the records, and instants as whole seconds since the epoch.
- `Ledger` holds the primary key, the delete step, the rows a top-up creates, and the first
  clashing insert.
- `Stats` holds the counts, the rounded rate and the exercise sum.
- `Completion` holds the update made by CompleteWorkout.
- `Schedule` holds the join and the date order.
- `Storage` holds the class `Store`. Its methods perform the four operations step by step on the
  ledger field `rows`, and are proved against the functions of the other modules.

The catalog query (`Limit(3)`, no ORDER BY) returns templates in an order the store chooses, so the
answer is a parameter `suitable` of AutoAssignWorkouts, described by `Ledger.IsSelection`. The
clock is the parameter `now`. The date string of CompleteWorkout is `Option<Instant>`, where `None`
stands for a string that SQLite's `DATE()` cannot read; such a string matches no row.
GetUserSchedule's per-entry exercise lookups are also a parameter: `lookupFails` is the set of
entry indices whose lookup fails.

What the code does, and the model with it:
- a top-up only fills the plan up to three open rows, counted over all of the user's open rows
  whatever their date;
- templates are taken round-robin in the order the catalog query returns them;
- new rows are two days apart, starting at tomorrow's UTC midnight;
- the delete step removes the user's open rows whose template no longer matches the user's tags,
  whatever their date, and keeps rows whose template is gone;
- the response entries of AutoAssignWorkouts leave the description empty and `IsDone` false.

One consequence of the code is proved as `Completion.SameDayRepeatClashes`. Start from an empty
ledger. A top-up for a user creates three rows, the first dated `tomorrow`. The user then completes
that first row with a request carrying any time of its day. Then a second top-up runs under two
conditions:
- it runs on the same UTC day as the first, so it computes the same `tomorrow`;
- the catalog query returns the same templates in the same order, which nothing in the query
  guarantees because it has no ORDER BY.

That second top-up creates one row. The row has the completed row's key, so the insert fails with
a duplicate key and the ledger is rolled back.

## Model

| member | source | states |
|---|---|---|
| Models.StartOfDay | internal/storage.go:75 | Truncating to 24 hours gives the UTC midnight at or before the instant, on the same calendar day. |
| Models.Day | internal/storage.go:146 | `DATE()` of an instant is its UTC calendar day: the day count d with d·86400 ≤ t < (d+1)·86400. |
| Ledger.HasKey | internal/models.go:19-26 | A key is taken when some row of the table carries that (UserID, WorkoutID, ScheduledDate) triple. |
| Ledger.UniqueKeys | internal/models.go:19-26 | The composite primary key: no two rows share the triple. This is also the store's invariant. |
| Ledger.UniqueKeysAppend | internal/models.go:19-26 | Appending a row keeps the (UserID, WorkoutID, ScheduledDate) key unique exactly when that key is not yet taken. |
| Ledger.Matches | internal/storage.go:44 | `aim = ? AND difficult = ?`: a template carries both of the user's tags. Its negation is the subquery of the delete step at line 62. |
| Ledger.Stale | internal/storage.go:57-62 | The DELETE's WHERE: a row of the user, not done, whose template is among the templates with a different Aim or Difficult. |
| Ledger.Prune | internal/storage.go:57-63 | The delete step never adds rows. |
| Ledger.PruneMembers | internal/storage.go:57-63 | The delete step removes exactly the user's open rows whose existing template differs in Aim or Difficult. Done rows, still-matching rows, rows whose template is gone and other users' rows all stay. |
| Ledger.PruneIdempotent | internal/storage.go:57-63 | Deleting a second time removes nothing more. |
| Ledger.PruneUnique | internal/storage.go:57-63 | The delete step keeps the primary key unique. |
| Ledger.PruneKeepsAll | internal/storage.go:57-63 | A table with no stale row is left as it is. |
| Ledger.IncompleteCount | internal/storage.go:72 | The count of the user's open rows is at most the number of rows. |
| Ledger.IncompleteCountAppend | internal/storage.go:72 | The count of open rows adds up over concatenated tables. |
| Ledger.Needed | internal/storage.go:74-77 | The top-up creates 3 − count rows when count < 3 and none otherwise, so count plus created is max(3, count). |
| Ledger.IsSelection | internal/storage.go:43-50 | The `Limit(3)` catalog query: at most three distinct matching templates, and all of them when fewer than three come back, so an empty answer means that no template matches. |
| Ledger.NewRow | internal/storage.go:78-85 | The i-th inserted row: the user, template `suitable[i % len(suitable)]`, date tomorrow + 2·i days, not done. |
| Ledger.NewRows | internal/storage.go:77-86 | Each created row belongs to the user, is not done, and uses one of the selected templates. |
| Ledger.NewRowsFirstPass | internal/storage.go:78 | The i-th created row uses the i-th selected template while i < len(suitable). |
| Ledger.NewRowsRepeat | internal/storage.go:78 | Each created row repeats the template of the row len(suitable) places earlier (round-robin). |
| Ledger.NewRowsIncreasing | internal/storage.go:75-98 | The first created row is dated tomorrow and each next one two days later. The dates strictly increase, so the created keys are distinct. |
| Ledger.NewRowsIncomplete | internal/storage.go:80-85 | All n created rows count as open rows of the user. |
| Ledger.FirstClash | internal/storage.go:87-89 | The index of the first insert whose key is already taken: no earlier insert clashes, and the insert at that index does. |
| Ledger.InsertStep | internal/storage.go:77-89 | Because the new dates increase, an insert clashes with the table built so far exactly when it clashes with the table the inserts started from. |
| Ledger.FirstClashAt | internal/storage.go:87-89 | The first clash is the first index whose key is taken. |
| Ledger.NewResponse | internal/storage.go:92-97 | The entry for one created row: its template id and date, the template's title and exercises, an empty description and `IsDone` false. |
| Ledger.NewResponses | internal/storage.go:92-97 | One response entry per created row, with the row's template id and date and `IsDone` false. |
| Ledger.NewResponsesSnoc | internal/storage.go:92-97 | Appending a created row appends its response entry. |
| Ledger.TopUp | internal/storage.go:53-103 | The table the transaction commits when no insert clashes: the delete step, then the created rows appended. |
| Ledger.TopUpFillsPlan | internal/storage.go:71-77 | After a successful top-up the user has max(3, count) open rows, and nothing is created when count ≥ 3. |
| Ledger.TopUpKeepsHistory | internal/storage.go:53-103 | Every row that is not stale survives a top-up, and every row afterwards is either such a survivor or one of the rows the top-up created. |
| Ledger.TopUpDropsStale | internal/storage.go:53-103 | With the catalog query's selection, a row of the table survives a top-up exactly when it is not stale. |
| Ledger.TopUpUnique | internal/storage.go:53-103 | A top-up in which no insert clashes keeps the primary key unique. |
| Ledger.TopUpStable | internal/storage.go:53-103 | A second top-up right after a successful one, with the same tags and catalog, deletes nothing and creates nothing. |
| Ledger.RoundRobinFirst | internal/storage.go:78 | For i < len(suitable), row i takes template suitable[i]. |
| Ledger.RoundRobinStep | internal/storage.go:78 | Rows len(suitable) apart take the same template. |
| Stats.AssignedCount | internal/storage.go:114 | The user's row count is at most the table size. |
| Stats.DoneCount | internal/storage.go:115 | The user's done count is at most their row count. |
| Stats.DoneRows | internal/storage.go:126-129 | The completed-rows query returns exactly the user's done rows, one per done row. |
| Stats.AssignedSplits | internal/storage.go:114-115 | Each of the user's rows is either done or open. |
| Stats.ExerciseCount | internal/storage.go:127-133 | A done row adds its template's exercise count, and zero when its template is gone, so that the preload finds nothing. |
| Stats.SumExercises | internal/storage.go:131-134 | `exCount`: the exercise counts summed over the completed rows. |
| Stats.CompletionRate | internal/storage.go:119-123 | The rate is 0 without rows. Otherwise it is done/assigned·1000 rounded half-up to whole tenths of a percent. |
| Stats.RateBounds | internal/storage.go:119-123 | The rate lies between 0 and 100.0. It is 100.0 when every row is done and 0 when none is. |
| Stats.RateMonotone | internal/storage.go:119-123 | More done rows never give a lower rate. |
| Stats.RateThirds | internal/storage.go:119 | 1 of 3 reads 33.3 and 2 of 3 reads 66.7. |
| Completion.Selected | internal/storage.go:146 | The UPDATE's WHERE: same user, same template, and `DATE(scheduled_date) = DATE(?)`, where an unreadable date selects nothing. |
| Completion.MarkDone | internal/storage.go:145-148 | The update keeps every row's key and sets `IsDone` exactly on the rows selected by user, template and calendar day. No row goes back to not done. |
| Completion.MatchCount | internal/storage.go:145-154 | The affected-row count is zero exactly when no row is selected. |
| Completion.MarkMatching | internal/storage.go:145-154 | The row-by-row update produces the marked table and the affected-row count. |
| Completion.MarkDoneCounts | internal/storage.go:145-148 | Completing adds exactly the newly done rows to the user's done count. It changes no row count and no other user's done count. |
| Completion.MarkDoneKeepsKeys | internal/storage.go:145-148 | The update keeps the primary key unique. |
| Completion.MarkDoneRate | internal/storage.go:145-148 | Completing never lowers the completion rate. |
| Completion.SameDayOnly | internal/storage.go:146 | A row dated at midnight is selected by any time of its own day and by no time outside it. |
| Completion.DayShift | internal/storage.go:75-98 | Moving an instant by k whole days moves its calendar day by k. |
| Completion.SameDayRepeatClashes | internal/storage.go:72-89 | On an empty ledger, after a top-up and a completion of its first row at any time of that row's day, a top-up with the same tomorrow and selection creates one row whose key is already taken, so it fails. |
| Schedule.ScheduleEntry | internal/storage.go:195 | The SELECT list: the template's title and description, the row's template id, date and done flag, and no exercises yet. |
| Schedule.Joined | internal/storage.go:194-199 | The inner join gives at most one entry per row. Every entry's template exists and has no exercises yet. |
| Schedule.JoinedMembers | internal/storage.go:194-199 | Each entry comes from a row of the user whose template exists, and each such row gives an entry. |
| Schedule.JoinedCount | internal/storage.go:194-199 | When all the user's templates exist, the schedule has one entry per row of the user. |
| Schedule.SortedCons | internal/storage.go:198 | An entry dated no later than a sorted list can go in front of it. |
| Schedule.InsertByDate | internal/storage.go:198 | Inserting into a date-sorted list keeps it sorted and adds exactly that entry. |
| Schedule.SortByDate | internal/storage.go:198 | `ORDER BY scheduled_date ASC` gives a date-sorted permutation of the joined entries. |
| Schedule.WithoutExercises | internal/storage.go:194-199 | Emptying the exercise lists keeps the length. |
| Schedule.SortedJoinedShape | internal/storage.go:194-199 | Each sorted entry names an existing template and has no exercises yet. |
| Schedule.FillKeepsEntries | internal/storage.go:205-217 | Filling in exercise lists keeps the date order and changes nothing else. |
| Storage.Store.AutoAssignWorkouts | internal/storage.go:32-106 | A missing user or an empty selection gives an error and an unchanged ledger. Otherwise the ledger becomes the pruned table plus the created rows, and the response lists the created rows. If an insert clashes, the response lists the rows before the clash, the error is a duplicate key, and the ledger is back to its state before the call. |
| Storage.Store.TopUpTransaction | internal/storage.go:53-103 | The transaction body deletes, counts and inserts. Without a clash, the table is the pruned table plus the created rows and the key stays unique. |
| Storage.Store.InsertPlan | internal/storage.go:74-100 | The insert loop appends the created rows up to the first clash, so the table is the old table plus those rows, and it returns their response entries. It fails exactly when an insert clashes. |
| Storage.Store.CompleteWorkout | internal/storage.go:143-161 | The ledger becomes the marked table and keeps its key. The call fails exactly when no row matched. |
| Storage.Store.GetUserStats | internal/storage.go:108-141 | Reports the done count, the rounded rate of done to assigned, and the exercise total over done rows. Streak and favourite stay at zero values. |
| Storage.Store.GetUserSchedule | internal/storage.go:190-220 | Returns the joined entries sorted by date, each with its template's exercises, or none where the lookup fails. |
| Storage.Store.Exercises | internal/storage.go:209-216 | The exercise list an entry ends with: the template's exercises, or the empty list when the lookup fails. |
| Storage.Store.LoadExercises | internal/storage.go:205-217 | Fills each entry's exercise list in place and leaves the entry unchanged where the lookup fails. |

## Left out

- HTTP handlers, JWT signing and checking, routing, database set-up and migration: these are not part of this model.
- `CreateUser`, `GetUserProfile` and `GetUserProfileByCredentials` (internal/storage.go:12-30, 182-188) are single ORM calls with no logic. `UpdateUser` (internal/storage.go:163-180) looks the user up and then passes an open map to GORM's `Updates`, whose semantics the code does not show.
- User fields other than `Aim` and `Difficult` (names, e-mail, password, weight, height) play no part in the ledger.
- Storage.Store.AutoAssignWorkouts: store failures are not modelled. This covers a failing catalog query (which reports "no workouts found" just like an empty answer) and a failing delete. A failed user lookup is modelled as a missing user.
- Storage.Store.AutoAssignWorkouts: Go returns a nil slice on the two early errors, while the model returns the empty sequence.
- Storage.Store.AutoAssignWorkouts: `AddDate` in the server's local zone (daylight-saving days) is not modelled. Days are taken as 86400 seconds in UTC, which is also where `Truncate` puts the day boundaries.
- Ledger.IncompleteCount: the count query's ignored error is left out, and the read is treated as infallible.
- Storage.Store.CompleteWorkout: a failing UPDATE is not modelled. `RowsAffected` is taken to count the matched rows, including rows that were already done.
- Storage.Store.CompleteWorkout: the log line written when nothing matched (internal/storage.go:156) is output only, and is left out.
- Stats.CompletionRate: computed exactly in integer tenths. Floating-point corner cases of `math.Round(rate*10)/10` are not modelled.
- Storage.Store.GetUserStats: store errors are not modelled, and the Go function always returns a nil error.
- Storage.Store.GetUserSchedule: the model assumes that the ORM copies the selected columns into the result fields. Every field of `UserWorkoutResponse` carries the `gorm:"-"` tag (internal/models.go:47-52), which likely stops `Scan` from filling them. If so, the code as written returns zero-valued entries, and the exercise lookups then run for template 0.
- Storage.Store.GetUserSchedule: a failing main query is not modelled. Entries with equal dates come out in table order, while the store leaves that order open.
- Storage.Store.GetUserSchedule: exercise lists come out in the order the catalog holds them. Neither the preload nor the per-entry lookup (internal/storage.go:43, 209-212) has an ORDER BY, so the store chooses that order, both here and in the AutoAssignWorkouts response.
- The order in which the catalog returns matching templates is not modelled. It is a parameter, as is the clock.
- Concurrency and transaction isolation are not modelled, apart from all-or-nothing rollback.
