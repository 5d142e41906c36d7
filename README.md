# Habit tracker core, modelled in Dafny

This project models the state-changing core of a small JavaFX habit tracker:

- `Habit` (module `Models`, `habit.dfy`) is the mutable habit record. It has four fields, four constructors, four getters and four setters.
- `HabitDAO` (module `Db`, `habit_dao.dfy`) is the data-access object over the `habit` and `habit_completion` tables. Each table is an in-memory sequence of rows in insertion order. Each `AUTO_INCREMENT` column is a counter. The class invariant `Valid()` holds the constraints the schema declares: both primary keys, the identity counters within the SQL `INT` range, the `VARCHAR(255)` length of `habit.name`, and the foreign key from `habit_completion.habit_id` to `habit.id`. The property "at most one completion record per (habit, date)" is the separate predicate `OnePerHabitDay`, because the schema does not enforce it. Every operation is proved to keep it.
- `DashboardController` (module `Controllers`, `dashboard.dfy`) holds the in-memory `habits` list, the items of the `HabitList` view that mirror it, and the cells of the month grid. A dialog's answer is a method parameter of type `Option`, with `None` for a cancelled dialog.

Three support modules model the JDK behaviour the core depends on:

- `JavaBase` (`java_base.dfy`) gives `Option` for a nullable reference, the 32-bit `int32`, and `String.trim`. `String.trim` removes leading and trailing characters at or below U+0020, using the two index scans `FirstKept` and `LastKept`.
- `JavaUtil` (`java_util.dfy`) gives `List.indexOf` and `List.remove(Object)`.
- `JavaTime` (`java_time.dfy`) gives `LocalDate` and `YearMonth.lengthOfMonth` in the proleptic Gregorian calendar of ISO 8601.

Error handling follows the code. Every DAO method catches `SQLException` and prints it, so a statement the database rejects is modelled as leaving the tables as they were. The rejections the model covers are these:

- a name longer than `VARCHAR(255)`;
- an identity counter running past the `INT` range;
- a completion insert whose `habit_id` names no habit (foreign key);
- deleting a habit row that completions still refer to (foreign key).

`deleteHabit` runs two separately committed statements. `DeleteCompletionsOf` models the first and `DeleteHabitRow` the second. Both keep `Valid()`, so the state between them satisfies the schema, and the second never fails after the first.

## Model

| member | source | states |
|---|---|---|
| `JavaBase.FirstKept` | src/main/java/org/habittracker/controllers/DashboardController.java:111 | the first scan of `trim`: the result is the first non-trimmable index at or after `from` (or the end), and everything skipped is at or below U+0020 |
| `JavaBase.LastKept` | src/main/java/org/habittracker/controllers/DashboardController.java:111 | the second scan of `trim`: the end moves back only over characters at or below U+0020 and stops after a kept character or at the start |
| `JavaBase.Trim` | src/main/java/org/habittracker/controllers/DashboardController.java:111 | `trim` returns a string with no trimmable character at either end, obtained from `s` by removing only trimmable characters from the front and the back; it is empty exactly when every character of `s` is trimmable |
| `JavaBase.TrimUnique` | src/main/java/org/habittracker/controllers/DashboardController.java:145 | a non-empty trimmed string obtained by stripping trimmable ends is unique, so `trim` is determined by its contract |
| `JavaBase.TrimIdempotent` | src/main/java/org/habittracker/controllers/DashboardController.java:145 | trimming a name that was already trimmed changes nothing |
| `JavaUtil.IndexOf` | src/main/java/org/habittracker/controllers/DashboardController.java:149 | `indexOf` is -1 exactly when the name is absent; otherwise it is the position of the first occurrence |
| `JavaUtil.RemoveFirst` | src/main/java/org/habittracker/controllers/DashboardController.java:175 | `remove(Object)` leaves the list unchanged when the name is absent; otherwise it removes the position `indexOf` gives, and the remaining names keep their relative order |
| `JavaUtil.RemoveFirstCount` | src/main/java/org/habittracker/controllers/DashboardController.java:175 | `remove(Object)` takes exactly one copy of the name out of the list, as a multiset, and nothing else |
| `JavaUtil.RemoveFirstDistinct` | src/main/java/org/habittracker/controllers/DashboardController.java:175-176 | removing from a list without repeats leaves a list without repeats that no longer contains the name |
| `JavaUtil.SetDistinct` | src/main/java/org/habittracker/controllers/DashboardController.java:146-150 | writing a name the list lacks over one position keeps the list free of repeats |
| `JavaTime.LengthOfMonth` | src/main/java/org/habittracker/controllers/DashboardController.java:66-67 | month lengths are 28 to 31; February has 29 days in an ISO leap year and 28 otherwise; April, June, September and November have 30; the rest have 31 |
| `JavaTime.MonthsMakeYear` | src/main/java/org/habittracker/controllers/DashboardController.java:67 | the twelve month lengths add up to 366 in a leap year and 365 otherwise |
| `Models.Habit.WithIdName` | src/main/java/org/habittracker/models/Habit.java:10-13 | `Habit(int, String)` sets id and name; completed is false and googleEventId is null, the Java defaults |
| `Models.Habit.WithName` | src/main/java/org/habittracker/models/Habit.java:15-17 | `Habit(String)` sets the name; id is 0, completed is false and googleEventId is null |
| `Models.Habit.WithIdNameCompleted` | src/main/java/org/habittracker/models/Habit.java:19-23 | the three-argument constructor sets id, name and completed; googleEventId is null |
| `Models.Habit.constructor` | src/main/java/org/habittracker/models/Habit.java:25-30 | the four-argument constructor sets all four fields to its arguments |
| `Models.Habit.SetId` | src/main/java/org/habittracker/models/Habit.java:33-39 | may write only `id`; afterwards `getId` returns the new value and the other three fields are unchanged |
| `Models.Habit.SetName` | src/main/java/org/habittracker/models/Habit.java:34-40 | may write only `name`; afterwards `getName` returns the new value and the other fields are unchanged |
| `Models.Habit.SetCompleted` | src/main/java/org/habittracker/models/Habit.java:35-41 | may write only `completed`; afterwards `isCompleted` returns the new value and the other fields are unchanged |
| `Models.Habit.SetGoogleEventId` | src/main/java/org/habittracker/models/Habit.java:36-42 | may write only `googleEventId`; afterwards `getGoogleEventId` returns the new value and the other fields are unchanged |
| `Db.FindCompletion` | src/main/java/org/habittracker/db/HabitDAO.java:101-106 | the lookup by (habit_id, completion_date) finds nothing exactly when no row matches; otherwise it finds the first matching row |
| `Db.Renamed` | src/main/java/org/habittracker/db/HabitDAO.java:56 | `UPDATE habit SET name = ? WHERE id = ?` keeps the number of rows and every id, renames the rows with that id, and leaves the other names alone |
| `Db.WithoutHabit` | src/main/java/org/habittracker/db/HabitDAO.java:66 | `DELETE FROM habit WHERE id = ?` keeps exactly the rows with another id |
| `Db.WithoutCompletionsOf` | src/main/java/org/habittracker/db/HabitDAO.java:65 | `DELETE FROM habit_completion WHERE habit_id = ?` keeps exactly the records of other habits |
| `Db.SetCompletedWhereId` | src/main/java/org/habittracker/db/HabitDAO.java:107 | `UPDATE habit_completion SET completed = ? WHERE id = ?` changes only the completed flag of rows with that id |
| `Db.RenamedKeepsIds` | src/main/java/org/habittracker/db/HabitDAO.java:55-60 | renaming leaves the set of habit ids, and so the foreign key, intact |
| `Db.WithoutHabitKeys` | src/main/java/org/habittracker/db/HabitDAO.java:66-72 | deleting the habit row keeps the primary key and removes exactly that id from the habit ids |
| `Db.WithoutCompletionsKeys` | src/main/java/org/habittracker/db/HabitDAO.java:65-70 | deleting a habit's completions keeps the completion primary key |
| `Db.WithoutCompletionsOnePerHabitDay` | src/main/java/org/habittracker/db/HabitDAO.java:65-70 | deleting a habit's completions keeps at most one record per (habit, date) |
| `Db.WithoutCompletionsReads` | src/main/java/org/habittracker/db/HabitDAO.java:64-72 | after the delete, `isCompletedToday` is false for the deleted habit on every date, and every other habit reads as before |
| `Db.UpdateByKey` | src/main/java/org/habittracker/db/HabitDAO.java:106-111 | because ids are a primary key, the update by the found row's id changes exactly that one record |
| `Db.ReadAfterUpdate` | src/main/java/org/habittracker/db/HabitDAO.java:89-111 | after the update branch, reading (habit, date) back gives the value written, and every other (habit, date) reads as before |
| `Db.ReadAfterInsert` | src/main/java/org/habittracker/db/HabitDAO.java:89-120 | after the insert branch, which runs when no record matched, reading back gives the value written, and every other (habit, date) reads as before |
| `Db.UpdateReadsAlike` | src/main/java/org/habittracker/db/HabitDAO.java:107-111 | the update branch changes the reading of no (habit, date) other than its own |
| `Db.InsertReadsAlike` | src/main/java/org/habittracker/db/HabitDAO.java:114-119 | the insert branch changes the reading of no (habit, date) other than its own |
| `Db.UpdateKeepsOnePerHabitDay` | src/main/java/org/habittracker/db/HabitDAO.java:106-112 | the update branch keeps at most one record per (habit, date) |
| `Db.InsertKeepsOnePerHabitDay` | src/main/java/org/habittracker/db/HabitDAO.java:113-120 | the insert branch keeps at most one record per (habit, date), because it runs only when none matched |
| `Db.UpdateKeepsKeys` | src/main/java/org/habittracker/db/HabitDAO.java:106-111 | the update changes only the completed column, so the primary key of habit_completion and its foreign key to habit still hold |
| `Db.MarkUpdateFacts` | src/main/java/org/habittracker/db/HabitDAO.java:100-111 | on the record the SELECT found first, the update by id changes that record alone, keeps both keys and the one-record-per-(habit, date) property, reads back as written, and leaves every other (habit, date) reading as it was |
| `Db.MarkInsertFacts` | src/main/java/org/habittracker/db/HabitDAO.java:112-120 | when nothing matched and the habit exists, the new record with the next identity value keeps both keys and the one-record-per-(habit, date) property, reads back as written, and leaves every other (habit, date) reading as it was |
| `Db.UncheckedInsertDuplicates` | src/main/java/org/habittracker/db/HabitDAO.java:29-36 | the schema alone does not give one record per (habit, date): inserting, for an existing habit and with the next identity value, a record for a pair that already has one keeps both keys and the foreign key, yet breaks the property |
| `Db.HabitDAO.constructor` | src/main/java/org/habittracker/db/HabitDAO.java:13-42 | on a new database, both tables start empty, both identity counters start at 1 as `AUTO_INCREMENT` does, and the schema's constraints and one record per (habit, date) hold |
| `Db.HabitDAO.AddHabit` | src/main/java/org/habittracker/db/HabitDAO.java:45-53 | appends one row with the habit's name and a fresh id (the identity counter, used by no existing row) and writes that id into the passed `Habit`; a name over 255 characters or an exhausted identity changes nothing; completions are untouched |
| `Db.HabitDAO.UpdateHabit` | src/main/java/org/habittracker/db/HabitDAO.java:55-62 | renames only the row whose id equals `habit.getId()`; every other row, the counters and all completions are unchanged; a name over 255 characters changes nothing |
| `Db.HabitDAO.DeleteCompletionsOf` | src/main/java/org/habittracker/db/HabitDAO.java:65-70 | the first statement of `deleteHabit` removes exactly the habit's completions and leaves a state that satisfies the schema |
| `Db.HabitDAO.DeleteHabitRow` | src/main/java/org/habittracker/db/HabitDAO.java:66-72 | the second statement succeeds exactly when no completion refers to the habit (the foreign key), and then removes exactly its row |
| `Db.HabitDAO.DeleteHabit` | src/main/java/org/habittracker/db/HabitDAO.java:64-74 | completions are deleted before the habit row, so the foreign key holds at every step; afterwards neither a row nor a completion with that id remains, and other habits and their completions are kept |
| `Db.HabitDAO.GetAllHabits` | src/main/java/org/habittracker/db/HabitDAO.java:76-86 | returns one new, distinct `Habit` per habit row, in table order, with the row's id and name, `completed` false and no event id |
| `Db.HabitDAO.IsCompletedToday` | src/main/java/org/habittracker/db/HabitDAO.java:89-98 | returns the stored flag of the matching record, and false when there is none |
| `Db.HabitDAO.MarkCompleted` | src/main/java/org/habittracker/db/HabitDAO.java:100-123 | updates the found record, or inserts one when none exists; if the habit exists and the insert can get an id, reading back gives the value written; no other (habit, date) reading and no habit row changes; keeps at most one record per (habit, date); a missing habit changes nothing |
| `Controllers.PlacementIsAGrid` | src/main/java/org/habittracker/controllers/DashboardController.java:69-80 | each day of a month gets a column in 0..6 and a row in 0..4, and no two days share a cell |
| `Controllers.MonthRows` | src/main/java/org/habittracker/controllers/DashboardController.java:66-80 | a 28-day month fills four rows and every longer month reaches a fifth |
| `Controllers.DashboardController.constructor` | src/main/java/org/habittracker/controllers/DashboardController.java:33-41 | the list, the view and the grid start empty |
| `Controllers.DashboardController.Initialize` | src/main/java/org/habittracker/controllers/DashboardController.java:44-54 | appends the three sample habits, copies the whole list into the view, and lays out today's month; from a new controller the view then equals the list and the list has no repeats |
| `Controllers.DashboardController.SetupCalendar` | src/main/java/org/habittracker/controllers/DashboardController.java:63-82 | clears the grid and places exactly `lengthOfMonth` cells, day d at column (d-1) mod 7 and row (d-1) div 7 |
| `Controllers.DashboardController.HandleAdd` | src/main/java/org/habittracker/controllers/DashboardController.java:103-121 | appends the trimmed name to the list and the view exactly when it is non-empty and not yet listed, and otherwise changes nothing; when the view equalled the list and the list had no repeats, both still hold |
| `Controllers.DashboardController.HandleEdit` | src/main/java/org/habittracker/controllers/DashboardController.java:124-157 | with a new, non-empty trimmed name, replaces only the position `indexOf` gives for the chosen habit, in the list and the view, so length and other positions are unchanged; otherwise, and on an empty list, nothing changes; keeps the list free of repeats |
| `Controllers.DashboardController.HandleDelete` | src/main/java/org/habittracker/controllers/DashboardController.java:160-180 | removes the first occurrence of the chosen name from the list and the view, keeping the order of the rest; an empty list or a cancelled choice changes nothing; keeps the view equal to the list and free of repeats, with the name gone |

## Left out

- `GoogleCalendarService.java` is not part of this model. It does OAuth, file-based credentials and HTTP calls. `googleEventId` appears only as a field of `Habit`.
- JavaFX rendering is left out: creating `Rectangle`, `Text` and `StackPane` cells (`createDayCell`), the day-click handler, and showing dialogs. A grid cell is modelled as its day number and its (column, row). A dialog's answer is a parameter.
- `updateStatus` is left out because its completed count is a hard-coded placeholder. `handleAnalytics` is left out because it only prints. All console output is left out.
- `HabitDAO.java` has no `google_event_id` column, makes no calendar calls, runs `deleteHabit` without a transaction and has no aggregate queries, so none of these is modelled.
- Reopening an existing database is not modelled. `HabitDAO()` opens the file database `./habittrackerdb`, and `CREATE TABLE IF NOT EXISTS` keeps the rows and identity counters of earlier runs. The model's constructor builds only the empty tables of a first run. Every other method is proved from any state satisfying `Valid()`, so it covers a reopened database too.
- The `RuntimeException` that `HabitDAO()` rethrows when the connection or the `CREATE TABLE` fails is not modelled. The constructor always succeeds.
- `LocalDate.now()` in `initialize` is a parameter, because the model has no clock.
- JDBC plumbing is left out: the connection, statements and result sets. Failures that do not come from the schema, such as a lost connection or disk errors, are not modelled. So the model does not show a `deleteHabit` whose second statement fails after the first committed. That failure would leave the habit row without its completions. `DeleteCompletionsOf` shows that state is still consistent.
- Whether H2 uses up an identity value on a rejected insert is not modelled. A rejected insert leaves the counter unchanged.
- Java `String` values are never null in the model. A null name would fail the `NOT NULL` column. That case and a null `googleEventId` passed to a constructor are not distinguished beyond `Option`.
- A `SELECT` without `ORDER BY` returns rows in insertion order in the model. When two completion records match, `isCompletedToday` reads the first. `OnePerHabitDay` makes this choice irrelevant.
- The length of a name is the number of Dafny characters (Unicode scalar values), not UTF-16 code units.
- The choice dialog guarantees that the chosen name is listed, so `HandleEdit` requires it. `HandleEdit` also requires the view to mirror the list, which every operation keeps. Without it, `HabitList.getItems().set` could be given a position outside the view.
