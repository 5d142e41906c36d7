/** org.habittracker.db.HabitDAO over an in-memory copy of its two tables:

      habit(id INT PRIMARY KEY AUTO_INCREMENT, name VARCHAR(255) NOT NULL)
      habit_completion(id INT PRIMARY KEY AUTO_INCREMENT, habit_id INT NOT NULL,
                       completion_date DATE NOT NULL, completed BOOLEAN NOT NULL,
                       FOREIGN KEY (habit_id) REFERENCES habit(id))

    A table is the sequence of its rows in insertion order; an AUTO_INCREMENT
    column is a counter. A statement the database rejects raises an SQLException
    that the DAO catches and prints, so it is modelled as leaving the state as it was. */
module Db {
  import opened JavaBase
  import opened JavaTime
  import opened Models

  /** Longer names than VARCHAR(255) allows make the INSERT or UPDATE fail. */
  const MaxNameLength: int := 255

  datatype HabitRow = HabitRow(id: int32, name: string)

  datatype CompletionRow = CompletionRow(id: int32, habitId: int32, date: LocalDate, completed: bool)

  function HabitIds(rows: seq<HabitRow>): set<int32> {
    set r | r in rows :: r.id
  }

  /** The primary key of habit: ids are distinct and below the next identity value,
      which has not yet run past the INT range. */
  predicate HabitKeys(rows: seq<HabitRow>, next: int) {
    && 1 <= next <= MaxInt + 1
    && (forall i | 0 <= i < |rows| :: 1 <= rows[i].id as int < next)
    && (forall i, j | 0 <= i < j < |rows| :: rows[i].id != rows[j].id)
  }

  /** The primary key of habit_completion, as for habit. */
  predicate CompletionKeys(rows: seq<CompletionRow>, next: int) {
    && 1 <= next <= MaxInt + 1
    && (forall i | 0 <= i < |rows| :: 1 <= rows[i].id as int < next)
    && (forall i, j | 0 <= i < j < |rows| :: rows[i].id != rows[j].id)
  }

  /** The column type of habit.name: VARCHAR(255) NOT NULL. */
  predicate NamesFit(rows: seq<HabitRow>) {
    forall r | r in rows :: |r.name| <= MaxNameLength
  }

  /** The foreign key: every completion names an existing habit row. */
  predicate ForeignKeys(completions: seq<CompletionRow>, habits: seq<HabitRow>) {
    forall c | c in completions :: c.habitId in HabitIds(habits)
  }

  /** The row matches "WHERE habit_id = ? AND completion_date = ?". */
  predicate IsFor(c: CompletionRow, habitId: int32, date: LocalDate) {
    c.habitId == habitId && c.date == date
  }

  /** At most one completion record per (habit_id, completion_date). The schema does
      not enforce this; only markCompleted's check-then-update-or-insert keeps it. */
  ghost predicate OnePerHabitDay(rows: seq<CompletionRow>) {
    forall i, j | 0 <= i < j < |rows| :: !IsFor(rows[j], rows[i].habitId, rows[i].date)
  }

  /** The first row the SELECT ... WHERE habit_id = ? AND completion_date = ? returns. */
  function FindCompletion(rows: seq<CompletionRow>, habitId: int32, date: LocalDate): (r: Option<nat>)
    ensures r.None? <==> forall k | 0 <= k < |rows| :: !IsFor(rows[k], habitId, date)
    ensures r.Some? ==> r.value < |rows| && IsFor(rows[r.value], habitId, date)
    ensures r.Some? ==> forall k | 0 <= k < r.value :: !IsFor(rows[k], habitId, date)
  {
    if rows == [] then None
    else if IsFor(rows[0], habitId, date) then Some(0)
    else match FindCompletion(rows[1..], habitId, date)
      case None => None
      case Some(k) => Some(k + 1)
  }

  /** What isCompletedToday reads: the completed column of the matching row, false without one. */
  function CompletedOn(rows: seq<CompletionRow>, habitId: int32, date: LocalDate): bool {
    match FindCompletion(rows, habitId, date)
    case None => false
    case Some(k) => rows[k].completed
  }

  /** Every (habit, date) other than (h0, d0) reads the same in a and b. */
  ghost predicate ReadsAlikeExcept(a: seq<CompletionRow>, b: seq<CompletionRow>, h0: int32, d0: LocalDate) {
    forall h, d | !(h == h0 && d == d0) :: CompletedOn(a, h, d) == CompletedOn(b, h, d)
  }

  /** UPDATE habit SET name = ? WHERE id = ? */
  function Renamed(rows: seq<HabitRow>, id: int32, name: string): (r: seq<HabitRow>)
    ensures |r| == |rows|
    ensures forall i | 0 <= i < |rows| :: r[i].id == rows[i].id
    ensures forall i | 0 <= i < |rows| :: r[i].name == if rows[i].id == id then name else rows[i].name
  {
    if rows == [] then []
    else [if rows[0].id == id then rows[0].(name := name) else rows[0]] + Renamed(rows[1..], id, name)
  }

  /** DELETE FROM habit WHERE id = ? */
  function WithoutHabit(rows: seq<HabitRow>, id: int32): (r: seq<HabitRow>)
    ensures forall h :: h in r <==> h in rows && h.id != id
  {
    if rows == [] then []
    else if rows[0].id == id then WithoutHabit(rows[1..], id)
    else [rows[0]] + WithoutHabit(rows[1..], id)
  }

  /** DELETE FROM habit_completion WHERE habit_id = ? */
  function WithoutCompletionsOf(rows: seq<CompletionRow>, habitId: int32): (r: seq<CompletionRow>)
    ensures forall c :: c in r <==> c in rows && c.habitId != habitId
  {
    if rows == [] then []
    else if rows[0].habitId == habitId then WithoutCompletionsOf(rows[1..], habitId)
    else [rows[0]] + WithoutCompletionsOf(rows[1..], habitId)
  }

  /** UPDATE habit_completion SET completed = ? WHERE id = ? */
  function SetCompletedWhereId(rows: seq<CompletionRow>, id: int32, completed: bool): (r: seq<CompletionRow>)
    ensures |r| == |rows|
    ensures forall i | 0 <= i < |rows| :: r[i] == if rows[i].id == id then rows[i].(completed := completed) else rows[i]
  {
    if rows == [] then []
    else
      var first := if rows[0].id == id then rows[0].(completed := completed) else rows[0];
      [first] + SetCompletedWhereId(rows[1..], id, completed)
  }

  // ---------------- Lemmas about the tables ----------------

  /** Renaming keeps every id, so the set of habit ids is unchanged. */
  lemma RenamedKeepsIds(rows: seq<HabitRow>, id: int32, name: string)
    ensures HabitIds(Renamed(rows, id, name)) == HabitIds(rows)
  {
  }

  /** Deleting habit rows keeps the primary key and removes exactly that id. */
  lemma {:induction false} WithoutHabitKeys(rows: seq<HabitRow>, next: int, id: int32)
    requires HabitKeys(rows, next)
    ensures HabitKeys(WithoutHabit(rows, id), next)
    ensures HabitIds(WithoutHabit(rows, id)) == HabitIds(rows) - {id}
  {
    if rows != [] {
      WithoutHabitKeys(rows[1..], next, id);
      var r := WithoutHabit(rows, id);
      var r' := WithoutHabit(rows[1..], id);
      if rows[0].id != id {
        assert r == [rows[0]] + r';
        forall j | 0 <= j < |r'| ensures r'[j].id != rows[0].id {
          assert r'[j] in rows[1..];
        }
      }
    }
  }

  /** Deleting one habit's completions keeps the primary key. */
  lemma {:induction false} WithoutCompletionsKeys(rows: seq<CompletionRow>, next: int, habitId: int32)
    requires CompletionKeys(rows, next)
    ensures CompletionKeys(WithoutCompletionsOf(rows, habitId), next)
  {
    if rows != [] {
      WithoutCompletionsKeys(rows[1..], next, habitId);
      var r' := WithoutCompletionsOf(rows[1..], habitId);
      if rows[0].habitId != habitId {
        assert WithoutCompletionsOf(rows, habitId) == [rows[0]] + r';
        forall j | 0 <= j < |r'| ensures r'[j].id != rows[0].id {
          assert r'[j] in rows[1..];
        }
      }
    }
  }

  /** Deleting one habit's completions keeps one record per habit and day. */
  lemma {:induction false} WithoutCompletionsOnePerHabitDay(rows: seq<CompletionRow>, habitId: int32)
    requires OnePerHabitDay(rows)
    ensures OnePerHabitDay(WithoutCompletionsOf(rows, habitId))
  {
    if rows != [] {
      WithoutCompletionsOnePerHabitDay(rows[1..], habitId);
      var r' := WithoutCompletionsOf(rows[1..], habitId);
      if rows[0].habitId != habitId {
        assert WithoutCompletionsOf(rows, habitId) == [rows[0]] + r';
        forall j | 0 <= j < |r'| ensures !IsFor(r'[j], rows[0].habitId, rows[0].date) {
          assert r'[j] in rows[1..];
        }
      }
    }
  }

  /** After the delete no record of the habit is left to read, and every other habit reads as before. */
  lemma {:induction false} WithoutCompletionsReads(rows: seq<CompletionRow>, habitId: int32, h: int32, d: LocalDate)
    ensures CompletedOn(WithoutCompletionsOf(rows, habitId), habitId, d) == false
    ensures h != habitId ==> CompletedOn(WithoutCompletionsOf(rows, habitId), h, d) == CompletedOn(rows, h, d)
  {
    var r := WithoutCompletionsOf(rows, habitId);
    assert FindCompletion(r, habitId, d).None? by {
      forall k | 0 <= k < |r| ensures !IsFor(r[k], habitId, d) {
        assert r[k] in r;
      }
    }
    if rows != [] && h != habitId {
      WithoutCompletionsReads(rows[1..], habitId, h, d);
      if rows[0].habitId != habitId {
        assert r == [rows[0]] + WithoutCompletionsOf(rows[1..], habitId);
        assert r[1..] == WithoutCompletionsOf(rows[1..], habitId);
      }
    }
  }

  /** With a primary key, UPDATE ... WHERE id = ? touches exactly the one row with that id. */
  lemma UpdateByKey(rows: seq<CompletionRow>, next: int, k: nat, completed: bool)
    requires CompletionKeys(rows, next) && k < |rows|
    ensures SetCompletedWhereId(rows, rows[k].id, completed) == rows[k := rows[k].(completed := completed)]
  {
  }

  /** Reading back an updated record gives the written value; other habits and days read as before. */
  lemma {:induction false} ReadAfterUpdate(rows: seq<CompletionRow>, k: nat, completed: bool, h: int32, d: LocalDate)
    requires k < |rows|
    ensures CompletedOn(rows[k := rows[k].(completed := completed)], rows[k].habitId, rows[k].date)
      == if FindCompletion(rows, rows[k].habitId, rows[k].date) == Some(k) then completed
         else CompletedOn(rows, rows[k].habitId, rows[k].date)
    ensures !IsFor(rows[k], h, d) ==>
      CompletedOn(rows[k := rows[k].(completed := completed)], h, d) == CompletedOn(rows, h, d)
  {
    var r := rows[k := rows[k].(completed := completed)];
    assert forall i | 0 <= i < |rows| :: IsFor(r[i], h, d) == IsFor(rows[i], h, d);
    assert forall i | 0 <= i < |rows| :: IsFor(r[i], rows[k].habitId, rows[k].date) == IsFor(rows[i], rows[k].habitId, rows[k].date);
    FindSameMatches(rows, r, h, d);
    FindSameMatches(rows, r, rows[k].habitId, rows[k].date);
  }

  /** The search only looks at which rows match. */
  lemma FindSameMatches(a: seq<CompletionRow>, b: seq<CompletionRow>, h: int32, d: LocalDate)
    requires |a| == |b|
    requires forall i | 0 <= i < |a| :: IsFor(a[i], h, d) == IsFor(b[i], h, d)
    ensures FindCompletion(a, h, d) == FindCompletion(b, h, d)
  {
  }

  /** Reading back an appended record, when none matched before, gives its value; others read as before. */
  lemma {:induction false} ReadAfterInsert(rows: seq<CompletionRow>, c: CompletionRow, h: int32, d: LocalDate)
    requires FindCompletion(rows, c.habitId, c.date).None?
    ensures CompletedOn(rows + [c], c.habitId, c.date) == c.completed
    ensures !IsFor(c, h, d) ==> CompletedOn(rows + [c], h, d) == CompletedOn(rows, h, d)
  {
    FindInPrefix(rows, c, c.habitId, c.date);
    FindInPrefix(rows, c, h, d);
  }

  /** A match in the old rows is still found first; otherwise only the new row can match. */
  lemma {:induction false} FindInPrefix(rows: seq<CompletionRow>, c: CompletionRow, h: int32, d: LocalDate)
    ensures FindCompletion(rows + [c], h, d) ==
      match FindCompletion(rows, h, d)
      case Some(k) => Some(k)
      case None => if IsFor(c, h, d) then Some(|rows|) else None
  {
    if rows != [] {
      FindInPrefix(rows[1..], c, h, d);
      assert (rows + [c])[1..] == rows[1..] + [c];
    }
  }

  lemma UpdateReadsAlike(rows: seq<CompletionRow>, k: nat, completed: bool)
    requires k < |rows|
    ensures ReadsAlikeExcept(rows[k := rows[k].(completed := completed)], rows, rows[k].habitId, rows[k].date)
  {
    forall h, d | !(h == rows[k].habitId && d == rows[k].date)
      ensures CompletedOn(rows[k := rows[k].(completed := completed)], h, d) == CompletedOn(rows, h, d)
    {
      ReadAfterUpdate(rows, k, completed, h, d);
    }
  }

  lemma InsertReadsAlike(rows: seq<CompletionRow>, c: CompletionRow)
    requires FindCompletion(rows, c.habitId, c.date).None?
    ensures ReadsAlikeExcept(rows + [c], rows, c.habitId, c.date)
  {
    forall h, d | !(h == c.habitId && d == c.date)
      ensures CompletedOn(rows + [c], h, d) == CompletedOn(rows, h, d)
    {
      ReadAfterInsert(rows, c, h, d);
    }
  }

  /** The update branch keeps one record per habit and day: no match changes. */
  lemma UpdateKeepsOnePerHabitDay(rows: seq<CompletionRow>, k: nat, completed: bool)
    requires k < |rows| && OnePerHabitDay(rows)
    ensures OnePerHabitDay(rows[k := rows[k].(completed := completed)])
  {
  }

  /** The insert branch keeps one record per habit and day, because it runs only when nothing matched. */
  lemma InsertKeepsOnePerHabitDay(rows: seq<CompletionRow>, c: CompletionRow)
    requires OnePerHabitDay(rows) && FindCompletion(rows, c.habitId, c.date).None?
    ensures OnePerHabitDay(rows + [c])
  {
  }

  /** Without the check, the schema accepts a second record for a (habit, date): the insert with the
      next identity value of an existing habit keeps both keys, yet breaks one record per habit and day. */
  lemma UncheckedInsertDuplicates(rows: seq<CompletionRow>, next: int, habits: seq<HabitRow>, c: CompletionRow)
    requires CompletionKeys(rows, next) && ForeignKeys(rows, habits)
    requires next <= MaxInt && c.id as int == next && c.habitId in HabitIds(habits)
    requires FindCompletion(rows, c.habitId, c.date).Some?
    ensures CompletionKeys(rows + [c], next + 1) && ForeignKeys(rows + [c], habits)
    ensures !OnePerHabitDay(rows + [c])
  {
    var k := FindCompletion(rows, c.habitId, c.date).value;
    assert (rows + [c])[k] == rows[k];
    assert (rows + [c])[|rows|] == c;
  }

  /** markCompleted's update branch on the row the SELECT found: the keys stay, one record per
      habit and day stays, the record reads back as written and nothing else reads differently. */
  lemma MarkUpdateFacts(rows: seq<CompletionRow>, next: int, habits: seq<HabitRow>, k: nat, completed: bool)
    requires CompletionKeys(rows, next) && ForeignKeys(rows, habits)
    requires k < |rows| && FindCompletion(rows, rows[k].habitId, rows[k].date) == Some(k)
    ensures SetCompletedWhereId(rows, rows[k].id, completed) == rows[k := rows[k].(completed := completed)]
    ensures CompletionKeys(rows[k := rows[k].(completed := completed)], next)
    ensures ForeignKeys(rows[k := rows[k].(completed := completed)], habits)
    ensures OnePerHabitDay(rows) ==> OnePerHabitDay(rows[k := rows[k].(completed := completed)])
    ensures CompletedOn(rows[k := rows[k].(completed := completed)], rows[k].habitId, rows[k].date) == completed
    ensures ReadsAlikeExcept(rows[k := rows[k].(completed := completed)], rows, rows[k].habitId, rows[k].date)
  {
    UpdateByKey(rows, next, k, completed);
    UpdateKeepsKeys(rows, next, habits, k, completed);
    UpdateReadsAlike(rows, k, completed);
    ReadAfterUpdate(rows, k, completed, rows[k].habitId, rows[k].date);
    if OnePerHabitDay(rows) {
      UpdateKeepsOnePerHabitDay(rows, k, completed);
    }
  }

  /** Changing the completed column leaves the id and habit_id columns, and so both keys, as they were. */
  lemma UpdateKeepsKeys(rows: seq<CompletionRow>, next: int, habits: seq<HabitRow>, k: nat, completed: bool)
    requires CompletionKeys(rows, next) && ForeignKeys(rows, habits) && k < |rows|
    ensures CompletionKeys(rows[k := rows[k].(completed := completed)], next)
    ensures ForeignKeys(rows[k := rows[k].(completed := completed)], habits)
  {
    var r := rows[k := rows[k].(completed := completed)];
    forall c | c in r ensures c.habitId in HabitIds(habits) {
      var i :| 0 <= i < |r| && r[i] == c;
      assert r[i].habitId == rows[i].habitId && rows[i] in rows;
    }
  }

  /** markCompleted's insert branch, taken when nothing matched: the new row takes the next identity
      value, the keys stay, one record per habit and day stays, and only the new record reads differently. */
  lemma MarkInsertFacts(rows: seq<CompletionRow>, next: int, habits: seq<HabitRow>, c: CompletionRow)
    requires CompletionKeys(rows, next) && ForeignKeys(rows, habits)
    requires next <= MaxInt && c.id as int == next && c.habitId in HabitIds(habits)
    requires FindCompletion(rows, c.habitId, c.date).None?
    ensures CompletionKeys(rows + [c], next + 1)
    ensures ForeignKeys(rows + [c], habits)
    ensures OnePerHabitDay(rows) ==> OnePerHabitDay(rows + [c])
    ensures CompletedOn(rows + [c], c.habitId, c.date) == c.completed
    ensures ReadsAlikeExcept(rows + [c], rows, c.habitId, c.date)
  {
    InsertReadsAlike(rows, c);
    ReadAfterInsert(rows, c, c.habitId, c.date);
    if OnePerHabitDay(rows) {
      InsertKeepsOnePerHabitDay(rows, c);
    }
  }

  class HabitDAO {
    var habitRows: seq<HabitRow>
    var nextHabitId: int
    var completionRows: seq<CompletionRow>
    var nextCompletionId: int

    /** The constraints the schema declares: both primary keys and the foreign key. */
    ghost predicate Valid()
      reads this
    {
      && HabitKeys(habitRows, nextHabitId)
      && CompletionKeys(completionRows, nextCompletionId)
      && ForeignKeys(completionRows, habitRows)
      && NamesFit(habitRows)
    }

    /** HabitDAO() on a new database file: CREATE TABLE IF NOT EXISTS makes two empty tables. */
    constructor ()
      ensures Valid() && OnePerHabitDay(completionRows)
      ensures habitRows == [] && completionRows == []
      ensures nextHabitId == 1 && nextCompletionId == 1
    {
      habitRows := [];
      nextHabitId := 1;
      completionRows := [];
      nextCompletionId := 1;
    }

    /** INSERT INTO habit(name) VALUES(?), then habit.setId with the generated key. */
    method AddHabit(habit: Habit)
      requires Valid()
      modifies this, habit`id
      ensures Valid()
      ensures completionRows == old(completionRows) && nextCompletionId == old(nextCompletionId)
      ensures habit.name == old(habit.name)
      ensures |habit.name| <= MaxNameLength && old(nextHabitId) <= MaxInt ==>
        && habitRows == old(habitRows) + [HabitRow(habit.id, habit.name)]
        && habit.id as int == old(nextHabitId)
        && habit.id !in HabitIds(old(habitRows))
        && nextHabitId == old(nextHabitId) + 1
      ensures !(|habit.name| <= MaxNameLength && old(nextHabitId) <= MaxInt) ==>
        habitRows == old(habitRows) && nextHabitId == old(nextHabitId) && habit.id == old(habit.id)
    {
      if |habit.name| > MaxNameLength || nextHabitId > MaxInt {
        // the database rejects the row; the exception is caught and printed
        return;
      }
      var key := nextHabitId as int32;
      habitRows := habitRows + [HabitRow(key, habit.name)];
      nextHabitId := nextHabitId + 1;
      habit.SetId(key);
    }

    /** UPDATE habit SET name = ? WHERE id = ? */
    method UpdateHabit(habit: Habit)
      requires Valid()
      modifies this
      ensures Valid()
      ensures habitRows == if |habit.name| <= MaxNameLength then Renamed(old(habitRows), habit.id, habit.name)
                           else old(habitRows)
      ensures nextHabitId == old(nextHabitId)
      ensures completionRows == old(completionRows) && nextCompletionId == old(nextCompletionId)
    {
      if |habit.name| > MaxNameLength {
        return;
      }
      RenamedKeepsIds(habitRows, habit.id, habit.name);
      habitRows := Renamed(habitRows, habit.id, habit.name);
    }

    /** deleteHabit's first statement, committed on its own. */
    method DeleteCompletionsOf(habitId: int32)
      requires Valid()
      modifies this
      ensures Valid()
      ensures completionRows == WithoutCompletionsOf(old(completionRows), habitId)
      ensures old(OnePerHabitDay(completionRows)) ==> OnePerHabitDay(completionRows)
      ensures habitRows == old(habitRows) && nextHabitId == old(nextHabitId)
      ensures nextCompletionId == old(nextCompletionId)
    {
      WithoutCompletionsKeys(completionRows, nextCompletionId, habitId);
      if OnePerHabitDay(completionRows) {
        WithoutCompletionsOnePerHabitDay(completionRows, habitId);
      }
      completionRows := WithoutCompletionsOf(completionRows, habitId);
    }

    /** deleteHabit's second statement. The foreign key makes it fail while a completion still
        refers to the habit. */
    method DeleteHabitRow(id: int32) returns (ok: bool)
      requires Valid()
      modifies this
      ensures Valid()
      ensures ok <==> forall c | c in old(completionRows) :: c.habitId != id
      ensures habitRows == if ok then WithoutHabit(old(habitRows), id) else old(habitRows)
      ensures nextHabitId == old(nextHabitId)
      ensures completionRows == old(completionRows) && nextCompletionId == old(nextCompletionId)
    {
      ok := forall c | c in completionRows :: c.habitId != id;
      if ok {
        WithoutHabitKeys(habitRows, nextHabitId, id);
        habitRows := WithoutHabit(habitRows, id);
      }
    }

    /** deleteHabit: the completions first, then the habit row, as two auto-committed statements.
        The state between them satisfies the schema's constraints too. */
    method DeleteHabit(id: int32)
      requires Valid()
      modifies this
      ensures Valid()
      ensures completionRows == WithoutCompletionsOf(old(completionRows), id)
      ensures habitRows == WithoutHabit(old(habitRows), id)
      ensures id !in HabitIds(habitRows)
      ensures forall c | c in completionRows :: c.habitId != id
      ensures old(OnePerHabitDay(completionRows)) ==> OnePerHabitDay(completionRows)
      ensures nextHabitId == old(nextHabitId) && nextCompletionId == old(nextCompletionId)
    {
      DeleteCompletionsOf(id);
      var ok := DeleteHabitRow(id);
      assert ok;
      WithoutHabitKeys(old(habitRows), nextHabitId, id);
    }

    /** SELECT * FROM habit, one new Habit(id, name, false) per row. */
    method GetAllHabits() returns (habits: seq<Habit>)
      ensures |habits| == |habitRows|
      ensures forall i | 0 <= i < |habits| :: fresh(habits[i])
      ensures forall i | 0 <= i < |habits| ::
        habits[i].id == habitRows[i].id && habits[i].name == habitRows[i].name
        && !habits[i].completed && habits[i].googleEventId == None
      ensures forall i, j | 0 <= i < j < |habits| :: habits[i] != habits[j]
    {
      habits := [];
      var i := 0;
      while i < |habitRows|
        invariant 0 <= i <= |habitRows| && |habits| == i
        invariant forall k | 0 <= k < i :: fresh(habits[k])
        invariant forall k | 0 <= k < i ::
          habits[k].id == habitRows[k].id && habits[k].name == habitRows[k].name
          && !habits[k].completed && habits[k].googleEventId == None
        invariant forall k, j | 0 <= k < j < i :: habits[k] != habits[j]
      {
        var h := new Habit.WithIdNameCompleted(habitRows[i].id, habitRows[i].name, false);
        habits := habits + [h];
        i := i + 1;
      }
    }

    /** isCompletedToday: the stored completed flag, false when there is no record. */
    method IsCompletedToday(habit: Habit, date: LocalDate) returns (b: bool)
      ensures b == CompletedOn(completionRows, habit.id, date)
      ensures (forall k | 0 <= k < |completionRows| :: !IsFor(completionRows[k], habit.id, date)) ==> !b
    {
      b := CompletedOn(completionRows, habit.id, date);
    }

    /** markCompleted: look for the record of (habit, date); update it if found, insert one otherwise. */
    method MarkCompleted(habit: Habit, date: LocalDate, completed: bool)
      requires Valid()
      modifies this
      ensures Valid()
      ensures habitRows == old(habitRows) && nextHabitId == old(nextHabitId)
      ensures match FindCompletion(old(completionRows), habit.id, date)
        case Some(k) =>
          && completionRows == old(completionRows)[k := old(completionRows)[k].(completed := completed)]
          && nextCompletionId == old(nextCompletionId)
        case None =>
          if habit.id in HabitIds(habitRows) && old(nextCompletionId) <= MaxInt then
            && completionRows == old(completionRows) + [CompletionRow(old(nextCompletionId) as int32, habit.id, date, completed)]
            && nextCompletionId == old(nextCompletionId) + 1
          else
            completionRows == old(completionRows) && nextCompletionId == old(nextCompletionId)
      ensures old(OnePerHabitDay(completionRows)) ==> OnePerHabitDay(completionRows)
      ensures habit.id in HabitIds(habitRows) ==>
        (FindCompletion(old(completionRows), habit.id, date).Some? || old(nextCompletionId) <= MaxInt) ==>
        CompletedOn(completionRows, habit.id, date) == completed
      ensures habit.id !in HabitIds(habitRows) ==> completionRows == old(completionRows)
      ensures ReadsAlikeExcept(completionRows, old(completionRows), habit.id, date)
    {
      match FindCompletion(completionRows, habit.id, date)
      case Some(k) =>
        MarkUpdateFacts(completionRows, nextCompletionId, habitRows, k, completed);
        completionRows := SetCompletedWhereId(completionRows, completionRows[k].id, completed);
      case None =>
        if habit.id !in HabitIds(habitRows) || nextCompletionId > MaxInt {
          // the foreign key or the exhausted identity rejects the row; the exception is caught
          return;
        }
        var row := CompletionRow(nextCompletionId as int32, habit.id, date, completed);
        MarkInsertFacts(completionRows, nextCompletionId, habitRows, row);
        completionRows := completionRows + [row];
        nextCompletionId := nextCompletionId + 1;
    }
  }
}
