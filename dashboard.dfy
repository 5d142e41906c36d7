/** org.habittracker.controllers.DashboardController without JavaFX: the habits list,
    the items of the HabitList view that mirror it, and the cells of the calendar grid.
    A dialog's answer is a parameter: None when the user cancels it. */
module Controllers {
  import opened JavaBase
  import opened JavaUtil
  import opened JavaTime

  /** The sample data initialize loads, in this order. */
  const SampleHabits: seq<string> := ["Exercise", "Read Book", "Meditate"]

  /** A day cell added to the grid at (col, row), showing its day number. */
  datatype DayCell = DayCell(day: int, col: int, row: int)

  /** The column and row setupCalendar's counters reach for a day: seven days per row,
      starting at column 0 of row 0. */
  function Column(day: int): int { (day - 1) % 7 }
  function Row(day: int): int { (day - 1) / 7 }

  /** A name handleAdd and handleEdit accept: trimmed, non-empty and not yet listed. */
  predicate IsNewName(names: seq<string>, trimmed: string) {
    trimmed != [] && trimmed !in names
  }

  /** Every day of a month (1 to 31) gets a column in 0..6 and a row in 0..4, and no two days share a cell. */
  lemma PlacementIsAGrid(d1: int, d2: int)
    requires 1 <= d1 <= 31 && 1 <= d2 <= 31
    ensures 0 <= Column(d1) <= 6 && 0 <= Row(d1) <= 4
    ensures Column(d1) == Column(d2) && Row(d1) == Row(d2) ==> d1 == d2
  {
  }

  /** A 28-day month fills exactly four rows; every longer month spills into a fifth. */
  lemma MonthRows(year: int, month: int)
    requires 1 <= month <= 12
    ensures Row(LengthOfMonth(year, month)) == if LengthOfMonth(year, month) == 28 then 3 else 4
  {
  }

  class DashboardController {
    var habits: seq<string>
    /** HabitList.getItems() */
    var habitList: seq<string>
    /** calendarGrid.getChildren() */
    var calendarGrid: seq<DayCell>

    /** The view shows the list, and the list has no repeated name. */
    ghost predicate Valid()
      reads this
    {
      habitList == habits && Distinct(habits)
    }

    /** The controller as FXML creates it: an empty list, an empty view and an empty grid. */
    constructor ()
      ensures habits == [] && habitList == [] && calendarGrid == []
    {
      habits := [];
      habitList := [];
      calendarGrid := [];
    }

    /** initialize: load the sample habits, copy the list into the view, lay out today's month. */
    method Initialize(today: LocalDate)
      modifies this
      ensures habits == old(habits) + SampleHabits
      ensures habitList == old(habitList) + habits
      ensures |calendarGrid| == LengthOfMonth(today.year, today.month)
      ensures forall i | 0 <= i < |calendarGrid| :: calendarGrid[i] == DayCell(i + 1, Column(i + 1), Row(i + 1))
      ensures old(habits) == [] && old(habitList) == [] ==> Valid()
    {
      habits := habits + ["Exercise"];
      habits := habits + ["Read Book"];
      habits := habits + ["Meditate"];
      habitList := habitList + habits;
      SetupCalendar(today);
    }

    /** setupCalendar: one cell per day of the date's month, the column counter wrapping after 6. */
    method SetupCalendar(date: LocalDate)
      modifies this`calendarGrid
      ensures |calendarGrid| == LengthOfMonth(date.year, date.month)
      ensures forall i | 0 <= i < |calendarGrid| :: calendarGrid[i] == DayCell(i + 1, Column(i + 1), Row(i + 1))
    {
      calendarGrid := [];
      var daysInMonth := LengthOfMonth(date.year, date.month);
      var row, col := 0, 0;
      for day := 1 to daysInMonth + 1
        invariant |calendarGrid| == day - 1
        invariant col == Column(day) && row == Row(day)
        invariant forall i | 0 <= i < day - 1 :: calendarGrid[i] == DayCell(i + 1, Column(i + 1), Row(i + 1))
      {
        calendarGrid := calendarGrid + [DayCell(day, col, row)];
        col := col + 1;
        if col > 6 {
          col := 0;
          row := row + 1;
        }
      }
    }

    /** handleAdd: append the trimmed name to the list and the view when it is new. */
    method HandleAdd(entered: Option<string>)
      modifies this`habits, this`habitList
      ensures entered.Some? && IsNewName(old(habits), Trim(entered.value)) ==>
        habits == old(habits) + [Trim(entered.value)] && habitList == old(habitList) + [Trim(entered.value)]
      ensures !(entered.Some? && IsNewName(old(habits), Trim(entered.value))) ==>
        habits == old(habits) && habitList == old(habitList)
      ensures old(Valid()) ==> Valid()
    {
      if entered.Some? {
        var trimmed := Trim(entered.value);
        if trimmed != [] && trimmed !in habits {
          habits := habits + [trimmed];
          habitList := habitList + [trimmed];
        }
      }
    }

    /** handleEdit: replace the chosen habit, at its indexOf position, by the trimmed new name when
        that name is new. The choice dialog offers only listed names; the view must mirror the list
        for the position to exist in it. */
    method HandleEdit(chosen: Option<string>, entered: Option<string>)
      requires chosen.Some? ==> chosen.value in habits
      requires habitList == habits
      modifies this`habits, this`habitList
      ensures old(habits) == [] ==> habits == old(habits) && habitList == old(habitList)
      ensures chosen.Some? && entered.Some? && IsNewName(old(habits), Trim(entered.value)) ==>
        && habits == old(habits)[IndexOf(old(habits), chosen.value) := Trim(entered.value)]
        && habitList == habits
      ensures !(chosen.Some? && entered.Some? && IsNewName(old(habits), Trim(entered.value))) ==>
        habits == old(habits) && habitList == old(habitList)
      ensures old(Valid()) ==> Valid()
    {
      if habits == [] {
        return;
      }
      if chosen.Some? && entered.Some? {
        var trimmedNewName := Trim(entered.value);
        if trimmedNewName != [] && trimmedNewName !in habits {
          var index := IndexOf(habits, chosen.value);
          if Distinct(habits) {
            SetDistinct(habits, index, trimmedNewName);
          }
          habits := habits[index := trimmedNewName];
          habitList := habitList[index := trimmedNewName];
        }
      }
    }

    /** handleDelete: List.remove(Object) on the list and on the view. */
    method HandleDelete(chosen: Option<string>)
      modifies this`habits, this`habitList
      ensures old(habits) != [] && chosen.Some? ==>
        habits == RemoveFirst(old(habits), chosen.value) && habitList == RemoveFirst(old(habitList), chosen.value)
      ensures old(habits) == [] || chosen.None? ==> habits == old(habits) && habitList == old(habitList)
      ensures old(Valid()) ==> Valid()
      ensures old(Valid()) && chosen.Some? ==> chosen.value !in habits
    {
      if habits == [] {
        return;
      }
      if chosen.Some? {
        if Distinct(habits) {
          RemoveFirstDistinct(habits, chosen.value);
        }
        habits := RemoveFirst(habits, chosen.value);
        habitList := RemoveFirst(habitList, chosen.value);
      }
    }
  }
}
