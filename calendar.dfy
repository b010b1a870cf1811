/** The month grid of `TaskCalendar`: the month length and the weekday of
    its first day, the tasks due on a day, the cells the two render loops
    push (leading blanks, then one cell per day showing at most two tasks
    and a "+n more" count), and month navigation. */
module TaskCalendar {
  import opened Wrappers
  import opened Seqs
  import opened Dates
  import opened Tasks

  // ---------------------------------------------------------------------
  // Month arithmetic

  /** `getDaysInMonth`: `new Date(y, m + 1, 0).getDate()`, the day of the
      date one day before the first of the next month. */
  function GetDaysInMonth(d: Date): nat
    requires 1 <= d.month <= 12
  {
    var next := if d.month < 12 then Date(d.year, d.month + 1, 1) else Date(d.year + 1, 1, 1);
    PrevDay(next).day
  }

  /** Day 0 of the next month is the last day of this month: the length
      follows the Gregorian rules. */
  lemma DaysInMonthIsMonthLength(d: Date)
    requires 1 <= d.month <= 12
    ensures GetDaysInMonth(d) == DaysInMonth(d.year, d.month)
    ensures 28 <= GetDaysInMonth(d) <= 31
    ensures d.month == 2 ==> (GetDaysInMonth(d) == 29 <==> IsLeapYear(d.year))
  {
  }

  /** `getFirstDayOfMonth`: the weekday (0 is Sunday) of the first of the
      month. */
  function GetFirstDayOfMonth(d: Date): (w: nat)
    requires 1 <= d.month <= 12
    ensures w < 7
  {
    Weekday(Date(d.year, d.month, 1))
  }

  /** Day `day` sits in the column of its weekday: after the leading blanks,
      cell `firstDay + day - 1` of a seven-column grid is in column
      `getDay()` of that date. */
  lemma ColumnIsWeekday(d: Date, day: nat)
    requires 1 <= d.month <= 12 && 1 <= day <= DaysInMonth(d.year, d.month)
    ensures (GetFirstDayOfMonth(d) + day - 1) % 7 == Weekday(Date(d.year, d.month, day))
  {
    var first := DayNumber(Date(d.year, d.month, 1));
    assert DayNumber(Date(d.year, d.month, day)) == first + day - 1;
    ModAdd(first + 6, day - 1);
  }

  lemma ModAdd(a: int, b: nat)
    ensures (a % 7 + b) % 7 == (a + b) % 7
  {
    var q := a / 7;
    assert a == 7 * q + a % 7;
    ModMultiple(a % 7 + b, q);
  }

  lemma ModMultiple(x: int, q: int)
    ensures (7 * q + x) % 7 == x % 7
  {
  }

  // ---------------------------------------------------------------------
  // Tasks on a day

  /** `getTasksForDate`: the tasks whose due date is the date's
      `YYYY-MM-DD` string, in their original order. */
  function TasksForDate(tasks: seq<Task>, date: Date): (r: seq<Task>)
    ensures forall t :: t in r <==> t in tasks && t.dueDate == IsoDate(date)
  {
    Filter(tasks, (t: Task) => t.dueDate == IsoDate(date))
  }

  /** Adding a task at the end adds it at the end of the day it is due on
      and nowhere else: the day lists keep the collection's order. */
  lemma TasksForDateAppend(tasks: seq<Task>, t: Task, date: Date)
    ensures TasksForDate(tasks + [t], date) ==
            TasksForDate(tasks, date) + (if t.dueDate == IsoDate(date) then [t] else [])
  {
    FilterAppend(tasks, [t], (t: Task) => t.dueDate == IsoDate(date));
  }

  /** Two different days of the calendar never share a task. */
  lemma TaskOnOneDay(tasks: seq<Task>, t: Task, a: Date, b: Date)
    requires ValidDate(a) && InIsoRange(a) && ValidDate(b) && InIsoRange(b)
    requires t in TasksForDate(tasks, a) && t in TasksForDate(tasks, b)
    ensures a == b
  {
    IsoDateInjective(a, b);
  }

  /** A task due on a valid date of the displayed month is listed on that
      day, and the day has a cell. */
  lemma TaskDueInMonthIsListed(tasks: seq<Task>, t: Task, month: Date)
    requires 1 <= month.month <= 12
    requires t in tasks && ParseIsoDate(t.dueDate).Some?
    requires ParseIsoDate(t.dueDate).value.year == month.year && ParseIsoDate(t.dueDate).value.month == month.month
    ensures 1 <= ParseIsoDate(t.dueDate).value.day <= GetDaysInMonth(month)
    ensures t in TasksForDate(tasks, Date(month.year, month.month, ParseIsoDate(t.dueDate).value.day))
  {
    IsoDateOfParseIsoDate(t.dueDate);
  }

  // ---------------------------------------------------------------------
  // Cells

  /** A grid cell: a leading blank, or a day with the tasks it shows, the
      "+n more" count when there is one, and the today highlight. */
  datatype Cell = Blank | DayCell(day: nat, shown: seq<Task>, more: Option<nat>, isToday: bool)

  function Min(a: nat, b: nat): nat
  {
    if a < b then a else b
  }

  /** The cell the second loop pushes for `day` of the month of `month`. */
  function DayCellFor(month: Date, tasks: seq<Task>, today: Date, day: nat): Cell
    requires 1 <= month.month <= 12
  {
    var date := Date(month.year, month.month, day);
    var dayTasks := TasksForDate(tasks, date);
    DayCell(day, dayTasks[..Min(2, |dayTasks|)], if |dayTasks| > 2 then Some(|dayTasks| - 2) else None, date == today)
  }

  /** The hidden count, 0 when no "+n more" line is shown. */
  function Hidden(c: Cell): nat
  {
    if c.DayCell? && c.more.Some? then c.more.value else 0
  }

  /** A day cell shows the first tasks due that day, at most two of them; the
      "+n more" line appears exactly when more than two are due, and the
      shown and hidden tasks together are all of them. */
  lemma DayCellContents(month: Date, tasks: seq<Task>, today: Date, day: nat)
    requires 1 <= month.month <= 12
    ensures var c := DayCellFor(month, tasks, today, day);
            var dayTasks := TasksForDate(tasks, Date(month.year, month.month, day));
            && c.day == day
            && |c.shown| <= 2
            && c.shown == dayTasks[..|c.shown|]
            && (c.more.Some? <==> |dayTasks| > 2)
            && |c.shown| + Hidden(c) == |dayTasks|
            && (c.isToday <==> Date(month.year, month.month, day) == today)
  {
  }

  /** A task appears in at most one cell of the month. */
  lemma TaskInOneCell(month: Date, tasks: seq<Task>, today: Date, d1: nat, d2: nat, t: Task)
    requires 1 <= month.month <= 12 && 0 <= month.year <= 9999
    requires 1 <= d1 <= DaysInMonth(month.year, month.month) && 1 <= d2 <= DaysInMonth(month.year, month.month)
    requires t in DayCellFor(month, tasks, today, d1).shown && t in DayCellFor(month, tasks, today, d2).shown
    ensures d1 == d2
  {
    var a, b := Date(month.year, month.month, d1), Date(month.year, month.month, d2);
    var ta, tb := TasksForDate(tasks, a), TasksForDate(tasks, b);
    assert t in ta by {
      assert DayCellFor(month, tasks, today, d1).shown == ta[..Min(2, |ta|)];
    }
    assert t in tb by {
      assert DayCellFor(month, tasks, today, d2).shown == tb[..Min(2, |tb|)];
    }
    TaskOnOneDay(tasks, t, a, b);
  }

  /** `n` leading blanks. */
  function Blanks(n: nat): (r: seq<Cell>)
    ensures |r| == n
  {
    if n == 0 then [] else Blanks(n - 1) + [Blank]
  }

  /** The cells of days `1..n`, in order. */
  function DayCells(month: Date, tasks: seq<Task>, today: Date, n: nat): (r: seq<Cell>)
    requires 1 <= month.month <= 12
    ensures |r| == n
  {
    if n == 0 then [] else DayCells(month, tasks, today, n - 1) + [DayCellFor(month, tasks, today, n)]
  }

  lemma {:induction false} BlanksAt(n: nat, k: nat)
    requires k < n
    ensures Blanks(n)[k] == Blank
  {
    if k < n - 1 {
      BlanksAt(n - 1, k);
    }
  }

  lemma {:induction false} DayCellsAt(month: Date, tasks: seq<Task>, today: Date, n: nat, d: nat)
    requires 1 <= month.month <= 12 && 1 <= d <= n
    ensures DayCells(month, tasks, today, n)[d - 1] == DayCellFor(month, tasks, today, d)
  {
    if d < n {
      DayCellsAt(month, tasks, today, n - 1, d);
    }
  }

  /** The two render loops: `firstDay` blanks, then one cell per day of the
      month. */
  method BuildCells(month: Date, tasks: seq<Task>, today: Date) returns (days: seq<Cell>)
    requires 1 <= month.month <= 12
    ensures |days| == GetFirstDayOfMonth(month) + GetDaysInMonth(month)
    ensures forall i :: 0 <= i < GetFirstDayOfMonth(month) ==> days[i] == Blank
    ensures forall day :: 1 <= day <= GetDaysInMonth(month) ==>
              days[GetFirstDayOfMonth(month) + day - 1] == DayCellFor(month, tasks, today, day)
  {
    var daysInMonth := GetDaysInMonth(month);
    var firstDay := GetFirstDayOfMonth(month);
    days := RenderCells(month, tasks, today, firstDay, daysInMonth);
    CellsAt(month, tasks, today, firstDay, daysInMonth, days);
  }

  /** The loops themselves, for a given number of blanks and of days. */
  method RenderCells(month: Date, tasks: seq<Task>, today: Date, firstDay: nat, daysInMonth: nat) returns (days: seq<Cell>)
    requires 1 <= month.month <= 12
    ensures days == Blanks(firstDay) + DayCells(month, tasks, today, daysInMonth)
  {
    days := [];
    var i := 0;
    while i < firstDay
      invariant 0 <= i <= firstDay
      invariant days == Blanks(i)
    {
      days := days + [Blank];
      i := i + 1;
    }
    var day := 1;
    while day <= daysInMonth
      invariant 1 <= day <= daysInMonth + 1
      invariant days == Blanks(firstDay) + DayCells(month, tasks, today, day - 1)
    {
      var cell := DayCellFor(month, tasks, today, day);
      AppendCell(Blanks(firstDay), DayCells(month, tasks, today, day - 1), cell);
      days := days + [cell];
      day := day + 1;
    }
  }

  lemma AppendCell(blanks: seq<Cell>, cells: seq<Cell>, cell: Cell)
    ensures (blanks + cells) + [cell] == blanks + (cells + [cell])
  {
  }

  lemma CellsAt(month: Date, tasks: seq<Task>, today: Date, firstDay: nat, n: nat, days: seq<Cell>)
    requires 1 <= month.month <= 12
    requires days == Blanks(firstDay) + DayCells(month, tasks, today, n)
    ensures forall i :: 0 <= i < firstDay ==> days[i] == Blank
    ensures forall day :: 1 <= day <= n ==> days[firstDay + day - 1] == DayCellFor(month, tasks, today, day)
  {
    forall i | 0 <= i < firstDay
      ensures days[i] == Blank
    {
      BlanksAt(firstDay, i);
    }
    forall day | 1 <= day <= n
      ensures days[firstDay + day - 1] == DayCellFor(month, tasks, today, day)
    {
      DayCellsAt(month, tasks, today, n, day);
    }
  }

  // ---------------------------------------------------------------------
  // Month navigation

  datatype Direction = Prev | Next

  function Step(dir: Direction): int
  {
    if dir == Prev then -1 else 1
  }

  /** Months since January of year 0. */
  function MonthIndex(d: Date): int
  {
    d.year * 12 + d.month - 1
  }

  /** JavaScript's `setMonth(m)` (0-based, may lie outside 0..11): the year
      absorbs whole twelves, the day is kept, and a day past the end of the
      target month rolls over into the following month. */
  function SetMonthAsWritten(d: Date, m: int): (r: Date)
    requires ValidDate(d)
    ensures ValidDate(r)
  {
    var y, mo := d.year + m / 12, m % 12 + 1;
    var n := DaysInMonth(y, mo);
    // December has 31 days, so a roll-over never leaves the year.
    if d.day <= n then Date(y, mo, d.day) else Date(y, mo + 1, d.day - n)
  }

  /** `navigateMonth`, as written: `setMonth(getMonth() ∓ 1)`. */
  function NavigateAsWritten(d: Date, dir: Direction): (r: Date)
    requires ValidDate(d)
    ensures ValidDate(r)
  {
    SetMonthAsWritten(d, d.month - 1 + Step(dir))
  }

  /** The target month of a move: the year wraps between December and
      January. */
  function TargetMonth(d: Date, dir: Direction): (r: Date)
    requires 1 <= d.month <= 12
    ensures 1 <= r.month <= 12 && r.day == 1
    ensures MonthIndex(r) == MonthIndex(d) + Step(dir)
  {
    if dir == Prev then (if d.month == 1 then Date(d.year - 1, 12, 1) else Date(d.year, d.month - 1, 1))
    else (if d.month == 12 then Date(d.year + 1, 1, 1) else Date(d.year, d.month + 1, 1))
  }

  /** The written navigation lands in the target month exactly when the day
      exists there; otherwise it lands one month further on. */
  lemma AsWrittenMonth(d: Date, dir: Direction)
    requires ValidDate(d)
    ensures var target := TargetMonth(d, dir);
            d.day <= DaysInMonth(target.year, target.month) ==>
              NavigateAsWritten(d, dir) == Date(target.year, target.month, d.day)
    ensures var target := TargetMonth(d, dir);
            d.day > DaysInMonth(target.year, target.month) ==>
              MonthIndex(NavigateAsWritten(d, dir)) == MonthIndex(d) + Step(dir) + 1
  {
    var target := TargetMonth(d, dir);
    SetMonthTarget(d, dir);
    SetMonthLands(d, d.month - 1 + Step(dir), target.year, target.month);
  }

  /** `setMonth(getMonth() ∓ 1)` names the target month before any day
      overflow. */
  lemma SetMonthTarget(d: Date, dir: Direction)
    requires 1 <= d.month <= 12
    ensures var m := d.month - 1 + Step(dir);
            d.year + m / 12 == TargetMonth(d, dir).year && m % 12 + 1 == TargetMonth(d, dir).month
  {
    var m := d.month - 1 + Step(dir);
    MonthSplit(m);
    if dir == Prev {
      assert m == d.month - 2;
    } else {
      assert m == d.month;
    }
  }

  /** Where `setMonth(m)` lands once the target year and month are known. */
  lemma SetMonthLands(d: Date, m: int, y: int, mo: int)
    requires ValidDate(d) && 1 <= mo <= 12
    requires y == d.year + m / 12 && mo == m % 12 + 1
    ensures d.day <= DaysInMonth(y, mo) ==> SetMonthAsWritten(d, m) == Date(y, mo, d.day)
    ensures d.day > DaysInMonth(y, mo) ==> MonthIndex(SetMonthAsWritten(d, m)) == y * 12 + mo
  {
  }

  /** Euclidean division of a 0-based month one step outside `0..11`. */
  lemma MonthSplit(m: int)
    requires -1 <= m <= 12
    ensures m == -1 ==> m / 12 == -1 && m % 12 == 11
    ensures m == 12 ==> m / 12 == 1 && m % 12 == 0
    ensures 0 <= m < 12 ==> m / 12 == 0 && m % 12 == m
  {
  }

  /** "Previous" from 31 March 2024 stays in March (2 March): February has
      no 31st. */
  lemma PrevFromMarch31()
    ensures NavigateAsWritten(Date(2024, 3, 31), Prev) == Date(2024, 3, 2)
  {
    assert DaysInMonth(2024, 2) == 29;
  }

  /** "Next" from 31 January 2023 skips February (3 March). */
  lemma NextFromJanuary31()
    ensures NavigateAsWritten(Date(2023, 1, 31), Next) == Date(2023, 3, 3)
  {
    assert DaysInMonth(2023, 2) == 28;
  }

  /** The navigation the calendar intends: move to the previous or next
      month with the day clamped to that month's length. */
  function ShiftMonth(d: Date, dir: Direction): (r: Date)
    requires ValidDate(d)
    ensures ValidDate(r)
    ensures MonthIndex(r) == MonthIndex(d) + Step(dir)
    ensures r.day <= d.day
    ensures d.day <= DaysInMonth(r.year, r.month) ==> r.day == d.day
    ensures d.day > DaysInMonth(r.year, r.month) ==> r.day == DaysInMonth(r.year, r.month)
  {
    var target := TargetMonth(d, dir);
    var n := DaysInMonth(target.year, target.month);
    Date(target.year, target.month, if d.day <= n then d.day else n)
  }

  /** Whenever the day exists in the target month, the corrected navigation
      and the written one agree. */
  lemma ShiftAgreesWhenDayFits(d: Date, dir: Direction)
    requires ValidDate(d)
    requires d.day <= DaysInMonth(TargetMonth(d, dir).year, TargetMonth(d, dir).month)
    ensures ShiftMonth(d, dir) == NavigateAsWritten(d, dir)
  {
    AsWrittenMonth(d, dir);
  }

  /** Going back and then forward returns to the starting month. */
  lemma PrevThenNext(d: Date)
    requires ValidDate(d)
    ensures MonthIndex(ShiftMonth(ShiftMonth(d, Prev), Next)) == MonthIndex(d)
  {
  }

  /** The calendar's `currentDate` state. */
  class Calendar {
    var current: Date

    predicate Valid()
      reads this
    {
      ValidDate(current)
    }

    /** `useState(new Date())`, with the clock passed in. */
    constructor (today: Date)
      requires ValidDate(today)
      ensures Valid() && current == today
    {
      current := today;
    }

    /** The prev/next buttons, with the clamped month shift. */
    method NavigateMonth(dir: Direction)
      requires Valid()
      modifies this
      ensures Valid()
      ensures current == ShiftMonth(old(current), dir)
      ensures MonthIndex(current) == MonthIndex(old(current)) + Step(dir)
    {
      current := ShiftMonth(current, dir);
    }
  }
}
