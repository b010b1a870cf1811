/** The analytics view: the completions of the last seven days, the
    per-category completion, the overdue count and the average number of
    days a completed task took. */
module TaskAnalytics {
  import opened Wrappers
  import opened Seqs
  import opened Text
  import opened Dates
  import opened Tasks
  import opened TaskStats
  import opened TaskNotifications

  // ---------------------------------------------------------------------
  // The seven-day series

  /** The day `i` days before `today`, as `setDate(getDate() - i)` on a copy
      of the current date yields it. */
  function DayBefore(today: Date, i: nat): (r: string)
    requires ValidDate(today)
  {
    IsoDate(DaysBack(today, i))
  }

  /** `Array.from({ length: 7 }, (_, i) => <i days before today>).reverse()`. */
  function Last7Days(today: Date): (r: seq<string>)
    requires ValidDate(today)
    ensures |r| == 7
  {
    Reverse(seq(7, i requires 0 <= i < 7 => DayBefore(today, i)))
  }

  /** Entry `k` is the day `6 - k` days before today, so the series ends
      with today. */
  lemma Last7DaysEntries(today: Date)
    requires ValidDate(today)
    ensures forall k :: 0 <= k < 7 ==> Last7Days(today)[k] == DayBefore(today, 6 - k)
    ensures Last7Days(today)[6] == IsoDate(today)
  {
  }

  /** Going further back gives an earlier day and an ISO string that sorts
      first. */
  lemma DaysBackOrder(today: Date, m: nat, n: nat)
    requires ValidDate(today) && 1 <= today.year <= 9999 && n < m <= 365
    ensures DayNumber(DaysBack(today, n)) - DayNumber(DaysBack(today, m)) == m - n
    ensures LexLess(IsoDate(DaysBack(today, m)), IsoDate(DaysBack(today, n)))
  {
    var a, b := DaysBack(today, m), DaysBack(today, n);
    DaysBackNumber(today, m);
    DaysBackNumber(today, n);
    YearsInRange(today, m);
    YearsInRange(today, n);
    IsoDateOrder(a, b);
  }

  /** The series runs over seven consecutive days, oldest first: for a
      four-digit year the day strings increase strictly, so no date occurs
      twice. */
  lemma Last7DaysIncreasing(today: Date, i: nat, j: nat)
    requires ValidDate(today) && 1 <= today.year <= 9999
    requires i < j < 7
    ensures LexLess(Last7Days(today)[i], Last7Days(today)[j])
    ensures Last7Days(today)[i] != Last7Days(today)[j]
  {
    var days := Last7Days(today);
    var m, n := 6 - i, 6 - j;
    assert days[i] == DayBefore(today, m) && days[j] == DayBefore(today, n) by {
      Last7DaysEntries(today);
    }
    assert LexLess(DayBefore(today, m), DayBefore(today, n)) by {
      DaysBackOrder(today, m, n);
    }
    LexLessIrreflexive(days[i]);
  }

  /** Up to a year back from a date of years 1..9999 the year still has four
      digits. */
  lemma YearsInRange(today: Date, i: nat)
    requires ValidDate(today) && 1 <= today.year <= 9999 && i <= 365
    ensures InIsoRange(DaysBack(today, i))
  {
    var d := DaysBack(today, i);
    DaysBackNumber(today, i);
    DayNumberOrder(today, d);
    DayNumberOrder(Date(1, 1, 1), today);
    DayNumberOrder(d, Date(0, 1, 1));
  }

  /** The test of each day's count: completed, and the date part of
      `updatedAt` (the text before the first `T`) is that day. */
  predicate CompletedOnDay(t: Task, date: string)
  {
    t.status == Completed && Split(t.updatedAt, 'T')[0] == date
  }

  /** How many tasks were completed on `date`. */
  function CompletedOn(tasks: seq<Task>, date: string): (r: nat)
    ensures r <= |tasks|
  {
    if tasks == [] then 0
    else (if CompletedOnDay(tasks[0], date) then 1 else 0) + CompletedOn(tasks[1..], date)
  }

  /** The date part of a `toISOString` timestamp is its calendar date. */
  lemma DatePartOfTimestamp(date: string, time: string)
    requires 'T' !in date
    ensures Split(date + "T" + time, 'T')[0] == date
  {
    SplitAtSeparator(date, time, 'T');
  }

  datatype DayEntry = DayEntry(date: string, completed: nat)

  /** `getProductivityData`, without the locale weekday label. */
  function ProductivityData(tasks: seq<Task>, today: Date): (r: seq<DayEntry>)
    requires ValidDate(today)
    ensures |r| == 7
    ensures forall k :: 0 <= k < 7 ==> r[k].date == Last7Days(today)[k] &&
                                        r[k].completed == CompletedOn(tasks, Last7Days(today)[k])
  {
    var days := Last7Days(today);
    seq(7, k requires 0 <= k < 7 => DayEntry(days[k], CompletedOn(tasks, days[k])))
  }

  /** The per-day counts, each day in turn. */
  function DailyCounts(tasks: seq<Task>, dates: seq<string>): seq<nat>
  {
    if dates == [] then [] else [CompletedOn(tasks, dates[0])] + DailyCounts(tasks, dates[1..])
  }

  /** The days of `dates` on which `t` counts. */
  function Hits(t: Task, dates: seq<string>): nat
  {
    if dates == [] then 0 else (if CompletedOnDay(t, dates[0]) then 1 else 0) + Hits(t, dates[1..])
  }

  /** A task counts on no day unless completed, and a completed task on at
      most one of several distinct days. */
  lemma {:induction false} HitsAtMostOne(t: Task, dates: seq<string>)
    requires forall i, j :: 0 <= i < j < |dates| ==> dates[i] != dates[j]
    ensures Hits(t, dates) <= (if t.status == Completed then 1 else 0)
    ensures Split(t.updatedAt, 'T')[0] !in dates ==> Hits(t, dates) == 0
  {
    if dates != [] {
      HitsAtMostOne(t, dates[1..]);
      if CompletedOnDay(t, dates[0]) {
        assert Split(t.updatedAt, 'T')[0] !in dates[1..];
      }
    }
  }

  lemma {:induction false} SumDailyCounts(tasks: seq<Task>, dates: seq<string>)
    requires tasks != []
    ensures Sum(DailyCounts(tasks, dates)) == Hits(tasks[0], dates) + Sum(DailyCounts(tasks[1..], dates))
  {
    if dates != [] {
      SumDailyCounts(tasks, dates[1..]);
    }
  }

  /** Over distinct days, the counts add up to no more than the number of
      completed tasks: no task is counted twice. */
  lemma {:induction false} DailyCountsBound(tasks: seq<Task>, dates: seq<string>)
    requires forall i, j :: 0 <= i < j < |dates| ==> dates[i] != dates[j]
    ensures Sum(DailyCounts(tasks, dates)) <= Count(tasks, IsCompleted)
  {
    if tasks == [] {
      ZeroCounts(dates);
    } else {
      SumDailyCounts(tasks, dates);
      HitsAtMostOne(tasks[0], dates);
      DailyCountsBound(tasks[1..], dates);
    }
  }

  lemma {:induction false} ZeroCounts(dates: seq<string>)
    ensures Sum(DailyCounts([], dates)) == 0
  {
    if dates != [] {
      ZeroCounts(dates[1..]);
    }
  }

  /** The "This Week" figure: the seven daily counts added up. */
  function WeekTotal(data: seq<DayEntry>): nat
  {
    if data == [] then 0 else data[0].completed + WeekTotal(data[1..])
  }

  lemma {:induction false} WeekTotalIsSum(tasks: seq<Task>, data: seq<DayEntry>, dates: seq<string>)
    requires |data| == |dates|
    requires forall k :: 0 <= k < |data| ==> data[k].completed == CompletedOn(tasks, dates[k])
    ensures WeekTotal(data) == Sum(DailyCounts(tasks, dates))
  {
    if data != [] {
      WeekTotalIsSum(tasks, data[1..], dates[1..]);
    }
  }

  /** The week's completions never exceed the completed tasks. */
  lemma WeekTotalAtMostCompleted(tasks: seq<Task>, today: Date)
    requires ValidDate(today) && 1 <= today.year <= 9999
    ensures WeekTotal(ProductivityData(tasks, today)) <= Count(tasks, IsCompleted)
  {
    forall i, j | 0 <= i < j < 7
      ensures Last7Days(today)[i] != Last7Days(today)[j]
    {
      Last7DaysIncreasing(today, i, j);
    }
    WeekTotalIsSum(tasks, ProductivityData(tasks, today), Last7Days(today));
    DailyCountsBound(tasks, Last7Days(today));
  }

  /** `Math.max(...counts, 1)`. */
  function MaxCompleted(data: seq<DayEntry>): (r: nat)
    ensures r >= 1
    ensures forall k :: 0 <= k < |data| ==> data[k].completed <= r
    ensures r == 1 || exists k :: 0 <= k < |data| && data[k].completed == r
  {
    if data == [] then 1
    else
      var rest := MaxCompleted(data[1..]);
      if data[0].completed >= rest then data[0].completed
      else
        assert rest != 1 ==> exists k :: 1 <= k < |data| && data[k].completed == rest by {
          if rest != 1 {
            var k :| 0 <= k < |data[1..]| && data[1..][k].completed == rest;
            assert data[k + 1].completed == rest;
          }
        }
        rest
  }

  /** The bar height of a day, as a fraction of the tallest bar. */
  function BarRatio(day: DayEntry, maxCompleted: nat): real
    requires maxCompleted >= 1
  {
    day.completed as real / maxCompleted as real
  }

  /** Every bar fits: each day's ratio is between 0 and 1. */
  lemma BarRatioBounds(data: seq<DayEntry>, k: nat)
    requires k < |data|
    ensures 0.0 <= BarRatio(data[k], MaxCompleted(data)) <= 1.0
  {
    var c, m := data[k].completed, MaxCompleted(data);
    assert c <= m;
    RatioAtMostOne(c as real, m as real);
  }

  lemma RatioAtMostOne(a: real, b: real)
    requires 0.0 <= a <= b && b > 0.0
    ensures 0.0 <= a / b <= 1.0
  {
    assert b / b == 1.0;
    assert a / b <= b / b;
  }

  // ---------------------------------------------------------------------
  // Categories

  /** `tasks.filter(task => task.category === name)`. */
  function InCategory(tasks: seq<Task>, name: string): (r: seq<Task>)
    ensures |r| <= |tasks|
    ensures forall i :: 0 <= i < |r| ==> r[i].category == name && r[i] in tasks
    ensures forall i :: 0 <= i < |tasks| && tasks[i].category == name ==> tasks[i] in r
  {
    var r := Filter(tasks, (t: Task) => t.category == name);
    assert forall i :: 0 <= i < |r| ==> r[i] in r;
    r
  }

  datatype CategoryStat = CategoryStat(category: Category, total: nat, completed: nat, percentage: real)

  function StatFor(tasks: seq<Task>, c: Category): CategoryStat
  {
    var inCat := InCategory(tasks, c.name);
    var completed := Count(inCat, IsCompleted);
    CategoryStat(c, |inCat|, completed, Percent(completed, |inCat|))
  }

  /** `getCategoryStats`: one entry per category, in category order. */
  function CategoryStats(tasks: seq<Task>, categories: seq<Category>): (r: seq<CategoryStat>)
    ensures |r| == |categories|
    ensures forall i :: 0 <= i < |r| ==> r[i] == StatFor(tasks, categories[i])
  {
    seq(|categories|, i requires 0 <= i < |categories| => StatFor(tasks, categories[i]))
  }

  /** For each entry: the completed ones are among the entry's tasks, and the
      percentage is their share, between 0 and 100 (0 for an empty category). */
  lemma {:induction false} CategoryStatBounds(tasks: seq<Task>, c: Category)
    ensures var st := StatFor(tasks, c);
            && st.completed <= st.total
            && (st.total == 0 ==> st.percentage == 0.0)
            && 0.0 <= st.percentage <= 100.0
            && (st.total > 0 ==> (st.percentage == 100.0 <==> st.completed == st.total))
            && (st.percentage == 0.0 <==> st.completed == 0 || st.total == 0)
  {
    var inCat := InCategory(tasks, c.name);
    var st := CategoryStat(c, |inCat|, Count(inCat, IsCompleted), Percent(Count(inCat, IsCompleted), |inCat|));
    assert st == StatFor(tasks, c);
    ShareBounds(st);
  }

  /** The share of a category's stat entry. */
  lemma ShareBounds(st: CategoryStat)
    requires st.completed <= st.total && st.percentage == Percent(st.completed, st.total)
    ensures st.total == 0 ==> st.percentage == 0.0
    ensures 0.0 <= st.percentage <= 100.0
    ensures st.total > 0 ==> (st.percentage == 100.0 <==> st.completed == st.total)
    ensures st.percentage == 0.0 <==> st.completed == 0 || st.total == 0
  {
    PercentBounds(st.completed, st.total);
  }

  /** Per category, the total is the number of tasks that name it. */
  lemma {:induction false} CategoryTotalCounts(tasks: seq<Task>, name: string)
    ensures |InCategory(tasks, name)| == Count(tasks, (t: Task) => t.category == name)
  {
    if tasks != [] {
      CategoryTotalCounts(tasks[1..], name);
    }
  }

  // ---------------------------------------------------------------------
  // Overdue count

  /** `getOverdueCount`: unfinished tasks whose due date sorts before today. */
  function OverdueCount(tasks: seq<Task>, todayStr: string): nat
  {
    if tasks == [] then 0
    else
      var last := tasks[|tasks| - 1];
      OverdueCount(tasks[..|tasks| - 1], todayStr) +
      (if LexLess(last.dueDate, todayStr) && last.status != Completed then 1 else 0)
  }

  /** The overdue figure is the number of overdue notifications the bell
      builds for the same day. */
  lemma {:induction false} OverdueCountMatchesNotifications(tasks: seq<Task>, todayStr: string, tomorrowStr: string)
    ensures OverdueCount(tasks, todayStr) == |Pass(tasks, Overdue, todayStr, tomorrowStr)|
  {
    if tasks != [] {
      OverdueCountMatchesNotifications(tasks[..|tasks| - 1], todayStr, tomorrowStr);
    }
  }

  /** For a four-digit today, a task with a `YYYY-MM-DD` due date counts as
      overdue exactly when it is unfinished and its date is before today. */
  lemma OverdueMeansEarlier(t: Task, today: Date)
    requires ValidDate(today) && InIsoRange(today) && ParseIsoDate(t.dueDate).Some?
    ensures OverdueCount([t], IsoDate(today)) == 1 <==>
              t.status != Completed && DayNumber(ParseIsoDate(t.dueDate).value) < DayNumber(today)
  {
    IsoDateOfParseIsoDate(t.dueDate);
    IsoDateOrder(ParseIsoDate(t.dueDate).value, today);
    assert [t][..0] == [];
  }

  // ---------------------------------------------------------------------
  // Average completion time

  /** `Math.ceil((updated - created) / dayMs)`; `None` when either timestamp
      does not parse (NaN). */
  function CompletionDays(t: Task): Option<int>
  {
    match (ParseInstant(t.createdAt), ParseInstant(t.updatedAt))
    case (Some(created), Some(updated)) => Some(CeilDiv(updated - created, MsPerDay))
    case _ => None
  }

  /** The day counts of the completed tasks, in order. */
  function Durations(completed: seq<Task>): (r: seq<Option<int>>)
    ensures |r| == |completed|
    ensures forall i :: 0 <= i < |r| ==> r[i] == CompletionDays(completed[i])
  {
    seq(|completed|, i requires 0 <= i < |completed| => CompletionDays(completed[i]))
  }

  /** The `reduce` from 0: NaN absorbs everything after it. */
  function TotalDays(days: seq<Option<int>>): Option<int>
  {
    if days == [] then Some(0)
    else
      match (days[0], TotalDays(days[1..]))
      case (Some(d), Some(rest)) => Some(d + rest)
      case _ => None
  }

  /** The sum is defined exactly when every count is, and it lies between
      `n * lo` and `n * hi` when every count does. */
  lemma {:induction false} TotalDaysBounds(days: seq<Option<int>>, lo: int, hi: int)
    requires forall i :: 0 <= i < |days| ==> days[i].Some? && lo <= days[i].value <= hi
    ensures TotalDays(days).Some?
    ensures lo * |days| <= TotalDays(days).value <= hi * |days|
  {
    if days != [] {
      TotalDaysBounds(days[1..], lo, hi);
    }
  }

  /** One NaN makes the sum NaN. */
  lemma {:induction false} TotalDaysNaN(days: seq<Option<int>>, k: nat)
    requires k < |days| && days[k].None?
    ensures TotalDays(days).None?
  {
    if k > 0 {
      TotalDaysNaN(days[1..], k - 1);
    }
  }

  function CompletedTasks(tasks: seq<Task>): seq<Task>
  {
    Filter(tasks, IsCompleted)
  }

  /** `getAverageCompletionTime`: 0 without completed tasks, otherwise the
      rounded mean of the day counts; `None` stands for NaN. */
  function AverageCompletionTime(tasks: seq<Task>): Option<int>
  {
    var completed := CompletedTasks(tasks);
    if |completed| == 0 then Some(0)
    else
      match TotalDays(Durations(completed))
      case Some(total) => Some(Round(total as real / |completed| as real))
      case None => None
  }

  lemma NoCompletedIsZero(tasks: seq<Task>)
    requires forall i :: 0 <= i < |tasks| ==> tasks[i].status != Completed
    ensures AverageCompletionTime(tasks) == Some(0)
  {
    CountNone(tasks, IsCompleted);
  }

  /** When every completed task took between `lo` and `hi` days, so does the
      average. */
  lemma AverageWithinBounds(tasks: seq<Task>, lo: int, hi: int)
    requires forall i :: 0 <= i < |CompletedTasks(tasks)| ==>
               CompletionDays(CompletedTasks(tasks)[i]).Some? &&
               lo <= CompletionDays(CompletedTasks(tasks)[i]).value <= hi
    requires |CompletedTasks(tasks)| > 0
    ensures AverageCompletionTime(tasks).Some?
    ensures lo <= AverageCompletionTime(tasks).value <= hi
  {
    var completed := CompletedTasks(tasks);
    var days := Durations(completed);
    var n := |completed|;
    assert TotalDays(days).Some? && lo * n <= TotalDays(days).value <= hi * n by {
      TotalDaysBounds(days, lo, hi);
    }
    assert lo <= Round(TotalDays(days).value as real / n as real) <= hi by {
      RoundedMeanBetween(TotalDays(days).value, n, lo, hi);
    }
  }

  /** A completed task whose timestamps do not both parse makes the average
      NaN. */
  lemma AverageNaN(tasks: seq<Task>, k: nat)
    requires k < |CompletedTasks(tasks)| && CompletionDays(CompletedTasks(tasks)[k]).None?
    ensures AverageCompletionTime(tasks).None?
  {
    TotalDaysNaN(Durations(CompletedTasks(tasks)), k);
  }

  lemma {:induction false} CastProduct(a: int, n: nat)
    ensures (a * n) as real == a as real * n as real
  {
    if n > 0 {
      CastProduct(a, n - 1);
      assert a * n == a * (n - 1) + a;
    }
  }

  /** The rounded mean of `n` integers between `lo` and `hi` stays between
      them. */
  lemma RoundedMeanBetween(total: int, n: nat, lo: int, hi: int)
    requires n > 0 && lo * n <= total <= hi * n
    ensures lo <= Round(total as real / n as real) <= hi
  {
    CastProduct(lo, n);
    CastProduct(hi, n);
    var m := total as real / n as real;
    assert lo as real <= m <= hi as real by {
      MeanBetween(total as real, n as real, lo as real, hi as real);
    }
  }

  lemma MeanBetween(total: real, n: real, lo: real, hi: real)
    requires n > 0.0 && lo * n <= total <= hi * n
    ensures lo <= total / n <= hi
  {
    assert (lo * n) / n == lo;
    assert (hi * n) / n == hi;
  }

  /** A task created at midnight of `a` and last updated at midnight of `b`
      took the number of days between the two dates (the timestamps
      `toISOString` writes for those midnights parse so, by
      `ParseInstantMidnight`). */
  lemma MidnightToMidnight(t: Task, a: Date, b: Date)
    requires ValidDate(a) && ValidDate(b)
    requires ParseInstant(t.createdAt) == Some(MidnightMs(a)) && ParseInstant(t.updatedAt) == Some(MidnightMs(b))
    ensures CompletionDays(t) == Some(DayNumber(b) - DayNumber(a))
  {
    MidnightDays(a, b);
  }

  /** With a single completed task the average is that task's day count. */
  lemma SingleTaskAverage(t: Task)
    requires t.status == Completed && CompletionDays(t).Some?
    ensures AverageCompletionTime([t]) == CompletionDays(t)
  {
    var k := CompletionDays(t).value;
    assert CompletedTasks([t]) == [t];
    assert TotalDays(Durations([t])) == Some(k) by {
      assert Durations([t]) == [Some(k)];
      assert [Some(k)][1..] == [];
    }
    assert Round(k as real / 1 as real) == k by {
      RoundedMeanBetween(k, 1, k, k);
    }
  }
}
