# Task manager client core in Dafny

This project models the client-side logic of a small React task manager.
A user's tasks are fetched from a REST back end and kept in a hook's state.
The components then derive everything they show from that list:

- the filtered and sorted task list with its empty-state hints;
- the completion statistics;
- the overdue, due-today and due-tomorrow notifications;
- the analytics: a seven-day productivity chart, per-category progress, the overdue count and the average completion time;
- the month calendar with its navigation;
- the task card with its labels, status buttons and due-date suffix;
- the CSV, JSON and plain-text exports.

Modules follow the program:

| module | file | models |
|---|---|---|
| `Tasks` | `tasks.dfy` | the `Task`/`Category` records, the stats hook and the `TaskStore` class for the hook's state |
| `TaskList` | `task_list.dfy` | search and filters, the comparator, the in-place sort and the empty state |
| `TaskStats` | `task_stats.dfy` | the completion rate and its label |
| `TaskNotifications` | `notifications.dfy` | the three notification passes and dismissal |
| `TaskAnalytics` | `analytics.dfy` | the seven-day series, category stats, overdue count and average completion time |
| `TaskCalendar` | `calendar.dfy` | the month grid, the tasks per day and month navigation |
| `TaskCard` | `card.dfy` | the category badge, labels, status buttons and the due-date suffix |
| `TaskExport` | `export.dfy` | the CSV rows, the JSON records and the text report |

Four support modules hold the rest:

- `Wrappers`: `Option`.
- `Seqs`: filter, count and sum over sequences.
- `Text`: the JavaScript string operations the code uses, restricted to ASCII:
  - `toLowerCase` and `includes`;
  - `<` on strings;
  - `join`, `split` and `trim`;
  - `replace` of the first occurrence;
  - number formatting.
- `Dates`: the proleptic Gregorian calendar, written out with:
  - day numbers and weekdays;
  - `YYYY-MM-DD` strings;
  - `Date.parse` of a date or an ISO timestamp to milliseconds since 1970, with `None` standing for `NaN`;
  - `Math.ceil` of a quotient and `Math.round`.

The current instant is a parameter of every member that needs it:
- `today` is the local calendar date;
- `now` is the instant in milliseconds.

`toLocaleDateString` is a function parameter `localeDate`, applied to the parsed instant.

## Model

| member | source | states |
|---|---|---|
| Tasks.ComputeStats | src/hooks/useTasks.ts:132-139 | the total is the number of tasks and the three status counts add up to it |
| Tasks.FindCategory | src/components/TaskCard.tsx:20 | `find` by name: absent iff no category has the name, otherwise the first one that has it |
| Tasks.ReplaceById | src/hooks/useTasks.ts:105-107 | same length; every task with the id is replaced by the reply and every other task is kept in place |
| Tasks.RemoveById | src/hooks/useTasks.ts:123 | the order-preserving filter on `id !== id`: every remaining task lacks the id, and every task without the id remains |
| Tasks.RemoveAbsentId | src/hooks/useTasks.ts:123 | deleting an id nobody has leaves the list unchanged |
| Tasks.RemoveByIdLength | src/hooks/useTasks.ts:123 | the tasks removed and the tasks kept together account for the whole list |
| Tasks.ReplaceByIdIdempotent | src/hooks/useTasks.ts:105-107 | applying the same update twice is the same as once |
| Tasks.NamesAreDistinct | src/hooks/useTasks.ts:8-9 | the wire names of priorities and of statuses are injective, and none of them is the filter value `all` |
| Tasks.TaskStore.constructor | src/hooks/useTasks.ts:26-29 | empty tasks and categories, loading, no error |
| Tasks.TaskStore.FetchTasks | src/hooks/useTasks.ts:31-45 | no user: nothing changes; a body replaces the tasks and clears the error; a throw keeps the tasks and sets "Failed to fetch tasks"; loading ends either way |
| Tasks.TaskStore.FetchCategories | src/hooks/useTasks.ts:47-55 | a body replaces the categories; a throw keeps them; nothing else changes |
| Tasks.TaskStore.CreateTask | src/hooks/useTasks.ts:62-88 | no user: `null` and no change; an ok reply is appended and returned; a non-ok reply returns `null` with no change; a throw sets "Failed to create task" |
| Tasks.TaskStore.UpdateTask | src/hooks/useTasks.ts:90-114 | an ok reply replaces every task with the id and is returned; otherwise the tasks stay, and a throw sets "Failed to update task" |
| Tasks.TaskStore.DeleteTask | src/hooks/useTasks.ts:116-130 | returns true iff the reply is ok, and then the tasks are exactly those without the id; a throw sets "Failed to delete task" |
| TaskList.SearchIsCaseInsensitiveSubstring | src/components/TaskList.tsx:30-31 | a task matches the search iff the lower-cased term occurs in the lower-cased title or description; the term's case does not matter |
| TaskList.SelectedNameNarrows | src/components/TaskList.tsx:33-34 | choosing a status or a priority keeps, among the tasks passing the other tests, exactly those with that status or priority |
| TaskList.FilterTasks | src/components/TaskList.tsx:29-38 | keeps exactly the tasks passing search, status, priority and category, and nothing else |
| TaskList.UnfilteredKeepsAll | src/components/TaskList.tsx:29-38 | with an empty search and every filter "all", the filter keeps the list as it is |
| TaskList.DueCompareAgreesWithDates | src/components/TaskList.tsx:48 | on `YYYY-MM-DD` due dates the string comparison has the sign of `getTime()` of one minus the other |
| TaskList.CompareProperties | src/components/TaskList.tsx:40-49 | the comparator is antisymmetric, and it returns 0 exactly when priority and due date agree |
| TaskList.CompareTransitive | src/components/TaskList.tsx:40-49 | the comparator's "goes no later than" relation is transitive |
| TaskList.SortedOrder | src/components/TaskList.tsx:41-48 | in a sorted list high comes before medium before low, and within one priority the earlier due date comes first |
| TaskList.InsertPermutes | src/components/TaskList.tsx:40 | inserting one task adds exactly that task to the multiset |
| TaskList.InsertSorted | src/components/TaskList.tsx:40-49 | inserting into a sorted list keeps it sorted |
| TaskList.InsertStable | src/components/TaskList.tsx:40 | insertion places the new task after every task with the same key |
| TaskList.SortTasksPermutes | src/components/TaskList.tsx:40 | the sort is a permutation of its input |
| TaskList.SortTasksSorted | src/components/TaskList.tsx:40-49 | the sort's result is ordered by the comparator |
| TaskList.SortTasksStable | src/components/TaskList.tsx:40 | tasks with equal keys keep their relative order, as `Array.prototype.sort` guarantees |
| TaskList.SortInPlace | src/components/TaskList.tsx:40-49 | the array is rearranged in place into the stable comparator order of its old contents |
| TaskList.VisibleTasks | src/components/TaskList.tsx:29-49 | the shown list holds exactly the matching tasks, as a permutation of the filtered list, sorted and stable |
| TaskList.UnfilteredIsPermutation | src/components/TaskList.tsx:29-49 | with no filter active the shown list is a permutation of all tasks |
| TaskList.EmptyStateTruthful | src/components/TaskList.tsx:137-161 | "No tasks yet" iff there are no tasks and no filter is active; the create button only shows when there are no tasks; with tasks present, an empty view says the filters are to blame |
| TaskList.CountHeadingShowsLength | src/components/TaskList.tsx:132-134 | the heading's number reads back as the number of tasks shown |
| TaskStats.PercentBounds | src/components/TaskStats.tsx:14 | the rate lies in [0, 100]; it is 100 iff all are done; it is 0 iff none are done or there are none; it times the total equals 100 times the completed count |
| TaskStats.CompletionRateOfTasks | src/components/TaskStats.tsx:14 | on a task list, 100% iff every task is completed and the list is non-empty; 0% iff none is completed |
| TaskStats.RoundedRateBounds | src/components/TaskStats.tsx:68 | the rounded percentage lies in 0..100, is 100 when all are done and 0 when none are |
| TaskStats.ProgressLabelShape | src/components/TaskStats.tsx:68 | the label is the rounded rate in decimal followed by `%` |
| TaskNotifications.Templates | src/components/TaskNotifications.tsx:33-60 | ids are `overdue-`, `due-today-` or `due-soon-` followed by the task id, with messages to match |
| TaskNotifications.PassMembers | src/components/TaskNotifications.tsx:30-63 | a pass yields a notification of its kind for exactly the tasks that qualify, and each carries its task |
| TaskNotifications.PassAppend | src/components/TaskNotifications.tsx:30-39 | a pass over two lists is the pass over the first followed by the pass over the second |
| TaskNotifications.BuildShape | src/components/TaskNotifications.tsx:20-66 | every notification is about an open task; overdue ones come first, then due-today, then due-soon |
| TaskNotifications.KindsExclusive | src/components/TaskNotifications.tsx:31-55 | an open task qualifies for at most one kind: due before today, equal to today, or equal to tomorrow |
| TaskNotifications.KindMeansDate | src/components/TaskNotifications.tsx:21-55 | an entry's kind holds iff its due string sorts before today's ISO string, equals it, or equals tomorrow's, each both ways |
| TaskNotifications.KindMeansDay | src/components/TaskNotifications.tsx:21-55 | for a due string that parses as `YYYY-MM-DD`, the kind is Overdue, DueToday or DueSoon iff the due day number is below today's, equal to it, or one above it |
| TaskNotifications.AtMostOnePerTask | src/components/TaskNotifications.tsx:27-65 | there are never more notifications than tasks |
| TaskNotifications.NotificationIdInjective | src/components/TaskNotifications.tsx:33-57 | equal ids mean the same kind and the same task id, so the dismiss key is unambiguous |
| TaskNotifications.WithoutId | src/components/TaskNotifications.tsx:68-70 | dismissal removes exactly the notifications with the id |
| TaskNotifications.WithoutAbsentId | src/components/TaskNotifications.tsx:68-70 | dismissing an unknown id changes nothing |
| TaskNotifications.WithoutIdIdempotent | src/components/TaskNotifications.tsx:68-70 | dismissing twice is dismissing once |
| TaskNotifications.PushPass | src/components/TaskNotifications.tsx:30-39 | the `forEach` loop appends the pass's notifications to those already pushed |
| TaskNotifications.NotificationCenter.Refresh | src/components/TaskNotifications.tsx:20-66 | the state becomes the three passes for today and tomorrow |
| TaskNotifications.NotificationCenter.Dismiss | src/components/TaskNotifications.tsx:68-70 | the state loses exactly the notifications with the id |
| TaskAnalytics.Last7DaysEntries | src/components/TaskAnalytics.tsx:12-16 | seven dates, oldest first, the last being today |
| TaskAnalytics.Last7DaysIncreasing | src/components/TaskAnalytics.tsx:12-16 | the dates strictly increase and so are distinct |
| TaskAnalytics.DatePartOfTimestamp | src/components/TaskAnalytics.tsx:21 | `split('T')[0]` of a date-and-time stamp is its date |
| TaskAnalytics.ProductivityData | src/components/TaskAnalytics.tsx:18-29 | one entry per day of the week, counting the completed tasks last updated on that day |
| TaskAnalytics.HitsAtMostOne | src/components/TaskAnalytics.tsx:18-22 | a task is counted on at most one day, and only when it is completed |
| TaskAnalytics.DailyCountsBound | src/components/TaskAnalytics.tsx:18-22 | the daily counts sum to at most the number of completed tasks |
| TaskAnalytics.WeekTotalAtMostCompleted | src/components/TaskAnalytics.tsx:108 | the "This Week" total never exceeds the number of completed tasks |
| TaskAnalytics.MaxCompleted | src/components/TaskAnalytics.tsx:73 | at least 1, at least every day's count, and either 1 or some day's count |
| TaskAnalytics.BarRatioBounds | src/components/TaskAnalytics.tsx:132 | every bar height is between 0 and 100% |
| TaskAnalytics.InCategory | src/components/TaskAnalytics.tsx:34 | exactly the tasks naming the category |
| TaskAnalytics.CategoryStats | src/components/TaskAnalytics.tsx:32-46 | one stat per category, in category order |
| TaskAnalytics.CategoryStatBounds | src/components/TaskAnalytics.tsx:35-37 | completed is at most total; the percentage lies in [0, 100]; it is 100 iff every task of a non-empty category is done, and 0 iff none is done or the category is empty |
| TaskAnalytics.CategoryTotalCounts | src/components/TaskAnalytics.tsx:34-36 | a category's total is the number of tasks naming it |
| TaskAnalytics.OverdueCountMatchesNotifications | src/components/TaskAnalytics.tsx:48-53 | the overdue count equals the number of overdue notifications for the same day |
| TaskAnalytics.OverdueMeansEarlier | src/components/TaskAnalytics.tsx:50-52 | for a `YYYY-MM-DD` due date, a task counts as overdue iff it is open and due on an earlier calendar day |
| TaskAnalytics.Durations | src/components/TaskAnalytics.tsx:59-64 | one `Math.ceil` day count per completed task, from creation to last update |
| TaskAnalytics.TotalDaysBounds | src/components/TaskAnalytics.tsx:59-64 | with every duration in [lo, hi], the sum is a number between lo·n and hi·n |
| TaskAnalytics.TotalDaysNaN | src/components/TaskAnalytics.tsx:59-64 | one unparsable timestamp makes the sum `NaN` |
| TaskAnalytics.NoCompletedIsZero | src/components/TaskAnalytics.tsx:57 | with no completed task the average is 0 |
| TaskAnalytics.AverageWithinBounds | src/components/TaskAnalytics.tsx:55-67 | when every completed task took between lo and hi days, the rounded average lies between lo and hi |
| TaskAnalytics.AverageNaN | src/components/TaskAnalytics.tsx:60-66 | a completed task with an unparsable timestamp makes the average `NaN` |
| TaskAnalytics.MidnightToMidnight | src/components/TaskAnalytics.tsx:60-62 | created and completed at midnights, a task took the number of calendar days in between |
| TaskAnalytics.SingleTaskAverage | src/components/TaskAnalytics.tsx:55-67 | the average over one completed task is that task's duration |
| TaskCalendar.DaysInMonthIsMonthLength | src/components/TaskCalendar.tsx:18-20 | day 0 of the next month is the length of the current month: 28 to 31, with 29 in February iff the year is a leap year |
| TaskCalendar.GetFirstDayOfMonth | src/components/TaskCalendar.tsx:22-24 | the weekday of the first, 0 for Sunday |
| TaskCalendar.ColumnIsWeekday | src/components/TaskCalendar.tsx:47-58 | after the leading blanks, day `d` falls in the column of its own weekday |
| TaskCalendar.TasksForDate | src/components/TaskCalendar.tsx:26-29 | exactly the tasks whose due string is the day's `YYYY-MM-DD` |
| TaskCalendar.TaskOnOneDay | src/components/TaskCalendar.tsx:26-29 | a task is listed on at most one date |
| TaskCalendar.TaskDueInMonthIsListed | src/components/TaskCalendar.tsx:26-57 | a task with a valid due date in the shown month is listed under that day's cell |
| TaskCalendar.DayCellContents | src/components/TaskCalendar.tsx:55-95 | a cell shows the first two tasks due that day; "+n more" appears iff more than two are due; shown plus hidden is all of them; the today highlight means the date is today |
| TaskCalendar.TaskInOneCell | src/components/TaskCalendar.tsx:55-95 | a task appears in at most one cell |
| TaskCalendar.BuildCells | src/components/TaskCalendar.tsx:47-95 | the two loops give the leading blanks followed by one cell per day, each as `DayCellFor` describes |
| TaskCalendar.RenderCells | src/components/TaskCalendar.tsx:47-95 | the first loop pushes exactly `firstDay` blanks and the second the cells of days 1 to `n` in order, nothing else |
| TaskCalendar.NavigateAsWritten | src/components/TaskCalendar.tsx:31-41 | `setMonth(getMonth() ± 1)` with JavaScript's day overflow always yields a valid date |
| TaskCalendar.AsWrittenMonth | src/components/TaskCalendar.tsx:31-41 | the written navigation reaches the target month iff the day exists there, and otherwise lands one month further on |
| TaskCalendar.PrevFromMarch31 | src/components/TaskCalendar.tsx:35 | "prev" from 2024-03-31 lands on 2024-03-02 |
| TaskCalendar.NextFromJanuary31 | src/components/TaskCalendar.tsx:37 | "next" from 2023-01-31 lands on 2023-03-03 |
| TaskCalendar.ShiftMonth | src/components/TaskCalendar.tsx:31-41 | the corrected step lands exactly one month back or on, keeping the day or clamping it to the month's last day |
| TaskCalendar.ShiftAgreesWhenDayFits | src/components/TaskCalendar.tsx:31-41 | when the day exists in the target month, the corrected step and the written one agree |
| TaskCalendar.PrevThenNext | src/components/TaskCalendar.tsx:31-41 | "prev" then "next" returns to the same month |
| TaskCalendar.Calendar.NavigateMonth | src/components/TaskCalendar.tsx:31-41 | the shown date moves by one month as `ShiftMonth` describes and stays valid |
| TaskCard.BadgeFirstMatch | src/components/TaskCard.tsx:20 | no badge iff no category has the task's name; otherwise the label of the first one that does |
| TaskCard.StatusLabels | src/components/TaskCard.tsx:82 | "Pending", "In progress" and "Completed" |
| TaskCard.StatusLabelInjective | src/components/TaskCard.tsx:82 | distinct statuses get distinct labels |
| TaskCard.PriorityLabels | src/components/TaskCard.tsx:90 | "High Priority", "Medium Priority" and "Low Priority" |
| TaskCard.OfferedTransitions | src/components/TaskCard.tsx:128-155 | pending offers in-progress; in-progress offers completed then pending; completed offers nothing |
| TaskCard.TransitionRules | src/components/TaskCard.tsx:128-155 | no button keeps the status; completion is offered only from in-progress; only a completed task has no buttons |
| TaskCard.SuffixCases | src/components/TaskCard.tsx:100-105 | the suffix is " (Overdue)" iff overdue; " (Today)" iff not overdue with 0 days; " (N days left)" for N > 0; empty otherwise |
| TaskCard.TodayOnlyAtDueInstant | src/components/TaskCard.tsx:53-105 | as written, an open task shows " (Today)" only when `now` is exactly its due instant |
| TaskCard.DueTodayShowsOverdue | src/components/TaskCard.tsx:53-54 | as written, an open task due today is shown as overdue for the whole rest of that day |
| TaskCard.DaysUntilDueByDate | src/components/TaskCard.tsx:54 | at any instant of the day `today`, the ceiling of the quotient is the number of calendar days to the due date |
| TaskCard.DueSuffixByDate | src/components/TaskCard.tsx:100-105 | the corrected suffix: " (Overdue)" iff due before today, " (Today)" iff due today, " (N days left)" when due N days ahead |
| TaskCard.OverdueImpliesPassed | src/components/TaskCard.tsx:53 | the corrected test flags no more than the written one, and neither flags a task without a due instant |
| TaskExport.HeaderColumns | src/components/TaskExport.tsx:12-14 | the header line splits back into the seven column names and holds no newline |
| TaskExport.Quote | src/components/TaskExport.tsx:16-17 | the field wrapped in one double quote on each side |
| TaskExport.CsvLines | src/components/TaskExport.tsx:13-24 | when no field holds a newline, the file splits into the header followed by one row per task, in order |
| TaskExport.CsvRowFields | src/components/TaskExport.tsx:15-23 | when no field holds a comma, a row splits back into its seven fields |
| TaskExport.ExportTasks | src/components/TaskExport.tsx:36-43 | one record per task, in order, each carrying its task |
| TaskExport.ExportLabels | src/components/TaskExport.tsx:40 | `categoryLabel` is absent iff no category matches, otherwise the label of the first match |
| TaskExport.ReportCountsAddUp | src/components/TaskExport.tsx:55-83 | the priority counts and the status counts each add up to the total; overdue plus completed is at most the total |
| TaskExport.CategoryLineCounts | src/components/TaskExport.tsx:74-78 | each category line reports completed out of the tasks naming the category, never more than that total |
| TaskExport.RecentCompleted | src/components/TaskExport.tsx:86 | the recent section takes the last min(5, n) of the n completed tasks as a suffix, in collection order, every one of them completed, one line per task |
| TaskExport.ReportShape | src/components/TaskExport.tsx:62-87 | after `trim` the report starts with its title; it ends with the last recent task, or with the recent heading when none is completed |
| Dates.IsoDateOrder | src/components/TaskNotifications.tsx:31 | comparing `YYYY-MM-DD` strings orders dates chronologically |
| Dates.ParseIsoDateOfIsoDate | src/components/TaskCalendar.tsx:27 | a date's `YYYY-MM-DD` string parses back to the date |
| Dates.ParseInstantOfDate | src/components/TaskCard.tsx:53 | `new Date("YYYY-MM-DD")` is that day's UTC midnight |

## Left out

- HTTP, JSON parsing and the `useEffect` scheduling in `src/hooks/useTasks.ts`: each request's outcome is a reply parameter of the store's methods (a body, a non-ok status or a throw).
- `console.error` when fetching categories fails: it is output only.
- Authentication (`src/hooks/useAuth.ts`), `src/App.tsx` and `src/components/Header.tsx` are not part of this model.
- JSX layout, CSS class names and colours, including the calendar chip's `category?.color || '#6B7280'` and the card's priority border: nothing in them is logic.
- Icons and the open/closed state of the notification panel: these are display only.
- The calendar's `monthYear` heading and the card's and report's dates shown via `toLocaleDateString`: locale formatting is a parameter, not modelled.
- Time zones: `toISOString().split('T')[0]` of a local date is taken to be its local calendar date, and the calendar's `isToday` (the same `toDateString`) is equality with `today`.
- Non-ASCII case mapping in `toLowerCase`/`toUpperCase`, and UTF-16 ordering beyond single code units: `Text` covers ASCII.
- Date strings other than `YYYY-MM-DD` and the 24-character `toISOString` form: they parse to `NaN` here, while a browser accepts more forms.
- Floating point: percentages and averages are reals, and `Math.round` is the round-half-up of a real.
- TaskList.SortInPlace: a `NaN` from an unparsable due date in the comparator is not modelled; the order is over the due strings, which agree with `getTime()` on `YYYY-MM-DD` dates (`TaskList.DueCompareAgreesWithDates`).
- The category field `label` is named `labelText`.
- The JSON and text exports are modelled as values; `JSON.stringify` layout, `Blob`, object URLs and the download click are left out.
- The `exportDate` and `categories` members of the JSON export: they are copied through unchanged.
- File names of the downloads: they are not logic.
- TaskCalendar.Calendar.NavigateMonth: the class's `current` date moves by the corrected `ShiftMonth`, not by `setMonth` with day overflow as `src/components/TaskCalendar.tsx:31-41` does; the written step is `NavigateAsWritten`, recorded under Findings.
- TaskNotifications.NotificationCenter.Refresh: the three `forEach` passes are built by the `PushPass` loop method and the state is set from the pure `Build`.
- TaskAnalytics.MidnightToMidnight: stated for timestamps that parse to two midnights, not for their exact strings.
- TaskExport.ReportSummary: the report's overdue count compares instants (`new Date(dueDate) < new Date()`), as written, so a task due today counts once the day's UTC midnight has passed; the analytics count compares date strings instead.
- Lemmas about rendered dates are stated for years 0 to 9999 (`InIsoRange`), where `YYYY-MM-DD` has four year digits.

## Findings

| source | as written | input that shows it | evidently intended | confidence | as-written member | corrected member |
|---|---|---|---|---|---|---|
| src/components/TaskCalendar.tsx:31-41 | `setMonth(getMonth() ± 1)` keeps the day of the month, and JavaScript rolls an overflowing day into the following month | on 2024-03-31 "prev" gives 2024-03-02 (still March); on 2023-01-31 "next" gives 2023-03-03 (skips February) | move exactly one month back or on | not executed | TaskCalendar.NavigateAsWritten (TaskCalendar.PrevFromMarch31, TaskCalendar.NextFromJanuary31, TaskCalendar.AsWrittenMonth) | TaskCalendar.ShiftMonth, used by TaskCalendar.Calendar.NavigateMonth |
| src/components/TaskCard.tsx:53-105 | `isOverdue` compares the due date's UTC midnight with the current instant, so an open task due today counts as overdue once that midnight has passed, and " (Today)" needs `now` to equal the due instant exactly | `dueDate` "2024-05-10", open, `now` at midday on 2024-05-10: shows " (Overdue)" | " (Today)" for a task due today, overdue only from the next day | not executed | TaskCard.DueSuffixAsWritten (TaskCard.DueTodayShowsOverdue, TaskCard.TodayOnlyAtDueInstant) | TaskCard.DueSuffix with TaskCard.IsOverdue (TaskCard.DueSuffixByDate) |
