/** The contents `TaskExport` writes: the CSV text, the task records of the
    JSON backup with their category labels, and the plain-text report with
    its counts, category lines and recently completed tasks.
    `toLocaleDateString` is a parameter `localeDate` that receives the
    parsed instant (`None` for NaN). */
module TaskExport {
  import opened Wrappers
  import opened Seqs
  import opened Text
  import opened Dates
  import opened Tasks
  import opened TaskAnalytics
  import opened TaskCard

  // ---------------------------------------------------------------------
  // CSV

  const CsvHeaders: seq<string> := ["Title", "Description", "Category", "Priority", "Status", "Due Date", "Created At"]

  /** `headers.join(',')`. */
  function HeaderLine(): string
  {
    Join(CsvHeaders, ',')
  }

  /** The header line has the seven column names and nothing else. */
  lemma HeaderColumns()
    ensures Split(HeaderLine(), ',') == CsvHeaders
    ensures '\n' !in HeaderLine()
  {
    assert forall i :: 0 <= i < |CsvHeaders| ==> ',' !in CsvHeaders[i] && '\n' !in CsvHeaders[i];
    SplitJoin(CsvHeaders, ',');
    JoinExcludes(CsvHeaders, ',', '\n');
  }

  /** A field wrapped in double quotes, with no escaping. */
  function Quote(s: string): (r: string)
    ensures |r| == |s| + 2 && r[0] == '"' && r[|r| - 1] == '"' && r[1..|r| - 1] == s
  {
    "\"" + s + "\""
  }

  /** The seven fields of a task's row. */
  function CsvFields(t: Task, localeDate: Option<int> -> string): seq<string>
  {
    [Quote(t.title), Quote(t.description), t.category, PriorityName(t.priority), StatusName(t.status),
     t.dueDate, localeDate(ParseInstant(t.createdAt))]
  }

  function CsvRow(t: Task, localeDate: Option<int> -> string): string
  {
    Join(CsvFields(t, localeDate), ',')
  }

  function CsvRows(tasks: seq<Task>, localeDate: Option<int> -> string): (r: seq<string>)
    ensures |r| == |tasks|
    ensures forall i :: 0 <= i < |tasks| ==> r[i] == CsvRow(tasks[i], localeDate)
  {
    seq(|tasks|, i requires 0 <= i < |tasks| => CsvRow(tasks[i], localeDate))
  }

  /** `csvContent`: the header line, then one row per task, joined by line
      breaks. */
  function CsvContent(tasks: seq<Task>, localeDate: Option<int> -> string): string
  {
    Join([HeaderLine()] + CsvRows(tasks, localeDate), '\n')
  }

  /** None of the values written into a row holds `c`. */
  predicate FieldsAvoid(t: Task, localeDate: Option<int> -> string, c: char)
  {
    c !in t.title && c !in t.description && c !in t.category && c !in t.dueDate &&
    c !in localeDate(ParseInstant(t.createdAt))
  }

  lemma QuoteAvoids(s: string, c: char)
    requires c != '"' && c !in s
    ensures c !in Quote(s)
  {
  }

  lemma NamesAvoid(t: Task, c: char)
    requires c == ',' || c == '\n'
    ensures c !in PriorityName(t.priority) && c !in StatusName(t.status)
  {
  }

  /** A comma or line break kept out of the values is kept out of every
      field. */
  lemma FieldsAvoidRow(t: Task, localeDate: Option<int> -> string, c: char)
    requires (c == ',' || c == '\n') && FieldsAvoid(t, localeDate, c)
    ensures forall i :: 0 <= i < |CsvFields(t, localeDate)| ==> c !in CsvFields(t, localeDate)[i]
  {
    var fs := CsvFields(t, localeDate);
    QuoteAvoids(t.title, c);
    QuoteAvoids(t.description, c);
    NamesAvoid(t, c);
    assert c !in fs[0] && c !in fs[1] && c !in fs[2] && c !in fs[3] && c !in fs[4] && c !in fs[5] && c !in fs[6];
  }

  /** When no value holds a line break, the CSV text splits back into the
      header line followed by the task rows in task order: `1 + |tasks|`
      lines and no trailing line break. */
  lemma CsvLines(tasks: seq<Task>, localeDate: Option<int> -> string)
    requires forall i :: 0 <= i < |tasks| ==> FieldsAvoid(tasks[i], localeDate, '\n')
    ensures Split(CsvContent(tasks, localeDate), '\n') == [HeaderLine()] + CsvRows(tasks, localeDate)
    ensures |Split(CsvContent(tasks, localeDate), '\n')| == 1 + |tasks|
  {
    var lines := [HeaderLine()] + CsvRows(tasks, localeDate);
    HeaderColumns();
    forall i | 0 <= i < |tasks|
      ensures '\n' !in CsvRows(tasks, localeDate)[i]
    {
      FieldsAvoidRow(tasks[i], localeDate, '\n');
      JoinExcludes(CsvFields(tasks[i], localeDate), ',', '\n');
    }
    assert forall i :: 0 <= i < |lines| ==> '\n' !in lines[i] by {
      forall i | 0 <= i < |lines|
        ensures '\n' !in lines[i]
      {
        if i > 0 {
          assert lines[i] == CsvRows(tasks, localeDate)[i - 1];
        }
      }
    }
    SplitJoin(lines, '\n');
  }

  /** When no value holds a comma, a row splits back into its seven fields:
      the quoted title and description, then category, priority, status,
      due date and the creation date. */
  lemma CsvRowFields(t: Task, localeDate: Option<int> -> string)
    requires FieldsAvoid(t, localeDate, ',')
    ensures Split(CsvRow(t, localeDate), ',') == CsvFields(t, localeDate)
    ensures |CsvFields(t, localeDate)| == 7
  {
    FieldsAvoidRow(t, localeDate, ',');
    SplitJoin(CsvFields(t, localeDate), ',');
  }

  // ---------------------------------------------------------------------
  // JSON backup

  /** `{...task, categoryLabel}`. */
  datatype ExportedTask = ExportedTask(task: Task, categoryLabel: Option<string>)

  /** The `tasks` member of the backup. */
  function ExportTasks(tasks: seq<Task>, categories: seq<Category>): (r: seq<ExportedTask>)
    ensures |r| == |tasks|
    ensures forall i :: 0 <= i < |tasks| ==> r[i].task == tasks[i]
  {
    seq(|tasks|, i requires 0 <= i < |tasks| => ExportedTask(tasks[i], Badge(categories, tasks[i])))
  }

  /** Every exported task keeps its record and position; its label is that
      of the first category with a matching name, and absent when none
      matches. */
  lemma ExportLabels(tasks: seq<Task>, categories: seq<Category>, i: nat)
    requires i < |tasks|
    ensures var e := ExportTasks(tasks, categories)[i];
            && e.task == tasks[i]
            && (e.categoryLabel.None? <==> forall j :: 0 <= j < |categories| ==> categories[j].name != tasks[i].category)
            && (e.categoryLabel.Some? ==>
                  exists k :: 0 <= k < |categories| && categories[k].name == tasks[i].category &&
                              categories[k].labelText == e.categoryLabel.value &&
                              forall j :: 0 <= j < k ==> categories[j].name != tasks[i].category)
  {
    BadgeFirstMatch(categories, tasks[i]);
  }

  // ---------------------------------------------------------------------
  // Report

  predicate IsHigh(t: Task) { t.priority == High }
  predicate IsMedium(t: Task) { t.priority == Medium }
  predicate IsLow(t: Task) { t.priority == Low }

  /** The numbers of the SUMMARY and PRIORITY BREAKDOWN sections. */
  datatype Summary = Summary(total: nat, completed: nat, inProgress: nat, pending: nat, overdue: nat,
                             high: nat, medium: nat, low: nat)

  function ReportSummary(tasks: seq<Task>, now: int): Summary
  {
    var stats := ComputeStats(tasks);
    Summary(|tasks|, stats.completed, stats.inProgress, stats.pending,
            Count(tasks, (t: Task) => DueInstantPassed(t, now)),
            Count(tasks, IsHigh), Count(tasks, IsMedium), Count(tasks, IsLow))
  }

  lemma {:induction false} CountFalse(tasks: seq<Task>)
    ensures Count(tasks, (t: Task) => false) == 0
  {
    if tasks != [] {
      CountFalse(tasks[1..]);
    }
  }

  /** The priority counts add up to the total, so do the status counts, and
      the overdue tasks are among the unfinished ones. */
  lemma ReportCountsAddUp(tasks: seq<Task>, now: int)
    ensures var s := ReportSummary(tasks, now);
            && s.high + s.medium + s.low == s.total
            && s.completed + s.inProgress + s.pending == s.total
            && s.overdue + s.completed <= s.total
  {
    CountPartition3(tasks, IsHigh, IsMedium, IsLow);
    var open := (t: Task) => t.status != Completed;
    CountPartition3(tasks, IsCompleted, open, (t: Task) => false);
    CountFalse(tasks);
    CountMonotone(tasks, (t: Task) => DueInstantPassed(t, now), open);
  }

  /** `- label: completed/total completed`. */
  function CategoryLine(tasks: seq<Task>, c: Category): string
  {
    var st := StatFor(tasks, c);
    "- " + c.labelText + ": " + IntToString(st.completed) + "/" + IntToString(st.total) + " completed"
  }

  function CategoryLines(tasks: seq<Task>, categories: seq<Category>): (r: seq<string>)
    ensures |r| == |categories|
    ensures forall i :: 0 <= i < |categories| ==> r[i] == CategoryLine(tasks, categories[i])
  {
    seq(|categories|, i requires 0 <= i < |categories| => CategoryLine(tasks, categories[i]))
  }

  /** A category line reports, for the category's label, how many of the
      tasks naming it are completed out of how many name it. */
  lemma CategoryLineCounts(tasks: seq<Task>, c: Category)
    ensures var n := Count(tasks, (t: Task) => t.category == c.name);
            var k := Count(InCategory(tasks, c.name), IsCompleted);
            && k <= n
            && CategoryLine(tasks, c) == "- " + c.labelText + ": " + IntToString(k) + "/" + IntToString(n) + " completed"
  {
    CategoryTotalCounts(tasks, c.name);
    CategoryStatBounds(tasks, c);
  }

  /** `- title (date)` for a completed task. */
  function RecentLine(t: Task, localeDate: Option<int> -> string): (r: string)
    ensures r != [] && r[|r| - 1] == ')'
  {
    "- " + t.title + " (" + localeDate(ParseInstant(t.updatedAt)) + ")"
  }

  /** `completedTasks.slice(-5).map(...)`. */
  function RecentLines(tasks: seq<Task>, localeDate: Option<int> -> string): (r: seq<string>)
  {
    var recent := LastN(CompletedTasks(tasks), 5);
    seq(|recent|, i requires 0 <= i < |recent| => RecentLine(recent[i], localeDate))
  }

  /** The recent section lists the last `min(5, n)` of the `n` completed
      tasks, in collection order, one line per task. */
  lemma RecentCompleted(tasks: seq<Task>, localeDate: Option<int> -> string)
    ensures var c := CompletedTasks(tasks);
            var recent := LastN(c, 5);
            var r := RecentLines(tasks, localeDate);
            && |recent| == (if |c| < 5 then |c| else 5)
            && recent == c[|c| - |recent|..]
            && (forall t :: t in recent ==> t.status == Completed)
            && |r| == |recent|
            && forall i :: 0 <= i < |r| ==> r[i] == RecentLine(recent[i], localeDate)
  {
    var c := CompletedTasks(tasks);
    var recent := LastN(c, 5);
    forall t | t in recent
      ensures t.status == Completed
    {
      SuffixMember(c, |c| - |recent|, t);
      assert IsCompleted(t);
    }
  }

  /** The fixed text between the title line and the recent section. */
  function ReportMiddle(s: Summary, generatedOn: string, categoryLines: seq<string>): string
  {
    "Generated on: " + generatedOn + "\n\nSUMMARY:\n- Total Tasks: " + IntToString(s.total) +
    "\n- Completed: " + IntToString(s.completed) + "\n- In Progress: " + IntToString(s.inProgress) +
    "\n- Pending: " + IntToString(s.pending) + "\n- Overdue: " + IntToString(s.overdue) +
    "\n\nCATEGORY BREAKDOWN:\n" + Join(categoryLines, '\n') +
    "\n\nPRIORITY BREAKDOWN:\n- High Priority: " + IntToString(s.high) +
    "\n- Medium Priority: " + IntToString(s.medium) + "\n- Low Priority: " + IntToString(s.low) + "\n\n"
  }

  /** From the title line to the heading of the recent section. */
  function ReportCore(s: Summary, generatedOn: string, categoryLines: seq<string>): string
  {
    "TASK MANAGEMENT REPORT\n" + ReportMiddle(s, generatedOn, categoryLines) + "RECENT COMPLETED TASKS:"
  }

  /** The template literal before `.trim()`. */
  function RawReport(s: Summary, generatedOn: string, categoryLines: seq<string>, recent: seq<string>): string
  {
    "\n" + ReportCore(s, generatedOn, categoryLines) + "\n" + Join(recent, '\n') + "\n    "
  }

  /** `generateReport`'s text. */
  function Report(tasks: seq<Task>, categories: seq<Category>, now: int, generatedOn: string,
                  localeDate: Option<int> -> string): string
  {
    Trim(RawReport(ReportSummary(tasks, now), generatedOn, CategoryLines(tasks, categories),
                   RecentLines(tasks, localeDate)))
  }

  /** Trimming removes only the template's framing: the report starts with
      its title line and ends with the last recent task, or with the recent
      heading when no task is completed. */
  lemma ReportShape(tasks: seq<Task>, categories: seq<Category>, now: int, generatedOn: string,
                    localeDate: Option<int> -> string)
    ensures var core := ReportCore(ReportSummary(tasks, now), generatedOn, CategoryLines(tasks, categories));
            var recent := RecentLines(tasks, localeDate);
            Report(tasks, categories, now, generatedOn, localeDate) ==
              core + (if recent == [] then "" else "\n" + Join(recent, '\n'))
  {
    var recent := RecentLines(tasks, localeDate);
    assert forall i :: 0 <= i < |recent| ==> recent[i] != [] && recent[i][|recent[i]| - 1] == ')';
    RawReportTrim(ReportSummary(tasks, now), generatedOn, CategoryLines(tasks, categories), recent);
  }

  lemma RawReportTrim(s: Summary, generatedOn: string, categoryLines: seq<string>, recent: seq<string>)
    requires forall i :: 0 <= i < |recent| ==> recent[i] != [] && recent[i][|recent[i]| - 1] == ')'
    ensures Trim(RawReport(s, generatedOn, categoryLines, recent)) ==
            ReportCore(s, generatedOn, categoryLines) + (if recent == [] then "" else "\n" + Join(recent, '\n'))
  {
    var core := ReportCore(s, generatedOn, categoryLines);
    assert core != [] && core[0] == 'T' && core[|core| - 1] == ':' by {
      ReportCoreEnds(s, generatedOn, categoryLines);
    }
    TrimEnclosed(core, recent);
  }

  lemma ReportCoreEnds(s: Summary, generatedOn: string, categoryLines: seq<string>)
    ensures var core := ReportCore(s, generatedOn, categoryLines);
            core != [] && core[0] == 'T' && core[|core| - 1] == ':'
  {
    var m := ReportMiddle(s, generatedOn, categoryLines);
    var a, b := "TASK MANAGEMENT REPORT\n", "RECENT COMPLETED TASKS:";
    assert ReportCore(s, generatedOn, categoryLines) == a + m + b;
    assert (a + m + b)[0] == a[0];
    assert (a + m + b)[|a + m + b| - 1] == b[|b| - 1];
  }

  /** The trim of the report template around a core that starts and ends
      with visible characters and recent lines that end with `)`. */
  lemma TrimEnclosed(core: string, recent: seq<string>)
    requires core != [] && !IsSpace(core[0]) && !IsSpace(core[|core| - 1])
    requires forall i :: 0 <= i < |recent| ==> recent[i] != [] && recent[i][|recent[i]| - 1] == ')'
    ensures Trim("\n" + core + "\n" + Join(recent, '\n') + "\n    ") ==
            core + (if recent == [] then "" else "\n" + Join(recent, '\n'))
  {
    if recent == [] {
      TrimEnclosedNoLines(core);
    } else {
      TrimEnclosedLines(core, Join(recent, '\n')) by {
        JoinEndsWithLast(recent, '\n');
      }
    }
  }

  lemma TrimEnclosedNoLines(core: string)
    requires core != [] && !IsSpace(core[0]) && !IsSpace(core[|core| - 1])
    ensures Trim("\n" + core + "\n" + "" + "\n    ") == core
  {
    var tail := "\n\n    ";
    assert "\n" + core + "\n" + "" + "\n    " == "\n" + core + tail;
    assert forall i :: 0 <= i < |tail| ==> IsSpace(tail[i]);
    TrimFramed(core, tail);
  }

  lemma TrimEnclosedLines(core: string, lines: string)
    requires core != [] && !IsSpace(core[0]) && !IsSpace(core[|core| - 1])
    requires lines != [] && lines[|lines| - 1] == ')'
    ensures Trim("\n" + core + "\n" + lines + "\n    ") == core + "\n" + lines
  {
    var body := core + "\n" + lines;
    var tail := "\n    ";
    assert body[|body| - 1] == ')';
    assert "\n" + core + "\n" + lines + "\n    " == "\n" + body + tail;
    assert forall i :: 0 <= i < |tail| ==> IsSpace(tail[i]);
    TrimFramed(body, tail);
  }
}
