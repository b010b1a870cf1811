/** The rules of one `TaskCard`: the category badge, the status and
    priority labels, the status buttons it offers, and the due-date
    classification against the current instant `now` (milliseconds since
    the epoch, passed in for `new Date()`). */
module TaskCard {
  import opened Wrappers
  import opened Text
  import opened Dates
  import opened Tasks

  // ---------------------------------------------------------------------
  // Category badge

  /** The label of the badge: the first category named by the task, or no
      badge. */
  function Badge(categories: seq<Category>, t: Task): Option<string>
  {
    match FindCategory(categories, t.category)
    case Some(c) => Some(c.labelText)
    case None => None
  }

  /** A badge is shown exactly when some category carries the task's
      category name, and it is the label of the first such category. */
  lemma BadgeFirstMatch(categories: seq<Category>, t: Task)
    ensures Badge(categories, t).None? <==> forall i :: 0 <= i < |categories| ==> categories[i].name != t.category
    ensures Badge(categories, t).Some? ==>
              exists k :: 0 <= k < |categories| && categories[k].name == t.category &&
                          categories[k].labelText == Badge(categories, t).value &&
                          forall i :: 0 <= i < k ==> categories[i].name != t.category
  {
  }

  // ---------------------------------------------------------------------
  // Labels

  /** `s.charAt(0).toUpperCase() + s.slice(1).replace('-', ' ')`. */
  function HumanLabel(s: string): (r: string)
    ensures |r| == |s|
  {
    if s == [] then "" else [UpperChar(s[0])] + ReplaceFirst(s[1..], '-', ' ')
  }

  /** The text of the status badge. */
  function StatusLabel(s: Status): string
  {
    HumanLabel(StatusName(s))
  }

  /** The three status badges read "Pending", "In progress" and
      "Completed": only the first character is upper-cased and the hyphen
      becomes a space. */
  lemma StatusLabels()
    ensures StatusLabel(Pending) == "Pending"
    ensures StatusLabel(InProgress) == "In progress"
    ensures StatusLabel(Completed) == "Completed"
  {
    PendingLabel();
    InProgressLabel();
    CompletedLabel();
  }

  lemma PendingLabel()
    ensures StatusLabel(Pending) == "Pending"
  {
    var tail := "ending";
    assert StatusName(Pending) == ['p'] + tail;
    PlainLabel('p', tail);
    assert UpperChar('p') == 'P';
    HeadTail("Pending", 'P', tail);
  }

  lemma CompletedLabel()
    ensures StatusLabel(Completed) == "Completed"
  {
    var tail := "ompleted";
    assert StatusName(Completed) == ['c'] + tail;
    PlainLabel('c', tail);
    assert UpperChar('c') == 'C';
    HeadTail("Completed", 'C', tail);
  }

  lemma InProgressLabel()
    ensures StatusLabel(InProgress) == "In progress"
  {
    var tail := "progress";
    var name := StatusName(InProgress);
    HeadTail(name[2..], '-', tail);
    HeadTail(name[1..], 'n', name[2..]);
    HeadTail(name, 'i', name[1..]);
    HyphenLabel('i', 'n', tail);
    assert UpperChar('i') == 'I';
    var shown := "In progress";
    HeadTail(shown[2..], ' ', tail);
    HeadTail(shown[1..], 'n', shown[2..]);
    HeadTail(shown, 'I', shown[1..]);
  }

  lemma HeadTail(x: string, c: char, tail: string)
    requires x != [] && x[0] == c && x[1..] == tail
    ensures x == [c] + tail
  {
    assert x == [x[0]] + x[1..];
  }

  /** A name whose tail has no hyphen is only capitalised. */
  lemma PlainLabel(c: char, tail: string)
    requires '-' !in tail
    ensures HumanLabel([c] + tail) == [UpperChar(c)] + tail
  {
    assert ([c] + tail)[1..] == tail;
  }

  /** A name whose hyphen is its third character gets a space there. */
  lemma HyphenLabel(c: char, d: char, tail: string)
    requires d != '-'
    ensures HumanLabel([c] + ([d] + (['-'] + tail))) == [UpperChar(c)] + ([d] + ([' '] + tail))
  {
    var s := [c] + ([d] + (['-'] + tail));
    assert s[1..] == [d] + (['-'] + tail);
    assert ([d] + (['-'] + tail))[1..] == ['-'] + tail;
    assert (['-'] + tail)[1..] == tail;
    assert ReplaceFirst(['-'] + tail, '-', ' ') == [' '] + tail;
    assert ReplaceFirst([d] + (['-'] + tail), '-', ' ') == [d] + ([' '] + tail);
  }

  /** Distinct statuses get distinct badges. */
  lemma StatusLabelInjective(s: Status, u: Status)
    requires StatusLabel(s) == StatusLabel(u)
    ensures s == u
  {
    StatusLabels();
  }

  /** The text of the priority badge. */
  function PriorityLabel(p: Priority): string
  {
    Capitalize(PriorityName(p)) + " Priority"
  }

  lemma PriorityLabels()
    ensures PriorityLabel(High) == "High Priority"
    ensures PriorityLabel(Medium) == "Medium Priority"
    ensures PriorityLabel(Low) == "Low Priority"
  {
    HighLabel();
    MediumLabel();
    LowLabel();
  }

  lemma HighLabel()
    ensures PriorityLabel(High) == "High Priority"
  {
    assert Capitalize("high") == "High" by {
      assert "high"[1..] == "igh" && UpperChar('h') == 'H';
    }
  }

  lemma MediumLabel()
    ensures PriorityLabel(Medium) == "Medium Priority"
  {
    assert Capitalize("medium") == "Medium" by {
      assert "medium"[1..] == "edium" && UpperChar('m') == 'M';
    }
  }

  lemma LowLabel()
    ensures PriorityLabel(Low) == "Low Priority"
  {
    assert Capitalize("low") == "Low" by {
      assert "low"[1..] == "ow" && UpperChar('l') == 'L';
    }
  }

  // ---------------------------------------------------------------------
  // Status buttons

  datatype Button = StartProgress | MarkComplete | ResetToPending

  /** The status a button sends to `onStatusChange`. */
  function Target(b: Button): Status
  {
    match b
    case StartProgress => InProgress
    case MarkComplete => Completed
    case ResetToPending => Pending
  }

  /** The buttons under a card, left to right: none for a completed task;
      otherwise "Start Progress" when pending, "Mark Complete" when in
      progress, and "Reset to Pending" when not pending. */
  function OfferedButtons(s: Status): seq<Button>
  {
    if s == Completed then []
    else (if s == Pending then [StartProgress] else []) +
         (if s == InProgress then [MarkComplete] else []) +
         (if s != Pending then [ResetToPending] else [])
  }

  /** The statuses a card lets the user move to. */
  function OfferedTargets(s: Status): (r: seq<Status>)
    ensures |r| == |OfferedButtons(s)|
    ensures forall i :: 0 <= i < |r| ==> r[i] == Target(OfferedButtons(s)[i])
  {
    var bs := OfferedButtons(s);
    seq(|bs|, i requires 0 <= i < |bs| => Target(bs[i]))
  }

  /** pending goes only to in-progress, in-progress goes to completed or
      back to pending, and a completed task offers nothing. */
  lemma OfferedTransitions()
    ensures OfferedTargets(Pending) == [InProgress]
    ensures OfferedTargets(InProgress) == [Completed, Pending]
    ensures OfferedTargets(Completed) == []
  {
  }

  /** A card never offers its own status, completion is offered only from
      in-progress, and a pending task can never be completed in one
      step. */
  lemma TransitionRules(s: Status, u: Status)
    ensures u in OfferedTargets(s) ==> u != s
    ensures Completed in OfferedTargets(s) <==> s == InProgress
    ensures s == Pending ==> Completed !in OfferedTargets(s)
    ensures OfferedTargets(s) == [] <==> s == Completed
  {
    OfferedTransitions();
  }

  // ---------------------------------------------------------------------
  // Due date

  /** `new Date(task.dueDate) < new Date() && task.status !== 'completed'`:
      the due instant has passed and the task is open. An unparsable due
      date (NaN) never compares as earlier. */
  predicate DueInstantPassed(t: Task, now: int)
  {
    t.status != Completed && ParseInstant(t.dueDate).Some? && ParseInstant(t.dueDate).value < now
  }

  /** `daysUntilDue`: whole days to the due instant, rounded up; `None` for
      NaN. */
  function DaysUntilDue(t: Task, now: int): Option<int>
  {
    match ParseInstant(t.dueDate)
    case Some(due) => Some(CeilDiv(due - now, MsPerDay))
    case None => None
  }

  /** The suffix after the due date for a given overdue flag. */
  function Suffix(overdue: bool, days: Option<int>): string
  {
    if overdue then " (Overdue)"
    else if days.Some? && days.value >= 0 then
      (if days.value == 0 then " (Today)" else " (" + IntToString(days.value) + " days left)")
    else ""
  }

  /** The four outcomes of the suffix. */
  lemma SuffixCases(overdue: bool, days: Option<int>)
    ensures Suffix(overdue, days) == " (Overdue)" <==> overdue
    ensures Suffix(overdue, days) == " (Today)" <==> !overdue && days == Some(0)
    ensures !overdue && days.Some? && days.value > 0 ==>
              Suffix(overdue, days) == " (" + IntToString(days.value) + " days left)"
    ensures Suffix(overdue, days) == "" <==> !overdue && (days.None? || days.value < 0)
  {
    if !overdue && days.Some? && days.value > 0 {
      var r := " (" + IntToString(days.value) + " days left)";
      assert r[1] == '(' && r[2] != '-';
      assert r != " (Overdue)" && r != " (Today)" by {
        assert " (Overdue)"[2] == 'O' && " (Today)"[2] == 'T';
        assert '0' <= r[2] <= '9';
      }
    }
  }

  /** The suffix as written: `isOverdue` compares the due instant with now. */
  function DueSuffixAsWritten(t: Task, now: int): string
  {
    Suffix(DueInstantPassed(t, now), DaysUntilDue(t, now))
  }

  /** As written, an open task shows " (Today)" only at the very instant it
      is due: any later instant of its due day already makes it overdue. */
  lemma TodayOnlyAtDueInstant(t: Task, now: int)
    requires t.status != Completed
    requires DueSuffixAsWritten(t, now) == " (Today)"
    ensures ParseInstant(t.dueDate) == Some(now)
  {
    SuffixCases(DueInstantPassed(t, now), DaysUntilDue(t, now));
  }

  /** As written, an open task due on `today` (a `YYYY-MM-DD` string read as
      midnight UTC) shows " (Overdue)" at every later instant of that day. */
  lemma DueTodayShowsOverdue(t: Task, today: Date, now: int)
    requires t.status != Completed && ParseIsoDate(t.dueDate) == Some(today)
    requires MidnightMs(today) < now < MidnightMs(today) + MsPerDay
    ensures DueSuffixAsWritten(t, now) == " (Overdue)"
  {
    ParseInstantOfDate(t.dueDate);
  }

  /** The intended overdue test: an open task whose due day lies wholly in
      the past, that is, fewer than zero days are left. */
  predicate IsOverdue(t: Task, now: int)
  {
    t.status != Completed && DaysUntilDue(t, now).Some? && DaysUntilDue(t, now).value < 0
  }

  /** The suffix with the intended overdue test. */
  function DueSuffix(t: Task, now: int): string
  {
    Suffix(IsOverdue(t, now), DaysUntilDue(t, now))
  }

  /** `CeilDiv` of a whole number of days minus part of a day. */
  lemma CeilDivLessThanDay(k: int, off: int)
    requires 0 <= off < MsPerDay
    ensures CeilDiv(k * MsPerDay - off, MsPerDay) == k
  {
    var b := MsPerDay;
    var r := CeilDiv(k * b - off, b);
    assert (r - 1 - k) * b < 0 by {
      assert (r - 1 - k) * b == (r - 1) * b - k * b;
    }
    assert (k - 1 - r) * b < 0 by {
      assert (k - 1 - r) * b == (k * b - off) - r * b - b + off;
    }
    assert r - 1 - k < 0 && k - 1 - r < 0;
  }

  /** With a `YYYY-MM-DD` due date and `now` during day `today`, the days
      left are the calendar days between the two dates. */
  lemma DaysUntilDueByDate(t: Task, today: Date, now: int)
    requires ParseIsoDate(t.dueDate).Some? && ValidDate(today)
    requires MidnightMs(today) <= now < MidnightMs(today) + MsPerDay
    ensures DaysUntilDue(t, now) == Some(DayNumber(ParseIsoDate(t.dueDate).value) - DayNumber(today))
  {
    var due := ParseIsoDate(t.dueDate).value;
    var k := DayNumber(due) - DayNumber(today);
    ParseInstantOfDate(t.dueDate);
    assert MidnightMs(due) - now == k * MsPerDay - (now - MidnightMs(today)) by {
      MidnightDays(today, due);
    }
    CeilDivLessThanDay(k, now - MidnightMs(today));
  }

  /** With the intended test, an open task with a `YYYY-MM-DD` due date is
      labelled by calendar days: overdue when due before today, "(Today)"
      when due today, and "(N days left)" when due N days ahead. */
  lemma DueSuffixByDate(t: Task, today: Date, now: int)
    requires t.status != Completed
    requires ParseIsoDate(t.dueDate).Some? && ValidDate(today)
    requires MidnightMs(today) <= now < MidnightMs(today) + MsPerDay
    ensures var n := DayNumber(ParseIsoDate(t.dueDate).value) - DayNumber(today);
            && (DueSuffix(t, now) == " (Overdue)" <==> n < 0)
            && (DueSuffix(t, now) == " (Today)" <==> ParseIsoDate(t.dueDate).value == today)
            && (n > 0 ==> DueSuffix(t, now) == " (" + IntToString(n) + " days left)")
  {
    var due := ParseIsoDate(t.dueDate).value;
    DaysUntilDueByDate(t, today, now);
    SuffixCases(IsOverdue(t, now), DaysUntilDue(t, now));
    IsoDateOfParseIsoDate(t.dueDate);
    if DayNumber(due) == DayNumber(today) {
      DayNumberInjective(due, today);
    }
  }

  /** The two tests agree on a task with no due instant or one that has not
      come yet, and the intended one never flags more than the written
      one. */
  lemma OverdueImpliesPassed(t: Task, now: int)
    ensures IsOverdue(t, now) ==> DueInstantPassed(t, now)
    ensures ParseInstant(t.dueDate).None? ==> !IsOverdue(t, now) && !DueInstantPassed(t, now)
  {
  }
}
