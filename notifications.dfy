/** The notification bell: three passes over the tasks collect the overdue,
    the due-today and the due-tomorrow ones, in that order, and a dismissal
    drops the entries with a given id. */
module TaskNotifications {
  import opened Seqs
  import opened Text
  import opened Dates
  import opened Tasks

  datatype NotificationType = Overdue | DueToday | DueSoon

  datatype Notification = Notification(id: string, kind: NotificationType, task: Task, message: string)

  function TypeName(k: NotificationType): string
  {
    match k
    case Overdue => "overdue"
    case DueToday => "due-today"
    case DueSoon => "due-soon"
  }

  /** `${type}-${task.id}`. */
  function NotificationId(k: NotificationType, t: Task): string
  {
    TypeName(k) + "-" + IntToString(t.id)
  }

  function Message(k: NotificationType, t: Task): string
  {
    match k
    case Overdue => "Task \"" + t.title + "\" is overdue"
    case DueToday => "Task \"" + t.title + "\" is due today"
    case DueSoon => "Task \"" + t.title + "\" is due tomorrow"
  }

  /** The ids and messages spelled out: `overdue-7`, `Task "Pay rent" is
      overdue` and so on. */
  lemma Templates(t: Task)
    ensures NotificationId(Overdue, t) == "overdue-" + IntToString(t.id)
    ensures NotificationId(DueToday, t) == "due-today-" + IntToString(t.id)
    ensures NotificationId(DueSoon, t) == "due-soon-" + IntToString(t.id)
    ensures Message(Overdue, t) == "Task \"" + t.title + "\" is overdue"
    ensures Message(DueToday, t) == "Task \"" + t.title + "\" is due today"
    ensures Message(DueSoon, t) == "Task \"" + t.title + "\" is due tomorrow"
  {
  }

  function MakeNotification(k: NotificationType, t: Task): Notification
  {
    Notification(NotificationId(k, t), k, t, Message(k, t))
  }

  /** The test of the pass for `k`, against the ISO strings of today and
      tomorrow. */
  predicate Qualifies(k: NotificationType, t: Task, todayStr: string, tomorrowStr: string)
  {
    t.status != Completed &&
    match k
    case Overdue => LexLess(t.dueDate, todayStr)
    case DueToday => t.dueDate == todayStr
    case DueSoon => t.dueDate == tomorrowStr
  }

  /** What one `forEach` pass pushes. */
  function Pass(tasks: seq<Task>, k: NotificationType, todayStr: string, tomorrowStr: string): (r: seq<Notification>)
    ensures |r| <= |tasks|
  {
    if tasks == [] then []
    else
      var last := tasks[|tasks| - 1];
      Pass(tasks[..|tasks| - 1], k, todayStr, tomorrowStr) +
      (if Qualifies(k, last, todayStr, tomorrowStr) then [MakeNotification(k, last)] else [])
  }

  /** A pass reports only tasks that pass its test, each with the id and
      message of its kind, and it reports every such task. */
  lemma {:induction false} PassMembers(tasks: seq<Task>, k: NotificationType, todayStr: string, tomorrowStr: string)
    ensures forall i :: 0 <= i < |Pass(tasks, k, todayStr, tomorrowStr)| ==>
              var n := Pass(tasks, k, todayStr, tomorrowStr)[i];
              n.kind == k && n == MakeNotification(k, n.task) &&
              n.task in tasks && Qualifies(k, n.task, todayStr, tomorrowStr)
    ensures forall i :: 0 <= i < |tasks| && Qualifies(k, tasks[i], todayStr, tomorrowStr) ==>
              MakeNotification(k, tasks[i]) in Pass(tasks, k, todayStr, tomorrowStr)
  {
    PassSound(tasks, k, todayStr, tomorrowStr);
    PassComplete(tasks, k, todayStr, tomorrowStr);
  }

  lemma {:induction false} PassSound(tasks: seq<Task>, k: NotificationType, todayStr: string, tomorrowStr: string)
    ensures forall i :: 0 <= i < |Pass(tasks, k, todayStr, tomorrowStr)| ==>
              var n := Pass(tasks, k, todayStr, tomorrowStr)[i];
              n.kind == k && n == MakeNotification(k, n.task) &&
              n.task in tasks && Qualifies(k, n.task, todayStr, tomorrowStr)
  {
    if tasks != [] {
      var init, last := tasks[..|tasks| - 1], tasks[|tasks| - 1];
      PassSound(init, k, todayStr, tomorrowStr);
      var p := Pass(init, k, todayStr, tomorrowStr);
      var e: seq<Notification> := if Qualifies(k, last, todayStr, tomorrowStr) then [MakeNotification(k, last)] else [];
      assert Pass(tasks, k, todayStr, tomorrowStr) == p + e;
      forall i | 0 <= i < |p + e|
        ensures (p + e)[i].kind == k && (p + e)[i] == MakeNotification(k, (p + e)[i].task) &&
                (p + e)[i].task in tasks && Qualifies(k, (p + e)[i].task, todayStr, tomorrowStr)
      {
        if i < |p| {
          assert (p + e)[i] == p[i];
          assert p[i].task in init;
        } else {
          assert (p + e)[i] == MakeNotification(k, last);
        }
      }
    }
  }

  lemma {:induction false} PassComplete(tasks: seq<Task>, k: NotificationType, todayStr: string, tomorrowStr: string)
    ensures forall i :: 0 <= i < |tasks| && Qualifies(k, tasks[i], todayStr, tomorrowStr) ==>
              MakeNotification(k, tasks[i]) in Pass(tasks, k, todayStr, tomorrowStr)
  {
    if tasks != [] {
      PassComplete(tasks[..|tasks| - 1], k, todayStr, tomorrowStr);
      PassCompleteStep(tasks, k, todayStr, tomorrowStr);
    }
  }

  lemma PassCompleteStep(tasks: seq<Task>, k: NotificationType, todayStr: string, tomorrowStr: string)
    requires tasks != []
    requires var init := tasks[..|tasks| - 1];
             forall i :: 0 <= i < |init| && Qualifies(k, init[i], todayStr, tomorrowStr) ==>
               MakeNotification(k, init[i]) in Pass(init, k, todayStr, tomorrowStr)
    ensures forall i :: 0 <= i < |tasks| && Qualifies(k, tasks[i], todayStr, tomorrowStr) ==>
              MakeNotification(k, tasks[i]) in Pass(tasks, k, todayStr, tomorrowStr)
  {
    var init := tasks[..|tasks| - 1];
    forall i | 0 <= i < |tasks| && Qualifies(k, tasks[i], todayStr, tomorrowStr)
      ensures MakeNotification(k, tasks[i]) in Pass(tasks, k, todayStr, tomorrowStr)
    {
      if i < |init| {
        assert tasks[i] == init[i];
        PassKeeps(tasks, k, todayStr, tomorrowStr, MakeNotification(k, init[i]));
      } else {
        PassTakesLast(tasks, k, todayStr, tomorrowStr);
      }
    }
  }

  /** What the pass over all but the last task reports, the whole pass reports. */
  lemma PassKeeps(tasks: seq<Task>, k: NotificationType, todayStr: string, tomorrowStr: string, x: Notification)
    requires tasks != [] && x in Pass(tasks[..|tasks| - 1], k, todayStr, tomorrowStr)
    ensures x in Pass(tasks, k, todayStr, tomorrowStr)
  {
  }

  /** A qualifying last task is reported by the pass. */
  lemma PassTakesLast(tasks: seq<Task>, k: NotificationType, todayStr: string, tomorrowStr: string)
    requires tasks != [] && Qualifies(k, tasks[|tasks| - 1], todayStr, tomorrowStr)
    ensures MakeNotification(k, tasks[|tasks| - 1]) in Pass(tasks, k, todayStr, tomorrowStr)
  {
    var p := Pass(tasks[..|tasks| - 1], k, todayStr, tomorrowStr);
    assert Pass(tasks, k, todayStr, tomorrowStr) == p + [MakeNotification(k, tasks[|tasks| - 1])];
  }

  /** A pass visits the tasks in order: over a concatenation it is the pass
      over the first part followed by the pass over the second. */
  lemma {:induction false} PassAppend(a: seq<Task>, b: seq<Task>, k: NotificationType, todayStr: string, tomorrowStr: string)
    ensures Pass(a + b, k, todayStr, tomorrowStr) == Pass(a, k, todayStr, tomorrowStr) + Pass(b, k, todayStr, tomorrowStr)
    decreases |b|
  {
    if b == [] {
      assert a + b == a;
    } else {
      assert (a + b)[..|a + b| - 1] == a + b[..|b| - 1];
      PassAppend(a, b[..|b| - 1], k, todayStr, tomorrowStr);
    }
  }

  lemma PassStep(tasks: seq<Task>, i: nat, k: NotificationType, todayStr: string, tomorrowStr: string)
    requires i < |tasks|
    ensures Pass(tasks[..i + 1], k, todayStr, tomorrowStr) ==
              Pass(tasks[..i], k, todayStr, tomorrowStr) +
              (if Qualifies(k, tasks[i], todayStr, tomorrowStr) then [MakeNotification(k, tasks[i])] else [])
  {
    assert tasks[..i + 1][..i] == tasks[..i];
  }

  /** The three passes, one after the other. */
  function Passes(tasks: seq<Task>, todayStr: string, tomorrowStr: string): seq<Notification>
  {
    Pass(tasks, Overdue, todayStr, tomorrowStr) +
    Pass(tasks, DueToday, todayStr, tomorrowStr) +
    Pass(tasks, DueSoon, todayStr, tomorrowStr)
  }

  /** The notifications for `tasks` when the current date is `today`. */
  function Build(tasks: seq<Task>, today: Date): seq<Notification>
    requires ValidDate(today)
  {
    Passes(tasks, IsoDate(today), IsoDate(NextDay(today)))
  }

  function KindRank(k: NotificationType): nat
  {
    match k
    case Overdue => 0
    case DueToday => 1
    case DueSoon => 2
  }

  /** Entry `i` comes from the pass its position falls in. */
  lemma PassesEntry(tasks: seq<Task>, todayStr: string, tomorrowStr: string, i: nat)
    requires i < |Passes(tasks, todayStr, tomorrowStr)|
    ensures var n := Passes(tasks, todayStr, tomorrowStr)[i];
            var o, t := |Pass(tasks, Overdue, todayStr, tomorrowStr)|, |Pass(tasks, DueToday, todayStr, tomorrowStr)|;
            && n.task in tasks && Qualifies(n.kind, n.task, todayStr, tomorrowStr)
            && n == MakeNotification(n.kind, n.task)
            && KindRank(n.kind) == (if i < o then 0 else if i < o + t then 1 else 2)
  {
    var o, t, s := Pass(tasks, Overdue, todayStr, tomorrowStr), Pass(tasks, DueToday, todayStr, tomorrowStr),
                   Pass(tasks, DueSoon, todayStr, tomorrowStr);
    var b := Passes(tasks, todayStr, tomorrowStr);
    if i < |o| {
      PassMembers(tasks, Overdue, todayStr, tomorrowStr);
      assert b[i] == o[i];
    } else if i < |o| + |t| {
      PassMembers(tasks, DueToday, todayStr, tomorrowStr);
      assert b[i] == t[i - |o|];
    } else {
      PassMembers(tasks, DueSoon, todayStr, tomorrowStr);
      assert b[i] == s[i - |o| - |t|];
    }
  }

  /** Only unfinished tasks of the list are reported, every entry carries the
      id and the message of its kind, and the kinds come in the order
      overdue, due today, due tomorrow. */
  lemma BuildShape(tasks: seq<Task>, today: Date)
    requires ValidDate(today)
    ensures forall i :: 0 <= i < |Build(tasks, today)| ==>
              Build(tasks, today)[i].task.status != Completed && Build(tasks, today)[i].task in tasks &&
              Build(tasks, today)[i] == MakeNotification(Build(tasks, today)[i].kind, Build(tasks, today)[i].task)
    ensures forall i, j :: 0 <= i < j < |Build(tasks, today)| ==>
              KindRank(Build(tasks, today)[i].kind) <= KindRank(Build(tasks, today)[j].kind)
  {
    var todayStr, tomorrowStr := IsoDate(today), IsoDate(NextDay(today));
    forall i | 0 <= i < |Build(tasks, today)|
      ensures var n := Build(tasks, today)[i];
              && n.task in tasks && Qualifies(n.kind, n.task, todayStr, tomorrowStr)
              && n == MakeNotification(n.kind, n.task)
              && KindRank(n.kind) == (if i < |Pass(tasks, Overdue, todayStr, tomorrowStr)| then 0
                                      else if i < |Pass(tasks, Overdue, todayStr, tomorrowStr)| +
                                                  |Pass(tasks, DueToday, todayStr, tomorrowStr)| then 1
                                      else 2)
    {
      PassesEntry(tasks, todayStr, tomorrowStr, i);
    }
  }

  /** Today's and tomorrow's ISO strings, for a date whose next day still has
      a four-digit year: the three tests exclude one another. */
  lemma KindsExclusive(t: Task, today: Date)
    requires ValidDate(today) && InIsoRange(today) && InIsoRange(NextDay(today))
    ensures var todayStr, tomorrowStr := IsoDate(today), IsoDate(NextDay(today));
            !(Qualifies(Overdue, t, todayStr, tomorrowStr) && Qualifies(DueToday, t, todayStr, tomorrowStr)) &&
            !(Qualifies(Overdue, t, todayStr, tomorrowStr) && Qualifies(DueSoon, t, todayStr, tomorrowStr)) &&
            !(Qualifies(DueToday, t, todayStr, tomorrowStr) && Qualifies(DueSoon, t, todayStr, tomorrowStr))
  {
    var todayStr, tomorrowStr := IsoDate(today), IsoDate(NextDay(today));
    NextDayNumber(today);
    IsoDateOrder(NextDay(today), today);
    IsoDateOrder(today, NextDay(today));
    LexLessIrreflexive(todayStr);
    LexLessIrreflexive(tomorrowStr);
  }

  /** The kind of an entry is decided by its due date alone: overdue exactly
      when it sorts before today, due-today exactly when it is today,
      due-soon exactly when it is tomorrow. */
  lemma KindMeansDate(tasks: seq<Task>, today: Date, i: nat)
    requires ValidDate(today) && InIsoRange(today) && InIsoRange(NextDay(today))
    requires i < |Build(tasks, today)|
    ensures var n := Build(tasks, today)[i];
            && (n.kind == Overdue <==> LexLess(n.task.dueDate, IsoDate(today)))
            && (n.kind == DueToday <==> n.task.dueDate == IsoDate(today))
            && (n.kind == DueSoon <==> n.task.dueDate == IsoDate(NextDay(today)))
  {
    PassesEntry(tasks, IsoDate(today), IsoDate(NextDay(today)), i);
    var n := Build(tasks, today)[i];
    KindsExclusive(n.task, today);
  }

  /** For a due date in `YYYY-MM-DD` form the kind is a calendar fact:
      overdue exactly when the due day comes before today, due-today exactly
      on today, due-soon exactly on the day after. */
  lemma KindMeansDay(tasks: seq<Task>, today: Date, i: nat)
    requires ValidDate(today) && InIsoRange(today) && InIsoRange(NextDay(today))
    requires i < |Build(tasks, today)|
    requires ParseIsoDate(Build(tasks, today)[i].task.dueDate).Some?
    ensures var n := Build(tasks, today)[i];
            var due := ParseIsoDate(n.task.dueDate).value;
            && (n.kind == Overdue <==> DayNumber(due) < DayNumber(today))
            && (n.kind == DueToday <==> DayNumber(due) == DayNumber(today))
            && (n.kind == DueSoon <==> DayNumber(due) == DayNumber(today) + 1)
  {
    KindMeansDate(tasks, today, i);
    var n := Build(tasks, today)[i];
    var s := n.task.dueDate;
    var due := ParseIsoDate(s).value;
    IsoDateOfParseIsoDate(s);
    IsoDateOrder(due, today);
    NextDayNumber(today);
    SameIsoSameDay(s, today);
    SameIsoSameDay(s, NextDay(today));
  }

  /** A parsable date string is the ISO string of `d` exactly when it names
      the day number of `d`. */
  lemma SameIsoSameDay(s: string, d: Date)
    requires ParseIsoDate(s).Some? && ValidDate(d) && InIsoRange(d)
    ensures ValidDate(ParseIsoDate(s).value)
    ensures s == IsoDate(d) <==> DayNumber(ParseIsoDate(s).value) == DayNumber(d)
  {
    var due := ParseIsoDate(s).value;
    IsoDateOfParseIsoDate(s);
    ParseIsoDateOfIsoDate(d);
    if DayNumber(due) == DayNumber(d) {
      DayNumberInjective(due, d);
    }
  }

  /** Each task yields at most one notification: the three passes together
      produce no more entries than there are tasks. */
  lemma {:induction false} AtMostOnePerTask(tasks: seq<Task>, today: Date)
    requires ValidDate(today) && InIsoRange(today) && InIsoRange(NextDay(today))
    ensures |Build(tasks, today)| <= |tasks|
  {
    var todayStr, tomorrowStr := IsoDate(today), IsoDate(NextDay(today));
    if tasks != [] {
      var init, last := tasks[..|tasks| - 1], tasks[|tasks| - 1];
      AtMostOnePerTask(init, today);
      KindsExclusive(last, today);
      assert |Pass(tasks, Overdue, todayStr, tomorrowStr)| ==
             |Pass(init, Overdue, todayStr, tomorrowStr)| + (if Qualifies(Overdue, last, todayStr, tomorrowStr) then 1 else 0);
      assert |Pass(tasks, DueToday, todayStr, tomorrowStr)| ==
             |Pass(init, DueToday, todayStr, tomorrowStr)| + (if Qualifies(DueToday, last, todayStr, tomorrowStr) then 1 else 0);
      assert |Pass(tasks, DueSoon, todayStr, tomorrowStr)| ==
             |Pass(init, DueSoon, todayStr, tomorrowStr)| + (if Qualifies(DueSoon, last, todayStr, tomorrowStr) then 1 else 0);
    }
  }

  /** Different kinds give different ids, and within a kind the id tells the
      task id. */
  lemma NotificationIdInjective(k1: NotificationType, t1: Task, k2: NotificationType, t2: Task)
    requires NotificationId(k1, t1) == NotificationId(k2, t2)
    ensures k1 == k2 && t1.id == t2.id
  {
    var a, b := NotificationId(k1, t1), NotificationId(k2, t2);
    assert a[0] == TypeName(k1)[0] && a[4] == TypeName(k1)[4];
    assert b[0] == TypeName(k2)[0] && b[4] == TypeName(k2)[4];
    var n := |TypeName(k1) + "-"|;
    assert a[n..] == IntToString(t1.id);
    assert b[n..] == IntToString(t2.id);
    IntToStringInjective(t1.id, t2.id);
  }

  /** `prev.filter(notif => notif.id !== id)`. */
  function WithoutId(ns: seq<Notification>, id: string): (r: seq<Notification>)
    ensures |r| <= |ns|
    ensures forall i :: 0 <= i < |r| ==> r[i].id != id && r[i] in ns
    ensures forall i :: 0 <= i < |ns| && ns[i].id != id ==> ns[i] in r
  {
    var r := Filter(ns, (n: Notification) => n.id != id);
    assert forall i :: 0 <= i < |r| ==> r[i] in r;
    r
  }

  /** Dismissing an id nobody carries changes nothing. */
  lemma {:induction false} WithoutAbsentId(ns: seq<Notification>, id: string)
    requires forall i :: 0 <= i < |ns| ==> ns[i].id != id
    ensures WithoutId(ns, id) == ns
  {
    if ns != [] {
      WithoutAbsentId(ns[1..], id);
    }
  }

  /** Dismissing twice is dismissing once. */
  lemma WithoutIdIdempotent(ns: seq<Notification>, id: string)
    ensures WithoutId(WithoutId(ns, id), id) == WithoutId(ns, id)
  {
    WithoutAbsentId(WithoutId(ns, id), id);
  }

  /** Dismissal keeps the order of the survivors: over a concatenation it
      works part by part. */
  lemma WithoutIdAppend(a: seq<Notification>, b: seq<Notification>, id: string)
    ensures WithoutId(a + b, id) == WithoutId(a, id) + WithoutId(b, id)
  {
    FilterAppend(a, b, (n: Notification) => n.id != id);
  }

  /** One `tasks.forEach` pass: pushes the notification of kind `k` for each
      task that passes the test of `k`, in task order, onto `pushed`. */
  method PushPass(pushed: seq<Notification>, tasks: seq<Task>, k: NotificationType, todayStr: string, tomorrowStr: string)
    returns (r: seq<Notification>)
    ensures r == pushed + Pass(tasks, k, todayStr, tomorrowStr)
  {
    r := pushed;
    var i := 0;
    while i < |tasks|
      invariant 0 <= i <= |tasks|
      invariant r == pushed + Pass(tasks[..i], k, todayStr, tomorrowStr)
    {
      var task := tasks[i];
      PassStep(tasks, i, k, todayStr, tomorrowStr);
      ghost var before := Pass(tasks[..i], k, todayStr, tomorrowStr);
      if Qualifies(k, task, todayStr, tomorrowStr) {
        r := r + [MakeNotification(k, task)];
        assert r == pushed + (before + [MakeNotification(k, task)]);
      } else {
        assert before + [] == before;
      }
      i := i + 1;
    }
    assert tasks[..i] == tasks;
  }

  /** The state of the bell. */
  class NotificationCenter {
    var notifications: seq<Notification>

    constructor ()
      ensures notifications == []
    {
      notifications := [];
    }

    /** The effect run whenever `tasks` changes: three passes push into a
        new list, which then replaces the state. */
    method Refresh(tasks: seq<Task>, today: Date)
      requires ValidDate(today)
      modifies this
      ensures notifications == Build(tasks, today)
    {
      var todayStr := IsoDate(today);
      var tomorrowStr := IsoDate(NextDay(today));
      var pushed := PushPass([], tasks, Overdue, todayStr, tomorrowStr);
      assert pushed == Pass(tasks, Overdue, todayStr, tomorrowStr);
      pushed := PushPass(pushed, tasks, DueToday, todayStr, tomorrowStr);
      pushed := PushPass(pushed, tasks, DueSoon, todayStr, tomorrowStr);
      assert pushed == Passes(tasks, todayStr, tomorrowStr);
      notifications := pushed;
    }

    /** `dismissNotification(id)`. */
    method Dismiss(id: string)
      modifies this
      ensures notifications == WithoutId(old(notifications), id)
    {
      notifications := WithoutId(notifications, id);
    }
  }
}
