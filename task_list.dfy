/** The task list view: the conjunctive filter over search text, status,
    priority and category; the in-place stable sort by priority rank (high
    first) and then due date (earliest first); and the choice of message
    when nothing is left to show. */
module TaskList {
  import opened Wrappers
  import opened Seqs
  import opened Text
  import opened Dates
  import opened Tasks

  /** The four filter controls of the view; `"all"` is the unfiltered choice. */
  datatype ListFilters = ListFilters(searchTerm: string, filterStatus: string,
                                     filterPriority: string, filterCategory: string)

  /** The controls as the view starts. */
  const InitialFilters := ListFilters("", "all", "all", "all")

  predicate MatchesSearch(t: Task, term: string)
  {
    Includes(Lower(t.title), Lower(term)) || Includes(Lower(t.description), Lower(term))
  }

  predicate Matches(f: ListFilters, t: Task)
  {
    && MatchesSearch(t, f.searchTerm)
    && (f.filterStatus == "all" || StatusName(t.status) == f.filterStatus)
    && (f.filterPriority == "all" || PriorityName(t.priority) == f.filterPriority)
    && (f.filterCategory == "all" || t.category == f.filterCategory)
  }

  /** Picking a status or a priority in a drop-down narrows the list to the
      tasks with exactly that status or priority, among those that pass the
      other tests. */
  lemma SelectedNameNarrows(f: ListFilters, t: Task, s: Status, p: Priority)
    ensures f.filterStatus == StatusName(s) ==>
              (Matches(f, t) <==> Matches(f.(filterStatus := "all"), t) && t.status == s)
    ensures f.filterPriority == PriorityName(p) ==>
              (Matches(f, t) <==> Matches(f.(filterPriority := "all"), t) && t.priority == p)
  {
    NamesAreDistinct(p, t.priority, s, t.status);
  }

  /** The search is a case-insensitive substring test: the lowercased term
      occurs somewhere in the lowercased title or description. */
  lemma SearchIsCaseInsensitiveSubstring(t: Task, term: string)
    ensures MatchesSearch(t, term) <==>
              (exists k :: OccursAt(Lower(t.title), Lower(term), k)) ||
              (exists k :: OccursAt(Lower(t.description), Lower(term), k))
    ensures MatchesSearch(t, term) <==> MatchesSearch(t, Lower(term))
  {
    IncludesIff(Lower(t.title), Lower(term));
    IncludesIff(Lower(t.description), Lower(term));
    LowerIdempotent(term);
  }

  /** `tasks.filter(...)` with the view's predicate. */
  function FilterTasks(tasks: seq<Task>, f: ListFilters): (r: seq<Task>)
    ensures |r| <= |tasks|
    ensures forall i :: 0 <= i < |r| ==> Matches(f, r[i]) && r[i] in tasks
    ensures forall i :: 0 <= i < |tasks| && Matches(f, tasks[i]) ==> tasks[i] in r
  {
    var r := Filter(tasks, (t: Task) => Matches(f, t));
    assert forall i :: 0 <= i < |r| ==> r[i] in r;
    r
  }

  /** Any filter control not at its unfiltered value. */
  predicate IsFiltering(f: ListFilters)
  {
    f.searchTerm != "" || f.filterStatus != "all" || f.filterPriority != "all" || f.filterCategory != "all"
  }

  /** With an empty search and every filter at `"all"` nothing is dropped. */
  lemma {:induction false} UnfilteredKeepsAll(tasks: seq<Task>, f: ListFilters)
    requires !IsFiltering(f)
    ensures FilterTasks(tasks, f) == tasks
  {
    if tasks != [] {
      assert Includes(Lower(tasks[0].title), Lower(f.searchTerm));
      UnfilteredKeepsAll(tasks[1..], f);
    }
  }

  // ---------------------------------------------------------------------
  // The comparator

  /** `priorityOrder`. */
  function Rank(p: Priority): int
  {
    match p
    case High => 3
    case Medium => 2
    case Low => 1
  }

  /** The sign of comparing two due dates; see `DueCompareAgreesWithDates`. */
  function DueCompare(a: string, b: string): int
  {
    if LexLess(a, b) then -1 else if a == b then 0 else 1
  }

  /** The comparator handed to `sort`: negative when `a` goes first. */
  function Compare(a: Task, b: Task): int
  {
    if Rank(a.priority) != Rank(b.priority) then Rank(b.priority) - Rank(a.priority)
    else DueCompare(a.dueDate, b.dueDate)
  }

  /** For due dates in `YYYY-MM-DD` form, the comparison of the strings has
      the sign of the difference of their `getTime()` values. */
  lemma DueCompareAgreesWithDates(a: string, b: string)
    requires ParseIsoDate(a).Some? && ParseIsoDate(b).Some?
    ensures ParseInstant(a).Some? && ParseInstant(b).Some?
    ensures DueCompare(a, b) < 0 <==> ParseInstant(a).value < ParseInstant(b).value
    ensures DueCompare(a, b) == 0 <==> ParseInstant(a).value == ParseInstant(b).value
  {
    var da, db := ParseIsoDate(a).value, ParseIsoDate(b).value;
    ParseInstantOfDate(a);
    ParseInstantOfDate(b);
    IsoDateOfParseIsoDate(a);
    IsoDateOfParseIsoDate(b);
    IsoDateOrder(da, db);
    MidnightMsOrder(da, db);
    LexLessIrreflexive(a);
    if a != b {
      LexLessTotal(a, b);
      LexLessAsymmetric(a, b);
      IsoDateOrder(db, da);
    }
  }

  /** Tasks the comparator cannot tell apart: same rank, same due date. */
  predicate SameKey(a: Task, b: Task)
  {
    Rank(a.priority) == Rank(b.priority) && a.dueDate == b.dueDate
  }

  lemma CompareProperties(a: Task, b: Task)
    ensures Compare(a, b) < 0 <==> Compare(b, a) > 0
    ensures Compare(a, b) == 0 <==> SameKey(a, b)
  {
    LexLessAsymmetric(a.dueDate, b.dueDate);
    LexLessAsymmetric(b.dueDate, a.dueDate);
    LexLessIrreflexive(a.dueDate);
    if a.dueDate != b.dueDate { LexLessTotal(a.dueDate, b.dueDate); }
  }

  lemma CompareTransitive(a: Task, b: Task, c: Task)
    requires Compare(a, b) <= 0 && Compare(b, c) <= 0
    ensures Compare(a, c) <= 0
  {
    CompareProperties(a, b);
    CompareProperties(b, c);
    CompareProperties(a, c);
    if Rank(a.priority) == Rank(b.priority) == Rank(c.priority) {
      if LexLess(a.dueDate, b.dueDate) && LexLess(b.dueDate, c.dueDate) {
        LexLessTransitive(a.dueDate, b.dueDate, c.dueDate);
      }
      if LexLess(c.dueDate, a.dueDate) {
        if a.dueDate == b.dueDate {
          LexLessAsymmetric(c.dueDate, a.dueDate);
        } else if LexLess(a.dueDate, b.dueDate) {
          LexLessTransitive(c.dueDate, a.dueDate, b.dueDate);
          LexLessAsymmetric(c.dueDate, b.dueDate);
        }
      }
    }
  }

  // ---------------------------------------------------------------------
  // The stable sort, as a function

  /** Puts `x` after every element the comparator does not place after it. */
  function Insert(s: seq<Task>, x: Task): seq<Task>
  {
    if s == [] then [x]
    else if Compare(x, s[|s| - 1]) < 0 then Insert(s[..|s| - 1], x) + [s[|s| - 1]]
    else s + [x]
  }

  /** The result `Array.prototype.sort` yields, as a stable sort: each
      element in turn inserted into the sorted prefix before it. */
  function SortTasks(s: seq<Task>): seq<Task>
  {
    if s == [] then [] else Insert(SortTasks(s[..|s| - 1]), s[|s| - 1])
  }

  predicate Sorted(s: seq<Task>)
  {
    forall i, j :: 0 <= i < j < |s| ==> Compare(s[i], s[j]) <= 0
  }

  /** In a sorted list a higher priority never follows a lower one, and
      within one priority a due date never follows a later one. */
  lemma SortedOrder(s: seq<Task>, i: nat, j: nat)
    requires Sorted(s) && i < j < |s|
    ensures Rank(s[i].priority) >= Rank(s[j].priority)
    ensures Rank(s[i].priority) == Rank(s[j].priority) ==> !LexLess(s[j].dueDate, s[i].dueDate)
  {
    assert Compare(s[i], s[j]) <= 0;
    LexLessAsymmetric(s[i].dueDate, s[j].dueDate);
    LexLessIrreflexive(s[i].dueDate);
  }

  /** The elements of `s` with the same key as `k`, in order. */
  function WithKey(s: seq<Task>, k: Task): seq<Task>
  {
    if s == [] then [] else WithKey(s[..|s| - 1], k) + (if SameKey(s[|s| - 1], k) then [s[|s| - 1]] else [])
  }

  lemma {:induction false} WithKeyAppend(s: seq<Task>, t: seq<Task>, k: Task)
    ensures WithKey(s + t, k) == WithKey(s, k) + WithKey(t, k)
    decreases |t|
  {
    if t == [] {
      assert s + t == s;
    } else {
      assert (s + t)[..|s + t| - 1] == s + t[..|t| - 1];
      WithKeyAppend(s, t[..|t| - 1], k);
    }
  }

  lemma {:induction false} InsertPermutes(s: seq<Task>, x: Task)
    ensures multiset(Insert(s, x)) == multiset(s) + multiset{x}
  {
    if s != [] && Compare(x, s[|s| - 1]) < 0 {
      var init, last := s[..|s| - 1], s[|s| - 1];
      assert Insert(s, x) == Insert(init, x) + [last];
      InsertPermutes(init, x);
      MultisetSnoc(s);
    }
  }

  lemma {:induction false} InsertSorted(s: seq<Task>, x: Task)
    requires Sorted(s)
    ensures Sorted(Insert(s, x))
  {
    if s != [] {
      var init, last := s[..|s| - 1], s[|s| - 1];
      if Compare(x, last) < 0 {
        InsertSorted(init, x);
        InsertBelow(init, x, last);
        SortedSnoc(Insert(init, x), last);
      } else {
        CompareProperties(x, last);
        forall i | 0 <= i < |s|
          ensures Compare(s[i], x) <= 0
        {
          if i < |s| - 1 { CompareTransitive(s[i], last, x); }
        }
        SortedSnoc(s, x);
      }
    }
  }

  /** Inserting an element that precedes `last` into a list whose elements
      all go no later than `last` keeps that so. */
  lemma InsertBelow(init: seq<Task>, x: Task, last: Task)
    requires forall i :: 0 <= i < |init| ==> Compare(init[i], last) <= 0
    requires Compare(x, last) < 0
    ensures forall i :: 0 <= i < |Insert(init, x)| ==> Compare(Insert(init, x)[i], last) <= 0
  {
    var r := Insert(init, x);
    InsertPermutes(init, x);
    forall i | 0 <= i < |r|
      ensures Compare(r[i], last) <= 0
    {
      assert r[i] in multiset(r);
      if r[i] != x {
        assert r[i] in multiset(init);
        var k :| 0 <= k < |init| && init[k] == r[i];
      }
    }
  }

  lemma SortedSnoc(r: seq<Task>, y: Task)
    requires Sorted(r)
    requires forall i :: 0 <= i < |r| ==> Compare(r[i], y) <= 0
    ensures Sorted(r + [y])
  {
    var t := r + [y];
    forall i, j | 0 <= i < j < |t|
      ensures Compare(t[i], t[j]) <= 0
    {
      if j < |r| {
        assert t[i] == r[i] && t[j] == r[j];
      } else {
        assert t[i] == r[i] && t[j] == y;
      }
    }
  }

  /** Inserting keeps the order of the tasks that share a key: `x` goes
      after all of them. */
  lemma {:induction false} InsertStable(s: seq<Task>, x: Task, k: Task)
    ensures WithKey(Insert(s, x), k) == WithKey(s, k) + (if SameKey(x, k) then [x] else [])
  {
    if s == [] {
      assert WithKey([x], k) == WithKey([], k) + (if SameKey(x, k) then [x] else []);
    } else if Compare(x, s[|s| - 1]) < 0 {
      InsertStable(s[..|s| - 1], x, k);
      InsertStableBefore(s, x, k);
    } else {
      var xs := if SameKey(x, k) then [x] else [];
      assert Insert(s, x) == s + [x];
      assert (s + [x])[..|s + [x]| - 1] == s && (s + [x])[|s + [x]| - 1] == x;
      assert WithKey(s + [x], k) == WithKey(s, k) + xs;
    }
  }

  /** The step of `InsertStable` where `x` moves before the last element. */
  lemma InsertStableBefore(s: seq<Task>, x: Task, k: Task)
    requires s != [] && Compare(x, s[|s| - 1]) < 0
    requires WithKey(Insert(s[..|s| - 1], x), k) == WithKey(s[..|s| - 1], k) + (if SameKey(x, k) then [x] else [])
    ensures WithKey(Insert(s, x), k) == WithKey(s, k) + (if SameKey(x, k) then [x] else [])
  {
    var last, init := s[|s| - 1], s[..|s| - 1];
    var xs := if SameKey(x, k) then [x] else [];
    var ls := if SameKey(last, k) then [last] else [];
    var r := Insert(init, x);
    assert WithKey(s, k) == WithKey(init, k) + ls;
    assert Insert(s, x) == r + [last];
    assert WithKey(r + [last], k) == WithKey(r, k) + ls by {
      assert (r + [last])[..|r + [last]| - 1] == r;
    }
    var w := WithKey(init, k);
    assert WithKey(Insert(s, x), k) == w + xs + ls;
    assert w + xs + ls == w + ls + xs by {
      CompareProperties(x, last);
      if xs == [] {
        assert w + xs == w && w + ls + xs == w + ls;
      } else {
        assert ls == [];
        assert w + ls == w && w + xs + ls == w + xs;
      }
    }
  }

  lemma SortTasksStep(s: seq<Task>, i: nat)
    requires i < |s|
    ensures SortTasks(s[..i + 1]) == Insert(SortTasks(s[..i]), s[i])
  {
    assert s[..i + 1][..i] == s[..i];
  }

  lemma {:induction false} SortTasksPermutes(s: seq<Task>)
    ensures multiset(SortTasks(s)) == multiset(s)
  {
    if s != [] {
      var init, last := s[..|s| - 1], s[|s| - 1];
      var sorted := SortTasks(init);
      assert SortTasks(s) == Insert(sorted, last);
      SortTasksPermutes(init);
      InsertPermutes(sorted, last);
      MultisetSnoc(s);
    }
  }

  lemma {:induction false} SortTasksSorted(s: seq<Task>)
    ensures Sorted(SortTasks(s))
  {
    if s != [] {
      var init := s[..|s| - 1];
      SortTasksSorted(init);
      InsertSorted(SortTasks(init), s[|s| - 1]);
    }
  }

  /** Tasks the comparator calls equal keep their input order. */
  lemma {:induction false} SortTasksStable(s: seq<Task>, k: Task)
    ensures WithKey(SortTasks(s), k) == WithKey(s, k)
  {
    if s != [] {
      var init := s[..|s| - 1];
      SortTasksStable(init, k);
      InsertStable(SortTasks(init), s[|s| - 1], k);
    }
  }

  // ---------------------------------------------------------------------
  // The sort, in place

  /** Where the shift loop stops fixes the result of `Insert`: `x` goes
      after `p[..j]` and before `p[j..]`, every element of which it precedes. */
  lemma {:induction false} InsertAt(p: seq<Task>, x: Task, j: nat)
    requires j <= |p|
    requires forall k :: j <= k < |p| ==> Compare(x, p[k]) < 0
    requires j == 0 || Compare(x, p[j - 1]) >= 0
    ensures Insert(p, x) == p[..j] + [x] + p[j..]
  {
    if j < |p| {
      var init := p[..|p| - 1];
      assert init[..j] == p[..j];
      assert init[j..] + [p[|p| - 1]] == p[j..];
      InsertAt(init, x, j);
    }
  }

  /** The shift loop: moves the elements of `a[..i]` that must follow
      `a[i]` one place right and stores `a[i]` in the gap, at `j`. */
  method ShiftInto(a: array<Task>, i: nat) returns (j: nat)
    requires i < a.Length
    modifies a
    ensures j <= i && a[j] == old(a[i])
    ensures forall k :: 0 <= k < j ==> a[k] == old(a[k])
    ensures forall k :: j < k <= i ==> a[k] == old(a[k - 1])
    ensures forall k :: i < k < a.Length ==> a[k] == old(a[k])
    ensures forall k :: j <= k < i ==> Compare(old(a[i]), old(a[k])) < 0
    ensures j == 0 || Compare(old(a[i]), old(a[j - 1])) >= 0
  {
    var x := a[i];
    j := i;
    while j > 0 && Compare(x, a[j - 1]) < 0
      invariant 0 <= j <= i
      invariant forall k :: 0 <= k < j ==> a[k] == old(a[k])
      invariant forall k :: j < k <= i ==> a[k] == old(a[k - 1])
      invariant forall k :: i < k < a.Length ==> a[k] == old(a[k])
      invariant forall k :: j <= k < i ==> Compare(x, old(a[k])) < 0
    {
      a[j] := a[j - 1];
      j := j - 1;
    }
    a[j] := x;
  }

  /** One pass of the insertion sort: `a[i]` is shifted left into the
      sorted prefix `a[..i]`. */
  method InsertInto(a: array<Task>, i: nat)
    requires i < a.Length
    modifies a
    ensures a[..i + 1] == Insert(old(a[..i]), old(a[i]))
    ensures a[i + 1..] == old(a[i + 1..])
  {
    ghost var p, x := a[..i], a[i];
    var j := ShiftInto(a, i);
    InsertAt(p, x, j);
    Assemble(a[..i + 1], p, x, j);
    assert a[i + 1..] == old(a[i + 1..]);
  }

  lemma Assemble(b: seq<Task>, p: seq<Task>, x: Task, j: nat)
    requires |b| == |p| + 1 && j <= |p| && b[j] == x
    requires forall k :: 0 <= k < j ==> b[k] == p[k]
    requires forall k :: j < k < |b| ==> b[k] == p[k - 1]
    ensures b == p[..j] + [x] + p[j..]
  {
  }

  /** `filteredTasks.sort(comparator)`: an insertion sort on the array. */
  method SortInPlace(a: array<Task>)
    modifies a
    ensures a[..] == SortTasks(old(a[..]))
  {
    ghost var input := a[..];
    var i := 0;
    while i < a.Length
      invariant 0 <= i <= a.Length
      invariant a[..i] == SortTasks(input[..i])
      invariant a[i..] == input[i..]
    {
      InsertInto(a, i);
      SortTasksStep(input, i);
      i := i + 1;
    }
    assert input[..a.Length] == input;
  }

  /** The list the view shows: the filtered tasks, sorted. */
  method VisibleTasks(tasks: seq<Task>, f: ListFilters) returns (r: seq<Task>)
    ensures forall t :: t in r ==> t in tasks && Matches(f, t)
    ensures forall t :: t in tasks && Matches(f, t) ==> t in r
    ensures multiset(r) == multiset(FilterTasks(tasks, f))
    ensures Sorted(r)
    ensures forall k :: WithKey(r, k) == WithKey(FilterTasks(tasks, f), k)
  {
    var filtered := FilterTasks(tasks, f);
    var a := new Task[|filtered|](i requires 0 <= i < |filtered| => filtered[i]);
    assert a[..] == filtered;
    SortInPlace(a);
    r := a[..];
    SortTasksSorted(filtered);
    SortTasksPermutes(filtered);
    forall k { SortTasksStable(filtered, k); }
    forall t | t in r ensures t in tasks && Matches(f, t) {
      assert t in multiset(filtered);
    }
    forall t | t in tasks && Matches(f, t) ensures t in r {
      assert t in multiset(r);
    }
  }

  /** With no filter active the view shows a permutation of all the tasks. */
  lemma UnfilteredIsPermutation(tasks: seq<Task>, f: ListFilters)
    requires !IsFiltering(f)
    ensures multiset(SortTasks(FilterTasks(tasks, f))) == multiset(tasks)
  {
    UnfilteredKeepsAll(tasks, f);
    SortTasksPermutes(tasks);
  }

  // ---------------------------------------------------------------------
  // The empty state

  datatype EmptyState = EmptyState(heading: string, hint: string, showCreateButton: bool)

  /** What the view shows when the sorted list is empty. */
  function EmptyStateFor(f: ListFilters): EmptyState
  {
    if IsFiltering(f) then
      EmptyState("No tasks match your filters",
                 "Try adjusting your search or filters to find what you're looking for.", false)
    else
      EmptyState("No tasks yet", "Get started by creating your first task!", true)
  }

  /** The empty state tells the truth: "No tasks yet", with its create
      button, appears only when there really are no tasks, and an empty
      list over some tasks always reads "No tasks match your filters". */
  lemma EmptyStateTruthful(tasks: seq<Task>, f: ListFilters)
    requires SortTasks(FilterTasks(tasks, f)) == []
    ensures (EmptyStateFor(f).heading == "No tasks yet") <==> tasks == [] && !IsFiltering(f)
    ensures EmptyStateFor(f).showCreateButton ==> tasks == []
    ensures tasks != [] ==> EmptyStateFor(f).heading == "No tasks match your filters"
  {
    SortTasksPermutes(FilterTasks(tasks, f));
    if !IsFiltering(f) {
      UnfilteredKeepsAll(tasks, f);
      assert multiset(tasks) == multiset{};
    }
  }

  /** The heading above the list: `Tasks (n)`. */
  function CountHeading(shown: seq<Task>): string
  {
    "Tasks (" + NatToString(|shown|) + ")"
  }

  /** The number in the heading reads back as the length of the list. */
  lemma CountHeadingShowsLength(shown: seq<Task>)
    ensures var h := CountHeading(shown);
            |h| >= 9 && h[..7] == "Tasks (" && h[|h| - 1] == ')' &&
            DigitsValue(h[7..|h| - 1]) == |shown|
  {
    var h := CountHeading(shown);
    assert h[7..|h| - 1] == NatToString(|shown|);
    NatToStringRoundTrip(|shown|);
  }
}
