/** The statistics cards: the completion rate, a guarded ratio, and its
    rounded percentage label. */
module TaskStats {
  import opened Seqs
  import opened Text
  import opened Dates
  import opened Tasks

  /** `whole > 0 ? (part / whole) * 100 : 0`, on exact reals. */
  function Percent(part: nat, whole: nat): real
  {
    if whole > 0 then (part as real / whole as real) * 100.0 else 0.0
  }

  /** A part of a whole is between 0 and 100 percent; it is 100 exactly when
      the part is everything and 0 exactly when it is nothing. */
  lemma PercentBounds(part: nat, whole: nat)
    requires part <= whole
    ensures 0.0 <= Percent(part, whole) <= 100.0
    ensures whole > 0 ==> (Percent(part, whole) == 100.0 <==> part == whole)
    ensures Percent(part, whole) == 0.0 <==> part == 0 || whole == 0
    ensures whole > 0 ==> Percent(part, whole) * whole as real == part as real * 100.0
  {
    if whole > 0 {
      var c, t := part as real, whole as real;
      assert t / t == 1.0;
      assert 0.0 <= c / t <= t / t;
    }
  }

  /** `completionRate`: the share of completed tasks, in percent. */
  function CompletionRate(stats: TaskCounts): real
  {
    Percent(stats.completed, stats.total)
  }

  /** For the counts of an actual task list: the rate is a percentage; it is
      100 exactly when there are tasks and all of them are completed, and 0
      exactly when none is completed. */
  lemma CompletionRateOfTasks(tasks: seq<Task>)
    ensures 0.0 <= CompletionRate(ComputeStats(tasks)) <= 100.0
    ensures CompletionRate(ComputeStats(tasks)) == 100.0 <==>
              tasks != [] && forall i :: 0 <= i < |tasks| ==> tasks[i].status == Completed
    ensures CompletionRate(ComputeStats(tasks)) == 0.0 <==>
              forall i :: 0 <= i < |tasks| ==> tasks[i].status != Completed
  {
    var stats := ComputeStats(tasks);
    PercentBounds(stats.completed, stats.total);
    CountAll(tasks, IsCompleted);
    CountNone(tasks, IsCompleted);
  }

  /** `{Math.round(completionRate)}%`. */
  function ProgressLabel(stats: TaskCounts): string
  {
    IntToString(Round(CompletionRate(stats))) + "%"
  }

  /** The displayed percentage is a whole number between 0 and 100: 100 when
      everything is completed and 0 when nothing is. */
  lemma RoundedRateBounds(stats: TaskCounts)
    requires stats.completed <= stats.total
    ensures 0 <= Round(CompletionRate(stats)) <= 100
    ensures stats.completed == stats.total && stats.total > 0 ==> Round(CompletionRate(stats)) == 100
    ensures stats.completed == 0 ==> Round(CompletionRate(stats)) == 0
  {
    PercentBounds(stats.completed, stats.total);
  }

  /** The label has no sign: it is the digits of the rounded rate and `%`. */
  lemma ProgressLabelShape(stats: TaskCounts)
    requires stats.completed <= stats.total
    ensures ProgressLabel(stats) == NatToString(Round(CompletionRate(stats)) as nat) + "%"
  {
    RoundedRateBounds(stats);
  }
}
