/**
 * The counting behind main_script.js's overview page: how many tasks there
 * are, how many are done, the completion percentage, and the table of tasks
 * with a problem or on hold.
 */
module Overview {
  import opened Prelude
  import opened Csv
  import opened Status
  import opened Engine

  /** What `renderMainPage` computes before it builds any markup. */
  datatype Summary = Summary(total: nat, completed: nat, problems: seq<Row>, onHold: seq<Row>, percent: real)

  /** The independent count of the tasks whose `column` cell is `value`. */
  function Count(tasks: seq<Row>, column: string, value: string): nat {
    if tasks == [] then 0
    else
      Count(tasks[..|tasks| - 1], column, value)
        + (if Get(tasks[|tasks| - 1], column) == Some(value) then 1 else 0)
  }

  /** `filter(...).length` counts exactly the matching tasks. */
  lemma {:induction false} WithValueLength(tasks: seq<Row>, column: string, value: string)
    ensures |WithValue(tasks, column, value)| == Count(tasks, column, value)
  {
    if tasks != [] {
      WithValueLength(tasks[..|tasks| - 1], column, value);
    }
  }

  /** Three different values never together match more tasks than there are. */
  lemma {:induction false} CountsWithinTotal(tasks: seq<Row>, column: string, a: string, b: string, c: string)
    requires a != b && b != c && a != c
    ensures Count(tasks, column, a) + Count(tasks, column, b) + Count(tasks, column, c) <= |tasks|
  {
    if tasks != [] {
      CountsWithinTotal(tasks[..|tasks| - 1], column, a, b, c);
    }
  }

  /**
   * `renderMainPage`: the total, the number of `완료` tasks, the `문제` and
   * `보류` lists in sheet order, and `(completed / total) * 100`, or 0 when
   * the sheet has no tasks.
   */
  function Summarize(tasks: seq<Row>): (s: Summary)
    ensures s.total == |tasks|
    ensures s.completed == Count(tasks, StatusColumn, Done) <= s.total
    ensures |s.problems| == Count(tasks, StatusColumn, Problem)
    ensures |s.onHold| == Count(tasks, StatusColumn, OnHold)
    ensures s.total == 0 ==> s.percent == 0.0
    ensures s.total > 0 ==> s.percent == (s.completed as real / s.total as real) * 100.0
    ensures 0.0 <= s.percent <= 100.0
  {
    var total := |tasks|;
    var completed := |WithValue(tasks, StatusColumn, Done)|;
    WithValueLength(tasks, StatusColumn, Done);
    var problems := WithValue(tasks, StatusColumn, Problem);
    var onHold := WithValue(tasks, StatusColumn, OnHold);
    WithValueLength(tasks, StatusColumn, Problem);
    WithValueLength(tasks, StatusColumn, OnHold);
    var percent := if total > 0 then PercentOf(completed, total) else 0.0;
    Summary(total, completed, problems, onHold, percent)
  }

  /** `(completed / total) * 100` lies between 0 and 100 when `completed <= total`. */
  function PercentOf(completed: nat, total: nat): (p: real)
    requires 0 < total && completed <= total
    ensures p == (completed as real / total as real) * 100.0
    ensures 0.0 <= p <= 100.0
  {
    var ratio := completed as real / total as real;
    assert ratio * total as real == completed as real;
    assert ratio <= 1.0;
    ratio * 100.0
  }

  /** `[...problemTasks, ...onHoldTasks]`: the rows of the issues table. */
  function Issues(s: Summary): (issues: seq<Row>)
    ensures |issues| == |s.problems| + |s.onHold|
  {
    s.problems + s.onHold
  }

  /** The condition `problemTasks.length > 0 || onHoldTasks.length > 0` for drawing the table. */
  predicate ShowsIssues(s: Summary) {
    |s.problems| > 0 || |s.onHold| > 0
  }

  /**
   * The problem and on-hold lists hold exactly the tasks with that status,
   * every copy, in sheet order; no task is on both; nothing is counted twice.
   */
  lemma SummaryLists(tasks: seq<Row>, t: Row)
    ensures var s := Summarize(tasks);
      && (t in s.problems <==> t in tasks && Get(t, StatusColumn) == Some(Problem))
      && (t in s.onHold <==> t in tasks && Get(t, StatusColumn) == Some(OnHold))
      && !(t in s.problems && t in s.onHold)
      && Subsequence(s.problems, tasks) && Subsequence(s.onHold, tasks)
    ensures var s := Summarize(tasks);
      s.completed + |s.problems| + |s.onHold| <= s.total
  {
    WithValueExactly(tasks, StatusColumn, Problem, t);
    WithValueExactly(tasks, StatusColumn, OnHold, t);
    CountsWithinTotal(tasks, StatusColumn, Done, Problem, OnHold);
  }

  /**
   * The issues table lists every problem row before every on-hold row, so its
   * badges are all `danger` and then all `warning`.
   */
  lemma IssuesOrder(tasks: seq<Row>)
    ensures var s := Summarize(tasks); var issues := Issues(s);
      && (forall i :: 0 <= i < |s.problems| ==>
            Get(issues[i], StatusColumn) == Some(Problem) && ColorOf(Get(issues[i], StatusColumn)) == "danger")
      && (forall i :: |s.problems| <= i < |issues| ==>
            Get(issues[i], StatusColumn) == Some(OnHold) && ColorOf(Get(issues[i], StatusColumn)) == "warning")
  {
    var s := Summarize(tasks);
    var issues := Issues(s);
    forall i | |s.problems| <= i < |issues|
      ensures Get(issues[i], StatusColumn) == Some(OnHold)
    {
      assert issues[i] == s.onHold[i - |s.problems|];
    }
  }

  /** The issues table is drawn exactly when some task has a problem or is on hold. */
  lemma ShowsIssuesIff(tasks: seq<Row>)
    ensures var s := Summarize(tasks);
      ShowsIssues(s) <==> Issues(s) != []
    ensures ShowsIssues(Summarize(tasks)) <==>
      exists i :: 0 <= i < |tasks| && Get(tasks[i], StatusColumn) in {Some(Problem), Some(OnHold)}
  {
    var s := Summarize(tasks);
    if ShowsIssues(s) {
      var t := if |s.problems| > 0 then s.problems[0] else s.onHold[0];
      WithValueExactly(tasks, StatusColumn, Problem, t);
      WithValueExactly(tasks, StatusColumn, OnHold, t);
      var i :| 0 <= i < |tasks| && tasks[i] == t;
      assert Get(tasks[i], StatusColumn) in {Some(Problem), Some(OnHold)};
    }
    if exists i :: 0 <= i < |tasks| && Get(tasks[i], StatusColumn) in {Some(Problem), Some(OnHold)} {
      var i :| 0 <= i < |tasks| && Get(tasks[i], StatusColumn) in {Some(Problem), Some(OnHold)};
      WithValueExactly(tasks, StatusColumn, Problem, tasks[i]);
      WithValueExactly(tasks, StatusColumn, OnHold, tasks[i]);
    }
  }
}
