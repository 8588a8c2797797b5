/**
 The views the planner derives from its task list on every render: the
 distinct goals in the order they are first seen, and for each goal its
 tasks, how many of them are done, and the completion percentage.
 */
module GoalView {
  import opened Seqs
  import opened TaskList

  /* The goal of each task, position by position. */
  function GoalLabels(tasks: seq<Task>): (r: seq<string>)
    ensures |r| == |tasks|
    ensures forall i :: 0 <= i < |tasks| ==> r[i] == tasks[i].goal
  {
    seq(|tasks|, i requires 0 <= i < |tasks| => tasks[i].goal)
  }

  /* The distinct goals: no goal twice, and a label is listed exactly when
     some task carries it. */
  function Goals(tasks: seq<Task>): (r: seq<string>)
    ensures NoDuplicates(r)
    ensures forall g :: g in r <==> exists t :: t in tasks && t.goal == g
  {
    var labels := GoalLabels(tasks);
    assert forall t :: t in tasks ==> t.goal in labels by {
      forall t | t in tasks
        ensures t.goal in labels
      {
        var i :| 0 <= i < |tasks| && tasks[i] == t;
        assert labels[i] == t.goal;
      }
    }
    Distinct(labels)
  }

  /* Goals are listed in the order in which their first task appears. */
  lemma GoalsFirstSeenOrder(tasks: seq<Task>)
    ensures var gs, labels := Goals(tasks), GoalLabels(tasks);
      forall i, j :: 0 <= i < j < |gs| ==> FirstIndex(labels, gs[i]) < FirstIndex(labels, gs[j])
  {
    DistinctFirstSeenOrder(GoalLabels(tasks));
  }

  /* Toggling never changes a goal field, so the goals stay the same. */
  lemma GoalsAfterToggle(tasks: seq<Task>, id: int)
    ensures Goals(Toggle(tasks, id)) == Goals(tasks)
  {
    assert GoalLabels(Toggle(tasks, id)) == GoalLabels(tasks);
  }

  /* Appending a task adds its goal at the end when the goal is new, and
     leaves the goals alone otherwise. */
  lemma GoalsAfterAppend(tasks: seq<Task>, t: Task)
    ensures Goals(tasks + [t]) ==
      if t.goal in Goals(tasks) then Goals(tasks) else Goals(tasks) + [t.goal]
  {
    var labels := GoalLabels(tasks + [t]);
    assert labels[..|labels| - 1] == GoalLabels(tasks);
  }

  /* After a removal a goal survives exactly when one of its tasks has a
     different id; in particular deleting the only task of a goal drops the
     goal. */
  lemma GoalsAfterRemove(tasks: seq<Task>, id: int, g: string)
    ensures g in Goals(Remove(tasks, id)) <==> exists t :: t in tasks && t.goal == g && t.id != id
  {
  }

  /* The filter condition of a goal's task list. */
  function HasGoal(g: string): Task -> bool
  {
    (t: Task) => t.goal == g
  }

  /* The complement of HasGoal. */
  function OtherGoal(g: string): Task -> bool
  {
    (t: Task) => t.goal != g
  }

  /* The filter condition of the done count. */
  const IsDone: Task -> bool := (t: Task) => t.done

  /* The tasks of goal `g`, in list order. */
  function GoalTasks(tasks: seq<Task>, g: string): (r: seq<Task>)
    ensures forall t :: t in r <==> t in tasks && t.goal == g
  {
    Filter(tasks, HasGoal(g))
  }

  /* A goal's tasks are exactly those at the positions whose task carries
     the goal, in ascending order of position (repeated tasks included). */
  lemma GoalTasksKeepsOrder(tasks: seq<Task>, g: string)
    ensures Selects(tasks, GoalTasks(tasks, g), FilterPositions(tasks, HasGoal(g)), HasGoal(g))
  {
    FilterKeepsOrder(tasks, HasGoal(g));
  }

  /* How many of the tasks are done: never more than there are tasks, all of
     them exactly when every task is done, and none exactly when no task is. */
  function DoneCount(tasks: seq<Task>): (n: nat)
    ensures n <= |tasks|
    ensures n == |tasks| <==> forall t :: t in tasks ==> t.done
    ensures n == 0 <==> forall t :: t in tasks ==> !t.done
  {
    var done := Filter(tasks, IsDone);
    FilterFullLength(tasks, IsDone);
    assert done != [] ==> done[0] in done;
    |done|
  }

  /* The done count of two lists put together is the sum of their counts. */
  lemma DoneCountAppend(a: seq<Task>, b: seq<Task>)
    ensures DoneCount(a + b) == DoneCount(a) + DoneCount(b)
  {
    FilterAppend(a, b, IsDone);
  }

  /* A single task counts 1 when it is done and 0 otherwise; with
     DoneCountAppend this pins the count of every list. */
  lemma DoneCountSingle(t: Task)
    ensures DoneCount([t]) == if t.done then 1 else 0
  {
  }

  /* A goal with three tasks of which one is done is a third complete. */
  lemma ProgressOneOfThree(a: Task, b: Task, c: Task)
    requires a.done && !b.done && !c.done
    ensures Progress(DoneCount([a, b, c]), 3) == 100.0 / 3.0
  {
    DoneCountAppend([a], [b, c]);
    DoneCountAppend([b], [c]);
    DoneCountSingle(a);
    DoneCountSingle(b);
    DoneCountSingle(c);
    assert [a] + [b, c] == [a, b, c];
    assert [b] + [c] == [b, c];
  }

  /* The completion percentage, 0 for an empty goal: within [0, 100] and 100
     exactly when every task is done. */
  function Progress(doneCount: nat, total: nat): (p: real)
    ensures doneCount <= total ==> 0.0 <= p <= 100.0
    ensures doneCount <= total ==> (p == 100.0 <==> total > 0 && doneCount == total)
    ensures p == 0.0 <==> total == 0 || doneCount == 0
  {
    if total == 0 then 0.0 else (doneCount as real / total as real) * 100.0
  }

  /* What the planner shows for one goal. */
  datatype GoalSummary = GoalSummary(goal: string, tasks: seq<Task>, doneCount: nat, progress: real)

  /* The summary of goal `g`. */
  function Summarize(tasks: seq<Task>, g: string): (v: GoalSummary)
    ensures v.goal == g
    ensures forall t :: t in v.tasks <==> t in tasks && t.goal == g
    ensures v.doneCount <= |v.tasks|
    ensures 0.0 <= v.progress <= 100.0
    ensures v.progress == 100.0 <==> |v.tasks| > 0 && forall t :: t in v.tasks ==> t.done
    ensures g in Goals(tasks) ==> |v.tasks| > 0
  {
    var goalTasks := GoalTasks(tasks, g);
    var doneCount := DoneCount(goalTasks);
    assert g in Goals(tasks) ==> exists t :: t in goalTasks;
    GoalSummary(g, goalTasks, doneCount, Progress(doneCount, |goalTasks|))
  }

  /* The summaries of the goals `gs`, in that order. */
  function SummariesOf(tasks: seq<Task>, gs: seq<string>): (vs: seq<GoalSummary>)
    ensures |vs| == |gs|
    ensures forall k :: 0 <= k < |gs| ==> vs[k] == Summarize(tasks, gs[k])
  {
    if gs == [] then [] else [Summarize(tasks, gs[0])] + SummariesOf(tasks, gs[1..])
  }

  /* One summary per distinct goal, in goal order; none of them is empty. */
  function Summaries(tasks: seq<Task>): (vs: seq<GoalSummary>)
    ensures |vs| == |Goals(tasks)|
    ensures forall k :: 0 <= k < |vs| ==> vs[k].goal == Goals(tasks)[k] && |vs[k].tasks| > 0
  {
    var gs := Goals(tasks);
    var vs := SummariesOf(tasks, gs);
    forall k | 0 <= k < |vs|
      ensures |vs[k].tasks| > 0
    {
      assert gs[k] in gs;
    }
    vs
  }

  /* Sum of the summaries' task-list lengths. */
  function TotalTasks(vs: seq<GoalSummary>): nat
  {
    if vs == [] then 0 else |vs[0].tasks| + TotalTasks(vs[1..])
  }

  /* Sum of the summaries' done counts. */
  function TotalDone(vs: seq<GoalSummary>): nat
  {
    if vs == [] then 0 else vs[0].doneCount + TotalDone(vs[1..])
  }

  /* Taking out the tasks of a goal that is not among `gs` does not change
     the summaries of `gs`. */
  lemma {:induction false} SummariesWithoutGoal(tasks: seq<Task>, g: string, gs: seq<string>)
    requires g !in gs
    ensures SummariesOf(Filter(tasks, OtherGoal(g)), gs) == SummariesOf(tasks, gs)
  {
    if gs != [] {
      FilterNarrow(tasks, OtherGoal(g), HasGoal(gs[0]));
      SummariesWithoutGoal(tasks, g, gs[1..]);
    }
  }

  /* The goals in `gs` partition the tasks when each task's goal occurs in
     `gs` exactly once: the group sizes add up to the number of tasks and the
     group done counts to the number of done tasks. */
  lemma {:induction false} GroupsPartition(tasks: seq<Task>, gs: seq<string>)
    requires NoDuplicates(gs)
    requires forall t :: t in tasks ==> t.goal in gs
    ensures TotalTasks(SummariesOf(tasks, gs)) == |tasks|
    ensures TotalDone(SummariesOf(tasks, gs)) == DoneCount(tasks)
    decreases |gs|
  {
    if gs == [] {
      assert tasks == [];
    } else {
      var g, rest := gs[0], gs[1..];
      var others := Filter(tasks, OtherGoal(g));
      assert forall k :: 0 <= k < |rest| ==> rest[k] == gs[k + 1];
      assert NoDuplicates(rest) by {
        forall i, j | 0 <= i < j < |rest|
          ensures rest[i] != rest[j]
        {
          assert rest[i] == gs[i + 1] && rest[j] == gs[j + 1];
        }
      }
      GroupsPartition(others, rest);
      SummariesWithoutGoal(tasks, g, rest);
      FilterComplement(tasks, HasGoal(g), OtherGoal(g));
      var done := Filter(tasks, IsDone);
      FilterComplement(done, HasGoal(g), OtherGoal(g));
      FilterCommute(tasks, HasGoal(g), IsDone);
      FilterCommute(tasks, OtherGoal(g), IsDone);
    }
  }

  /* Every task falls into exactly one goal's summary: the summaries' sizes
     add up to the length of the list, and their done counts to the number
     of done tasks. */
  lemma SummariesPartition(tasks: seq<Task>)
    ensures TotalTasks(Summaries(tasks)) == |tasks|
    ensures TotalDone(Summaries(tasks)) == DoneCount(tasks)
  {
    GroupsPartition(tasks, Goals(tasks));
  }
}
