/**
 The planner component's state and its three event handlers, each a pure
 transition from one state to the next. The clock reading that becomes a new
 task's id is passed in as `id`.
 */
module Planner {
  import opened Text
  import opened TaskList
  import opened GoalView

  /* The task list and the contents of the task and goal input boxes. */
  datatype State = State(tasks: seq<Task>, input: string, goalInput: string)

  /* The goal a new task is filed under: the goal box's contents, unless the
     box is empty (the only falsy string). A task's goal is therefore never
     empty, while a goal of white space only is kept as typed. */
  function GoalFor(goalInput: string): (g: string)
    ensures g != ""
    ensures goalInput != "" ==> g == goalInput
    ensures goalInput == "" ==> g == "General"
  {
    if goalInput == "" then "General" else goalInput
  }

  /* The Add button. A blank task box changes nothing at all; otherwise one
     task, not yet done, carrying the untrimmed text, is appended after the
     unchanged old tasks, and both input boxes are cleared. */
  function AddTask(s: State, id: int): (r: State)
    ensures IsBlank(s.input) ==> r == s
    ensures !IsBlank(s.input) ==>
      && |r.tasks| == |s.tasks| + 1
      && r.tasks[..|s.tasks|] == s.tasks
      && r.tasks[|s.tasks|].id == id
      && r.tasks[|s.tasks|].text == s.input
      && r.tasks[|s.tasks|].goal == GoalFor(s.goalInput)
      && !r.tasks[|s.tasks|].done
      && r.input == "" && r.goalInput == ""
  {
    TrimEmptyIffBlank(s.input);
    if Trim(s.input) == "" then s
    else State(s.tasks + [Task(id, s.input, GoalFor(s.goalInput), false)], "", "")
  }

  /* Clicking a task's text. Only the task list changes: its length, order
     and every id, text and goal stay, and `done` flips exactly at the tasks
     whose id is `id`. */
  function ToggleDone(s: State, id: int): (r: State)
    ensures r.input == s.input && r.goalInput == s.goalInput
    ensures |r.tasks| == |s.tasks|
    ensures forall i :: 0 <= i < |s.tasks| ==>
      && r.tasks[i].id == s.tasks[i].id
      && r.tasks[i].text == s.tasks[i].text
      && r.tasks[i].goal == s.tasks[i].goal
      && (r.tasks[i].done <==> (s.tasks[i].done != (s.tasks[i].id == id)))
  {
    s.(tasks := Toggle(s.tasks, id))
  }

  /* A task's Delete button. Only the task list changes: no task with id
     `id` is left, every other task is kept, and nothing new appears. */
  function DeleteTask(s: State, id: int): (r: State)
    ensures r.input == s.input && r.goalInput == s.goalInput
    ensures forall t :: t in r.tasks ==> t.id != id
    ensures forall t :: t in s.tasks && t.id != id ==> t in r.tasks
    ensures forall t :: t in r.tasks ==> t in s.tasks
  {
    s.(tasks := Remove(s.tasks, id))
  }

  /* Clicking the same task twice restores the whole state. */
  lemma ToggleDoneTwice(s: State, id: int)
    ensures ToggleDone(ToggleDone(s, id), id) == s
  {
    ToggleTwice(s.tasks, id);
  }

  /* Deleting twice is no different from deleting once, and deleting an id
     that no task carries changes nothing. */
  lemma DeleteTaskIdempotent(s: State, id: int)
    ensures DeleteTask(DeleteTask(s, id), id) == DeleteTask(s, id)
    ensures (forall t :: t in s.tasks ==> t.id != id) ==> DeleteTask(s, id) == s
  {
    RemoveIdempotent(s.tasks, id);
    RemoveAbsent(s.tasks, id);
  }

  /* A successful add lists the new task's goal last when no earlier task had
     it, and leaves the goals as they were otherwise; a rejected add leaves
     them alone too. */
  lemma GoalsAfterAddTask(s: State, id: int)
    ensures var g := GoalFor(s.goalInput);
      Goals(AddTask(s, id).tasks) ==
        if IsBlank(s.input) || g in Goals(s.tasks) then Goals(s.tasks) else Goals(s.tasks) + [g]
  {
    if !IsBlank(s.input) {
      var r := AddTask(s, id);
      assert r.tasks == s.tasks + [r.tasks[|s.tasks|]];
      GoalsAfterAppend(s.tasks, r.tasks[|s.tasks|]);
    }
  }
}
