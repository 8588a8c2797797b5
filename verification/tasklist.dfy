/**
 The task records of the planner and the two list transformations its
 handlers apply: flipping `done` on the tasks with a given id, and removing
 the tasks with a given id. Ids are not assumed to be unique, so both act on
 every task whose id matches.
 */
module TaskList {
  import opened Seqs

  /* A timestamp-derived id, the text typed in, the goal it is grouped
     under, and whether it has been marked done. */
  datatype Task = Task(id: int, text: string, goal: string, done: bool)

  /* Flips `done` on every task whose id is `id`; everything else, and the
     order, stays as it was. */
  function Toggle(tasks: seq<Task>, id: int): (r: seq<Task>)
    ensures |r| == |tasks|
    ensures forall i :: 0 <= i < |tasks| ==>
      && r[i].id == tasks[i].id
      && r[i].text == tasks[i].text
      && r[i].goal == tasks[i].goal
      && (r[i].done <==> (tasks[i].done != (tasks[i].id == id)))
  {
    seq(|tasks|, i requires 0 <= i < |tasks| =>
      var t := tasks[i];
      if t.id == id then t.(done := !t.done) else t)
  }

  /* Toggling the same id twice restores the list. */
  lemma ToggleTwice(tasks: seq<Task>, id: int)
    ensures Toggle(Toggle(tasks, id), id) == tasks
  {
    var r := Toggle(Toggle(tasks, id), id);
    assert forall i :: 0 <= i < |tasks| ==> r[i] == tasks[i];
  }

  /* Toggling an id that no task carries changes nothing. */
  lemma ToggleAbsent(tasks: seq<Task>, id: int)
    requires forall t :: t in tasks ==> t.id != id
    ensures Toggle(tasks, id) == tasks
  {
    var r := Toggle(tasks, id);
    forall i | 0 <= i < |tasks|
      ensures r[i] == tasks[i]
    {
      assert tasks[i] in tasks;
    }
  }

  /* The filter condition of Remove: the task's id is not `id`. */
  function OtherId(id: int): Task -> bool
  {
    (t: Task) => t.id != id
  }

  /* Removes every task whose id is `id`, keeping the others in order. */
  function Remove(tasks: seq<Task>, id: int): (r: seq<Task>)
    ensures forall t :: t in r ==> t.id != id
    ensures forall t :: t in tasks && t.id != id ==> t in r
    ensures forall t :: t in r ==> t in tasks
  {
    Filter(tasks, OtherId(id))
  }

  /* The tasks Remove keeps are exactly those at the positions of `tasks`
     whose id differs from `id`, in ascending order of position. */
  lemma RemoveKeepsOrder(tasks: seq<Task>, id: int)
    ensures Selects(tasks, Remove(tasks, id), FilterPositions(tasks, OtherId(id)), OtherId(id))
  {
    FilterKeepsOrder(tasks, OtherId(id));
  }

  /* Removing the same id twice is the same as removing it once. */
  lemma RemoveIdempotent(tasks: seq<Task>, id: int)
    ensures Remove(Remove(tasks, id), id) == Remove(tasks, id)
  {
    FilterIdempotent(tasks, OtherId(id));
  }

  /* Removing an id no task carries changes nothing, and only then. */
  lemma RemoveAbsent(tasks: seq<Task>, id: int)
    ensures Remove(tasks, id) == tasks <==> forall t :: t in tasks ==> t.id != id
  {
    FilterIdentity(tasks, OtherId(id));
  }
}
