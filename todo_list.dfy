/** The task list of ToDoList.py: a list of strings that grows at the end,
    can have one entry marked as done and can have one entry deleted. */
module ToDoList {
  import opened Wrappers

  /** Python's reading of the index `i` into a list of length `n`: a
      negative index counts from the end; anything outside `-n..n-1`
      raises `IndexError`. */
  function ListIndex(i: int, n: nat): (k: Option<nat>)
    ensures k.Some? <==> -(n as int) <= i < n
    ensures k.Some? ==> k.value < n && k.value == (if i < 0 then i + n else i)
  {
    if 0 <= i < n then Some(i) else if -(n as int) <= i < 0 then Some(i + n) else None
  }

  const Done := " DONE"

  /** The list with entry `k` marked as done. */
  function Marked(tasks: seq<string>, k: nat): (r: seq<string>)
    requires k < |tasks|
    ensures |r| == |tasks|
    ensures r[k] == tasks[k] + Done
    ensures forall j :: 0 <= j < |tasks| && j != k ==> r[j] == tasks[j]
  {
    tasks[k := tasks[k] + Done]
  }

  /** The list with entry `k` deleted. */
  function Removed(tasks: seq<string>, k: nat): (r: seq<string>)
    requires k < |tasks|
    ensures |r| == |tasks| - 1
    ensures forall j :: 0 <= j < k ==> r[j] == tasks[j]
    ensures forall j :: k <= j < |r| ==> r[j] == tasks[j + 1]
  {
    tasks[..k] + tasks[k + 1..]
  }

  /** Marking is not idempotent: a second mark appends a second " DONE". */
  lemma MarkTwice(tasks: seq<string>, k: nat)
    requires k < |tasks|
    ensures Marked(Marked(tasks, k), k)[k] == tasks[k] + " DONE DONE"
    ensures Marked(Marked(tasks, k), k) != Marked(tasks, k)
  {
    var once := Marked(tasks, k);
    var twice := Marked(once, k);
    assert twice[k] == (tasks[k] + Done) + Done;
    assert |twice[k]| == |once[k]| + 5;
  }

  /** Deleting an entry that was just added at the end gives the old list
      back. */
  lemma RemoveAdded(tasks: seq<string>, task: string)
    ensures Removed(tasks + [task], |tasks|) == tasks
  {
  }

  class ToDoList {
    var tasks: seq<string>

    /** A new list is empty. */
    constructor ()
      ensures tasks == []
    {
      tasks := [];
    }

    /** `add_task`: the task goes at the end. */
    method AddTask(task: string)
      modifies this
      ensures tasks == old(tasks) + [task]
    {
      tasks := tasks + [task];
    }

    /** `mark_task_as_completed(i)`: `" DONE"` is appended to the entry,
        or `IndexError` leaves the list as it was. */
    method MarkTaskAsCompleted(taskIndex: int) returns (o: Outcome)
      modifies this
      ensures ListIndex(taskIndex, |old(tasks)|).None? ==> o == Fail(IndexError) && tasks == old(tasks)
      ensures ListIndex(taskIndex, |old(tasks)|).Some? ==>
        o == Pass && tasks == Marked(old(tasks), ListIndex(taskIndex, |old(tasks)|).value)
    {
      var k := ListIndex(taskIndex, |tasks|);
      if k.None? {
        return Fail(IndexError);
      }
      tasks := tasks[k.value := tasks[k.value] + Done];
      return Pass;
    }

    /** `remove_task(i)`: the entry is deleted and later ones move down, or
        `IndexError` leaves the list as it was. */
    method RemoveTask(taskIndex: int) returns (o: Outcome)
      modifies this
      ensures ListIndex(taskIndex, |old(tasks)|).None? ==> o == Fail(IndexError) && tasks == old(tasks)
      ensures ListIndex(taskIndex, |old(tasks)|).Some? ==>
        o == Pass && tasks == Removed(old(tasks), ListIndex(taskIndex, |old(tasks)|).value)
    {
      var k := ListIndex(taskIndex, |tasks|);
      if k.None? {
        return Fail(IndexError);
      }
      tasks := tasks[..k.value] + tasks[k.value + 1..];
      return Pass;
    }
  }

  /** A small session: two tasks, the first marked twice, the second
      removed by a negative index. */
  method Session() returns (tasks: seq<string>)
    ensures tasks == ["shop DONE DONE"]
  {
    var list := new ToDoList();
    list.AddTask("shop");
    list.AddTask("cook");
    var o := list.MarkTaskAsCompleted(0);
    o := list.MarkTaskAsCompleted(0);
    o := list.RemoveTask(-1);
    assert "shop" + Done + Done == "shop DONE DONE";
    tasks := list.tasks;
  }
}
