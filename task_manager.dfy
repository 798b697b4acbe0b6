/**
 * The in-memory task store: an ordered list of tasks and the counter that
 * hands out ids. Each method changes the two fields as the source does and
 * states the new state in terms of the functions of TaskModel.
 */
module TaskStore {
  import opened Wrappers
  import opened JsValues
  import opened TaskModel
  import Utils

  class TaskManager {
    var tasks: seq<Task>
    var taskIdCounter: int

    /**
     * The invariant the operations keep: ids below the counter and pairwise
     * distinct, texts non-empty and trimmed. `SetTasks` trusts its input and
     * re-establishes only the first part.
     */
    ghost predicate Valid()
      reads this
    {
      IdsBelow(tasks, taskIdCounter) && DistinctIds(tasks) && TextsTrimmed(tasks)
    }

    constructor()
      ensures tasks == [] && taskIdCounter == 1
      ensures Valid()
    {
      tasks := [];
      taskIdCounter := 1;
    }

    /**
     * `addTask(text, dueDate)`: throws, changing nothing, unless the text is
     * valid; otherwise appends one new incomplete task whose id is the old
     * counter and whose text is the trimmed text, and bumps the counter.
     */
    method AddTask(text: JsValue, dueDate: Option<string>, createdAt: string) returns (r: Result<Task, TaskError>)
      modifies this
      ensures r.Err? <==> !Utils.ValidateTaskText(text)
      ensures r.Err? ==> r == Err(CheckText(text).error)
      ensures r.Err? ==> tasks == old(tasks) && taskIdCounter == old(taskIdCounter)
      ensures r.Ok? ==> r.value == Task(old(taskIdCounter), Trim(text.s), false, StoredDueDate(dueDate), createdAt)
      ensures r.Ok? ==> tasks == old(tasks) + [r.value] && taskIdCounter == old(taskIdCounter) + 1
      ensures old(IdsBelow(tasks, taskIdCounter)) ==> IdsBelow(tasks, taskIdCounter)
      ensures old(IdsBelow(tasks, taskIdCounter) && DistinctIds(tasks)) ==> DistinctIds(tasks)
      ensures old(Valid()) ==> Valid()
    {
      var checked := CheckText(text);
      if checked.Err? {
        return Err(checked.error);
      }
      var task := Task(taskIdCounter, checked.value, false, StoredDueDate(dueDate), createdAt);
      TrimIdempotent(text.s);
      AppendKeepsWellFormed(tasks, taskIdCounter, task);
      taskIdCounter := taskIdCounter + 1;
      tasks := tasks + [task];
      r := Ok(task);
    }

    /**
     * `deleteTask(id)`: keeps the tasks with other ids, in order, and reports
     * whether the list got shorter, i.e. whether the id was present.
     */
    method DeleteTask(taskId: int) returns (removed: bool)
      modifies this
      ensures tasks == Filter(old(tasks), Not(HasId(taskId)))
      ensures removed <==> taskId in Ids(old(tasks))
      ensures Ids(tasks) == Ids(old(tasks)) - {taskId}
      ensures taskIdCounter == old(taskIdCounter)
      ensures old(IdsBelow(tasks, taskIdCounter)) ==> IdsBelow(tasks, taskIdCounter)
      ensures old(IdsBelow(tasks, taskIdCounter) && DistinctIds(tasks)) ==> DistinctIds(tasks)
      ensures old(Valid()) ==> Valid()
    {
      var initialLength := |tasks|;
      DeleteById(tasks, taskId);
      FilterKeepsWellFormed(tasks, Not(HasId(taskId)), taskIdCounter);
      if TextsTrimmed(tasks) {
        FilterKeepsTexts(tasks, Not(HasId(taskId)));
      }
      tasks := Filter(tasks, Not(HasId(taskId)));
      removed := |tasks| < initialLength;
    }

    /**
     * `toggleComplete(id)`: flips `completed` on the first task with that id
     * and returns it; returns null and changes nothing when no task has it.
     */
    method ToggleComplete(taskId: int) returns (r: Option<Task>)
      modifies this
      ensures tasks == UpdateFirst(old(tasks), taskId, ToggleCompleted)
      ensures r.None? <==> taskId !in Ids(old(tasks))
      ensures r.Some? ==> var k := FindIndex(old(tasks), taskId).value;
                          r.value == tasks[k] && r.value.completed == !old(tasks)[k].completed
      ensures taskIdCounter == old(taskIdCounter)
      ensures old(IdsBelow(tasks, taskIdCounter)) ==> IdsBelow(tasks, taskIdCounter)
      ensures old(IdsBelow(tasks, taskIdCounter) && DistinctIds(tasks)) ==> DistinctIds(tasks)
      ensures old(Valid()) ==> Valid()
    {
      UpdateKeepsWellFormed(tasks, taskId, ToggleCompleted, taskIdCounter);
      var found := FindIndex(tasks, taskId);
      tasks := UpdateFirst(tasks, taskId, ToggleCompleted);
      if found.Some? {
        r := Some(tasks[found.value]);
      } else {
        r := None;
      }
    }

    /**
     * `editTask(id, newText)`: checks the text before looking the id up, so a
     * throw changes nothing; a missing id returns null and changes nothing;
     * otherwise only the text of the first task with that id changes, to the
     * trimmed text.
     */
    method EditTask(taskId: int, newText: JsValue) returns (r: Result<Option<Task>, TaskError>)
      modifies this
      ensures r.Err? <==> !Utils.ValidateTaskText(newText)
      ensures r.Err? ==> r == Err(CheckText(newText).error) && tasks == old(tasks)
      ensures r.Ok? ==> tasks == UpdateFirst(old(tasks), taskId, ReplaceText(Trim(newText.s)))
      ensures r.Ok? ==> (r.value.None? <==> taskId !in Ids(old(tasks)))
      ensures r.Ok? && r.value.Some? ==> var k := FindIndex(old(tasks), taskId).value;
                                          r.value.value == tasks[k] && tasks[k].text == Trim(newText.s)
      ensures taskIdCounter == old(taskIdCounter)
      ensures old(IdsBelow(tasks, taskIdCounter)) ==> IdsBelow(tasks, taskIdCounter)
      ensures old(IdsBelow(tasks, taskIdCounter) && DistinctIds(tasks)) ==> DistinctIds(tasks)
      ensures old(Valid()) ==> Valid()
    {
      var checked := CheckText(newText);
      if checked.Err? {
        return Err(checked.error);
      }
      TrimIdempotent(newText.s);
      UpdateKeepsWellFormed(tasks, taskId, ReplaceText(checked.value), taskIdCounter);
      var found := FindIndex(tasks, taskId);
      tasks := UpdateFirst(tasks, taskId, ReplaceText(checked.value));
      if found.Some? {
        r := Ok(Some(tasks[found.value]));
      } else {
        r := Ok(None);
      }
    }

    /** `getFilteredTasks(filter)`: the view of the current list for a filter mode. */
    function GetFilteredTasks(filter: string): (r: seq<Task>)
      reads this
      ensures r == Filtered(tasks, filter)
      ensures filter == "active" ==> forall i :: 0 <= i < |r| ==> !r[i].completed
      ensures filter == "completed" ==> forall i :: 0 <= i < |r| ==> r[i].completed
      ensures filter != "active" && filter != "completed" ==> r == tasks
      ensures forall i :: 0 <= i < |r| ==> r[i] in tasks
    {
      Filtered(tasks, filter)
    }

    /** `getTasks()`: the whole list, the same as the view for "all". */
    function GetTasks(): (r: seq<Task>)
      reads this
      ensures r == GetFilteredTasks("all")
    {
      tasks
    }

    /** `getNextId()`: strictly above every id present; 1 for an empty list. */
    function GetNextId(): (n: int)
      reads this
      ensures n == NextId(tasks)
      ensures IdsBelow(tasks, n)
      ensures tasks == [] ==> n == 1
      ensures tasks != [] ==> n - 1 in Ids(tasks)
    {
      NextId(tasks)
    }

    /**
     * `setTasks(tasks)`: replaces the list (null becoming the empty list) and
     * recomputes the counter from the ids, so every id is below it.
     */
    method SetTasks(newTasks: Option<seq<Task>>)
      modifies this
      ensures tasks == (if newTasks.Some? then newTasks.value else [])
      ensures taskIdCounter == NextId(tasks)
      ensures IdsBelow(tasks, taskIdCounter)
      ensures DistinctIds(tasks) && TextsTrimmed(tasks) ==> Valid()
    {
      tasks := if newTasks.Some? then newTasks.value else [];
      taskIdCounter := GetNextId();
    }
  }
}
