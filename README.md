# Task store of the to-do list application, in Dafny

This project models the in-memory task store of a browser to-do list. The
store is the `TaskManager` class. It holds an ordered array of task records
`{id, text, completed, dueDate, createdAt}` and a `taskIdCounter`, and offers
these operations:

- add a task, after checking and trimming its text;
- delete a task by id;
- toggle a task's completion;
- edit a task's text;
- give a filtered view of the list (`all`, `active`, `completed`);
- replace the whole list, recomputing the counter;
- return the list and the next free id.

The project also models `Utils.validateTaskText`, the text check the
application runs before it calls add or edit.

The class exists twice in the repository with the same logic:
`js/TaskManager.js` and `script-fixed.js:115-234`. The same holds for
`validateTaskText`: `js/Utils.js:31-36` and `script-fixed.js:49-54`. One
Dafny class and one function model both copies. The table below cites
either copy.

Files:

- `wrappers.dfy`: `Option` stands for `null` returns. `Result` stands for a
  call that either returns or throws.
- `js_values.dfy`: the JavaScript facts the store depends on. `JsValue` gives
  the kind of an argument. `Truthy` is the meaning of `!x`. `Trim` is
  `String.prototype.trim` over the ECMAScript white-space and
  line-terminator characters.
- `utils.dfy`: `Utils.ValidateTaskText`.
- `task_model.dfy`: the `Task` record and pure functions over `seq<Task>`.
  These specify the store: the text guard, the lookup of the first task with
  an id, `filter`, the change made to one task, and the next id. It also
  holds the lemmas about these functions.
- `task_manager.dfy`: the class `TaskManager`. Its fields are `tasks`
  (a `seq<Task>`) and `taskIdCounter` (an `int`). Each method's `ensures`
  gives the new state in terms of `task_model.dfy`. Add, delete, toggle and
  edit each keep "ids below the counter", keep "ids pairwise distinct" when
  ids were also below the counter, and keep `Valid()`. `SetTasks` does not
  keep `Valid()` in general (see below). `Valid()` is: ids below the counter
  and pairwise distinct, texts non-empty and trimmed.

Things the model takes as parameters:

- Text arguments are `JsValue`s. This lets the model state that `addTask` and
  `editTask` throw exactly when `validateTaskText` rejects the argument. A
  falsy argument throws `Error('Task text cannot be empty')`. A truthy
  non-string throws a `TypeError`, because it has no `trim`.
- The `createdAt` timestamp, which the source reads from the clock, is a
  parameter.
- The due date is an `Option<string>`. The filter mode is a `string`.

Facts about the code that the model keeps:

- `setTasks` sets the counter to the largest id plus one
  (js/TaskManager.js:69,73-74). A list whose ids are all negative therefore
  gives a counter of 0 or less, so the counter is an `int`.
- `setTasks` does not check its input. After it, only "every id is below the
  counter" is guaranteed. Distinct ids and trimmed texts hold only if the
  input already had them.

## Model

| member | source | states |
|---|---|---|
| `Utils.ValidateTaskText` | js/Utils.js:31-36 | True exactly when the argument is a string with at least one non-white-space character. False for null, undefined, the empty string, any other non-string and any blank string. |
| `Utils.ValidateIsTrimInvariant` | js/Utils.js:35 | Validity of a string is the same before and after trimming it. |
| `JsValues.Trim` | js/TaskManager.js:14 | `trim` gives the empty string exactly for blank input. Otherwise the result starts and ends with a non-white-space character. It is never longer than the input. |
| `JsValues.TrimStripsPadding` | script-fixed.js:138 | An independent description of `trim`: padding a string that is empty, or that starts and ends with non-spaces, with any white space on both sides and then trimming gives the string back (`" x "` gives `"x"`). |
| `JsValues.TrimIdempotent` | js/TaskManager.js:46 | Trimming an already trimmed text changes nothing, so stored texts stay trimmed. |
| `TaskModel.CheckText` | js/TaskManager.js:8-14 | The add/edit guard succeeds exactly when `validateTaskText` accepts the argument, and then yields the trimmed, non-empty text. It fails with a `TypeError` exactly for a truthy non-string. Every other failure is the empty-text error. |
| `TaskModel.StoredDueDate` | js/TaskManager.js:16 | An absent or empty due date is stored as null. Any other due date is stored unchanged. |
| `TaskModel.FindIndex` | js/TaskManager.js:31 | `find` locates the first task with the id: that task has the id and no earlier task does. There is no result exactly when no task has the id. |
| `TaskModel.Filter` | js/TaskManager.js:26 | `filter` returns at most as many tasks as the input. Every task it returns meets the criterion and is in the input. Every input task that meets the criterion is returned. |
| `TaskModel.FilterPartition` | script-fixed.js:198-207 | A filter and its negation split the list into two order-preserving parts that interleave back into the list, in either order. |
| `TaskModel.DeleteById` | js/TaskManager.js:24-28 | After `deleteTask`'s filter, no task has the id. The remaining ids are the old ids without it. The list got shorter exactly when the id was present. The kept and removed tasks interleave back into the old list. |
| `TaskModel.DeleteAbsent` | script-fixed.js:153-157 | Deleting an id that is not present leaves the list unchanged, so a second delete of the same id finds nothing. |
| `TaskModel.FilterKeepsWellFormed` | js/TaskManager.js:26 | Filtering keeps "every id is below the counter", and separately keeps "ids are pairwise distinct". Neither needs the other. |
| `TaskModel.FilterKeepsTexts` | script-fixed.js:155 | Filtering keeps every stored text non-empty and trimmed. |
| `TaskModel.Filtered` | js/TaskManager.js:52-61 | The `active` view holds only incomplete tasks and the `completed` view only completed ones. Every other mode gives the whole list. Every task in a view is in the list. |
| `TaskModel.ViewsPartition` | js/TaskManager.js:54-57 | The `active` and `completed` views interleave back into the whole list. Their lengths and multisets add up to the list's. Their ids together are the list's ids. With distinct ids the two id sets are disjoint. |
| `TaskModel.Apply` | js/TaskManager.js:33 | The change made to the found task. Toggling flips only `completed`. Editing replaces only `text`. `id`, `dueDate` and `createdAt` never change. |
| `TaskModel.UpdateFirst` | script-fixed.js:165-168 | Acting on the first task with an id keeps the length and the id at every position. It changes only that task. With no match it changes nothing. |
| `TaskModel.ToggleTwice` | script-fixed.js:164-171 | Toggling the same id twice restores the original list. |
| `TaskModel.EditTwice` | js/TaskManager.js:39-50 | Two edits of the same id leave the list as the second edit alone would. |
| `TaskModel.UpdateKeepsWellFormed` | script-fixed.js:180-191 | A toggle or an edit keeps ids below the counter, and separately keeps ids distinct, whatever the texts. If the texts were trimmed and non-empty, and an edit's new text is too, they stay so. |
| `TaskModel.MaxId` | js/TaskManager.js:73 | `Math.max` over the ids is at least every id and is itself one of the ids. |
| `TaskModel.NextId` | js/TaskManager.js:72-75 | The next id is above every id present. It is 1 for an empty list. Otherwise it is one more than an id present, i.e. max id + 1. |
| `TaskModel.NextIdDependsOnlyOnIds` | script-fixed.js:221-233 | Two lists with the same set of ids get the same next id, whatever their order or repetitions. |
| `TaskModel.AppendKeepsWellFormed` | js/TaskManager.js:12-20 | Appending a task whose id is the counter, then bumping the counter, keeps ids below the counter. It keeps ids distinct when they were below the counter. It keeps texts trimmed when the new text is trimmed too. |
| `TaskStore.TaskManager.constructor` | js/TaskManager.js:2-5 | A new store is empty with counter 1, and valid. |
| `TaskStore.TaskManager.AddTask` | js/TaskManager.js:7-22 | Throws exactly when `validateTaskText` rejects the text, and then changes nothing. Otherwise it appends one task: id is the old counter, text is trimmed, `completed` is false, the due date is as stored, the given timestamp. It bumps the counter by one, returns the task. It keeps ids below the counter, keeps ids distinct when they were below the counter, and keeps `Valid()`. |
| `TaskStore.TaskManager.DeleteTask` | js/TaskManager.js:24-28 | The list becomes the tasks with other ids, in order. Returns true exactly when the id was present. Afterwards the id is gone. The counter is unchanged. It keeps ids below the counter, keeps ids distinct when they were below the counter, and keeps `Valid()`. |
| `TaskStore.TaskManager.ToggleComplete` | js/TaskManager.js:30-37 | Flips `completed` on the first task with the id and returns that task. Returns null exactly when the id is absent, and then changes nothing. The counter is unchanged. It keeps ids below the counter, keeps ids distinct when they were below the counter, and keeps `Valid()`. |
| `TaskStore.TaskManager.EditTask` | js/TaskManager.js:39-50 | Throws, with no change, exactly when the text is invalid, before any lookup. Returns null exactly when the id is absent. Otherwise only the first matching task's text changes, to the trimmed text, and that task is returned. The counter is unchanged. It keeps ids below the counter, keeps ids distinct when they were below the counter, and keeps `Valid()`. |
| `TaskStore.TaskManager.GetFilteredTasks` | script-fixed.js:198-207 | The `active` view holds only incomplete tasks and the `completed` view only completed ones. Any other mode gives the whole list. Every task in a view is in the list. The result is `Filtered` of the list, so `ViewsPartition` applies. |
| `TaskStore.TaskManager.GetTasks` | js/TaskManager.js:63-65 | The whole list, equal to the `all` view. |
| `TaskStore.TaskManager.GetNextId` | js/TaskManager.js:72-75 | Above every id present. 1 for an empty list. Otherwise one more than an id present, i.e. max id + 1. |
| `TaskStore.TaskManager.SetTasks` | js/TaskManager.js:67-70 | Replaces the list, with null giving the empty list. Sets the counter to the next id of the new list, so every id is below it. The store is valid again if the new list has distinct ids and trimmed texts. |

## Left out

- Aliasing. In the source, `getTasks` and the default branch of
  `getFilteredTasks` return the live array. `setTasks` keeps the caller's
  array, and the records returned by `addTask`, `toggleComplete` and
  `editTask` are the stored objects. Here all of these are values, so a
  caller's later changes through such a reference are not modelled.
- JavaScript number semantics for ids and the counter: doubles, NaN, and the
  loss of `++` above 2^53. Ids are unbounded integers here. `Math.max` over a
  spread argument list can throw `RangeError` on a huge array; that is not
  modelled either.
- Task records passed to `setTasks` whose `id` is not a number, or whose
  fields are missing. The model's `Task` always has every field.
- SetTasks: a truthy argument that is not an array is not modelled; the
  argument is a list or null. In the source (js/TaskManager.js:68), such an
  argument can come from parsing stored text. For an object such as `{}`,
  `getNextId` gives 1, and a later `addTask` bumps the counter (line 13)
  before `push` throws (line 20). For a string, `getNextId` throws at `map`.
- A text argument that is an object with its own `trim` method. Every truthy
  non-string is taken to lack `trim`.
- The `createdAt` clock read (`new Date().toISOString()`): the timestamp is a
  parameter.
- A filter mode that is not a string. Such a mode falls to the default branch
  in the source too. `undefined` takes the default parameter `'all'` there.
- Local storage (`StorageManager`), the DOM layer (`UIManager`), the
  application coordinator (`TodoApp`), and the other `Utils` helpers
  (`formatDueDate`, `escapeHtml`, `isValidDate`, `generateId`, `debounce`,
  `showNotification`). These are host-API, clock, timer and DOM code and are
  not part of this model.
