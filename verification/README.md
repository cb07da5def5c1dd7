# To-do list task store: a Dafny model

This project models the task store of a browser to-do list. The app exists twice in the
repository: `src/App.js` and `FirstProject/src/App.js`. Both are React class components. Their
methods form a small deterministic state machine over one record:

- the task list `items`, each task `{id, title, status}`;
- the id counter `taskIdCounter`;
- the UI flags `submitDisabled`, `dialogOpen` and `removeMode`;
- two local-storage keys, `toDoListItems` and `taskIdCounter`.

The `FirstProject` copy also has three snackbar flags: `open`, `actionstate` and `deletion`.

Each handler is a pure function from state to state. A `setState` update and its completion
callback, which writes local storage, are one atomic step. Local storage is two `Option`
fields of the state. The render step's three tabs ("To Do", "Done", "All") are a pure
function of the task list.

Modules:

- `Options` (`options.dfy`): the `Option` type used for absent storage keys and close reasons.
- `Tasks` (`tasks.dfy`): the task record and the status flip. It also holds the list operations
  the handlers are built from: the per-id `map`s, the `filter`, and the
  `items.sort(sortBy('id'))` that add, toggle, rename and remove apply. `clearTasks` sets the
  list to empty without sorting, and the other handlers never touch the list.
- `Columns` (`columns.dfy`): the three tabs of `render`. The live `render` of
  `FirstProject/src/App.js` (lines 395-401) builds the same three tabs.
- `TodoApp` (`todo_app.dfy`): the component of `src/App.js`, its gestures, and the store
  invariant.
- `FirstProjectApp` (`first_project_app.dfy`): the component of `FirstProject/src/App.js`.
  Its handlers run the same code as `src/App.js`, so its state wraps `TodoApp.State` and adds
  the three snackbar flags.

The store invariant, `TodoApp.Consistent`, has two parts:

- `Tasks.Valid`: ids strictly increase along the list, and none exceeds the counter.
- `Persisted`: a reload from local storage gives back the current items and counter.

Every handler keeps this invariant. Under it, the re-sort after each mutation moves nothing.
The sort is modelled by a concrete stable insertion sort. The proofs rely only on its
contract: the result is a permutation, sorted by id. `Tasks.SortedPermutationUnique` shows
that under the invariant no other outcome is possible, whatever algorithm the library uses.

Status is a `string`, not an enumeration. Tasks loaded from storage can carry any string,
and the toggle compares against the literal `'To Do'`.

Facts about the code that the model keeps as they are:

- Malformed stored JSON makes `JSON.parse` throw during mount (src/App.js:39). Nothing
  recovers from it, so the model has no error state for it.
- The toggle receives a whole task and flips that task's status, not the stored one. Two
  toggles handed the same task therefore write the same status twice.
- A removal drops every task that carries the id, not just one.
- The empty-title check compares with the exact empty string, so a title of blanks is
  accepted.

## Model

| member | source | states |
|---|---|---|
| `Tasks.Flip` | src/App.js:80 | a toggle writes "Done" exactly when the status it is handed is "To Do", and "To Do" for any other string; the result is always one of the two labels |
| `Tasks.FlipInvolutive` | src/App.js:80 | on the two known labels, flipping twice restores the label |
| `Tasks.FlipNotInvolutiveOffLabels` | src/App.js:80 | on any other status string, flipping twice does not restore it |
| `Tasks.AppendFreshKeepsValid` | src/App.js:54-62 | appending a task with id `counter + 1` to a list whose ids strictly increase and are at most `counter` keeps both properties, with the bound raised to `counter + 1` |
| `Tasks.Insert` | src/App.js:62 | inserting into a list sorted by id keeps it sorted and adds exactly that task |
| `Tasks.InsertBehindHead` | src/App.js:62 | when a task's id is above the head's, the head may stay first in front of any sorted arrangement of the rest |
| `Tasks.SortById` | src/App.js:62 | the by-id sort returns a permutation of its input, sorted by id |
| `Tasks.SameMembers` | src/App.js:62 | a permutation has exactly the same members |
| `Tasks.SortedPermutationUnique` | src/App.js:62 | any permutation of a list with strictly increasing ids that is sorted by id equals that list, so no sort algorithm can reorder it |
| `Tasks.SortedPermutationHead` | src/App.js:62 | a sorted permutation of a strictly ascending list starts with that list's first task |
| `Tasks.Resort` | src/App.js:83 | the re-sort after a handler returns a sorted permutation of the same length, and returns its input unchanged when ids strictly increase |
| `Tasks.Filter` | src/App.js:113 | a filter keeps exactly the tasks in the list that pass the test, and never grows the list |
| `Tasks.FilterAppend` | src/App.js:113 | filtering keeps the original order: the filter of `a + b` is the filter of `a` followed by the filter of `b` |
| `Tasks.FilterKeepsAll` | src/App.js:113 | a filter that every task passes returns the list unchanged |
| `Tasks.FilterKeepsAscending` | src/App.js:113 | a filter of a list with strictly increasing ids still has strictly increasing ids |
| `Tasks.PrependKeepsAscending` | src/App.js:113 | a task whose id is below every id of a strictly ascending list may be put in front of it |
| `Tasks.FilterCounts` | src/App.js:187-188 | two tests that never both accept a task select at most the whole list between them, and exactly the whole list when every task passes one of them |
| `Tasks.SetStatus` | src/App.js:79-81 | the toggle's map keeps length, order, every id and every title; tasks with another id are unchanged; tasks with the argument's id get the flip of the argument's status |
| `Tasks.SetTitle` | src/App.js:96-98 | the rename's map keeps length, order, every id and every status; tasks with another id are unchanged; tasks with the id get the new title, even an empty one |
| `Tasks.Without` | src/App.js:113 | the removal's filter keeps exactly the tasks with another id, and no task with that id survives |
| `Tasks.SameIdsKeepValid` | src/App.js:79-83 | a list with the same ids in the same places as a valid list is valid for the same counter |
| `Tasks.ToggleTwiceRestores` | src/App.js:79-81 | when ids are unique and the task is in the list with a known status, toggling it and then toggling the updated task gives back the original list |
| `Tasks.SameIdsKeepLowerBound` | src/App.js:79-83 | a list with the same ids in the same places as a list whose ids are at least a bound has ids at least that bound |
| `Tasks.ToggleSameTaskIdempotent` | src/App.js:79-81 | mapping twice with the same task argument equals mapping once, because the status written comes from the argument |
| `Tasks.RemoveAbsentIsNoOp` | src/App.js:113 | removing an id that no task carries returns the list unchanged |
| `Tasks.RemovePresentDropsOne` | src/App.js:113 | when ids are unique, removing the id at position `k` yields the tasks before `k` followed by those after it, one shorter |
| `Tasks.OthersHaveOtherIds` | src/App.js:113 | when ids are unique, the tasks before and after a position carry ids other than the one there |
| `Columns.WithStatus` | src/App.js:187-188 | a status column holds exactly the tasks whose status equals that label |
| `Columns.ColumnsOf` | src/App.js:186-190 | render derives three tabs in the order "To Do", "Done", "All": the first holds exactly the "To Do" tasks, the second exactly the "Done" tasks, the third the list itself |
| `Columns.ColumnCounts` | src/App.js:240-243 | the "To Do" and "Done" tab counts add up to at most the "All" count, and to exactly that count when every status is one of the two labels |
| `Columns.ColumnKeepsOrder` | src/App.js:187-188 | a column keeps list order: the column of a concatenation is the concatenation of the columns, and a column of a strictly ascending list is strictly ascending |
| `TodoApp.Construct` | src/App.js:25-32 | before mounting, the list is empty, the counter 0, the button disabled, the dialog closed and remove mode off |
| `TodoApp.UpdateLocalStorageItems` | src/App.js:132-134 | writing the items key overwrites it with the list and leaves the counter key as it was |
| `TodoApp.UpdateTaskCounter` | src/App.js:136-138 | writing the counter key overwrites it and leaves the items key as it was |
| `TodoApp.ComponentWillMount` | src/App.js:35-42 | mounting loads the stored list, or an empty one when the key is absent, and the stored counter, or 0 when absent; nothing else changes |
| `TodoApp.AddTask` | src/App.js:44-73 | an empty field changes nothing; other text, blanks included, advances the counter by one, leaves the list sorted and one longer, disables the button, clears the field, writes both storage keys, and keeps the dialog and remove-mode flags |
| `TodoApp.AddTaskKeepsAll` | src/App.js:54-62 | a non-empty add leaves the list holding every previous task plus exactly the new task: id `counter + 1`, the field's text, status "To Do" |
| `TodoApp.AddTaskAppends` | src/App.js:50-71 | under the invariant, a non-empty add appends the new task after all previous tasks (the sort moves nothing) and the state stays consistent |
| `TodoApp.HandleUpdateTask` | src/App.js:75-90 | a toggle leaves a sorted permutation of the mapped list, writes only the items key, and changes no other field |
| `TodoApp.HandleUpdateTaskInPlace` | src/App.js:75-90 | under the invariant, a toggle's result is exactly the mapped list in its original order, and the state stays consistent |
| `TodoApp.HandleEditTask` | src/App.js:92-107 | a rename leaves a sorted permutation of the mapped list, writes only the items key, and changes no other field |
| `TodoApp.HandleEditTaskInPlace` | src/App.js:92-107 | under the invariant, a rename's result is exactly the mapped list in its original order, and the state stays consistent |
| `TodoApp.HandleRemoveTask` | src/App.js:109-122 | after a removal no task carries the id; the list is sorted and no longer; the counter is untouched; only the items key is written; no other field changes |
| `TodoApp.HandleRemoveTaskKeepsOthers` | src/App.js:109-122 | whatever the list held, a removal keeps exactly the tasks with another id |
| `TodoApp.HandleRemoveTaskInOrder` | src/App.js:109-122 | under the invariant, a removal's result is exactly the filtered list in its original order, and the state stays consistent |
| `TodoApp.HandleTextFieldChange` | src/App.js:124-130 | after a text change the button is disabled exactly when the text is empty; nothing else but the field changes |
| `TodoApp.EnableRemoveMode` | src/App.js:151-155 | afterwards remove mode is on whatever it was before, and nothing else changes |
| `TodoApp.DisableRemoveMode` | src/App.js:157-161 | afterwards remove mode is off whatever it was before, and nothing else changes |
| `TodoApp.RemoveModeTogglesIdempotent` | src/App.js:151-161 | turning remove mode on twice is turning it on once, and likewise for off |
| `TodoApp.HandleDialogOpen` | src/App.js:170-172 | opens the confirmation dialog and changes nothing else |
| `TodoApp.HandleDialogClose` | src/App.js:174-176 | closes the confirmation dialog and changes nothing else |
| `TodoApp.ClearTasks` | src/App.js:163-168 | clearing empties the list, closes the dialog, leaves remove mode, keeps the counter, writes an empty list to the items key and leaves the counter key |
| `TodoApp.KeyPress` | src/App.js:178-182 | key code 13 runs the add handler; any other key changes nothing |
| `TodoApp.BootEmptyIsConsistent` | src/App.js:25-42 | a first visit with empty storage starts with no tasks, counter 0, and a consistent state |
| `TodoApp.StepKeepsConsistent` | src/App.js:44-182 | every handler keeps ids strictly increasing and at most the counter, and keeps storage in step with the state |
| `TodoApp.RunKeepsConsistent` | src/App.js:35-42 | from a consistent state, after any run of gestures, the state is consistent and a page reload restores exactly the items and counter |
| `TodoApp.StepKeepsIdsFromOne` | src/App.js:44-182 | on a consistent state, every handler keeps the counter non-negative and every id at least 1 |
| `TodoApp.RunKeepsIdsFromOne` | src/App.js:50-64 | from a consistent state with ids from 1, any run of gestures keeps the state consistent, the counter non-negative and every id at least 1 |
| `TodoApp.IdsFromEmptyStart` | src/App.js:25-64 | from empty storage, after any run of gestures, every task's id lies between 1 and the counter |
| `TodoApp.RunCounterMonotone` | src/App.js:54-64 | the counter never decreases over any run of gestures |
| `TodoApp.RemoveThenAddIsFresh` | src/App.js:109-122 | removing a task keeps the counter, so the next add issues `counter + 1`, above the removed task's id |
| `TodoApp.ClearThenAddContinues` | src/App.js:163-168 | after clearing, the next add yields the single task with id `counter + 1`, not 1 |
| `TodoApp.ToggleTwiceRestoresItems` | src/App.js:75-90 | under the invariant, toggling a task with a known status and then toggling the updated task restores the list |
| `TodoApp.ToggleSameTaskTwiceIsIdempotent` | src/App.js:75-90 | under the invariant, toggling twice with the same task argument leaves the list as one toggle does: it does not flip back |
| `TodoApp.EnterAfterAddIsNoOp` | src/App.js:178-182 | an add clears the field, so an immediate Enter adds nothing |
| `TodoApp.FirstSessionAdds` | src/App.js:44-73 | from empty storage, adding "Buy milk" then "Walk dog" yields tasks 1 and 2, both "To Do", in a consistent state |
| `TodoApp.FirstSessionEdits` | src/App.js:75-107 | ticking task 1 marks only it "Done"; renaming task 2 changes only its title |
| `TodoApp.FirstSessionRemove` | src/App.js:109-122 | removing task 1 from tasks 1 and 2 leaves only task 2 |
| `TodoApp.FirstSessionClear` | src/App.js:163-168 | after clearing a store whose counter is 2, the next add yields task 3 |
| `FirstProjectApp.Construct` | FirstProject/src/App.js:25-38 | before mounting, all three snackbars are closed and the task store is as in `src/App.js` |
| `FirstProjectApp.HandleToClose` | FirstProject/src/App.js:39-44 | a click-away changes nothing; any other reason, including none, closes all three snackbars; the task store is never touched |
| `FirstProjectApp.HandleToCloseIdempotent` | FirstProject/src/App.js:39-44 | closing twice with the same reason is closing once |
| `FirstProjectApp.ComponentWillMount` | FirstProject/src/App.js:46-53 | mounting loads items and counter as in `src/App.js` and leaves the snackbar flags |
| `FirstProjectApp.AddTask` | FirstProject/src/App.js:55-85 | an empty field changes nothing and raises no snackbar; other text raises "Task added", advances the counter and writes both storage keys; the other two flags are kept |
| `FirstProjectApp.AddTaskAppends` | FirstProject/src/App.js:61-78 | under the invariant, a non-empty add appends the "To Do" task with id `counter + 1` after the others, raises "Task added", and keeps the store consistent |
| `FirstProjectApp.HandleUpdateTask` | FirstProject/src/App.js:87-103 | the toggle acts as in `src/App.js`, writing only the items key; "Task status changed" is raised unconditionally and the other two flags are kept |
| `FirstProjectApp.UpdateOfAbsentIdOnlyRaisesFlag` | FirstProject/src/App.js:87-103 | under the invariant, toggling an id no task carries leaves the list unchanged but still raises "Task status changed" |
| `FirstProjectApp.HandleEditTask` | FirstProject/src/App.js:105-120 | the rename acts as in `src/App.js` and no snackbar flag changes |
| `FirstProjectApp.EditTaskInPlace` | FirstProject/src/App.js:105-120 | under the invariant, a rename changes only the titles of the tasks with that id, keeps order, ids and statuses, and keeps the store consistent |
| `FirstProjectApp.HandleRemoveTask` | FirstProject/src/App.js:122-135 | the removal acts as in `src/App.js`; the counter and the snackbar flags are unchanged |
| `FirstProjectApp.RemoveTaskInOrder` | FirstProject/src/App.js:122-135 | under the invariant, a removal keeps exactly the tasks with another id in their order, keeps the counter, and keeps the store consistent |
| `FirstProjectApp.HandleTextFieldChange` | FirstProject/src/App.js:137-143 | after a text change the button is disabled exactly when the text is empty; the field holds the text; the rest of the store is handled as in `src/App.js`, so nothing else changes; the snackbar flags are unchanged |
| `FirstProjectApp.EnableRemoveMode` | FirstProject/src/App.js:164-168 | remove mode is on afterwards and nothing else changes, so a second call changes nothing |
| `FirstProjectApp.DisableRemoveMode` | FirstProject/src/App.js:170-174 | remove mode is off afterwards and nothing else changes, so a second call changes nothing |
| `FirstProjectApp.HandleDialogOpen` | FirstProject/src/App.js:184-186 | opens the confirmation dialog and changes nothing else |
| `FirstProjectApp.HandleDialogClose` | FirstProject/src/App.js:188-190 | closes the confirmation dialog and changes nothing else |
| `FirstProjectApp.ClearTasks` | FirstProject/src/App.js:176-182 | clearing closes the dialog, empties the list, leaves remove mode, keeps the counter, writes only the items key, keeps the field and the button flag as in `src/App.js`, and raises "All tasks have been removed" |
| `FirstProjectApp.KeyPress` | FirstProject/src/App.js:196-203 | key code 13 runs this component's add handler; any other key changes nothing |
| `FirstProjectApp.StepKeepsConsistent` | FirstProject/src/App.js:39-190 | every handler, snackbar close included, keeps the task store consistent |
| `FirstProjectApp.RunKeepsConsistent` | FirstProject/src/App.js:46-53 | from a consistent state, after any run of gestures, the store is consistent and a page reload restores exactly the items and counter |

## Left out

- Rendering and widgets are not modelled: material-ui components, CSSTransitionGroup,
  SwipeableViews, the tab index `slideIndex`, and `handleChange` with its `window.scrollTo`.
  They only present the state.
- `setState` asynchrony and batching are not modelled. Each handler is one atomic step.
  This includes `FirstProject`'s `setState({open: true})` made inside the add updater, and
  the separate `setState` calls in `clearTasks`, `handleUpdateTask` and `handleToClose`.
- The in-place `items.push` on the previous state's array is not modelled. Aliasing of
  React state is a framework concern; the model builds a new list.
- `JSON.stringify`/`JSON.parse` and `Number` are modelled as exact round trips of the stored
  list and counter. Malformed stored JSON would make `JSON.parse` throw, with no recovery in
  the code, so there is no error state for it.
- A stored counter that `Number` reads as `NaN` is not modelled. The counter is an integer.
- Ids are unbounded integers. JavaScript number precision above 2^53 is not modelled.
- String length: JavaScript counts UTF-16 code units. Only "empty or not" matters to the
  handlers, and that agrees with sequence length.
- A missing text-field element (`this.taskInput.input || {}`) reads as the empty string. The
  model covers this through the empty `input` case, which is a no-op.
- The DOM write of the field's text is modelled in `HandleTextFieldChange`: the field
  becomes the typed value before the handler runs. Clearing the field after an add is in
  `AddTask`.
- The internals of the `sort-by` library are not modelled. `Tasks.SortById` is a stable
  insertion sort standing in for it. Outside the invariant (duplicate ids in hand-edited
  storage), the order of tasks with equal ids depends on the library. There the model
  commits to stable order.
- `ColumnList`, `ConfirmDialog` and `If` are not part of this model. The gestures they
  forward are the `Event` constructors. The toggle and remove lemmas take the task argument
  from the rendered list, as `ColumnList` passes it.
- The commented-out render block in `FirstProject/src/App.js` is dead code and is not
  modelled.
- The `SecondProject` dashboard is not part of this model. It is GraphQL client wiring,
  query strings and table setup, with no logic of its own.
- `TodoApp.AddTask`: its own contract gives the new list's length and sortedness. Its content
  is stated by `TodoApp.AddTaskKeepsAll` and `TodoApp.AddTaskAppends`. Keeping the multiset
  out of the function's contract keeps the proofs that mention `AddTask` small.
- `TodoApp.HandleRemoveTask`: its own contract says that the id is gone and the list did not
  grow. Exactly which tasks remain is stated by `TodoApp.HandleRemoveTaskKeepsOthers` and
  `TodoApp.HandleRemoveTaskInOrder`, for the same reason.
- `TodoApp.RemoveThenAddIsFresh`: states freshness through the counter. The new task's place
  in the list is stated by `TodoApp.AddTaskAppends`.
