/**
 The to-do list component of `FirstProject/src/App.js`. Its task store and
 handlers are the same code as `src/App.js`, so its state wraps that model's
 state and adds the three snackbar flags: `open` ("Task added successfully"),
 `actionstate` ("Task status changed!") and `deletion` ("All tasks have been
 removed !").
 */
module FirstProjectApp {
  import opened Options
  import opened Tasks
  import TodoApp

  /** The close reason a snackbar reports for a click outside it. */
  const CLICKAWAY: string := "clickaway"

  datatype State = State(app: TodoApp.State, open: bool, actionstate: bool, deletion: bool)

  /** The three flags do not change. */
  predicate SameFlags(s: State, r: State) {
    r.open == s.open && r.actionstate == s.actionstate && r.deletion == s.deletion
  }

  /** The component as constructed: all three snackbars closed. */
  function Construct(storage: TodoApp.Storage): (s: State)
    ensures !s.open && !s.actionstate && !s.deletion
    ensures s.app == TodoApp.Construct(storage)
  {
    State(TodoApp.Construct(storage), false, false, false)
  }

  /** `handleToClose`: a click-away changes nothing; any other reason, the
      close button's missing one included, closes all three snackbars. */
  function HandleToClose(s: State, reason: Option<string>): (r: State)
    ensures reason == Some(CLICKAWAY) ==> r == s
    ensures reason != Some(CLICKAWAY) ==> !r.open && !r.deletion && !r.actionstate
    ensures r.app == s.app
  {
    if reason == Some(CLICKAWAY) then s
    else s.(open := false, deletion := false, actionstate := false)
  }

  /** `componentWillMount`: loads items and counter, as in `src/App.js`. */
  function ComponentWillMount(s: State): (r: State)
    ensures r.app == TodoApp.ComponentWillMount(s.app)
    ensures SameFlags(s, r)
  {
    s.(app := TodoApp.ComponentWillMount(s.app))
  }

  /** `addTask`: an empty field changes nothing and raises no snackbar; any
      other text is added as in `src/App.js` and raises "Task added". */
  function AddTask(s: State): (r: State)
    ensures s.app.input == "" ==> r == s
    ensures s.app.input != "" ==>
      && r.open
      && r.app == TodoApp.AddTask(s.app)
      && r.app.taskIdCounter == s.app.taskIdCounter + 1
      && r.app.storage == TodoApp.Storage(Some(r.app.items), Some(r.app.taskIdCounter))
    ensures r.actionstate == s.actionstate && r.deletion == s.deletion
  {
    if s.app.input == "" then s
    else s.(app := TodoApp.AddTask(s.app), open := true)
  }

  /** `handleUpdateTask`: toggles as in `src/App.js` and raises "Task status
      changed" whether or not any task matched. */
  function HandleUpdateTask(s: State, task: Task): (r: State)
    ensures r.actionstate
    ensures r.app == TodoApp.HandleUpdateTask(s.app, task)
    ensures r.open == s.open && r.deletion == s.deletion
  {
    s.(app := TodoApp.HandleUpdateTask(s.app, task), actionstate := true)
  }

  /** `handleEditTask`: renames as in `src/App.js`; no snackbar. */
  function HandleEditTask(s: State, id: int, newTitle: string): (r: State)
    ensures r.app == TodoApp.HandleEditTask(s.app, id, newTitle)
    ensures SameFlags(s, r)
  {
    s.(app := TodoApp.HandleEditTask(s.app, id, newTitle))
  }

  /** `handleRemoveTask`: removes as in `src/App.js`; no snackbar. */
  function HandleRemoveTask(s: State, task: Task): (r: State)
    ensures r.app == TodoApp.HandleRemoveTask(s.app, task)
    ensures r.app.taskIdCounter == s.app.taskIdCounter
    ensures SameFlags(s, r)
  {
    s.(app := TodoApp.HandleRemoveTask(s.app, task))
  }

  /** `handleTextFieldChange`: the button is disabled exactly when the text is empty. */
  function HandleTextFieldChange(s: State, value: string): (r: State)
    ensures r.app.submitDisabled <==> |value| == 0
    ensures r.app.input == value
    ensures r.app == TodoApp.HandleTextFieldChange(s.app, value)
    ensures SameFlags(s, r)
  {
    s.(app := TodoApp.HandleTextFieldChange(s.app, value))
  }

  /** `enableRemoveMode`: remove mode on, nothing else changes. */
  function EnableRemoveMode(s: State): (r: State)
    ensures r == s.(app := s.app.(removeMode := true))
  {
    s.(app := TodoApp.EnableRemoveMode(s.app))
  }

  /** `disableRemoveMode`: remove mode off, nothing else changes. */
  function DisableRemoveMode(s: State): (r: State)
    ensures r == s.(app := s.app.(removeMode := false))
  {
    s.(app := TodoApp.DisableRemoveMode(s.app))
  }

  /** `handleDialogOpen`. */
  function HandleDialogOpen(s: State): (r: State)
    ensures r == s.(app := s.app.(dialogOpen := true))
  {
    s.(app := TodoApp.HandleDialogOpen(s.app))
  }

  /** `handleDialogClose`. */
  function HandleDialogClose(s: State): (r: State)
    ensures r == s.(app := s.app.(dialogOpen := false))
  {
    s.(app := TodoApp.HandleDialogClose(s.app))
  }

  /** `clearTasks`: clears as in `src/App.js` (dialog closed, list empty,
      remove mode off, counter kept) and raises "All tasks have been removed". */
  function ClearTasks(s: State): (r: State)
    ensures r.deletion
    ensures r.app.items == [] && !r.app.dialogOpen && !r.app.removeMode
    ensures r.app.taskIdCounter == s.app.taskIdCounter
    ensures r.app.storage == TodoApp.Storage(Some([]), s.app.storage.taskIdCounter)
    ensures r.app == TodoApp.ClearTasks(s.app)
    ensures r.open == s.open && r.actionstate == s.actionstate
  {
    s.(app := TodoApp.ClearTasks(s.app), deletion := true)
  }

  /** `keyPress`: the Enter key runs this component's `addTask`. */
  function KeyPress(s: State, keyCode: int): (r: State)
    ensures keyCode == TodoApp.ENTER ==> r == AddTask(s)
    ensures keyCode != TodoApp.ENTER ==> r == s
  {
    if keyCode == TodoApp.ENTER then AddTask(s) else s
  }

  // ---------------------------------------------------------------------------
  // Gestures and runs

  datatype Event =
    | Add
    | Toggle(task: Task)
    | Edit(id: int, newTitle: string)
    | Remove(task: Task)
    | TextFieldChange(value: string)
    | EnableRemove
    | DisableRemove
    | DialogOpen
    | DialogClose
    | Clear
    | Key(keyCode: int)
    | CloseSnackbar(reason: Option<string>)

  function Step(s: State, e: Event): State {
    match e
    case Add => AddTask(s)
    case Toggle(task) => HandleUpdateTask(s, task)
    case Edit(id, newTitle) => HandleEditTask(s, id, newTitle)
    case Remove(task) => HandleRemoveTask(s, task)
    case TextFieldChange(value) => HandleTextFieldChange(s, value)
    case EnableRemove => EnableRemoveMode(s)
    case DisableRemove => DisableRemoveMode(s)
    case DialogOpen => HandleDialogOpen(s)
    case DialogClose => HandleDialogClose(s)
    case Clear => ClearTasks(s)
    case Key(keyCode) => KeyPress(s, keyCode)
    case CloseSnackbar(reason) => HandleToClose(s, reason)
  }

  function Run(s: State, events: seq<Event>): State
    decreases |events|
  {
    if events == [] then s else Run(Step(s, events[0]), events[1..])
  }

  // ---------------------------------------------------------------------------
  // Properties

  /** Under the invariant, a non-empty add appends the "To Do" task with id
      `counter + 1` after the others and raises "Task added". */
  lemma AddTaskAppends(s: State)
    requires TodoApp.Consistent(s.app)
    requires s.app.input != ""
    ensures AddTask(s).app.items == s.app.items + [Task(s.app.taskIdCounter + 1, s.app.input, TODO)]
    ensures AddTask(s).open
    ensures TodoApp.Consistent(AddTask(s).app)
  {
    TodoApp.AddTaskAppends(s.app);
  }

  /** Under the invariant, a toggle of an id no task carries leaves the list
      as it was yet still raises "Task status changed". */
  lemma UpdateOfAbsentIdOnlyRaisesFlag(s: State, task: Task)
    requires TodoApp.Consistent(s.app)
    requires !HasId(s.app.items, task.id)
    ensures HandleUpdateTask(s, task).app.items == s.app.items
    ensures HandleUpdateTask(s, task).actionstate
  {
    TodoApp.HandleUpdateTaskInPlace(s.app, task);
    var items := s.app.items;
    forall i | 0 <= i < |items|
      ensures items[i].id != task.id
    {
      assert items[i] in items;
    }
  }

  /** Under the invariant, a rename touches only the titles of the tasks with
      the given id; ids, statuses, order and every other task are kept. */
  lemma EditTaskInPlace(s: State, id: int, newTitle: string)
    requires TodoApp.Consistent(s.app)
    ensures HandleEditTask(s, id, newTitle).app.items == SetTitle(s.app.items, id, newTitle)
    ensures TodoApp.Consistent(HandleEditTask(s, id, newTitle).app)
  {
    TodoApp.HandleEditTaskInPlace(s.app, id, newTitle);
  }

  /** Under the invariant, a removal keeps exactly the tasks with another id,
      in their order, and keeps the counter. */
  lemma RemoveTaskInOrder(s: State, task: Task)
    requires TodoApp.Consistent(s.app)
    ensures HandleRemoveTask(s, task).app.items == Without(s.app.items, task.id)
    ensures HandleRemoveTask(s, task).app.taskIdCounter == s.app.taskIdCounter
    ensures TodoApp.Consistent(HandleRemoveTask(s, task).app)
  {
    TodoApp.HandleRemoveTaskInOrder(s.app, task);
  }

  /** Closing a snackbar twice is closing it once. */
  lemma HandleToCloseIdempotent(s: State, reason: Option<string>)
    ensures HandleToClose(HandleToClose(s, reason), reason) == HandleToClose(s, reason)
  {
  }

  /** Every gesture keeps the task store consistent; the snackbar flags never
      touch it. */
  lemma StepKeepsConsistent(s: State, e: Event)
    requires TodoApp.Consistent(s.app)
    ensures TodoApp.Consistent(Step(s, e).app)
  {
    match e
    case Add =>
      if s.app.input != "" { TodoApp.AddTaskAppends(s.app); }
    case Key(keyCode) =>
      if keyCode == TodoApp.ENTER && s.app.input != "" { TodoApp.AddTaskAppends(s.app); }
    case Toggle(task) => TodoApp.HandleUpdateTaskInPlace(s.app, task);
    case Edit(id, newTitle) => TodoApp.HandleEditTaskInPlace(s.app, id, newTitle);
    case Remove(task) => TodoApp.HandleRemoveTaskInOrder(s.app, task);
    case _ =>
  }

  /** From a consistent start any run keeps the store consistent, and a page
      reload afterwards restores the items and counter last shown. */
  lemma {:induction false} RunKeepsConsistent(s: State, events: seq<Event>)
    requires TodoApp.Consistent(s.app)
    ensures TodoApp.Consistent(Run(s, events).app)
    ensures TodoApp.Boot(Run(s, events).app.storage).items == Run(s, events).app.items
    ensures TodoApp.Boot(Run(s, events).app.storage).taskIdCounter == Run(s, events).app.taskIdCounter
    decreases |events|
  {
    if events != [] {
      StepKeepsConsistent(s, events[0]);
      RunKeepsConsistent(Step(s, events[0]), events[1..]);
    }
  }
}
