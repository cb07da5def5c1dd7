/**
 The to-do list component of `src/App.js` as a state machine. Each handler is
 one atomic step: its `setState` update together with the completion callback
 that writes local storage. Local storage is two fields of the state.
 */
module TodoApp {
  import opened Options
  import opened Tasks

  /** The key code of the Enter key. */
  const ENTER: int := 13

  /** The two local-storage keys the app writes, `toDoListItems` and
      `taskIdCounter`; `None` is a key never written. */
  datatype Storage = Storage(toDoListItems: Option<seq<Task>>, taskIdCounter: Option<int>)

  const EMPTY_STORAGE: Storage := Storage(None, None)

  datatype State = State(
    items: seq<Task>,
    taskIdCounter: int,
    submitDisabled: bool,
    dialogOpen: bool,
    removeMode: bool,
    /** The current text of the "Add Task" field, which `addTask` reads. */
    input: string,
    storage: Storage)

  /** The component as constructed, before it mounts, over a browser whose
      local storage holds `storage`. */
  function Construct(storage: Storage): (s: State)
    ensures s.items == [] && s.taskIdCounter == 0
    ensures s.submitDisabled && !s.dialogOpen && !s.removeMode
    ensures s.storage == storage
  {
    State([], 0, true, false, false, "", storage)
  }

  // ---------------------------------------------------------------------------
  // Persistence

  /** `updateLocalStorageItems`: overwrites the items key, leaves the counter key. */
  function UpdateLocalStorageItems(storage: Storage, items: seq<Task>): (r: Storage)
    ensures r.toDoListItems == Some(items)
    ensures r.taskIdCounter == storage.taskIdCounter
  {
    storage.(toDoListItems := Some(items))
  }

  /** `updateTaskCounter`: overwrites the counter key, leaves the items key. */
  function UpdateTaskCounter(storage: Storage, counter: int): (r: Storage)
    ensures r.taskIdCounter == Some(counter)
    ensures r.toDoListItems == storage.toDoListItems
  {
    storage.(taskIdCounter := Some(counter))
  }

  /** `componentWillMount`: loads the stored items, or none when the key is
      absent, and the stored counter, or 0 when that key is absent. Nothing
      else changes. */
  function ComponentWillMount(s: State): (r: State)
    ensures s.storage.toDoListItems.None? ==> r.items == []
    ensures s.storage.toDoListItems.Some? ==> r.items == s.storage.toDoListItems.value
    ensures s.storage.taskIdCounter.None? ==> r.taskIdCounter == 0
    ensures s.storage.taskIdCounter.Some? ==> r.taskIdCounter == s.storage.taskIdCounter.value
    ensures r == s.(items := r.items, taskIdCounter := r.taskIdCounter)
  {
    s.(items := s.storage.toDoListItems.GetOr([]),
       taskIdCounter := s.storage.taskIdCounter.GetOr(0))
  }

  /** A fresh page load over `storage`: construct, then mount. */
  function Boot(storage: Storage): State {
    ComponentWillMount(Construct(storage))
  }

  // ---------------------------------------------------------------------------
  // Handlers

  /** `addTask`. An empty field changes nothing; any other text, blanks
      included, becomes a new "To Do" task with the next id, the counter
      advances, the button is disabled, the field is cleared and both storage
      keys are written. */
  function AddTask(s: State): (r: State)
    ensures s.input == "" ==> r == s
    ensures s.input != "" ==>
      && r.taskIdCounter == s.taskIdCounter + 1
      && SortedById(r.items)
      && |r.items| == |s.items| + 1
      && r.submitDisabled
      && r.input == ""
      && r.storage == Storage(Some(r.items), Some(r.taskIdCounter))
      && r.dialogOpen == s.dialogOpen && r.removeMode == s.removeMode
  {
    if s.input == "" then
      s
    else
      var taskId := s.taskIdCounter + 1;
      var items := Resort(s.items + [Task(taskId, s.input, TODO)]);
      s.(items := items,
         submitDisabled := true,
         taskIdCounter := taskId,
         input := "",
         storage := UpdateTaskCounter(UpdateLocalStorageItems(s.storage, items), taskId))
  }

  /** `handleUpdateTask`: the tasks with `task`'s id get the flip of `task`'s
      status, re-sorted; only the items key is written. */
  function HandleUpdateTask(s: State, task: Task): (r: State)
    ensures multiset(r.items) == multiset(SetStatus(s.items, task))
    ensures SortedById(r.items)
    ensures r.storage == UpdateLocalStorageItems(s.storage, r.items)
    ensures r == s.(items := r.items, storage := r.storage)
  {
    var items := Resort(SetStatus(s.items, task));
    s.(items := items, storage := UpdateLocalStorageItems(s.storage, items))
  }

  /** `handleEditTask`: the tasks with id `id` get `newTitle`, even an empty
      one, re-sorted; only the items key is written. */
  function HandleEditTask(s: State, id: int, newTitle: string): (r: State)
    ensures multiset(r.items) == multiset(SetTitle(s.items, id, newTitle))
    ensures SortedById(r.items)
    ensures r.storage == UpdateLocalStorageItems(s.storage, r.items)
    ensures r == s.(items := r.items, storage := r.storage)
  {
    var items := Resort(SetTitle(s.items, id, newTitle));
    s.(items := items, storage := UpdateLocalStorageItems(s.storage, items))
  }

  /** `handleRemoveTask`: drops the tasks with `task`'s id, re-sorted; the
      counter is untouched and only the items key is written. */
  function HandleRemoveTask(s: State, task: Task): (r: State)
    ensures !HasId(r.items, task.id)
    ensures |r.items| <= |s.items|
    ensures SortedById(r.items)
    ensures r.taskIdCounter == s.taskIdCounter
    ensures r.storage == UpdateLocalStorageItems(s.storage, r.items)
    ensures r == s.(items := r.items, storage := r.storage)
  {
    var items := Resort(Without(s.items, task.id));
    SameMembers(items, Without(s.items, task.id));
    s.(items := items, storage := UpdateLocalStorageItems(s.storage, items))
  }

  /** The field's text becomes `value` and `handleTextFieldChange` then leaves
      the button disabled exactly when the text is empty. */
  function HandleTextFieldChange(s: State, value: string): (r: State)
    ensures r.submitDisabled <==> |value| == 0
    ensures r == s.(input := value, submitDisabled := r.submitDisabled)
  {
    var s := s.(input := value);
    if |value| > 0 && s.submitDisabled then
      s.(submitDisabled := false)
    else if |value| == 0 && !s.submitDisabled then
      s.(submitDisabled := true)
    else
      s
  }

  /** `enableRemoveMode`: remove mode is on afterwards, whatever it was. */
  function EnableRemoveMode(s: State): (r: State)
    ensures r == s.(removeMode := true)
  {
    if !s.removeMode then s.(removeMode := true) else s
  }

  /** `disableRemoveMode`: remove mode is off afterwards, whatever it was. */
  function DisableRemoveMode(s: State): (r: State)
    ensures r == s.(removeMode := false)
  {
    if s.removeMode then s.(removeMode := false) else s
  }

  /** `handleDialogOpen`. */
  function HandleDialogOpen(s: State): (r: State)
    ensures r.dialogOpen
    ensures r == s.(dialogOpen := r.dialogOpen)
  {
    s.(dialogOpen := true)
  }

  /** `handleDialogClose`. */
  function HandleDialogClose(s: State): (r: State)
    ensures !r.dialogOpen
    ensures r == s.(dialogOpen := r.dialogOpen)
  {
    s.(dialogOpen := false)
  }

  /** `clearTasks`: closes the dialog, empties the list and leaves remove
      mode; the counter is kept and only the items key is written. */
  function ClearTasks(s: State): (r: State)
    ensures r.items == [] && !r.removeMode && !r.dialogOpen
    ensures r.taskIdCounter == s.taskIdCounter
    ensures r.storage == Storage(Some([]), s.storage.taskIdCounter)
    ensures r == s.(items := [], removeMode := false, dialogOpen := false, storage := r.storage)
  {
    var s := HandleDialogClose(s);
    s.(removeMode := false, items := [], storage := UpdateLocalStorageItems(s.storage, []))
  }

  /** `keyPress`: the Enter key adds the field's text as a task; any other
      key changes nothing. */
  function KeyPress(s: State, keyCode: int): (r: State)
    ensures keyCode == ENTER ==> r == AddTask(s)
    ensures keyCode != ENTER ==> r == s
  {
    if keyCode == ENTER then AddTask(s) else s
  }

  // ---------------------------------------------------------------------------
  // Gestures and runs

  /** The user gestures that reach a handler. */
  datatype Event =
    | Add
    | Toggle(task: Task)
    | Edit(id: int, newTitle: string)
    | Remove(task: Task)
    | TextFieldChange(value: string)
    | EnableRemove
    | DisableRemove
    | DialogOpen
    | DialogClose
    | Clear
    | Key(keyCode: int)

  function Step(s: State, e: Event): State {
    match e
    case Add => AddTask(s)
    case Toggle(task) => HandleUpdateTask(s, task)
    case Edit(id, newTitle) => HandleEditTask(s, id, newTitle)
    case Remove(task) => HandleRemoveTask(s, task)
    case TextFieldChange(value) => HandleTextFieldChange(s, value)
    case EnableRemove => EnableRemoveMode(s)
    case DisableRemove => DisableRemoveMode(s)
    case DialogOpen => HandleDialogOpen(s)
    case DialogClose => HandleDialogClose(s)
    case Clear => ClearTasks(s)
    case Key(keyCode) => KeyPress(s, keyCode)
  }

  function Run(s: State, events: seq<Event>): State
    decreases |events|
  {
    if events == [] then s else Run(Step(s, events[0]), events[1..])
  }

  // ---------------------------------------------------------------------------
  // Invariants

  /** Reloading the page would give back the current items and counter. */
  predicate Persisted(s: State) {
    && s.storage.toDoListItems.GetOr([]) == s.items
    && s.storage.taskIdCounter.GetOr(0) == s.taskIdCounter
  }

  /** The store invariant holds and storage is in step with the state. */
  predicate Consistent(s: State) {
    Valid(s.items, s.taskIdCounter) && Persisted(s)
  }

  /** A first visit, with nothing in local storage, starts consistent. */
  lemma BootEmptyIsConsistent()
    ensures Consistent(Boot(EMPTY_STORAGE))
    ensures Boot(EMPTY_STORAGE).items == [] && Boot(EMPTY_STORAGE).taskIdCounter == 0
  {
  }

  /** Under the invariant, adding appends exactly one task with the fresh id
      `counter + 1` after all the previous ones, the sort moves nothing, and
      the invariant and storage agreement hold afterwards. */
  lemma AddTaskAppends(s: State)
    requires Consistent(s)
    requires s.input != ""
    ensures AddTask(s).items == s.items + [Task(s.taskIdCounter + 1, s.input, TODO)]
    ensures Consistent(AddTask(s))
  {
    var added := Task(s.taskIdCounter + 1, s.input, TODO);
    AppendFreshKeepsValid(s.items, s.taskIdCounter, added);
  }

  /** Whatever the list held before, an add keeps every previous task and
      adds exactly the new one. */
  lemma AddTaskKeepsAll(s: State)
    requires s.input != ""
    ensures multiset(AddTask(s).items) == multiset(s.items) + multiset{Task(s.taskIdCounter + 1, s.input, TODO)}
  {
    var appended := s.items + [Task(s.taskIdCounter + 1, s.input, TODO)];
    assert AddTask(s).items == Resort(appended);
    assert multiset(appended) == multiset(s.items) + multiset{Task(s.taskIdCounter + 1, s.input, TODO)};
  }

  /** Whatever the list held before, a removal keeps exactly the tasks with
      another id. */
  lemma HandleRemoveTaskKeepsOthers(s: State, task: Task)
    ensures forall t :: t in HandleRemoveTask(s, task).items <==> t in s.items && t.id != task.id
  {
    SameMembers(HandleRemoveTask(s, task).items, Without(s.items, task.id));
  }

  /** Under the invariant, a toggle changes the matching tasks in place, the
      sort moves nothing, and the invariant and storage agreement hold. */
  lemma HandleUpdateTaskInPlace(s: State, task: Task)
    requires Consistent(s)
    ensures HandleUpdateTask(s, task).items == SetStatus(s.items, task)
    ensures Consistent(HandleUpdateTask(s, task))
  {
    var updated := SetStatus(s.items, task);
    SameIdsKeepValid(s.items, updated, s.taskIdCounter);
  }

  /** Under the invariant, a rename changes the matching titles in place, the
      sort moves nothing, and the invariant and storage agreement hold. */
  lemma HandleEditTaskInPlace(s: State, id: int, newTitle: string)
    requires Consistent(s)
    ensures HandleEditTask(s, id, newTitle).items == SetTitle(s.items, id, newTitle)
    ensures Consistent(HandleEditTask(s, id, newTitle))
  {
    var updated := SetTitle(s.items, id, newTitle);
    SameIdsKeepValid(s.items, updated, s.taskIdCounter);
  }

  /** Under the invariant, a removal keeps the other tasks in their order,
      the sort moves nothing, and the invariant and storage agreement hold. */
  lemma HandleRemoveTaskInOrder(s: State, task: Task)
    requires Consistent(s)
    ensures HandleRemoveTask(s, task).items == Without(s.items, task.id)
    ensures Consistent(HandleRemoveTask(s, task))
  {
    var kept := Without(s.items, task.id);
    FilterKeepsAscending(s.items, OtherId(task.id));
  }

  /** Every handler keeps the store consistent. */
  lemma StepKeepsConsistent(s: State, e: Event)
    requires Consistent(s)
    ensures Consistent(Step(s, e))
  {
    match e
    case Add =>
      if s.input != "" { AddTaskAppends(s); }
    case Key(keyCode) =>
      if keyCode == ENTER && s.input != "" { AddTaskAppends(s); }
    case Toggle(task) => HandleUpdateTaskInPlace(s, task);
    case Edit(id, newTitle) => HandleEditTaskInPlace(s, id, newTitle);
    case Remove(task) => HandleRemoveTaskInOrder(s, task);
    case _ =>
  }

  /** From a consistent start, any run of gestures keeps ids strictly
      increasing and bounded by the counter, and a page reload afterwards
      restores exactly the items and counter the user last saw. */
  lemma {:induction false} RunKeepsConsistent(s: State, events: seq<Event>)
    requires Consistent(s)
    ensures Consistent(Run(s, events))
    ensures Boot(Run(s, events).storage).items == Run(s, events).items
    ensures Boot(Run(s, events).storage).taskIdCounter == Run(s, events).taskIdCounter
    decreases |events|
  {
    if events != [] {
      StepKeepsConsistent(s, events[0]);
      RunKeepsConsistent(Step(s, events[0]), events[1..]);
    }
  }

  /** Ids are issued from 1: the counter is not negative and no id is below 1. */
  predicate IdsFromOne(s: State) {
    0 <= s.taskIdCounter && IdsAtLeast(s.items, 1)
  }

  /** Every handler keeps ids issued from 1. */
  lemma StepKeepsIdsFromOne(s: State, e: Event)
    requires Consistent(s) && IdsFromOne(s)
    ensures IdsFromOne(Step(s, e))
  {
    match e
    case Add =>
      if s.input != "" { AddTaskAppends(s); }
    case Key(keyCode) =>
      if keyCode == ENTER && s.input != "" { AddTaskAppends(s); }
    case Toggle(task) =>
      HandleUpdateTaskInPlace(s, task);
      SameIdsKeepLowerBound(s.items, SetStatus(s.items, task), 1);
    case Edit(id, newTitle) =>
      HandleEditTaskInPlace(s, id, newTitle);
      SameIdsKeepLowerBound(s.items, SetTitle(s.items, id, newTitle), 1);
    case Remove(task) => HandleRemoveTaskInOrder(s, task);
    case _ =>
  }

  /** From a consistent start whose ids begin at 1, every id over any run is
      at least 1 and at most the counter. */
  lemma {:induction false} RunKeepsIdsFromOne(s: State, events: seq<Event>)
    requires Consistent(s) && IdsFromOne(s)
    ensures IdsFromOne(Run(s, events))
    ensures Consistent(Run(s, events))
    decreases |events|
  {
    if events != [] {
      StepKeepsIdsFromOne(s, events[0]);
      StepKeepsConsistent(s, events[0]);
      RunKeepsIdsFromOne(Step(s, events[0]), events[1..]);
    }
  }

  /** From empty storage, whatever the user does, every task on screen has an
      id between 1 and the counter. */
  lemma IdsFromEmptyStart(events: seq<Event>)
    ensures forall t :: t in Run(Boot(EMPTY_STORAGE), events).items ==>
              1 <= t.id <= Run(Boot(EMPTY_STORAGE), events).taskIdCounter
  {
    BootEmptyIsConsistent();
    RunKeepsIdsFromOne(Boot(EMPTY_STORAGE), events);
  }

  /** The counter never goes down over a run. */
  lemma {:induction false} RunCounterMonotone(s: State, events: seq<Event>)
    ensures s.taskIdCounter <= Run(s, events).taskIdCounter
    decreases |events|
  {
    if events != [] {
      RunCounterMonotone(Step(s, events[0]), events[1..]);
    }
  }

  /** Ids are never reused: removing a task keeps the counter, so the next
      add issues an id above the removed one. */
  lemma RemoveThenAddIsFresh(s: State, task: Task)
    requires Consistent(s)
    requires task in s.items
    requires s.input != ""
    ensures AddTask(HandleRemoveTask(s, task)).taskIdCounter == s.taskIdCounter + 1
    ensures task.id < AddTask(HandleRemoveTask(s, task)).taskIdCounter
  {
  }

  /** Clearing keeps the counter: the next add issues `counter + 1`, not 1. */
  lemma ClearThenAddContinues(s: State, title: string)
    requires title != ""
    ensures AddTask(ClearTasks(s).(input := title)).items == [Task(s.taskIdCounter + 1, title, TODO)]
    ensures AddTask(ClearTasks(s).(input := title)).taskIdCounter == s.taskIdCounter + 1
  {
    var c := ClearTasks(s).(input := title);
    assert [] + [Task(s.taskIdCounter + 1, title, TODO)] == [Task(s.taskIdCounter + 1, title, TODO)];
  }

  /** Under the invariant, toggling a task and then toggling it as it now
      reads restores the list. */
  lemma ToggleTwiceRestoresItems(s: State, task: Task)
    requires Consistent(s)
    requires task in s.items
    requires KnownStatus(task.status)
    ensures HandleUpdateTask(HandleUpdateTask(s, task), task.(status := Flip(task.status))).items == s.items
  {
    HandleUpdateTaskInPlace(s, task);
    HandleUpdateTaskInPlace(HandleUpdateTask(s, task), task.(status := Flip(task.status)));
    ToggleTwiceRestores(s.items, task);
  }

  /** Toggling twice with the same task, as a stale row would hand it over,
      is toggling once: the list does not flip back. */
  lemma ToggleSameTaskTwiceIsIdempotent(s: State, task: Task)
    requires Consistent(s)
    ensures HandleUpdateTask(HandleUpdateTask(s, task), task).items == HandleUpdateTask(s, task).items
  {
    HandleUpdateTaskInPlace(s, task);
    HandleUpdateTaskInPlace(HandleUpdateTask(s, task), task);
    ToggleSameTaskIdempotent(s.items, task);
  }

  /** After an add the field is empty, so an immediate Enter adds nothing. */
  lemma EnterAfterAddIsNoOp(s: State)
    requires s.input != ""
    ensures KeyPress(AddTask(s), ENTER) == AddTask(s)
  {
  }

  /** Turning remove mode on or off twice is the same as doing it once. */
  lemma RemoveModeTogglesIdempotent(s: State)
    ensures EnableRemoveMode(EnableRemoveMode(s)) == EnableRemoveMode(s)
    ensures DisableRemoveMode(DisableRemoveMode(s)) == DisableRemoveMode(s)
  {
  }

  /** A first session, part one: from empty storage, typing and adding
      "Buy milk" then "Walk dog" gives tasks 1 and 2, both "To Do". */
  lemma FirstSessionAdds()
    ensures
      var s1 := AddTask(HandleTextFieldChange(Boot(EMPTY_STORAGE), "Buy milk"));
      var s2 := AddTask(HandleTextFieldChange(s1, "Walk dog"));
      && s2.items == [Task(1, "Buy milk", TODO), Task(2, "Walk dog", TODO)]
      && Consistent(s2)
  {
    BootEmptyIsConsistent();
    var t1 := HandleTextFieldChange(Boot(EMPTY_STORAGE), "Buy milk");
    AddTaskAppends(t1);
    var t2 := HandleTextFieldChange(AddTask(t1), "Walk dog");
    AddTaskAppends(t2);
  }

  /** Part two: ticking task 1 and renaming task 2 change only those fields. */
  lemma FirstSessionEdits(s: State)
    requires Consistent(s)
    requires s.items == [Task(1, "Buy milk", TODO), Task(2, "Walk dog", TODO)]
    ensures
      var s3 := HandleUpdateTask(s, Task(1, "Buy milk", TODO));
      var s4 := HandleEditTask(s3, 2, "Walk the dog");
      && s3.items == [Task(1, "Buy milk", DONE), Task(2, "Walk dog", TODO)]
      && s4.items == [Task(1, "Buy milk", DONE), Task(2, "Walk the dog", TODO)]
      && Consistent(s4)
  {
    HandleUpdateTaskInPlace(s, Task(1, "Buy milk", TODO));
    HandleEditTaskInPlace(HandleUpdateTask(s, Task(1, "Buy milk", TODO)), 2, "Walk the dog");
  }

  /** Part three: removing task 1 leaves only task 2. */
  lemma FirstSessionRemove(s: State)
    requires Consistent(s)
    requires s.items == [Task(1, "Buy milk", DONE), Task(2, "Walk the dog", TODO)]
    ensures HandleRemoveTask(s, Task(1, "Buy milk", DONE)).items == [Task(2, "Walk the dog", TODO)]
  {
    HandleRemoveTaskInOrder(s, Task(1, "Buy milk", DONE));
    RemovePresentDropsOne(s.items, 0);
  }

  /** Part four: after clearing, the next add gets id 3, not 1. */
  lemma FirstSessionClear(s: State)
    requires s.taskIdCounter == 2
    ensures AddTask(HandleTextFieldChange(ClearTasks(s), "X")).items == [Task(3, "X", TODO)]
  {
    ClearThenAddContinues(s, "X");
  }
}
