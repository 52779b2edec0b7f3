/** The page's mutable state: the task list and the current filter, changed by the event
    handlers one assignment at a time. */
module TodoStore {
  import opened JsText
  import opened TodoList
  import opened Progress

  datatype Option<T> = None | Some(value: T)

  class TaskStore {
    /** The tasks, newest first. */
    var todos: seq<Task>
    /** The value of the filter button last clicked. */
    var currentFilter: string

    /** Page load: the stored list, or an empty one when storage holds nothing under the key;
        the filter starts at "all". */
    constructor (stored: Option<seq<Task>>)
      ensures todos == (if stored.Some? then stored.value else [])
      ensures currentFilter == "all"
    {
      todos := if stored.Some? then stored.value else [];
      currentFilter := "all";
    }

    /** The submit handler: trims the input and, unless that leaves nothing, puts a new
        incomplete task with the clock reading `now` as its id in front of the list. */
    method Submit(input: string, priority: Priority, now: int)
      modifies this
      ensures todos == Added(old(todos), input, priority, now)
      ensures AllWhitespace(input) ==> todos == old(todos)
      ensures !AllWhitespace(input) ==> todos[0].id == now && !todos[0].completed && todos[1..] == old(todos)
      ensures old(UniqueIds(todos)) && !old(HasId(todos, now)) ==> UniqueIds(todos)
      ensures currentFilter == old(currentFilter)
    {
      if UniqueIds(todos) && !HasId(todos, now) {
        AddedPreservesUniqueIds(todos, input, priority, now);
      }
      var text := Trim(input);
      if text != [] {
        var newTodo := Task(now, text, priority, false);
        todos := [newTodo] + todos;
      }
    }

    /** toggleTodo: flips `completed` on the tasks whose id is `id`. */
    method Toggle(id: int)
      modifies this
      ensures todos == Toggled(old(todos), id)
      ensures !old(HasId(todos, id)) ==> todos == old(todos)
      ensures old(UniqueIds(todos)) ==> UniqueIds(todos)
      ensures currentFilter == old(currentFilter)
    {
      if !HasId(todos, id) {
        ToggledUnknownId(todos, id);
      }
      todos := Toggled(todos, id);
    }

    /** The delayed step of deleteTodo: drops the tasks whose id is `id`. */
    method Delete(id: int)
      modifies this
      ensures todos == Deleted(old(todos), id)
      ensures !old(HasId(todos, id)) ==> todos == old(todos)
      ensures old(UniqueIds(todos)) ==> UniqueIds(todos)
      ensures currentFilter == old(currentFilter)
    {
      DeletedSpec(todos, id);
      todos := Deleted(todos, id);
    }

    /** The clear-completed button: keeps only the tasks not yet completed. */
    method ClearCompleted()
      modifies this
      ensures todos == ClearedCompleted(old(todos))
      ensures forall t :: t in todos ==> !t.completed
      ensures old(UniqueIds(todos)) ==> UniqueIds(todos)
      ensures currentFilter == old(currentFilter)
    {
      ClearedCompletedSpec(todos);
      todos := ClearedCompleted(todos);
    }

    /** A filter button click: records the button's filter value; the list is untouched. */
    method SetFilter(filter: string)
      modifies this
      ensures currentFilter == filter
      ensures todos == old(todos)
    {
      currentFilter := filter;
    }
  }

  /** Adding "Buy milk" and then "Pay bills" lists "Pay bills" first. */
  lemma BuyMilkThenPayBills(t1: int, t2: int)
    ensures Added(Added([], "Buy milk", Medium, t1), "Pay bills", High, t2)
      == [Task(t2, "Pay bills", High, false), Task(t1, "Buy milk", Medium, false)]
  {
    assert TrimStart("Buy milk") == TrimEnd("Buy milk") == "Buy milk";
    assert TrimStart("Pay bills") == TrimEnd("Pay bills") == "Pay bills";
    assert Added([], "Buy milk", Medium, t1) == [Task(t1, "Buy milk", Medium, false)];
  }

  /** With both tasks open the progress is 0%; toggling "Pay bills" makes it 50%; clearing
      the completed task leaves "Buy milk" alone, at 0%. */
  lemma PayBillsDoneThenCleared(t1: int, t2: int)
    requires t1 != t2
    ensures var ts := [Task(t2, "Pay bills", High, false), Task(t1, "Buy milk", Medium, false)];
      && ShownPercent(ts) == 0
      && ShownPercent(Toggled(ts, t2)) == 50
      && ClearedCompleted(Toggled(ts, t2)) == [Task(t1, "Buy milk", Medium, false)]
      && ShownPercent(ClearedCompleted(Toggled(ts, t2))) == 0
  {
    var ts := [Task(t2, "Pay bills", High, false), Task(t1, "Buy milk", Medium, false)];
    var done := [Task(t2, "Pay bills", High, true), Task(t1, "Buy milk", Medium, false)];
    assert Toggled(ts, t2) == done;
    assert CompletedCount(done) == 1;
    assert ClearedCompleted(done) == [Task(t1, "Buy milk", Medium, false)];
  }
}
