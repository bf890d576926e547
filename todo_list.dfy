/** The state of the TodoList component: its four state cells and the
    handlers that update them one setter call at a time. The list itself is
    only ever replaced by a new list built by one of the transforms in
    module Todos. */
module TodoListComponent {
  import opened JsString
  import opened JsArray
  import opened Todos

  /** A nullable number (`number | null`). */
  datatype Option<T> = None | Some(value: T)

  class TodoList {
    var todos: seq<Todo>
    /** The text of the add box. */
    var newTodo: string
    /** The record being edited inline, if any. */
    var editingId: Option<int>
    /** The record whose completion animation is running, if any. */
    var animatingId: Option<int>

    /** Mount: the list read back from storage, or the empty list when the
        storage has nothing under the key; the other cells start empty. */
    constructor (saved: Option<seq<Todo>>)
      ensures todos == (if saved.Some? then saved.value else [])
      ensures newTodo == "" && editingId == None && animatingId == None
    {
      todos := if saved.Some? then saved.value else [];
      newTodo := "";
      editingId := None;
      animatingId := None;
    }

    /** The add box's change handler stores what was typed. */
    method SetNewTodo(value: string)
      modifies this
      ensures newTodo == value
      ensures todos == old(todos) && editingId == old(editingId) && animatingId == old(animatingId)
    {
      newTodo := value;
    }

    /** `addTodo`, with the two clock readings passed in: blank input changes
        nothing; otherwise the record is appended and the box is cleared. An
        id not yet in the list keeps the ids distinct. */
    method AddTodo(id: int, now: int)
      modifies this
      ensures IsBlank(old(newTodo)) ==> todos == old(todos) && newTodo == old(newTodo)
      ensures !IsBlank(old(newTodo)) ==>
                todos == old(todos) + [Todo(id, old(newTodo), false, now)] && newTodo == ""
      ensures DistinctIds(old(todos)) && id !in Ids(old(todos)) ==> DistinctIds(todos)
      ensures editingId == old(editingId) && animatingId == old(animatingId)
    {
      if Trim(newTodo) != "" {
        if DistinctIds(todos) && id !in Ids(todos) {
          AddKeepsIdsDistinct(todos, newTodo, id, now);
        }
        todos := Todos.AddTodo(todos, newTodo, id, now);
        newTodo := "";
      }
    }

    /** `deleteTodo`: the list loses every record with that id. */
    method DeleteTodo(id: int)
      modifies this
      ensures todos == Todos.DeleteTodo(old(todos), id)
      ensures id !in Ids(todos) && IsSubsequence(todos, old(todos))
      ensures DistinctIds(old(todos)) ==> DistinctIds(todos)
      ensures newTodo == old(newTodo) && editingId == old(editingId) && animatingId == old(animatingId)
    {
      if DistinctIds(todos) {
        DeleteKeepsIdsDistinct(todos, id);
      }
      todos := Todos.DeleteTodo(todos, id);
    }

    /** First half of `toggleTodo`: the record starts animating, and the
        handler holds on to the list as it is now. */
    method BeginToggle(id: int) returns (captured: seq<Todo>)
      modifies this
      ensures animatingId == Some(id) && captured == todos
      ensures todos == old(todos) && newTodo == old(newTodo) && editingId == old(editingId)
    {
      animatingId := Some(id);
      captured := todos;
    }

    /** Second half of `toggleTodo`, once the animation delay is over: the
        toggle is applied to the list captured by BeginToggle, not to the
        current one, and the animation mark is cleared. */
    method CommitToggle(id: int, captured: seq<Todo>, now: int)
      modifies this
      ensures todos == ToggleTodo(captured, id, now)
      ensures Ids(todos) == Ids(captured) && |todos| == |captured|
      ensures animatingId == None
      ensures newTodo == old(newTodo) && editingId == old(editingId)
    {
      todos := ToggleTodo(captured, id, now);
      animatingId := None;
    }

    /** `startEditing`: only the edit mark moves. */
    method StartEditing(id: int)
      modifies this
      ensures editingId == Some(id)
      ensures todos == old(todos) && newTodo == old(newTodo) && animatingId == old(animatingId)
    {
      editingId := Some(id);
    }

    /** `finishEditing`: the text is committed and edit mode ends. */
    method FinishEditing(id: int, newText: string)
      modifies this
      ensures todos == Todos.FinishEditing(old(todos), id, newText)
      ensures Ids(todos) == Ids(old(todos)) && |todos| == |old(todos)|
      ensures editingId == None
      ensures newTodo == old(newTodo) && animatingId == old(animatingId)
    {
      todos := Todos.FinishEditing(todos, id, newText);
      editingId := None;
    }

    /** The left column: the records not yet completed, in list order. */
    function Incomplete(): (r: seq<Todo>)
      reads this
      ensures forall i :: 0 <= i < |r| ==> !r[i].completed && r[i] in todos
      ensures forall i :: 0 <= i < |todos| && !todos[i].completed ==> todos[i] in r
      ensures IsSubsequence(r, todos)
      ensures |r| == Count((t: Todo) => !t.completed, todos)
    {
      IncompleteTodos(todos)
    }

    /** The right column: the completed records, in list order. */
    function Completed(): (r: seq<Todo>)
      reads this
      ensures forall i :: 0 <= i < |r| ==> r[i].completed && r[i] in todos
      ensures forall i :: 0 <= i < |todos| && todos[i].completed ==> todos[i] in r
      ensures IsSubsequence(r, todos)
      ensures |r| == Count((t: Todo) => t.completed, todos)
    {
      CompletedTodos(todos)
    }
  }

  /** The session from start to finish: add "a", add "b", toggle "a". */
  method AddAddToggle(idA: int, idB: int, t1: int, t2: int, t3: int)
    requires idA != idB
  {
    var list := new TodoList(None);
    list.SetNewTodo("a");
    assert !IsWhitespace("a"[0]);
    list.AddTodo(idA, t1);
    assert list.newTodo == "";
    list.SetNewTodo("b");
    assert !IsWhitespace("b"[0]);
    list.AddTodo(idB, t2);
    assert list.todos == [Todo(idA, "a", false, t1), Todo(idB, "b", false, t2)];
    var captured := list.BeginToggle(idA);
    assert list.animatingId == Some(idA);
    list.CommitToggle(idA, captured, t3);
    assert list.todos == [Todo(idA, "a", true, t3), Todo(idB, "b", false, t2)];
    assert list.animatingId == None;
  }

  /** A delete during the animation window is undone by the commit, which
      works on the list captured before the delete. */
  method DeleteDuringToggle(idA: int, idB: int, t1: int, t2: int, t3: int)
    requires idA != idB
  {
    var list := new TodoList(Some([Todo(idA, "a", false, t1), Todo(idB, "b", false, t2)]));
    var captured := list.BeginToggle(idA);
    list.DeleteTodo(idB);
    assert idB !in Ids(list.todos);
    list.CommitToggle(idA, captured, t3);
    assert list.todos[1] == Todo(idB, "b", false, t2);
  }
}
