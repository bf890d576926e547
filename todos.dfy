/** The todo records and the pure list transforms of the TodoList component
    (src/components/TodoList/TodoList.tsx): each handler builds a new list
    from the current one with a spread, a `filter` or a `map`, and the two
    columns are two `filter`s of the list. The clock readings are
    parameters: `AddTodo` takes its two readings, `ToggleTodo` one reading
    shared by every matching record. */
module Todos {
  import opened JsString
  import opened JsArray

  /** One task. `id` and `updatedAt` are millisecond timestamps. */
  datatype Todo = Todo(id: int, text: string, completed: bool, updatedAt: int)

  /** The ids that occur in a list. */
  function Ids(todos: seq<Todo>): set<int> {
    set i | 0 <= i < |todos| :: todos[i].id
  }

  /** No two records of the list share an id. */
  predicate DistinctIds(todos: seq<Todo>) {
    forall i, j :: 0 <= i < j < |todos| ==> todos[i].id != todos[j].id
  }

  // ---------------------------------------------------------------- add

  /** `addTodo`: input that is blank after trimming leaves the list as it is;
      otherwise exactly one record is appended, holding the input untrimmed,
      not completed, with the two clock readings as id and timestamp. */
  function AddTodo(todos: seq<Todo>, newTodo: string, id: int, now: int): (r: seq<Todo>)
    ensures IsBlank(newTodo) ==> r == todos
    ensures !IsBlank(newTodo) ==> |r| == |todos| + 1 && r[..|todos|] == todos
    ensures !IsBlank(newTodo) ==> r[|todos|] == Todo(id, newTodo, false, now)
  {
    if Trim(newTodo) != "" then
      todos + [Todo(id, newTodo, false, now)]
    else
      todos
  }

  /** Appending a record whose id is not yet taken keeps the ids distinct. */
  lemma AddKeepsIdsDistinct(todos: seq<Todo>, newTodo: string, id: int, now: int)
    requires DistinctIds(todos) && id !in Ids(todos)
    ensures DistinctIds(AddTodo(todos, newTodo, id, now))
    ensures Ids(AddTodo(todos, newTodo, id, now)) == if IsBlank(newTodo) then Ids(todos) else Ids(todos) + {id}
  {
  }

  // ------------------------------------------------------------- delete

  /** `deleteTodo`: every record with the given id is gone; every other
      record stays, as often as it occurred and in its original order;
      a list without that id comes back unchanged. */
  function DeleteTodo(todos: seq<Todo>, id: int): (r: seq<Todo>)
    ensures id !in Ids(r)
    ensures forall i :: 0 <= i < |todos| && todos[i].id != id ==> todos[i] in r
    ensures forall i :: 0 <= i < |r| ==> r[i] in todos
    ensures IsSubsequence(r, todos)
    ensures |r| == |todos| - Count((t: Todo) => t.id == id, todos)
    ensures id !in Ids(todos) ==> r == todos
  {
    var r := Filter((t: Todo) => t.id != id, todos);
    FilterComplement((t: Todo) => t.id != id, (t: Todo) => t.id == id, todos);
    if id in Ids(todos) then r
    else
      FilterKeepsAll((t: Todo) => t.id != id, todos);
      r
  }

  /** A subsequence of a list whose ids are distinct has distinct ids. */
  lemma {:induction false} SubsequenceKeepsIdsDistinct(r: seq<Todo>, s: seq<Todo>)
    requires IsSubsequence(r, s) && DistinctIds(s)
    ensures DistinctIds(r)
    decreases |s|
  {
    if s != [] {
      assert DistinctIds(s[1..]) by {
        forall i, j | 0 <= i < j < |s| - 1 ensures s[1..][i].id != s[1..][j].id {
          assert s[1..][i] == s[i + 1] && s[1..][j] == s[j + 1];
        }
      }
      if r != [] && r[0] == s[0] && IsSubsequence(r[1..], s[1..]) {
        SubsequenceKeepsIdsDistinct(r[1..], s[1..]);
        SubsequenceElements(r[1..], s[1..]);
        forall j | 0 < j < |r| ensures r[0].id != r[j].id {
          assert r[1..][j - 1] == r[j];
          var m :| 0 <= m < |s[1..]| && s[1..][m] == r[j];
          assert s[m + 1] == r[j];
        }
        forall i, j | 0 <= i < j < |r| ensures r[i].id != r[j].id {
          if i > 0 { assert r[1..][i - 1] == r[i] && r[1..][j - 1] == r[j]; }
        }
      } else {
        SubsequenceKeepsIdsDistinct(r, s[1..]);
      }
    }
  }

  /** Every element of a subsequence occurs in the sequence. */
  lemma {:induction false} SubsequenceElements(r: seq<Todo>, s: seq<Todo>)
    requires IsSubsequence(r, s)
    ensures forall k :: 0 <= k < |r| ==> r[k] in s
    decreases |s|
  {
    if s != [] {
      if r != [] && r[0] == s[0] && IsSubsequence(r[1..], s[1..]) {
        SubsequenceElements(r[1..], s[1..]);
        forall k | 0 < k < |r| ensures r[k] in s {
          assert r[1..][k - 1] == r[k];
        }
      } else {
        SubsequenceElements(r, s[1..]);
      }
    }
  }

  /** Deleting keeps the ids distinct. */
  lemma DeleteKeepsIdsDistinct(todos: seq<Todo>, id: int)
    requires DistinctIds(todos)
    ensures DistinctIds(DeleteTodo(todos, id))
  {
    SubsequenceKeepsIdsDistinct(DeleteTodo(todos, id), todos);
  }

  /** Deleting the same id twice is deleting it once. */
  lemma DeleteIdempotent(todos: seq<Todo>, id: int)
    ensures DeleteTodo(DeleteTodo(todos, id), id) == DeleteTodo(todos, id)
  {
  }

  /** Deleting the id of the record just added, when that id was not in the
      list before, gives back the list as it was before the add. */
  lemma DeleteUndoesAdd(todos: seq<Todo>, newTodo: string, id: int, now: int)
    requires id !in Ids(todos)
    ensures DeleteTodo(AddTodo(todos, newTodo, id, now), id) == todos
  {
    var keep := (t: Todo) => t.id != id;
    if !IsBlank(newTodo) {
      var added := Todo(id, newTodo, false, now);
      assert AddTodo(todos, newTodo, id, now) == todos + [added];
      FilterConcat(keep, todos, [added]);
      assert Filter(keep, [added]) == [];
      assert forall i :: 0 <= i < |todos| ==> keep(todos[i]) by {
        forall i | 0 <= i < |todos| ensures keep(todos[i]) { assert todos[i].id in Ids(todos); }
      }
      FilterKeepsAll(keep, todos);
      assert DeleteTodo(todos + [added], id) == Filter(keep, todos + [added]);
    }
  }

  // ------------------------------------------------------------- toggle

  /** The commit step of `toggleTodo`: every record with the given id has
      its `completed` flag negated and `updatedAt` set to `now`, keeping its
      id and text; every other record is left as it is. */
  function ToggleTodo(todos: seq<Todo>, id: int, now: int): (r: seq<Todo>)
    ensures |r| == |todos|
    ensures forall i :: 0 <= i < |r| ==> r[i].id == todos[i].id && r[i].text == todos[i].text
    ensures forall i :: 0 <= i < |r| && todos[i].id == id ==>
              r[i].completed == !todos[i].completed && r[i].updatedAt == now
    ensures forall i :: 0 <= i < |r| && todos[i].id != id ==> r[i] == todos[i]
    ensures id !in Ids(todos) ==> r == todos
    ensures Ids(r) == Ids(todos)
    ensures DistinctIds(r) <==> DistinctIds(todos)
  {
    var r := Map((t: Todo) => if t.id == id then t.(completed := !t.completed, updatedAt := now) else t, todos);
    assert forall i :: 0 <= i < |r| ==> r[i].id == todos[i].id;
    r
  }

  /** Toggling the same id twice restores every `completed` flag; the
      matching records keep the later timestamp. */
  lemma ToggleTwice(todos: seq<Todo>, id: int, first: int, second: int)
    ensures var r := ToggleTodo(ToggleTodo(todos, id, first), id, second);
      forall i :: 0 <= i < |todos| ==>
        r[i].completed == todos[i].completed &&
        r[i] == if todos[i].id == id then todos[i].(updatedAt := second) else todos[i]
  {
  }

  // --------------------------------------------------------------- edit

  /** `startEditing` puts a record into edit mode; `finishEditing` commits
      the edit: every record with the given id gets `newText` as its text
      (empty or blank text included, there is no check here) and keeps its
      id, flag and timestamp; every other record is left as it is. */
  function FinishEditing(todos: seq<Todo>, id: int, newText: string): (r: seq<Todo>)
    ensures |r| == |todos|
    ensures forall i :: 0 <= i < |r| ==>
              r[i].id == todos[i].id && r[i].completed == todos[i].completed && r[i].updatedAt == todos[i].updatedAt
    ensures forall i :: 0 <= i < |r| && todos[i].id == id ==> r[i].text == newText
    ensures forall i :: 0 <= i < |r| && todos[i].id != id ==> r[i] == todos[i]
    ensures id !in Ids(todos) ==> r == todos
    ensures Ids(r) == Ids(todos)
    ensures DistinctIds(r) <==> DistinctIds(todos)
  {
    var r := Map((t: Todo) => if t.id == id then t.(text := newText) else t, todos);
    assert forall i :: 0 <= i < |r| ==> r[i].id == todos[i].id;
    r
  }

  /** Of two edits of the same record the later one wins. */
  lemma FinishEditingTwice(todos: seq<Todo>, id: int, first: string, second: string)
    ensures FinishEditing(FinishEditing(todos, id, first), id, second) == FinishEditing(todos, id, second)
  {
  }

  /** Once an id has been deleted, toggling or editing it changes nothing. */
  lemma DeletedIdIsInert(todos: seq<Todo>, id: int, now: int, newText: string)
    ensures ToggleTodo(DeleteTodo(todos, id), id, now) == DeleteTodo(todos, id)
    ensures FinishEditing(DeleteTodo(todos, id), id, newText) == DeleteTodo(todos, id)
  {
  }

  // ---------------------------------------------------------- partition

  /** `completedTodos`: the completed records, all of them, in list order. */
  function CompletedTodos(todos: seq<Todo>): (r: seq<Todo>)
    ensures forall i :: 0 <= i < |r| ==> r[i].completed && r[i] in todos
    ensures forall i :: 0 <= i < |todos| && todos[i].completed ==> todos[i] in r
    ensures IsSubsequence(r, todos)
    ensures |r| == Count((t: Todo) => t.completed, todos)
  {
    Filter((t: Todo) => t.completed, todos)
  }

  /** `incompleteTodos`: the records not yet completed, all of them, in list
      order. */
  function IncompleteTodos(todos: seq<Todo>): (r: seq<Todo>)
    ensures forall i :: 0 <= i < |r| ==> !r[i].completed && r[i] in todos
    ensures forall i :: 0 <= i < |todos| && !todos[i].completed ==> todos[i] in r
    ensures IsSubsequence(r, todos)
    ensures |r| == Count((t: Todo) => !t.completed, todos)
  {
    Filter((t: Todo) => !t.completed, todos)
  }

  /** The two columns split the list: every record is shown in exactly one
      of them, as often as it occurs in the list. */
  lemma PartitionCovers(todos: seq<Todo>)
    ensures |CompletedTodos(todos)| + |IncompleteTodos(todos)| == |todos|
    ensures multiset(CompletedTodos(todos)) + multiset(IncompleteTodos(todos)) == multiset(todos)
  {
    FilterComplement((t: Todo) => t.completed, (t: Todo) => !t.completed, todos);
  }

  /** Committing a toggle moves a record between the columns: an incomplete
      record with that id shows up, completed and restamped, among the
      completed ones, and a completed one among the incomplete ones. */
  lemma ToggleSwitchesColumn(todos: seq<Todo>, id: int, now: int, t: Todo)
    requires t.id == id
    ensures t in IncompleteTodos(todos) ==>
              t.(completed := true, updatedAt := now) in CompletedTodos(ToggleTodo(todos, id, now))
    ensures t in CompletedTodos(todos) ==>
              t.(completed := false, updatedAt := now) in IncompleteTodos(ToggleTodo(todos, id, now))
  {
  }

  /** With distinct ids, a toggle commit also takes the record out of the
      column it was in: no record with that id is left there. */
  lemma ToggleLeavesColumn(todos: seq<Todo>, id: int, now: int, t: Todo)
    requires DistinctIds(todos) && t.id == id
    ensures t in IncompleteTodos(todos) ==>
              forall u :: u in IncompleteTodos(ToggleTodo(todos, id, now)) ==> u.id != id
    ensures t in CompletedTodos(todos) ==>
              forall u :: u in CompletedTodos(ToggleTodo(todos, id, now)) ==> u.id != id
  {
  }
}
