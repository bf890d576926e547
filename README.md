# Todo list state manager

A Dafny model of the state manager inside the `TodoList` React component of a
client-side todo application. The component keeps an ordered list of `Todo`
records (`id`, `text`, `completed`, `updatedAt`) plus three UI cells. The
cells are the add box's text (`newTodo`), the record being edited inline
(`editingId`) and the record whose completion animation runs (`animatingId`).
Its handlers add, delete, toggle and edit records. The page shows the list
split into an "Incomplete" and a "Completed" column.

Files:

- `js_string.dfy` (module `JsString`): JavaScript's `String.prototype.trim`
  over the ECMAScript White Space and Line Terminator code points, and the
  proof that a string trims to `""` exactly when every character is
  whitespace.
- `js_array.dfy` (module `JsArray`): `Array.prototype.filter` and `map` as
  functions over sequences. It states what filter keeps (all matching
  elements, nothing else, in order, as a subsequence) and that two
  complementary filters split a list.
- `todos.dfy` (module `Todos`): the `Todo` datatype and the pure list
  transforms each handler builds its new list with: append, delete filter,
  toggle map, edit map and the two column filters. Lemmas cover id
  distinctness, toggling twice, repeated edits, deleted ids and the column
  split.
- `todo_list.dfy` (module `TodoListComponent`): class `TodoList` with the four
  state cells as fields. Its methods update them in the order the handlers
  call the setters. Two client methods replay sessions against the
  contracts. `AddAddToggle` adds "a" and "b", then toggles "a".
  `DeleteDuringToggle` shows that a delete made during a toggle's animation
  window is undone by the commit.

Clock readings (`Date.now()`) are parameters. `addTodo` reads the clock twice,
once for `id` and once for `updatedAt`, so it takes two parameters (`id`,
`now`), which may differ. The toggle commit takes a single reading, `now`,
for every matching record (see "Left out"). `toggleTodo` is split at its `await` into
`BeginToggle` and `CommitToggle`. `BeginToggle` marks the record as animating
and returns the list the handler's closure captured. `CommitToggle` applies
the toggle to that captured list, not to the current one, which is what the
handler does after its delay.

Two behaviours of the code worth knowing:

- Loading does not fail soft. `JSON.parse` of malformed stored text throws.
  The model's constructor takes the already decoded list, or `None` when
  storage holds nothing under the key.
- Ids are not guaranteed unique or increasing. The id is a clock reading and
  `addTodo` does not check it. Id distinctness is therefore proved
  conditionally: it is kept whenever the new id is not already in the list.

## Model

| member | source | states |
|---|---|---|
| `JsString.Trim` | src/components/TodoList/TodoList.tsx:25 | `trim()` returns a contiguous piece of the input with only whitespace cut off at both ends, starting and ending with non-whitespace; it is `""` exactly when the input is all whitespace |
| `JsArray.Filter` | src/components/TodoList/TodoList.tsx:55 | `filter` keeps every element satisfying the predicate (as many as `Count` gives) and nothing else, as a subsequence of the input |
| `JsArray.Map` | src/components/TodoList/TodoList.tsx:65-69 | `map` keeps the length and applies the callback at every position |
| `JsArray.FilterConcat` | src/components/TodoList/TodoList.tsx:55 | filtering distributes over concatenation: relative order is kept segment by segment |
| `JsArray.FilterKeepsAll` | src/components/TodoList/TodoList.tsx:55 | a filter whose predicate holds everywhere returns the input unchanged |
| `JsArray.FilterComplement` | src/components/TodoList/TodoList.tsx:86-87 | complementary filters have lengths summing to the input length and together hold exactly the input's multiset |
| `Todos.AddTodo` | src/components/TodoList/TodoList.tsx:24-37 | blank input (all whitespace, empty included) leaves the list unchanged; otherwise the old list is kept as a prefix and exactly one record is appended, with the untrimmed text, `completed = false` and the given id and timestamp |
| `Todos.AddKeepsIdsDistinct` | src/components/TodoList/TodoList.tsx:26-34 | appending a record with an id not yet present keeps ids pairwise distinct, and the id set grows by exactly that id (or stays the same on blank input) |
| `Todos.DeleteTodo` | src/components/TodoList/TodoList.tsx:54-56 | no record with the id remains; every other record is kept (the length drops by exactly the number of matching records) in relative order; an absent id leaves the list unchanged |
| `Todos.SubsequenceElements` | src/components/TodoList/TodoList.tsx:55 | every element of a subsequence of the list is a record of the list |
| `Todos.SubsequenceKeepsIdsDistinct` | src/components/TodoList/TodoList.tsx:55 | a subsequence of a list with distinct ids has distinct ids |
| `Todos.DeleteKeepsIdsDistinct` | src/components/TodoList/TodoList.tsx:55 | deleting keeps ids distinct |
| `Todos.DeleteIdempotent` | src/components/TodoList/TodoList.tsx:55 | deleting the same id twice equals deleting it once |
| `Todos.DeleteUndoesAdd` | src/components/TodoList/TodoList.tsx:24-56 | deleting the id of a just-added record whose id was fresh gives back the list as it was before the add (blank input included) |
| `Todos.ToggleTodo` | src/components/TodoList/TodoList.tsx:64-70 | length, ids and texts are kept position by position; matching records get `completed` negated and `updatedAt` set to the commit time; other records are identical; an absent id changes nothing; the id set and id distinctness are preserved |
| `Todos.ToggleTwice` | src/components/TodoList/TodoList.tsx:65-67 | toggling the same id twice restores every `completed` flag; matching records differ from the original only by the second timestamp |
| `Todos.FinishEditing` | src/components/TodoList/TodoList.tsx:79-84 | length, ids, flags and timestamps are kept; matching records get the new text, which may be empty or blank; other records are identical; an absent id changes nothing; the id set and id distinctness are preserved |
| `Todos.FinishEditingTwice` | src/components/TodoList/TodoList.tsx:81 | of two edits committed to the same id the later one wins |
| `Todos.DeletedIdIsInert` | src/components/TodoList/TodoList.tsx:54-84 | after a delete, toggling or editing the deleted id leaves the list unchanged |
| `Todos.CompletedTodos` | src/components/TodoList/TodoList.tsx:86 | the completed column holds exactly the completed records, each as often as in the list (`Count`), in list order |
| `Todos.IncompleteTodos` | src/components/TodoList/TodoList.tsx:87 | the incomplete column holds exactly the records not completed, each as often as in the list (`Count`), in list order |
| `Todos.PartitionCovers` | src/components/TodoList/TodoList.tsx:86-87 | the two columns' lengths sum to the list length, and together they hold the list's records with their multiplicities |
| `Todos.ToggleSwitchesColumn` | src/components/TodoList/TodoList.tsx:64-70 | after a toggle commit a matching record shows up in the other column, with the flag flipped and the new timestamp |
| `Todos.ToggleLeavesColumn` | src/components/TodoList/TodoList.tsx:64-70 | with distinct ids, after a toggle commit no record with that id is left in the column the record was in, so with `ToggleSwitchesColumn` the record moves |
| `TodoListComponent.TodoList.constructor` | src/components/TodoList/TodoList.tsx:12-18 | the list starts as the stored list, or empty when nothing is stored; `newTodo` is `""` and both ids are null |
| `TodoListComponent.TodoList.SetNewTodo` | src/components/TodoList/TodoList.tsx:95 | the add box's change handler sets `newTodo` and nothing else |
| `TodoListComponent.TodoList.AddTodo` | src/components/TodoList/TodoList.tsx:24-37 | on blank input neither `todos` nor `newTodo` changes; otherwise one record is appended and `newTodo` becomes `""`; a fresh id keeps ids distinct; the other cells are untouched |
| `TodoListComponent.TodoList.DeleteTodo` | src/components/TodoList/TodoList.tsx:54-56 | the list becomes the delete filter of the old list, a subsequence without the id; distinct ids stay distinct; the other cells are untouched |
| `TodoListComponent.TodoList.BeginToggle` | src/components/TodoList/TodoList.tsx:58-62 | `animatingId` becomes the id, the current list is captured, nothing else changes |
| `TodoListComponent.TodoList.CommitToggle` | src/components/TodoList/TodoList.tsx:64-72 | the list becomes the toggle of the captured list, with the same ids and length, and `animatingId` is reset to null |
| `TodoListComponent.TodoList.StartEditing` | src/components/TodoList/TodoList.tsx:75-77 | `editingId` becomes the id; the list and the other cells are untouched |
| `TodoListComponent.TodoList.FinishEditing` | src/components/TodoList/TodoList.tsx:79-84 | the list becomes the edit of the old list, with the same ids and length, and `editingId` becomes null |
| `TodoListComponent.TodoList.Incomplete` | src/components/TodoList/TodoList.tsx:87 | the left column over the current state: exactly the incomplete records, as often as in the list, in order |
| `TodoListComponent.TodoList.Completed` | src/components/TodoList/TodoList.tsx:86 | the right column over the current state: exactly the completed records, as often as in the list, in order |

## Left out

- Persistence: the `localStorage` read at mount, the write-through effect on every change, and `JSON.parse`/`JSON.stringify` (src/components/TodoList/TodoList.tsx:13-14, 20-22) are browser and library calls. The constructor takes the decoded list instead. The save/load round trip is therefore not stated.
- The 600 ms `setTimeout` in `toggleTodo` (src/components/TodoList/TodoList.tsx:62) is timing only. The handler is two explicit steps, and whatever happens between them is up to the caller of the model.
- Todos.ToggleTodo: one clock reading `now` stamps every matching record. The code calls `Date.now()` inside the `map` callback (src/components/TodoList/TodoList.tsx:67), once per matching record. The readings can differ only when several records share the id, which the code does not rule out; for such lists the model (and `ToggleTwice`) gives them all one timestamp where the code may give different ones.
- `Date.now()`: readings are parameters. The claim that `updatedAt` strictly increases across toggles depends on the clock and is not stated.
- The keyboard handlers `handleKeyPress` and `handleEditKeyPress` (src/components/TodoList/TodoList.tsx:39-52) only forward Enter to `addTodo`/`finishEditing`.
- Rendering: the JSX, animation props, icons and styling (src/components/TodoList/TodoList.tsx:89-215), except the add box's change handler.
- src/components/TodoList/TodoItem/TodoItem.tsx, src/shared/ui/Input/input.tsx and src/app/page.tsx are presentational only.
- src/entities/todo is not part of this model. The `Todo` datatype follows the fields the component reads and writes, with `id` and `updatedAt` as integers (millisecond timestamps).
- JsString.Trim: works on Unicode scalar values, not UTF-16 code units. Every whitespace character is a single code unit, so this makes no difference to the blank check.
