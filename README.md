# To-do list state machine

A model of the state held by the `ToDoList` React component of a single-page to-do list
(`src/ToDoList.js`) and of the four ways it changes. The state is two values: `tasks`, an
ordered list of `{ text, isComplete }` records, and `newTask`, the contents of the input field.
The transitions are:

- typing in the input field, which replaces `newTask`;
- `addTask`, which trims `newTask` and refuses it (with an alert) when the result is empty or
  equals the text of an existing task; otherwise it appends `{ text: trimmed, isComplete: false }`
  and clears the input;
- `toggleTaskCompletion(index)`, which rebuilds the list with `map`, negating `isComplete` only
  at `index`;
- `deleteTask(index)`, which rebuilds the list with `filter`, dropping position `index`.

Layout:

- `Trimming.dfy` (module `Trimming`): JavaScript's `String.prototype.trim`, which the component
  calls. White space is the ECMAScript WhiteSpace and LineTerminator code points. The module
  proves that the result has no white space at either end, that only white space is removed and
  only at the ends, that the result is unique with these properties, and that trimming is
  idempotent.
- `TaskLists.dfy` (module `TaskLists`): the pure part. It holds the `Task` record and the new
  lists each handler computes: `Toggled` is the `map`, `Deleted` the `filter`, `HasText` the
  `some`, and `Add` the outcome of `addTask`. It also defines `WellFormed`, the invariant of lists
  built only by these operations (texts pairwise distinct, non-empty and already trimmed). The
  lemmas relate each operation to an independent definition: a sequence update for toggling, a
  slice for deleting, and the prefix plus new last element for adding. Further lemmas cover
  involution of toggling, preservation of `WellFormed`, and the duplicate check.
- `ToDoList.dfy` (module `Component`): class `ToDoList` with the two state fields and one method
  per handler. Each React setter (`setTasks`, `setNewTask`) is a direct assignment to the field.
  Each method's postcondition gives the whole new state in terms of the old one and says that it
  keeps `Valid()`.

`alert` is modelled only as the failure it signals. `AddTask` returns `Rejected(EmptyInput)`
or `Rejected(DuplicateText)` and changes nothing. The pure `Add` returns `Failure` with the same
two reasons.

How the code's behaviour shows up in the model:

- `AddTask` takes no argument: `addTask` reads the pending input from the `newTask` state
  (src/ToDoList.js:28).
- An out-of-range `index` changes nothing, because no position that `map`/`filter` produces
  equals it (src/ToDoList.js:51-56, 64). `ToggledIsUpdate` and `DeletedIsSlice` prove this.
- The invariant "no two tasks share a text" holds only for lists built by the component's own
  operations. A list restored from storage is not checked. For that reason each method promises
  `old(Valid()) ==> Valid()` and does not require `Valid()`.

## Model

| member | source | states |
|---|---|---|
| `Trimming.TrimStart` | src/ToDoList.js:28 | the leading part of `trim`: the result is a suffix of the input, everything removed is white space, and it does not start with white space |
| `Trimming.TrimEnd` | src/ToDoList.js:28 | the trailing part of `trim`: the result is a prefix of the input, everything removed is white space, and it does not end with white space |
| `Trimming.Trim` | src/ToDoList.js:28 | `newTask.trim()` has no white space at either end |
| `Trimming.TrimIsInfix` | src/ToDoList.js:28 | `trim` returns a contiguous piece of its input and what it cuts off on both sides is all white space |
| `Trimming.TrimOfPadded` | src/ToDoList.js:28 | uniqueness: a string with no white space at its ends, padded with white space on both sides, trims back to itself |
| `Trimming.TrimOfTrimmed` | src/ToDoList.js:39 | a string with no white space at either end is unchanged by `trim` |
| `Trimming.TrimFixedIffTrimmed` | src/ToDoList.js:39 | `trim(s) == s` exactly when `s` has no white space at either end (both directions) |
| `Trimming.TrimIdempotent` | src/ToDoList.js:28 | trimming twice is trimming once |
| `Trimming.TrimEmptyIffAllWhitespace` | src/ToDoList.js:28 | `newTask.trim() === ''` exactly when the input is all white space (both directions) |
| `TaskLists.NewTask` | src/ToDoList.js:38-41 | the created task is not complete, its text has no white space at either end, and the text is empty exactly when the pending input is all white space |
| `TaskLists.Flip` | src/ToDoList.js:53 | `{ ...task, isComplete: !task.isComplete }` keeps the text and negates the flag |
| `TaskLists.HasText` | src/ToDoList.js:33 | `tasks.some(task => task.text === text)` is true exactly when some position holds that text |
| `TaskLists.Toggled` | src/ToDoList.js:51-56 | the `map` keeps the length; the element at `index` is its flipped copy and every other element is the same |
| `TaskLists.Deleted` | src/ToDoList.js:64 | the `filter` shortens the list by exactly one for an in-range index and keeps the length otherwise |
| `TaskLists.Add` | src/ToDoList.js:26-45 | refuses with the empty-input error exactly when the input is all white space; refuses with the duplicate error exactly when it is not and some task has the trimmed text; on success the old tasks form the unchanged prefix and the one new last task is `{ trim(newTask), false }` |
| `TaskLists.WellFormedTextsTrimmed` | src/ToDoList.js:38-41 | in a well-formed list every text is non-empty and `trim(text) == text` |
| `TaskLists.AddAccepts` | src/ToDoList.js:26-43 | the converse of the refusals: an input whose trimmed text is non-empty and not present is accepted, and the new list is the old one plus `{ trim(newTask), false }` |
| `TaskLists.AppendPreservesWellFormed` | src/ToDoList.js:33-43 | appending a task whose text is non-empty, trimmed and not yet present keeps the invariant |
| `TaskLists.AddStoresTrimmedText` | src/ToDoList.js:38-41 | the text a successful add stores is the trimmed input, non-empty, and a fixed point of `trim` |
| `TaskLists.AddPreservesWellFormed` | src/ToDoList.js:33-43 | a successful add keeps texts pairwise distinct, non-empty and trimmed |
| `TaskLists.AddSameTextTwice` | src/ToDoList.js:33-36 | right after a text is added, any input that trims to the same text is refused as a duplicate |
| `TaskLists.ToggledIsUpdate` | src/ToDoList.js:51-56 | in range, toggling is `tasks[index := Flip(tasks[index])]`; out of range, the list is unchanged |
| `TaskLists.ToggledTwice` | src/ToDoList.js:51-56 | toggling the same index twice returns the original list |
| `TaskLists.ToggledPreservesWellFormed` | src/ToDoList.js:53 | toggling keeps the invariant, because it copies every text |
| `TaskLists.DeletedIsSlice` | src/ToDoList.js:64 | in range, deleting gives `tasks[..index] + tasks[index+1..]`; out of range, the list is unchanged |
| `TaskLists.DeletedPreservesWellFormed` | src/ToDoList.js:64 | deleting keeps the invariant |
| `TaskLists.SessionAdds` | src/ToDoList.js:26-45 | for any two distinct non-empty trimmed texts (e.g. "Buy milk", "Walk dog"), starting empty: the first is added, re-adding it is refused as a duplicate, and the second is appended after it |
| `TaskLists.SessionToggleAndDelete` | src/ToDoList.js:49-67 | continuing that session: toggling row 0 completes the first task and leaves the second alone, and then deleting row 0 leaves only the second |
| `Component.ToDoList.constructor` | src/ToDoList.js:7-8 | the component starts with no tasks and an empty input, and satisfies the invariant |
| `Component.ToDoList.SetNewTask` | src/ToDoList.js:77 | the input handler sets `newTask` to the typed value, leaves `tasks` alone, and keeps the invariant |
| `Component.ToDoList.AddTask` | src/ToDoList.js:26-46 | for an all-white-space input: the empty-input alert and no state change. For a trimmed text already present: the duplicate alert and no state change. Otherwise: `tasks` becomes old `tasks` plus `{ trim(newTask), false }` and `newTask` becomes `""`. The invariant is kept |
| `Component.ToDoList.ToggleTaskCompletion` | src/ToDoList.js:49-59 | in range, only `isComplete` at `index` is negated; out of range, nothing changes; `newTask` is untouched; the invariant is kept |
| `Component.ToDoList.DeleteTask` | src/ToDoList.js:62-67 | in range, the list loses exactly position `index` and keeps the others in order; out of range, nothing changes; `newTask` is untouched; the invariant is kept |

## Left out

- Loading tasks from `localStorage` on mount and saving them on every change (src/ToDoList.js:12-23). This is browser storage reached through `JSON.parse`/`JSON.stringify`, so the save/load round trip is not modelled. A list restored this way need not satisfy `WellFormed`.
- React's scheduling of state updates (`useState`, `useEffect` dependencies, batching). Each setter is an immediate assignment.
- The text of the two `alert` messages and the dialog itself. Only the failure reason is kept.
- The JSX rendering (src/ToDoList.js:69-96), including the row keys and the `completed` class.
- src/App.js, which only mounts the component.
- Handler arguments other than integers. `index` is an `int`. A non-number argument in JavaScript never equals a `map`/`filter` position, so it behaves like an out-of-range index.
- JavaScript strings are UTF-16 code-unit sequences, and the model uses sequences of Unicode characters. All the white-space code points lie in the Basic Multilingual Plane, so trimming and text equality are unaffected.
