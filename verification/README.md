# Task list state machine

A Dafny model of the `Home` component of the task-management app
(`app/index.tsx`). The component keeps an input buffer, an ordered list of
`{id, text, isEditing}` task records and an edit buffer, and mirrors the list
to device storage. Its four event handlers are modelled as pure transitions on
an immutable `State`:

- add (`handleAddTodo`) appends a task when the input buffer is not blank;
- delete (`handleDeleteTodo`) filters out a task by id;
- update (`handleUpdateTodo`) rewrites the text of a task when the edit buffer is not blank;
- toggle-edit (`toggleEditMode`) flips one task's edit mode, closes every other one and seeds the edit buffer.

Files:

- `text.dfy` (module `Text`) holds the "non-blank after trim" guard. `Trim` removes leading and trailing ECMAScript white space, as `String.prototype.trim` does. `IsBlank` means every character is white space. The contract of `Trim` ties the two together: the trimmed string is non-empty exactly when the input is not blank.
- `todo_list.dfy` (module `TodoList`) holds the task record and the three list rewrites (the delete filter, the update map, the toggle map). It also has the list invariants (unique ids, increasing ids, at most one item in edit mode) and the lemmas showing which rewrite keeps which invariant.
- `home.dfy` (module `Home`) holds the component state and the handlers. It also has `Hydrate`, the start-up load from storage.
- `home_properties.dfy` (module `HomeProperties`) holds the whole-state invariant and the lemmas that every handler keeps it. It also covers the edit-then-save workflow, what a restart recovers, and the add/add/delete scenario.

The id of a new task comes from `Date.now()`, which reads the clock, so `AddTodo` takes it as a parameter. The `saved` field of `State` is the last list the component handed to `saveTodos`. It is `None` until the first save.

Two behaviours of the code are easy to misread; the model follows the code:

- Add stores the raw input, not the trimmed input. `handleAddTodo` trims only to test for blankness; the record gets `text: todo` unchanged. Update does the same with the edit buffer.
- Delete removes every task with the given id. It removes exactly one task only when ids are unique (`HomeProperties.DeleteRemovesOne`).

## Model

The text-input setters `Home.TypeTodo` (`onChangeText={setTodo}`, app/index.tsx:95) and `Home.TypeEdit` (`onChangeText={setEditText}`, app/index.tsx:129) only overwrite one buffer; they have no contract of their own and are used by the workflow lemmas to type into the buffers.

| member | source | states |
|---|---|---|
| `TodoList.RemoveId` | app/index.tsx:55 | the filtered list is a subsequence of the old one (order kept), no kept item carries the id, its length drops by exactly the number of items with that id, and an absent id changes nothing |
| `TodoList.RemoveIdMembers` | app/index.tsx:55 | an item is in the filtered list exactly when it was in the old list with another id |
| `TodoList.SubsequenceAvoidingBound` | app/index.tsx:55 | no subsequence avoiding the id can be longer than the number of items with other ids |
| `TodoList.RemoveIdCharacterized` | app/index.tsx:55 | any subsequence that avoids the id and is as long as the number of items with another id IS the filter result, so the contract of `RemoveId` determines it uniquely |
| `TodoList.CountIdUnique` | app/index.tsx:55 | with unique ids, an id that occurs occurs exactly once |
| `TodoList.RemoveIdCount` | app/index.tsx:55 | with unique ids, deleting a present id removes exactly one item and deleting an absent id removes none |
| `TodoList.RemoveIdKeepsUnique` | app/index.tsx:55 | deleting keeps ids unique |
| `TodoList.RemoveIdKeepsIncreasing` | app/index.tsx:55 | deleting keeps ids in increasing order |
| `TodoList.RemoveIdKeepsAtMostOneEditing` | app/index.tsx:55 | deleting never leaves two items in edit mode |
| `TodoList.ReplaceText` | app/index.tsx:63-65 | ids stay the same at every position; items with the id get the new text and leave edit mode; all other items are unchanged |
| `TodoList.ToggleOnly` | app/index.tsx:74-76 | ids and texts stay the same at every position; an item ends up in edit mode exactly when it has the id and was not in edit mode before |
| `TodoList.AppendKeepsUnique` | app/index.tsx:42-46 | appending an item whose id no item carries keeps ids unique |
| `TodoList.AppendKeepsAtMostOneEditing` | app/index.tsx:42-46 | appending an item that is not in edit mode keeps at most one item in edit mode |
| `TodoList.ToggleOnlyEditing` | app/index.tsx:74-76 | with unique ids, toggling leaves at most one item in edit mode: the target if it was not editing, none if it was, none if the id is absent |
| `TodoList.CountId` | app/index.tsx:55 | the number of items with an id is zero exactly when no item has that id |
| `Text.TrimStart` | app/index.tsx:41 | the result is a suffix that starts with a non-space, and everything dropped is white space |
| `Text.TrimEnd` | app/index.tsx:41 | the result is a prefix that ends with a non-space, and everything dropped is white space |
| `Text.BlankConcat` | app/index.tsx:41 | a concatenation is blank exactly when both of its parts are |
| `Text.TrimStartBlank` | app/index.tsx:41 | dropping the leading white space leaves a blank string exactly when the input was blank |
| `Text.TrimEndEmpty` | app/index.tsx:41 | dropping the trailing white space empties a string exactly when it is blank |
| `Text.Trim` | app/index.tsx:41 | `trim().length > 0` holds exactly when the string is not blank, and the trimmed string has white space at neither end |
| `Text.TrimIsSlice` | app/index.tsx:41 | the trimmed string is a contiguous slice of the input: a prefix of the input with its leading white space dropped |
| `Home.Hydrate` | app/index.tsx:19-28 | a parsed stored list replaces the task list; a missing record or a failed read or parse leaves the state unchanged; the buffers and the saved list are never touched |
| `Home.AddTodo` | app/index.tsx:40-51 | blank input changes nothing at all; otherwise exactly one item is appended after the unchanged old items, carrying the supplied id, the raw untrimmed input and no edit mode; the input buffer is cleared, the edit buffer kept, and the new list saved |
| `Home.DeleteTodo` | app/index.tsx:54-58 | the new list is the old one with every item of that id removed and every other item kept, in their original order (length drops by exactly the number of items with that id, so `RemoveIdCharacterized` pins it to the filter); an absent id leaves it unchanged; the buffers are untouched and the new list is saved |
| `Home.UpdateTodo` | app/index.tsx:61-70 | a blank edit buffer changes nothing at all; otherwise the ids keep their positions, items with the id take the raw edit buffer as text and leave edit mode, other items are unchanged, the edit buffer is cleared and the new list saved |
| `Home.ToggleEditMode` | app/index.tsx:73-78 | ids and texts keep their positions; the target's edit flag is negated and every other flag is cleared; the edit buffer becomes the supplied text; the saved list and the input buffer are unchanged |
| `HomeProperties.InitialValid` | app/index.tsx:8-10 | the first-rendered component satisfies the state invariant |
| `HomeProperties.AddKeepsValid` | app/index.tsx:40-51 | adding with an id not yet in the list keeps ids unique, at most one item in edit mode, no blank texts, and the saved list in step with the in-memory list |
| `HomeProperties.AddKeepsIncreasing` | app/index.tsx:42-46 | with an id from a clock past every existing id, ids stay increasing and so unique |
| `HomeProperties.DeleteKeepsValid` | app/index.tsx:54-58 | deleting keeps the state invariant |
| `HomeProperties.DeleteKeepsIncreasing` | app/index.tsx:55 | deleting keeps ids increasing |
| `HomeProperties.DeleteRemovesOne` | app/index.tsx:54-58 | with unique ids, deleting a present id shortens the list by exactly one, and deleting an absent id is a no-op on the list |
| `HomeProperties.UpdateKeepsValid` | app/index.tsx:61-70 | updating keeps the state invariant |
| `HomeProperties.UpdateKeepsIncreasing` | app/index.tsx:63-65 | updating keeps ids increasing |
| `HomeProperties.ToggleKeepsValid` | app/index.tsx:73-78 | toggling keeps the state invariant, and afterwards exactly the target is in edit mode if it was not before, and no item is in edit mode if it was or if the id is absent |
| `HomeProperties.EditThenSave` | app/index.tsx:61-78 | pressing Edit on an item, typing a non-blank text and pressing Save leaves no item in edit mode, gives that item the typed text, only closes the edit mode of the others, and saves the result |
| `HomeProperties.EditAnotherItem` | app/index.tsx:73-78 | pressing Edit on one item and then on another (whose Edit button is still shown) leaves only the second in edit mode, with its text in the edit buffer and all ids and texts unchanged |
| `HomeProperties.RestartKeepsValid` | app/index.tsx:19-28 | a component hydrating from the last saved list of a valid state starts valid: unique ids, non-blank texts, at most one item in edit mode |
| `HomeProperties.RestartRecoversSaved` | app/index.tsx:19-28 | after add, delete or update has saved, a fresh component hydrating from the saved list holds exactly the in-memory list |
| `HomeProperties.AddAddDeleteScenario` | app/index.tsx:40-58 | starting empty, adding two non-blank tasks with distinct ids lists them in insertion order, and deleting the first leaves only the second |
| `HomeProperties.SavedListCarriesEditMode` | app/index.tsx:54-58 | the edit flag is saved with the list: Edit on one item then Delete on another saves the first item in edit mode, so a restart shows it in edit mode with an empty edit buffer, where Save does nothing |

## Left out

- Storage I/O (`AsyncStorage.getItem` and `setItem`) is not modelled. `saved` records what was handed to `saveTodos`. Whether the write succeeded is not modelled: a failed write is only logged by the source.
- The asynchrony of storage is not modelled. Writes may complete out of order, and the start-up load may finish after a handler has run. Every transition is synchronous in the model.
- JSON serialisation and parsing are library calls with no visible code. `Hydrate` takes the parsed list, or `None` for a missing record or a failed read or parse.
- Id generation is not modelled. `Date.now()` reads the clock, so the id is a parameter, and two adds in the same millisecond could collide. `AddKeepsValid` and `AddKeepsIncreasing` state the freshness they need as a precondition.
- Numbers are modelled as unbounded integers. Ids are JavaScript numbers, but timestamps are exact integers well inside the double range.
- Characters are Unicode scalar values, where JavaScript strings hold UTF-16 code units. Every white-space character `trim` removes lies in the Basic Multilingual Plane, so the blankness test agrees.
- React rendering, styling and hooks are UI only and not modelled. This covers the `useEffect` start-up call, the `hoveredId` press highlighting, and which buttons are shown for an item in edit mode. The two text inputs appear only as the `TypeTodo` and `TypeEdit` setters used by the workflow lemmas.
