/**
 The `Home` component of app/index.tsx as a state machine: its React state
 (input buffer, task list, edit buffer) plus the last list it handed to
 storage, and its four event handlers as pure transitions. The clock read
 that creates ids and the storage calls are parameters or left abstract.
 */
module Home {
  import opened Text
  import opened TodoList

  datatype Option<T> = None | Some(value: T)

  /** `todo` is the input buffer, `items` the task list, `editText` the edit
      buffer; `saved` is the last list handed to `saveTodos` in this session
      (`None` before the first save). */
  datatype State = State(todo: string, items: seq<Item>, editText: string, saved: Option<seq<Item>>)

  /** The component as first rendered: every buffer empty, nothing saved. */
  function Initial(): State {
    State("", [], "", None)
  }

  /** `loadTodos`: `stored` is the list parsed from the record under the
      storage key, or `None` when there is no record or reading or parsing
      failed (the error is logged and the list left as it was). */
  function Hydrate(s: State, stored: Option<seq<Item>>): (r: State)
    ensures stored.Some? ==> r.items == stored.value
    ensures stored.None? ==> r == s
    ensures r.todo == s.todo && r.editText == s.editText && r.saved == s.saved
  {
    match stored
    case Some(l) => s.(items := l)
    case None => s
  }

  /** `handleAddTodo`: when the input buffer is not blank, append a new item
      carrying the raw (untrimmed) input and the supplied id, save the new
      list and clear the input buffer; otherwise do nothing. */
  function AddTodo(s: State, newId: int): (r: State)
    ensures IsBlank(s.todo) ==> r == s
    ensures !IsBlank(s.todo) ==>
      && |r.items| == |s.items| + 1
      && r.items[..|s.items|] == s.items
      && r.items[|s.items|] == Item(newId, s.todo, false)
      && r.todo == ""
      && r.editText == s.editText
      && r.saved == Some(r.items)
  {
    if |Trim(s.todo)| > 0 then
      var newList := s.items + [Item(newId, s.todo, false)];
      s.(items := newList, saved := Some(newList), todo := "")
    else
      s
  }

  /** `handleDeleteTodo`: drop every item with the given id, keeping the rest
      in order, and save the new list. Both buffers are untouched. */
  function DeleteTodo(s: State, id: int): (r: State)
    ensures |r.items| == |s.items| - CountId(s.items, id)
    ensures IsSubsequence(r.items, s.items)
    ensures forall x :: x in r.items <==> x in s.items && x.id != id
    ensures !HasId(r.items, id)
    ensures !HasId(s.items, id) ==> r.items == s.items
    ensures r.todo == s.todo && r.editText == s.editText
    ensures r.saved == Some(r.items)
  {
    RemoveIdMembers(s.items, id);
    var newList := RemoveId(s.items, id);
    s.(items := newList, saved := Some(newList))
  }

  /** `handleUpdateTodo`: when the edit buffer is not blank, give every item
      with the given id the raw edit buffer as its text and take it out of
      edit mode, save the new list and clear the edit buffer; otherwise do
      nothing. */
  function UpdateTodo(s: State, id: int): (r: State)
    ensures IsBlank(s.editText) ==> r == s
    ensures !IsBlank(s.editText) ==>
      && SameIds(r.items, s.items)
      && (forall k :: 0 <= k < |s.items| && s.items[k].id == id ==>
            r.items[k].text == s.editText && !r.items[k].isEditing)
      && (forall k :: 0 <= k < |s.items| && s.items[k].id != id ==> r.items[k] == s.items[k])
      && r.editText == ""
      && r.todo == s.todo
      && r.saved == Some(r.items)
  {
    if |Trim(s.editText)| > 0 then
      var newList := ReplaceText(s.items, id, s.editText);
      s.(items := newList, saved := Some(newList), editText := "")
    else
      s
  }

  /** `toggleEditMode`: flip the edit flag of the items with the given id,
      take every other item out of edit mode and seed the edit buffer with
      `text`. Nothing is saved. */
  function ToggleEditMode(s: State, id: int, text: string): (r: State)
    ensures SameEntries(r.items, s.items)
    ensures forall k :: 0 <= k < |s.items| ==>
      r.items[k].isEditing == (s.items[k].id == id && !s.items[k].isEditing)
    ensures r.editText == text
    ensures r.todo == s.todo && r.saved == s.saved
  {
    s.(items := ToggleOnly(s.items, id), editText := text)
  }

  /** `onChangeText={setTodo}`: the input box rewrites the input buffer. */
  function TypeTodo(s: State, text: string): State {
    s.(todo := text)
  }

  /** `onChangeText={setEditText}`: the edit box rewrites the edit buffer. */
  function TypeEdit(s: State, text: string): State {
    s.(editText := text)
  }
}
