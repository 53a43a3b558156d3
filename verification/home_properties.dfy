/**
 Properties of the `Home` state machine that span several handlers or whole
 runs: the invariant every handler keeps, the edit-then-save workflow, what
 a restart recovers from storage, and the add/add/delete scenario.
 */
module HomeProperties {
  import opened Text
  import opened TodoList
  import opened Home

  /** No item's text is blank. */
  predicate TextsNonBlank(xs: seq<Item>) {
    forall k :: 0 <= k < |xs| ==> !IsBlank(xs[k].text)
  }

  /** The state invariant: ids are unique, at most one item is in edit mode,
      no stored text is blank, and the last saved list differs from the
      in-memory one at most in the edit-mode flags and has at most one item
      in edit mode itself. */
  predicate Valid(s: State) {
    && UniqueIds(s.items)
    && AtMostOneEditing(s.items)
    && TextsNonBlank(s.items)
    && (s.saved.Some? ==> SameEntries(s.saved.value, s.items))
    && (s.saved.Some? ==> AtMostOneEditing(s.saved.value))
  }

  lemma InitialValid()
    ensures Valid(Initial())
  {
  }

  /** Adding with an id no item carries yet keeps the invariant. */
  lemma AddKeepsValid(s: State, newId: int)
    requires Valid(s)
    requires !HasId(s.items, newId)
    ensures Valid(AddTodo(s, newId))
  {
    var r := AddTodo(s, newId);
    if !IsBlank(s.todo) {
      var item := Item(newId, s.todo, false);
      assert r.items == s.items + [item];
      AppendKeepsUnique(s.items, item);
      AppendKeepsAtMostOneEditing(s.items, item);
    }
  }

  /** With ids taken from a clock that has moved past every existing id, ids
      stay in increasing order, and therefore unique. */
  lemma AddKeepsIncreasing(s: State, newId: int)
    requires IncreasingIds(s.items)
    requires forall k :: 0 <= k < |s.items| ==> s.items[k].id < newId
    ensures IncreasingIds(AddTodo(s, newId).items)
    ensures UniqueIds(AddTodo(s, newId).items)
  {
  }

  lemma DeleteKeepsValid(s: State, id: int)
    requires Valid(s)
    ensures Valid(DeleteTodo(s, id))
  {
    RemoveIdKeepsUnique(s.items, id);
    RemoveIdKeepsAtMostOneEditing(s.items, id);
    var r := DeleteTodo(s, id);
    forall k | 0 <= k < |r.items|
      ensures !IsBlank(r.items[k].text)
    {
      assert r.items[k] in s.items;
    }
  }

  lemma DeleteKeepsIncreasing(s: State, id: int)
    requires IncreasingIds(s.items)
    ensures IncreasingIds(DeleteTodo(s, id).items)
  {
    RemoveIdKeepsIncreasing(s.items, id);
  }

  /** With unique ids, deleting a present id shortens the list by exactly
      one; an absent id leaves it as it was. */
  lemma DeleteRemovesOne(s: State, id: int)
    requires UniqueIds(s.items)
    ensures HasId(s.items, id) ==> |DeleteTodo(s, id).items| == |s.items| - 1
    ensures !HasId(s.items, id) ==> DeleteTodo(s, id).items == s.items
  {
    RemoveIdCount(s.items, id);
  }

  lemma UpdateKeepsValid(s: State, id: int)
    requires Valid(s)
    ensures Valid(UpdateTodo(s, id))
  {
    var r := UpdateTodo(s, id);
    if !IsBlank(s.editText) {
      forall i, j | 0 <= i < |r.items| && 0 <= j < |r.items| && r.items[i].id == r.items[j].id
        ensures i == j
      {
        assert s.items[i].id == s.items[j].id;
      }
      forall i, j | 0 <= i < |r.items| && 0 <= j < |r.items| && r.items[i].isEditing && r.items[j].isEditing
        ensures i == j
      {
        assert s.items[i].isEditing && s.items[j].isEditing;
      }
      forall k | 0 <= k < |r.items|
        ensures !IsBlank(r.items[k].text)
      {
        if s.items[k].id != id {
          assert r.items[k] == s.items[k];
        }
      }
    }
  }

  lemma UpdateKeepsIncreasing(s: State, id: int)
    requires IncreasingIds(s.items)
    ensures IncreasingIds(UpdateTodo(s, id).items)
  {
  }

  /** Toggling keeps the invariant, and leaves in edit mode at most the target,
      which is in edit mode exactly when it was not before. */
  lemma ToggleKeepsValid(s: State, id: int, text: string)
    requires Valid(s)
    ensures Valid(ToggleEditMode(s, id, text))
    ensures forall k :: 0 <= k < |s.items| && s.items[k].id == id ==>
      Editing(ToggleEditMode(s, id, text).items) == (if s.items[k].isEditing then {} else {k})
    ensures !HasId(s.items, id) ==> Editing(ToggleEditMode(s, id, text).items) == {}
  {
  }

  /** The edit workflow: press Edit on an item that is not being edited,
      type a non-blank text, press Save. Afterwards no item is in edit mode,
      the item carries the typed text, the other items are as they were, and
      the saved list is the new list. */
  lemma EditThenSave(s: State, k: nat, typed: string)
    requires Valid(s)
    requires k < |s.items| && !s.items[k].isEditing
    requires !IsBlank(typed)
    ensures var id := s.items[k].id;
      var r := UpdateTodo(TypeEdit(ToggleEditMode(s, id, s.items[k].text), typed), id);
      && Editing(r.items) == {}
      && r.items[k] == s.items[k].(text := typed)
      && (forall j :: 0 <= j < |s.items| && j != k ==> r.items[j] == s.items[j].(isEditing := false))
      && r.editText == ""
      && r.saved == Some(r.items)
  {
  }

  /** Switching edits: press Edit on item `a`, then Edit on another item `b`
      (whose Edit button is still shown, since only `a` is in edit mode).
      Afterwards only `b` is in edit mode, the edit buffer holds `b`'s text,
      and the ids and texts are as they were. */
  lemma EditAnotherItem(s: State, a: nat, b: nat)
    requires Valid(s)
    requires a < |s.items| && b < |s.items| && a != b
    requires !s.items[a].isEditing && !s.items[b].isEditing
    ensures var t := ToggleEditMode(s, s.items[a].id, s.items[a].text);
      var r := ToggleEditMode(t, s.items[b].id, s.items[b].text);
      && !t.items[b].isEditing
      && Editing(r.items) == {b}
      && r.editText == s.items[b].text
      && SameEntries(r.items, s.items)
  {
    var t := ToggleEditMode(s, s.items[a].id, s.items[a].text);
    ToggleOnlyEditing(t.items, s.items[b].id);
  }

  /** What a restart recovers: after a handler that saves, a fresh component
      that hydrates from the saved list holds exactly the in-memory list,
      provided the write reached storage. */
  lemma RestartRecoversSaved(s: State, id: int, newId: int)
    ensures !IsBlank(s.todo) ==>
      Hydrate(Initial(), AddTodo(s, newId).saved).items == AddTodo(s, newId).items
    ensures Hydrate(Initial(), DeleteTodo(s, id).saved).items == DeleteTodo(s, id).items
    ensures !IsBlank(s.editText) ==>
      Hydrate(Initial(), UpdateTodo(s, id).saved).items == UpdateTodo(s, id).items
  {
  }

  /** A restart that hydrates from the last saved list starts in a valid
      state: the saved list has unique ids, non-blank texts and at most one
      item in edit mode. */
  lemma RestartKeepsValid(s: State)
    requires Valid(s)
    ensures Valid(Hydrate(Initial(), s.saved))
  {
    if s.saved.Some? {
      var l := s.saved.value;
      assert forall k :: 0 <= k < |l| ==> l[k].id == s.items[k].id && l[k].text == s.items[k].text;
    }
  }

  /** Start empty, add a task (say "Buy milk") and then another ("Walk
      dog"), then delete the first: the list holds the two in insertion order,
      then only the second. */
  lemma AddAddDeleteScenario(first: string, second: string, a: int, b: int)
    requires !IsBlank(first) && !IsBlank(second)
    requires a != b
    ensures var s1 := AddTodo(TypeTodo(Initial(), first), a);
      var s2 := AddTodo(TypeTodo(s1, second), b);
      var s3 := DeleteTodo(s2, a);
      && s2.items == [Item(a, first, false), Item(b, second, false)]
      && s3.items == [Item(b, second, false)]
  {
  }

  /** The edit-mode flag goes to storage with the list: press Edit on one
      item, then delete another, and the saved list has the first item in
      edit mode. A restart therefore shows that item in edit mode with an
      empty edit buffer, where Save does nothing. */
  lemma SavedListCarriesEditMode()
    ensures var s0 := State("", [Item(1, "a", false), Item(2, "b", false)], "", None);
      var s1 := DeleteTodo(ToggleEditMode(s0, 1, "a"), 2);
      var h := Hydrate(Initial(), s1.saved);
      && s1.saved == Some([Item(1, "a", true)])
      && h.items == [Item(1, "a", true)]
      && UpdateTodo(h, 1) == h
  {
    var s0 := State("", [Item(1, "a", false), Item(2, "b", false)], "", None);
    var t := ToggleEditMode(s0, 1, "a");
    assert t.items == [Item(1, "a", true), Item(2, "b", false)];
    var rest := [Item(2, "b", false)];
    assert t.items[1..] == rest;
    assert rest[1..] == [];
    assert RemoveId(rest, 2) == [];
    assert RemoveId(t.items, 2) == [Item(1, "a", true)];
  }
}
