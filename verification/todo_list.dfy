/**
 The ordered list of task records held by the `Home` component and the three
 whole-list rewrites its handlers perform: the `filter` of delete, the `map`
 of update and the `map` of toggle-edit.
 */
module TodoList {

  /** One task record `{id, text, isEditing}`. */
  datatype Item = Item(id: int, text: string, isEditing: bool)

  /** `xs` holds an item whose id is `id`. */
  predicate HasId(xs: seq<Item>, id: int) {
    exists i :: 0 <= i < |xs| && xs[i].id == id
  }

  /** No two positions of `xs` share an id. */
  predicate UniqueIds(xs: seq<Item>) {
    forall i, j :: 0 <= i < |xs| && 0 <= j < |xs| && xs[i].id == xs[j].id ==> i == j
  }

  /** Ids grow strictly along the list, as creation timestamps appended in
      order do. */
  predicate IncreasingIds(xs: seq<Item>) {
    forall i, j :: 0 <= i < j < |xs| ==> xs[i].id < xs[j].id
  }

  /** The positions of the items that are in edit mode. */
  function Editing(xs: seq<Item>): set<nat> {
    set i: nat | i < |xs| && xs[i].isEditing
  }

  /** At most one item is in edit mode. */
  predicate AtMostOneEditing(xs: seq<Item>) {
    forall i, j :: 0 <= i < |xs| && 0 <= j < |xs| && xs[i].isEditing && xs[j].isEditing ==> i == j
  }

  /** `xs` and `ys` list the same ids and the same texts, position by
      position; only the edit-mode flags may differ. */
  predicate SameEntries(xs: seq<Item>, ys: seq<Item>) {
    |xs| == |ys| && forall i :: 0 <= i < |xs| ==> xs[i].id == ys[i].id && xs[i].text == ys[i].text
  }

  /** `r` can be obtained from `xs` by deleting elements. */
  predicate IsSubsequence<T(==)>(r: seq<T>, xs: seq<T>)
    decreases |xs|
  {
    r == [] || (xs != [] && ((r[0] == xs[0] && IsSubsequence(r[1..], xs[1..])) || IsSubsequence(r, xs[1..])))
  }

  /** How many items of `xs` carry the id `id`. */
  function CountId(xs: seq<Item>, id: int): (n: nat)
    ensures n <= |xs|
    ensures n == 0 <==> !HasId(xs, id)
  {
    if xs == [] then 0
    else (if xs[0].id == id then 1 else 0) + CountId(xs[1..], id)
  }

  /** `filter(item => item.id !== id)`: every item whose id is `id` is gone,
      every other item stays, in its original relative order. */
  function RemoveId(xs: seq<Item>, id: int): (r: seq<Item>)
    ensures |r| == |xs| - CountId(xs, id)
    ensures IsSubsequence(r, xs)
    ensures forall k :: 0 <= k < |r| ==> r[k].id != id
    ensures !HasId(xs, id) ==> r == xs
  {
    if xs == [] then []
    else
      var rest := RemoveId(xs[1..], id);
      if xs[0].id == id then rest else [xs[0]] + rest
  }

  /** An item survives the filter exactly when it was in the list with
      another id. */
  lemma {:induction false} RemoveIdMembers(xs: seq<Item>, id: int)
    ensures forall x :: x in RemoveId(xs, id) <==> x in xs && x.id != id
  {
    if xs != [] {
      RemoveIdMembers(xs[1..], id);
      assert forall x :: x in xs <==> x == xs[0] || x in xs[1..];
    }
  }

  /** `map(item => item.id === id ? {...item, text, isEditing: false} : item)`. */
  function ReplaceText(xs: seq<Item>, id: int, text: string): (r: seq<Item>)
    ensures SameIds(r, xs)
    ensures forall k :: 0 <= k < |xs| && xs[k].id == id ==> r[k].text == text && !r[k].isEditing
    ensures forall k :: 0 <= k < |xs| && xs[k].id != id ==> r[k] == xs[k]
  {
    seq(|xs|, k requires 0 <= k < |xs| =>
      if xs[k].id == id then xs[k].(text := text, isEditing := false) else xs[k])
  }

  /** `map(item => item.id === id ? {...item, isEditing: !item.isEditing}
      : {...item, isEditing: false})`. */
  function ToggleOnly(xs: seq<Item>, id: int): (r: seq<Item>)
    ensures SameEntries(r, xs)
    ensures forall k :: 0 <= k < |xs| ==> r[k].isEditing == (xs[k].id == id && !xs[k].isEditing)
  {
    seq(|xs|, k requires 0 <= k < |xs| =>
      if xs[k].id == id then xs[k].(isEditing := !xs[k].isEditing) else xs[k].(isEditing := false))
  }

  /** Same length and the same id at every position. */
  predicate SameIds(xs: seq<Item>, ys: seq<Item>) {
    |xs| == |ys| && forall i :: 0 <= i < |xs| ==> xs[i].id == ys[i].id
  }

  // ---------------------------------------------------------------------
  // RemoveId is the filter: the three facts of its contract pin it down.
  // ---------------------------------------------------------------------

  /** A subsequence of `xs` that avoids `id` has at most as many items as
      `xs` has items with other ids. */
  lemma {:induction false} SubsequenceAvoidingBound(r: seq<Item>, xs: seq<Item>, id: int)
    requires IsSubsequence(r, xs)
    requires forall k :: 0 <= k < |r| ==> r[k].id != id
    ensures |r| <= |xs| - CountId(xs, id)
    decreases |xs|
  {
    if r == [] {
    } else if r[0] == xs[0] && IsSubsequence(r[1..], xs[1..]) {
      SubsequenceAvoidingBound(r[1..], xs[1..], id);
    } else {
      SubsequenceAvoidingBound(r, xs[1..], id);
    }
  }

  /** Any list that is a subsequence of `xs`, avoids `id`, and keeps as many
      items as `xs` has with other ids, is exactly `RemoveId(xs, id)`. */
  lemma {:induction false} RemoveIdCharacterized(r: seq<Item>, xs: seq<Item>, id: int)
    requires IsSubsequence(r, xs)
    requires forall k :: 0 <= k < |r| ==> r[k].id != id
    requires |r| == |xs| - CountId(xs, id)
    ensures r == RemoveId(xs, id)
    decreases |xs|
  {
    if xs == [] {
    } else if xs[0].id == id {
      if r != [] {
        assert r[0] != xs[0];
      }
      RemoveIdCharacterized(r, xs[1..], id);
    } else if r != [] && r[0] == xs[0] && IsSubsequence(r[1..], xs[1..]) {
      RemoveIdCharacterized(r[1..], xs[1..], id);
      assert r == [r[0]] + r[1..];
    } else {
      SubsequenceAvoidingBound(r, xs[1..], id);
      assert false;
    }
  }

  /** Under unique ids, deleting an id that is present removes exactly one
      item; deleting one that is absent removes none. */
  lemma {:induction false} RemoveIdCount(xs: seq<Item>, id: int)
    requires UniqueIds(xs)
    ensures |RemoveId(xs, id)| == if HasId(xs, id) then |xs| - 1 else |xs|
  {
    if HasId(xs, id) {
      var i :| 0 <= i < |xs| && xs[i].id == id;
      CountIdUnique(xs, id, i);
    }
  }

  /** With unique ids, the id at position `i` occurs exactly once. */
  lemma {:induction false} CountIdUnique(xs: seq<Item>, id: int, i: nat)
    requires UniqueIds(xs)
    requires i < |xs| && xs[i].id == id
    ensures CountId(xs, id) == 1
  {
    if i == 0 {
      assert !HasId(xs[1..], id) by {
        forall k | 0 <= k < |xs[1..]|
          ensures xs[1..][k].id != id
        {
          assert xs[1..][k] == xs[k + 1];
        }
      }
    } else {
      assert UniqueIds(xs[1..]) by {
        forall a, b | 0 <= a < |xs[1..]| && 0 <= b < |xs[1..]| && xs[1..][a].id == xs[1..][b].id
          ensures a == b
        {
          assert xs[a + 1].id == xs[b + 1].id;
        }
      }
      CountIdUnique(xs[1..], id, i - 1);
    }
  }

  // ---------------------------------------------------------------------
  // Invariants of the list kept by each rewrite.
  // ---------------------------------------------------------------------

  /** Deleting keeps the ids unique. */
  lemma {:induction false} RemoveIdKeepsUnique(xs: seq<Item>, id: int)
    requires UniqueIds(xs)
    ensures UniqueIds(RemoveId(xs, id))
  {
    if xs != [] {
      assert UniqueIds(xs[1..]) by {
        forall a, b | 0 <= a < |xs[1..]| && 0 <= b < |xs[1..]| && xs[1..][a].id == xs[1..][b].id
          ensures a == b
        {
          assert xs[a + 1].id == xs[b + 1].id;
        }
      }
      RemoveIdMembers(xs[1..], id);
      RemoveIdKeepsUnique(xs[1..], id);
      var rest := RemoveId(xs[1..], id);
      if xs[0].id != id {
        var r := [xs[0]] + rest;
        forall k | 0 <= k < |rest|
          ensures rest[k].id != xs[0].id
        {
          assert rest[k] in xs[1..];
          var m :| 0 <= m < |xs[1..]| && xs[1..][m] == rest[k];
          assert xs[m + 1].id == rest[k].id;
        }
        assert forall a :: 0 < a < |r| ==> r[a] == rest[a - 1];
      }
    }
  }

  /** Deleting keeps the ids increasing. */
  lemma {:induction false} RemoveIdKeepsIncreasing(xs: seq<Item>, id: int)
    requires IncreasingIds(xs)
    ensures IncreasingIds(RemoveId(xs, id))
  {
    if xs != [] {
      RemoveIdMembers(xs[1..], id);
      RemoveIdKeepsIncreasing(xs[1..], id);
      var rest := RemoveId(xs[1..], id);
      if xs[0].id != id {
        var r := [xs[0]] + rest;
        forall k | 0 <= k < |rest|
          ensures xs[0].id < rest[k].id
        {
          assert rest[k] in xs[1..];
          var m :| 0 <= m < |xs[1..]| && xs[1..][m] == rest[k];
          assert xs[m + 1] == rest[k];
        }
        assert forall a :: 0 < a < |r| ==> r[a] == rest[a - 1];
      }
    }
  }

  /** Deleting never puts a second item into edit mode. */
  lemma {:induction false} RemoveIdKeepsAtMostOneEditing(xs: seq<Item>, id: int)
    requires AtMostOneEditing(xs)
    ensures AtMostOneEditing(RemoveId(xs, id))
  {
    if xs != [] {
      assert AtMostOneEditing(xs[1..]) by {
        forall a, b | 0 <= a < |xs[1..]| && 0 <= b < |xs[1..]| && xs[1..][a].isEditing && xs[1..][b].isEditing
          ensures a == b
        {
          assert xs[a + 1].isEditing && xs[b + 1].isEditing;
        }
      }
      RemoveIdMembers(xs[1..], id);
      RemoveIdKeepsAtMostOneEditing(xs[1..], id);
      var rest := RemoveId(xs[1..], id);
      if xs[0].id != id && xs[0].isEditing {
        var r := [xs[0]] + rest;
        forall k | 0 <= k < |rest|
          ensures !rest[k].isEditing
        {
          assert rest[k] in xs[1..];
          var m :| 0 <= m < |xs[1..]| && xs[1..][m] == rest[k];
          assert xs[m + 1] == rest[k];
        }
        assert forall a :: 0 < a < |r| ==> r[a] == rest[a - 1];
      }
    }
  }

  /** Appending an item with a fresh id keeps the ids unique. */
  lemma AppendKeepsUnique(xs: seq<Item>, x: Item)
    requires UniqueIds(xs)
    requires !HasId(xs, x.id)
    ensures UniqueIds(xs + [x])
  {
    var r := xs + [x];
    forall i, j | 0 <= i < |r| && 0 <= j < |r| && r[i].id == r[j].id
      ensures i == j
    {
      if i < |xs| {
        assert r[i] == xs[i];
      }
      if j < |xs| {
        assert r[j] == xs[j];
      }
    }
  }

  /** Appending an item that is not in edit mode keeps at most one item in
      edit mode. */
  lemma AppendKeepsAtMostOneEditing(xs: seq<Item>, x: Item)
    requires AtMostOneEditing(xs)
    requires !x.isEditing
    ensures AtMostOneEditing(xs + [x])
  {
    var r := xs + [x];
    forall i, j | 0 <= i < |r| && 0 <= j < |r| && r[i].isEditing && r[j].isEditing
      ensures i == j
    {
      assert r[i] == xs[i] && r[j] == xs[j];
    }
  }

  /** Toggling edit mode on `id`, with unique ids, leaves at most the target
      in edit mode: exactly the target if it was not editing before, none if
      it was, and none if no item has that id. */
  lemma ToggleOnlyEditing(xs: seq<Item>, id: int)
    requires UniqueIds(xs)
    ensures AtMostOneEditing(ToggleOnly(xs, id))
    ensures forall k :: 0 <= k < |xs| && xs[k].id == id ==>
      Editing(ToggleOnly(xs, id)) == (if xs[k].isEditing then {} else {k})
    ensures !HasId(xs, id) ==> Editing(ToggleOnly(xs, id)) == {}
  {
  }
}
