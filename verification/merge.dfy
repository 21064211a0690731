/**
 * Merge-with-default: a locale's texts are moved into the default slot. A leaf with no text in
 * the locale is left alone; otherwise its default text becomes the locale's text and the
 * locale's text is removed. A group does this for every leaf below it.
 */
module Merge {
  import opened LocStrings
  import opened Tree

  /** The text of one field after its `loc` text is merged into the default slot. */
  function MergeField(s: LocString, loc: string): (r: LocString)
    ensures GetText(r, loc) == ""
    ensures GetText(s, loc) == "" ==> r == s
    ensures StorageKey(loc) != DefaultKey ==>
      GetText(r, "") == if GetText(s, loc) != "" then GetText(s, loc) else GetText(s, "")
  {
    var t := GetText(s, loc);
    if t == "" then s else SetText(SetText(s, "", t), loc, "")
  }

  /** Merging leaves every locale other than the default and the merged one as it was. */
  lemma MergeFieldOther(s: LocString, loc: string, l: string)
    requires StorageKey(l) != DefaultKey && StorageKey(l) != StorageKey(loc)
    ensures GetText(MergeField(s, loc), l) == GetText(s, l)
  {
    var t := GetText(s, loc);
    if t != "" {
      SetTextOther(s, "", t, l);
      SetTextOther(SetText(s, "", t), loc, "", l);
    }
  }

  /** Merging the default locale into itself (the empty locale, or one stored under the same key) discards its text. */
  lemma MergeIntoItselfClears(s: LocString, loc: string)
    requires StorageKey(loc) == DefaultKey
    ensures GetText(MergeField(s, loc), "") == ""
  {
  }

  /** Merging twice is merging once. */
  lemma MergeFieldIdempotent(s: LocString, loc: string)
    ensures MergeField(MergeField(s, loc), loc) == MergeField(s, loc)
  {
  }

  /** `TranslationItem.mergeLocaleWithDefault(loc)` on the field `id`: nothing at all happens when the locale has no text. */
  function MergeLeaf(store: Store, id: FieldId, loc: string): (r: Store)
    ensures GetText(Field(store, id), loc) == "" ==> r == store
    ensures Field(r, id) == MergeField(Field(store, id), loc)
  {
    var t := GetText(Field(store, id), loc);
    if t == "" then store else WriteText(WriteText(store, id, "", t), id, loc, "")
  }

  /** Merging one field leaves every other field alone. */
  lemma MergeLeafOther(store: Store, id: FieldId, loc: string, f: FieldId)
    requires f != id
    ensures Field(MergeLeaf(store, id, loc), f) == Field(store, f)
  {
    var t := GetText(Field(store, id), loc);
    if t != "" {
      WriteTextField(store, id, "", t, f);
      WriteTextField(WriteText(store, id, "", t), id, loc, "", f);
    }
  }

  lemma MergeLeafValid(store: Store, id: FieldId, loc: string)
    requires StoreValid(store)
    ensures StoreValid(MergeLeaf(store, id, loc))
  {
    var t := GetText(Field(store, id), loc);
    if t != "" {
      WriteTextValid(store, id, "", t);
      WriteTextValid(WriteText(store, id, "", t), id, loc, "");
    }
  }

  /** The leaves merged in order (a group in the sequence has no text of its own and is passed over). */
  function MergeLeaves(store: Store, leaves: seq<Node>, loc: string): Store
  {
    if leaves == [] then store
    else if !leaves[|leaves| - 1].Leaf? then MergeLeaves(store, leaves[..|leaves| - 1], loc)
    else MergeLeaf(MergeLeaves(store, leaves[..|leaves| - 1], loc), leaves[|leaves| - 1].field, loc)
  }

  predicate HasField(leaves: seq<Node>, id: FieldId)
  {
    exists i :: 0 <= i < |leaves| && leaves[i].Leaf? && leaves[i].field == id
  }

  /**
   * After merging a sequence of leaves, each of their fields is merged exactly as if it had been
   * merged once, whatever the number of leaves sharing it, and every other field is untouched.
   */
  lemma {:induction false} MergeLeavesSpec(store: Store, leaves: seq<Node>, loc: string, id: FieldId)
    ensures Field(MergeLeaves(store, leaves, loc), id) ==
      if HasField(leaves, id) then MergeField(Field(store, id), loc) else Field(store, id)
  {
    if leaves != [] {
      var n := |leaves| - 1;
      var prev := leaves[..n];
      MergeLeavesSpec(store, prev, loc, id);
      assert forall i :: 0 <= i < n ==> prev[i] == leaves[i];
      if leaves[n].Leaf? && leaves[n].field == id && HasField(prev, id) {
        MergeFieldIdempotent(Field(store, id), loc);
      }
      if HasField(leaves, id) && !(leaves[n].Leaf? && leaves[n].field == id) {
        var i :| 0 <= i < |leaves| && leaves[i].Leaf? && leaves[i].field == id;
        assert prev[i].field == id;
      }
    }
  }

  lemma {:induction false} MergeLeavesValid(store: Store, leaves: seq<Node>, loc: string)
    requires StoreValid(store)
    ensures StoreValid(MergeLeaves(store, leaves, loc))
  {
    if leaves != [] {
      MergeLeavesValid(store, leaves[..|leaves| - 1], loc);
      if leaves[|leaves| - 1].Leaf? {
        MergeLeafValid(MergeLeaves(store, leaves[..|leaves| - 1], loc), leaves[|leaves| - 1].field, loc);
      }
    }
  }

  /** When no leaf has a text in the locale, merging changes nothing. */
  lemma {:induction false} MergeLeavesNothingToDo(store: Store, leaves: seq<Node>, loc: string)
    requires forall i :: 0 <= i < |leaves| && leaves[i].Leaf? ==> GetText(Field(store, leaves[i].field), loc) == ""
    ensures MergeLeaves(store, leaves, loc) == store
  {
    if leaves != [] {
      MergeLeavesNothingToDo(store, leaves[..|leaves| - 1], loc);
    }
  }

  /** Merging the same leaves twice is merging them once. */
  lemma MergeLeavesIdempotent(store: Store, leaves: seq<Node>, loc: string)
    ensures MergeLeaves(MergeLeaves(store, leaves, loc), leaves, loc) == MergeLeaves(store, leaves, loc)
  {
    var once := MergeLeaves(store, leaves, loc);
    forall i | 0 <= i < |leaves| && leaves[i].Leaf? ensures GetText(Field(once, leaves[i].field), loc) == "" {
      MergeLeavesSpec(store, leaves, loc, leaves[i].field);
    }
    MergeLeavesNothingToDo(once, leaves, loc);
  }

  lemma {:induction false} MergeLeavesAppend(store: Store, a: seq<Node>, b: seq<Node>, loc: string)
    ensures MergeLeaves(store, a + b, loc) == MergeLeaves(MergeLeaves(store, a, loc), b, loc)
  {
    if b == [] {
      assert a + b == a;
    } else {
      assert (a + b)[..|a + b| - 1] == a + b[..|b| - 1];
      MergeLeavesAppend(store, a, b[..|b| - 1], loc);
    }
  }

  /** A leaf alone is merged as its own field. */
  lemma MergeLeavesSingle(store: Store, n: Node, loc: string)
    requires n.Leaf?
    ensures MergeLeaves(store, Leaves(n), loc) == MergeLeaf(store, n.field, loc)
  {
    assert Leaves(n) == [n];
    assert [n][..0] == [];
  }

  /** Merging the leaves under one more child of a group merges that child's leaves after the others. */
  lemma MergeLeavesOfStep(store: Store, g: Node, i: nat, loc: string)
    requires g.Group? && i < |g.items|
    ensures MergeLeaves(store, LeavesOf(g, i + 1), loc) == MergeLeaves(MergeLeaves(store, LeavesOf(g, i), loc), Leaves(g.items[i]), loc)
  {
    MergeLeavesAppend(store, LeavesOf(g, i), Leaves(g.items[i]), loc);
  }
}
