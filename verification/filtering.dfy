/**
 * What hiding empty strings does to the tree: the tree built with `showAllStrings` off keeps
 * a part of the tree built with it on, so every key the first writes to the index is written,
 * with the same leaf, by the second. Export uses the first and import the second.
 */
module Filtering {
  import opened Common
  import opened LocStrings
  import opened Host
  import opened Tree
  import opened PathIndex

  /** The context that differs from `ctx` only in showing all strings. */
  function ShowAll(ctx: Ctx): (r: Ctx)
    ensures r.showAllStrings && r.store == ctx.store
  {
    Ctx(true, ctx.store)
  }

  /** Group `a` keeps a part of group `b`: the same name, and every child of `a` is kept in `b`. */
  ghost predicate Within(a: Node, b: Node)
    decreases a, 1
  {
    a.Group? && b.Group? && a.name == b.name && ItemsWithin(a.items, b.items)
  }

  /** Every leaf of `xs` is one of `ys`, and every group of `xs` keeps a part of a group of `ys`. */
  ghost predicate ItemsWithin(xs: seq<Node>, ys: seq<Node>)
    decreases xs, 0
  {
    forall x :: x in xs ==> if x.Leaf? then x in ys else exists y :: y in ys && Within(x, y)
  }

  lemma ItemsWithinAppend(xs1: seq<Node>, xs2: seq<Node>, ys1: seq<Node>, ys2: seq<Node>)
    requires ItemsWithin(xs1, ys1) && ItemsWithin(xs2, ys2)
    ensures ItemsWithin(xs1 + xs2, ys1 + ys2)
  {
    forall x | x in xs1 + xs2
      ensures if x.Leaf? then x in ys1 + ys2 else exists y :: y in ys1 + ys2 && Within(x, y)
    {
      if x.Group? {
        var y :| (y in ys1 || y in ys2) && Within(x, y);
        assert y in ys1 + ys2;
      }
    }
  }

  lemma LeavesWithin(xs: seq<Node>, ys: seq<Node>)
    requires AllLeaves(xs) && forall x :: x in xs ==> x in ys
    ensures ItemsWithin(xs, ys)
  {
  }

  /** A group that keeps a part of another has items only when the other has. */
  lemma {:induction false} WithinHasItems(a: Node, b: Node)
    requires Within(a, b) && HasItems(a)
    ensures HasItems(b)
    decreases a
  {
    var i :| 0 <= i < |a.items| && (a.items[i].Leaf? || HasItems(a.items[i]));
    var x := a.items[i];
    assert x in a.items;
    if x.Leaf? {
      var j :| 0 <= j < |b.items| && b.items[j] == x;
    } else {
      var y :| y in b.items && Within(x, y);
      ChildSmaller(a, i);
      WithinHasItems(x, y);
      var j :| 0 <= j < |b.items| && b.items[j] == y;
    }
  }

  /** Every leaf `createTranslationItem` makes with strings filtered it also makes with all strings shown. */
  lemma PropertyLeavesWithin(ownerName: string, ownerType: string, ps: seq<Property>, ctx: Ctx)
    ensures forall l :: l in PropertyLeaves(ownerName, ownerType, ps, ctx) ==> l in PropertyLeaves(ownerName, ownerType, ps, ShowAll(ctx))
  {
    PropertyLeavesExactly(ownerName, ownerType, ps, ctx);
    PropertyLeavesExactly(ownerName, ownerType, ps, ShowAll(ctx));
    forall l | l in PropertyLeaves(ownerName, ownerType, ps, ctx)
      ensures l in PropertyLeaves(ownerName, ownerType, ps, ShowAll(ctx))
    {
      var p :| p in ps && CreateTranslationItem(ownerName, ownerType, p, ctx) == Some(l);
      assert CreateTranslationItem(ownerName, ownerType, p, ShowAll(ctx)) == Some(l);
    }
  }

  lemma ExtraLeavesWithin(value: string, ps: seq<Property>, ctx: Ctx)
    ensures forall l :: l in ExtraLeaves(value, ps, ctx) ==> l in ExtraLeaves(value, ps, ShowAll(ctx))
  {
    ExtraLeavesExactly(value, ps, ctx);
    ExtraLeavesExactly(value, ps, ShowAll(ctx));
  }

  /** With all strings shown every choice is added, with at least the extra leaves it has when filtered. */
  lemma {:induction false} ChoiceLeavesWithin(items: seq<ChoiceItem>, ctx: Ctx)
    ensures forall l :: l in ChoiceLeaves(items, ctx) ==> l in ChoiceLeaves(items, ShowAll(ctx))
  {
    if items != [] {
      ChoiceLeavesWithin(items[..|items| - 1], ctx);
      var c := items[|items| - 1];
      ExtraLeavesWithin(c.value, LocalizedProperties(c.props), ctx);
    }
  }

  /** The choice-list group built with strings filtered keeps a part of the one built with all shown. */
  lemma ChoiceGroupWithin(name: string, items: seq<ChoiceItem>, ctx: Ctx)
    ensures Within(Group(name, ChoiceLeaves(items, ctx)), Group(name, ChoiceLeaves(items, ShowAll(ctx))))
  {
    ChoiceLeavesWithin(items, ctx);
    LeavesWithin(ChoiceLeaves(items, ctx), ChoiceLeaves(items, ShowAll(ctx)));
  }

  /** The children of an object with strings filtered are kept among its children with all strings shown. */
  lemma {:induction false} ObjectItemsWithin(h: Host, ctx: Ctx)
    ensures ItemsWithin(ObjectItems(h, ctx), ObjectItems(h, ShowAll(ctx)))
    decreases h, 2
  {
    var lps := LocalizedProperties(h.props);
    var leaves := PropertyLeaves(h.name, h.typ, lps, ctx);
    PropertyLeavesWithin(h.name, h.typ, lps, ctx);
    LeavesWithin(leaves, PropertyLeaves(h.name, h.typ, lps, ShowAll(ctx)));
    ArrayGroupsWithin(h, ArrayProperties(h.props), ctx);
    ItemsWithinAppend(leaves, ArrayGroups(h, ArrayProperties(h.props), ctx),
      PropertyLeaves(h.name, h.typ, lps, ShowAll(ctx)), ArrayGroups(h, ArrayProperties(h.props), ShowAll(ctx)));
  }

  lemma {:induction false} ArrayGroupsWithin(h: Host, aps: seq<Property>, ctx: Ctx)
    requires forall p :: p in aps ==> p in h.props && IsArrayProperty(p)
    ensures ItemsWithin(ArrayGroups(h, aps, ctx), ArrayGroups(h, aps, ShowAll(ctx)))
    decreases h, 1, |aps|
  {
    if aps != [] {
      var prefix := aps[..|aps| - 1];
      assert forall p :: p in prefix ==> p in aps;
      ArrayGroupsWithin(h, prefix, ctx);
      var p := aps[|aps| - 1];
      assert p in aps;
      var prev, prevAll := ArrayGroups(h, prefix, ctx), ArrayGroups(h, prefix, ShowAll(ctx));
      if IsItemValueArray(p.value) {
        var g := Group(p.name, ChoiceLeaves(p.value.items, ctx));
        var gAll := Group(p.name, ChoiceLeaves(p.value.items, ShowAll(ctx)));
        ChoiceGroupWithin(p.name, p.value.items, ctx);
        if HasItems(g) {
          WithinHasItems(g, gAll);
          assert ItemsWithin([g], [gAll]);
          ItemsWithinAppend(prev, [g], prevAll, [gAll]);
        } else {
          assert ItemsWithin([], if HasItems(gAll) then [gAll] else []);
          ItemsWithinAppend(prev, [], prevAll, if HasItems(gAll) then [gAll] else []);
        }
      } else {
        ElementGroupsWithin(h, p, |p.value.elems|, ctx);
        ItemsWithinAppend(prev, ElementGroups(h, p, |p.value.elems|, ctx),
          prevAll, ElementGroups(h, p, |p.value.elems|, ShowAll(ctx)));
      }
    }
  }

  lemma {:induction false} ElementGroupsWithin(h: Host, p: Property, n: nat, ctx: Ctx)
    requires p in h.props && p.value.Objects? && n <= |p.value.elems|
    ensures ItemsWithin(ElementGroups(h, p, n, ctx), ElementGroups(h, p, n, ShowAll(ctx)))
    decreases h, 0, n
  {
    if n > 0 {
      ElementGroupsWithin(h, p, n - 1, ctx);
      var prev, prevAll := ElementGroups(h, p, n - 1, ctx), ElementGroups(h, p, n - 1, ShowAll(ctx));
      var e := p.value.elems[n - 1];
      if e.Some? && HasItems(ElementGroup(p.name, n - 1, e.value, ctx)) {
        var g, gAll := ElementGroup(p.name, n - 1, e.value, ctx), ElementGroup(p.name, n - 1, e.value, ShowAll(ctx));
        ElementGroupWithin(p.name, n - 1, e.value, ctx);
        WithinHasItems(g, gAll);
        assert ItemsWithin([g], [gAll]);
        ItemsWithinAppend(prev, [g], prevAll, [gAll]);
      } else {
        var rest := ElementGroups(h, p, n, ShowAll(ctx));
        assert forall y :: y in prevAll ==> y in rest;
      }
    }
  }

  lemma {:induction false} ElementGroupWithin(pname: string, i: nat, e: Host, ctx: Ctx)
    ensures Within(ElementGroup(pname, i, e, ctx), ElementGroup(pname, i, e, ShowAll(ctx)))
    decreases e, 3
  {
    ObjectItemsWithin(e, ctx);
  }

  /** The root group built with strings filtered keeps a part of the one built with all shown. */
  lemma RootGroupWithin(rootName: string, rootObj: Host, ctx: Ctx)
    ensures Within(RootGroup(rootName, rootObj, ctx), RootGroup(rootName, rootObj, ShowAll(ctx)))
  {
    ObjectItemsWithin(rootObj, ctx);
  }

  // ---------------------------------------------------------------------------------------
  // The index

  /** Every entry written for a group is written, under the same key, for a group that keeps more. */
  lemma {:induction false} PathsWithin(prefix: string, a: Node, b: Node)
    requires Within(a, b)
    ensures forall e :: e in Paths(prefix, a) ==> e in Paths(prefix, b)
    decreases a
  {
    var name := GroupKey(prefix, a);
    assert GroupKey(prefix, b) == name;
    LeafEntriesSpec(name, a.items);
    LeafEntriesSpec(name, b.items);
    GroupPathsFrom(name, a, |a.items|);
    ChildPathsIncluded(name, b, |b.items|);
    forall e | e in Paths(prefix, a) ensures e in Paths(prefix, b) {
      if e in LeafEntries(name, a.items) {
        assert e.leaf in b.items;
      } else {
        assert e in GroupPaths(name, a, |a.items|);
        var i :| 0 <= i < |a.items| && a.items[i].Group? && e in Paths(name, a.items[i]);
        var x := a.items[i];
        assert x in a.items;
        var y :| y in b.items && Within(x, y);
        var j :| 0 <= j < |b.items| && b.items[j] == y;
        ChildSmaller(a, i);
        PathsWithin(name, x, y);
      }
    }
  }

  /** The leaf of an entry of a write sequence with unique keys is the last written under its key. */
  lemma {:induction false} LastWithUnique(es: seq<Entry>, e: Entry)
    requires UniqueKeys(es) && e in es
    ensures LastWith(es, e.key) == Some(e.leaf)
  {
    if es[|es| - 1] != e {
      var i :| 0 <= i < |es| && es[i] == e;
      assert es[i].key != es[|es| - 1].key;
      assert forall a, b :: 0 <= a < b < |es| - 1 ==> es[..|es| - 1][a] == es[a] && es[..|es| - 1][b] == es[b];
      assert es[..|es| - 1][i] == e;
      LastWithUnique(es[..|es| - 1], e);
    }
  }

  /**
   * Every entry of the index of the tree built with strings filtered is found, with the same
   * leaf, in the index of the tree built with all strings shown, provided the second tree writes
   * no key twice.
   */
  lemma BuildIndexWithin(rootName: string, rootObj: Host, ctx: Ctx)
    requires UniqueKeys(Paths("", RootGroup(rootName, rootObj, ShowAll(ctx))))
    ensures FindsAll(BuildIndex(RootGroup(rootName, rootObj, ShowAll(ctx))), BuildIndex(RootGroup(rootName, rootObj, ctx)))
  {
    var a, b := RootGroup(rootName, rootObj, ctx), RootGroup(rootName, rootObj, ShowAll(ctx));
    RootGroupWithin(rootName, rootObj, ctx);
    PathsWithin("", a, b);
    PutAllSpec([], Paths("", a));
    forall i | 0 <= i < |BuildIndex(a)| ensures Lookup(BuildIndex(b), BuildIndex(a)[i].key) == Some(BuildIndex(a)[i].leaf) {
      var e := BuildIndex(a)[i];
      assert e in BuildIndex(a);
      LastWithUnique(Paths("", b), e);
      LookupPutAll([], Paths("", b), e.key);
    }
  }
}
