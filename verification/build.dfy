/**
 * Tree construction as the source performs it: each group fills its list of children by
 * pushing leaves and (non-empty) child groups inside loops.
 */
module Build {
  import opened Common
  import opened LocStrings
  import opened Host
  import opened Tree

  /** `getLocalizedProperties`. */
  method GetLocalizedProperties(ps: seq<Property>) returns (r: seq<Property>)
    ensures r == LocalizedProperties(ps)
  {
    r := [];
    var i := 0;
    while i < |ps|
      invariant 0 <= i <= |ps|
      invariant r == LocalizedProperties(ps[..i])
    {
      assert ps[..i + 1][..i] == ps[..i];
      if IsLocalizedProperty(ps[i]) {
        r := r + [ps[i]];
      }
      i := i + 1;
    }
    assert ps[..|ps|] == ps;
  }

  /** `getArrayProperties`. */
  method GetArrayProperties(ps: seq<Property>) returns (r: seq<Property>)
    ensures r == ArrayProperties(ps)
  {
    r := [];
    var i := 0;
    while i < |ps|
      invariant 0 <= i <= |ps|
      invariant r == ArrayProperties(ps[..i])
    {
      assert ps[..i + 1][..i] == ps[..i];
      if IsArrayProperty(ps[i]) {
        r := r + [ps[i]];
      }
      i := i + 1;
    }
    assert ps[..|ps|] == ps;
  }

  /** `hasItems`: first look for a leaf child, then ask each child group. */
  method ComputeHasItems(g: Node) returns (b: bool)
    requires g.Group?
    ensures b <==> |Leaves(g)| > 0
    decreases g
  {
    HasItemsIffLeaves(g);
    var i := 0;
    while i < |g.items|
      invariant 0 <= i <= |g.items|
      invariant forall k :: 0 <= k < i ==> !g.items[k].Leaf?
    {
      if g.items[i].Leaf? {
        return true;
      }
      i := i + 1;
    }
    i := 0;
    while i < |g.items|
      invariant 0 <= i <= |g.items|
      invariant forall k :: 0 <= k < i ==> !g.items[k].Leaf? && !HasItems(g.items[k])
    {
      ChildSmaller(g, i);
      var sub := ComputeHasItems(g.items[i]);
      HasItemsIffLeaves(g.items[i]);
      if sub {
        return true;
      }
      i := i + 1;
    }
    return false;
  }

  /** `new TranslationGroup(name, obj)` over a host object: the constructor runs `fillItems`. */
  method NewObjectGroup(name: string, h: Host, ctx: Ctx) returns (g: Node)
    ensures g == Group(name, ObjectItems(h, ctx))
    decreases h, 3
  {
    var items := FillItems(h, ctx);
    g := Group(name, items);
  }

  /** `fillItems` in object mode: leaves for the localized properties, then array groups. */
  method FillItems(h: Host, ctx: Ctx) returns (items: seq<Node>)
    ensures items == ObjectItems(h, ctx)
    decreases h, 2
  {
    var props := GetLocalizedProperties(h.props);
    items := AddPropertyItems(h, props, ctx);
    var aprops := GetArrayProperties(h.props);
    items := AddArrayItems(h, aprops, items, ctx);
  }

  /** The first loop of `fillItems`: push each leaf `createTranslationItem` returns. */
  method AddPropertyItems(h: Host, props: seq<Property>, ctx: Ctx) returns (items: seq<Node>)
    ensures items == PropertyLeaves(h.name, h.typ, props, ctx)
  {
    items := [];
    var i := 0;
    while i < |props|
      invariant 0 <= i <= |props|
      invariant items == PropertyLeaves(h.name, h.typ, props[..i], ctx)
    {
      assert props[..i + 1][..i] == props[..i];
      var item := CreateTranslationItem(h.name, h.typ, props[i], ctx);
      if item.Some? {
        items := items + [item.value];
      }
      i := i + 1;
    }
    assert props[..|props|] == props;
  }

  /** The second loop of `fillItems`: a choice-list group or the element groups of each array property. */
  method AddArrayItems(h: Host, aprops: seq<Property>, items: seq<Node>, ctx: Ctx) returns (r: seq<Node>)
    requires forall p :: p in aprops ==> p in h.props && IsArrayProperty(p)
    ensures r == items + ArrayGroups(h, aprops, ctx)
    decreases h, 1
  {
    r := items;
    var j := 0;
    while j < |aprops|
      invariant 0 <= j <= |aprops|
      invariant r == items + ArrayGroups(h, aprops[..j], ctx)
    {
      assert aprops[..j + 1][..j] == aprops[..j];
      var p := aprops[j];
      assert p in aprops && IsArrayProperty(p);
      if IsItemValueArray(p.value) {
        var g := NewChoiceGroup(p.name, p.value.items, ctx);
        var keep := ComputeHasItems(g);
        HasItemsIffLeaves(g);
        if keep {
          r := r + [g];
        }
      } else {
        r := CreateGroups(h, p, r, ctx);
      }
      j := j + 1;
    }
    assert aprops[..|aprops|] == aprops;
  }

  /** `createGroups`: one group per typed element, named by the element or `prop[i]`, kept when it has items. */
  method CreateGroups(h: Host, p: Property, items: seq<Node>, ctx: Ctx) returns (r: seq<Node>)
    requires p in h.props && p.value.Objects?
    ensures r == items + ElementGroups(h, p, |p.value.elems|, ctx)
    decreases h, 0
  {
    var elems := p.value.elems;
    r := items;
    var i := 0;
    while i < |elems|
      invariant 0 <= i <= |elems|
      invariant r == items + ElementGroups(h, p, i, ctx)
    {
      var obj := elems[i];
      if obj.Some? {
        var name := obj.value.name;
        if name == "" {
          name := p.name + "[" + NatToString(i) + "]";
        }
        var g := NewObjectGroup(name, obj.value, ctx);
        assert g == ElementGroup(p.name, i, obj.value, ctx);
        var keep := ComputeHasItems(g);
        HasItemsIffLeaves(g);
        if keep {
          r := r + [g];
        }
      }
      i := i + 1;
    }
  }

  /** `new TranslationGroup(name, choices)`: a group in choice-list mode. */
  method NewChoiceGroup(name: string, choices: seq<ChoiceItem>, ctx: Ctx) returns (g: Node)
    ensures g == Group(name, ChoiceLeaves(choices, ctx))
  {
    var items := CreateItemValuesLocale(choices, ctx);
    g := Group(name, items);
  }

  /** `createItemValuesLocale`: a leaf per shown choice, followed by its extra leaves. */
  method CreateItemValuesLocale(choices: seq<ChoiceItem>, ctx: Ctx) returns (items: seq<Node>)
    ensures items == ChoiceLeaves(choices, ctx)
  {
    items := [];
    var i := 0;
    while i < |choices|
      invariant 0 <= i <= |choices|
      invariant items == ChoiceLeaves(choices[..i], ctx)
    {
      assert choices[..i + 1][..i] == choices[..i];
      var c := choices[i];
      var canAdd := ctx.showAllStrings || !IsEmpty(Field(ctx.store, c.locText)) || !c.numeric;
      if canAdd {
        items := items + [Leaf(c.value, c.locText, c.value)];
        items := AddCustomPropertiesForItemValue(c, items, ctx);
      }
      i := i + 1;
    }
    assert choices[..|choices|] == choices;
  }

  /** `addCustomPropertiesForItemValue`. */
  method AddCustomPropertiesForItemValue(c: ChoiceItem, items: seq<Node>, ctx: Ctx) returns (r: seq<Node>)
    ensures r == items + ExtraLeaves(c.value, LocalizedProperties(c.props), ctx)
  {
    var props := GetLocalizedProperties(c.props);
    r := items;
    var i := 0;
    while i < |props|
      invariant 0 <= i <= |props|
      invariant r == items + ExtraLeaves(c.value, props[..i], ctx)
    {
      assert props[..i + 1][..i] == props[..i];
      if props[i].name != "text" {
        var item := CreateTranslationItem("", ChoiceType, props[i], ctx);
        if item.Some? {
          r := r + [Leaf(c.value + "." + item.value.name, item.value.field, item.value.defaultValue)];
        }
      }
      i := i + 1;
    }
    assert props[..|props|] == props;
  }
}
