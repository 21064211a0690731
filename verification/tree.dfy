/**
 * The translation tree: groups (one per host object or choice list) and leaves (one per
 * localizable field shown for translation), and the rules that derive it from the host graph.
 */
module Tree {
  import opened Common
  import opened LocStrings
  import opened Host

  /** A `TranslationItem` (leaf) or a `TranslationGroup` (group) with its children in order. */
  datatype Node =
    | Leaf(name: string, field: FieldId, defaultValue: string)
    | Group(name: string, items: seq<Node>)

  /** What tree construction depends on: the "show all strings" flag and the current texts. */
  datatype Ctx = Ctx(showAllStrings: bool, store: Store)

  /** `hasItems`: a leaf is a direct child, or some child group has items. */
  predicate HasItems(g: Node)
    decreases g
  {
    g.Group? && exists i :: 0 <= i < |g.items| && (g.items[i].Leaf? || HasItems(g.items[i]))
  }

  /** The leaves of a subtree, depth first, in child order. */
  function Leaves(n: Node): (r: seq<Node>)
    ensures forall i :: 0 <= i < |r| ==> r[i].Leaf?
    decreases n, 1
  {
    if n.Leaf? then [n] else LeavesOf(n, |n.items|)
  }

  /** The leaves under the first `k` children of group `g`. */
  function LeavesOf(g: Node, k: nat): (r: seq<Node>)
    requires g.Group? && k <= |g.items|
    ensures forall i :: 0 <= i < |r| ==> r[i].Leaf?
    decreases g, 0, k
  {
    if k == 0 then [] else LeavesOf(g, k - 1) + Leaves(g.items[k - 1])
  }

  /** A group has items exactly when some leaf lies in its subtree. */
  lemma {:induction false} HasItemsIffLeaves(g: Node)
    requires g.Group?
    ensures HasItems(g) <==> |Leaves(g)| > 0
    decreases g, 1
  {
    LeavesOfNonEmpty(g, |g.items|);
  }

  lemma {:induction false} LeavesOfNonEmpty(g: Node, k: nat)
    requires g.Group? && k <= |g.items|
    ensures |LeavesOf(g, k)| > 0 <==> exists i :: 0 <= i < k && (g.items[i].Leaf? || HasItems(g.items[i]))
    decreases g, 0, k
  {
    if k > 0 {
      LeavesOfNonEmpty(g, k - 1);
      var c := g.items[k - 1];
      if c.Group? {
        HasItemsIffLeaves(c);
      }
    }
  }

  /** Every group below `n` has items (the root itself may be empty). */
  predicate Pruned(n: Node)
    decreases n
  {
    n.Leaf? || forall i :: 0 <= i < |n.items| ==> n.items[i].Leaf? || (HasItems(n.items[i]) && Pruned(n.items[i]))
  }

  predicate ItemsPruned(items: seq<Node>)
  {
    forall i :: 0 <= i < |items| ==> items[i].Leaf? || (HasItems(items[i]) && Pruned(items[i]))
  }

  predicate AllLeaves(items: seq<Node>)
  {
    forall i :: 0 <= i < |items| ==> items[i].Leaf?
  }

  // ---------------------------------------------------------------------------------------
  // Property selection

  /** The properties `getLocalizedProperties` keeps: serializable, localizable, writable, visible. */
  predicate IsLocalizedProperty(p: Property)
  {
    p.isSerializable && p.isLocalizable && !p.readOnly && p.visible
  }

  function LocalizedProperties(ps: seq<Property>): (r: seq<Property>)
    ensures forall p :: p in r <==> p in ps && IsLocalizedProperty(p)
    ensures |r| <= |ps|
  {
    if ps == [] then []
    else LocalizedProperties(ps[..|ps| - 1]) + (if IsLocalizedProperty(ps[|ps| - 1]) then [ps[|ps| - 1]] else [])
  }

  /** `isItemValueArray`: a non-empty list whose elements are choice items. */
  predicate IsItemValueArray(v: Value)
  {
    v.Choices? && |v.items| > 0
  }

  /** The properties `getArrayProperties` keeps: serializable, holding a non-empty list. */
  predicate IsArrayProperty(p: Property)
  {
    p.isSerializable && (IsItemValueArray(p.value) || (p.value.Objects? && |p.value.elems| > 0))
  }

  function ArrayProperties(ps: seq<Property>): (r: seq<Property>)
    ensures forall p :: p in r <==> p in ps && IsArrayProperty(p)
    ensures |r| <= |ps|
  {
    if ps == [] then []
    else ArrayProperties(ps[..|ps| - 1]) + (if IsArrayProperty(ps[|ps| - 1]) then [ps[|ps| - 1]] else [])
  }

  // ---------------------------------------------------------------------------------------
  // Leaves

  /**
   * `getDefaultValue`: the owner's name, for the title of a non-page object whose title text
   * is computed; "" otherwise.
   */
  function DefaultValue(ownerName: string, ownerType: string, p: Property): (r: string)
    ensures r == "" || r == ownerName
    ensures r != "" ==> p.name == "title" && ownerType != PageType && p.locStr.Some? && p.hasTextCallback
    ensures p.name == "title" && p.isLocalizable && p.locStr.Some? && ownerType != PageType && p.hasTextCallback ==> r == ownerName
  {
    if p.name == "title" && p.isLocalizable && p.locStr.Some? && ownerType != PageType && p.hasTextCallback
    then ownerName else ""
  }

  /**
   * `createTranslationItem`: no leaf when the object holds no field, or when strings are
   * filtered and both the default value and the field are empty.
   */
  function CreateTranslationItem(ownerName: string, ownerType: string, p: Property, ctx: Ctx): (r: Option<Node>)
    ensures r.None? <==> (p.locStr.None? ||
      (!ctx.showAllStrings && DefaultValue(ownerName, ownerType, p) == "" && IsEmpty(Field(ctx.store, p.locStr.value))))
    ensures r.Some? ==> r.value.Leaf? && r.value.name == p.name && Some(r.value.field) == p.locStr
    ensures r.Some? ==> r.value.defaultValue == DefaultValue(ownerName, ownerType, p)
  {
    var dv := DefaultValue(ownerName, ownerType, p);
    if p.locStr.None? then None
    else if !ctx.showAllStrings && dv == "" && IsEmpty(Field(ctx.store, p.locStr.value)) then None
    else Some(Leaf(p.name, p.locStr.value, dv))
  }

  /** The leaves created, in order, for properties `ps` of an object. */
  function PropertyLeaves(ownerName: string, ownerType: string, ps: seq<Property>, ctx: Ctx): (r: seq<Node>)
    ensures AllLeaves(r)
  {
    if ps == [] then []
    else
      var prev := PropertyLeaves(ownerName, ownerType, ps[..|ps| - 1], ctx);
      var p := ps[|ps| - 1];
      var item := CreateTranslationItem(ownerName, ownerType, p, ctx);
      prev + (if item.Some? then [item.value] else [])
  }

  // ---------------------------------------------------------------------------------------
  // Choice lists

  /** `canAdd`: a choice is shown when all strings are, when its text is set, or when its value is not a number. */
  predicate CanAddChoice(c: ChoiceItem, ctx: Ctx)
  {
    ctx.showAllStrings || !IsEmpty(Field(ctx.store, c.locText)) || !c.numeric
  }

  /**
   * `addCustomPropertiesForItemValue`: one leaf per other localizable field of the choice,
   * named `<value>.<property>`; the primary "text" property is skipped.
   */
  function ExtraLeaves(value: string, ps: seq<Property>, ctx: Ctx): (r: seq<Node>)
    ensures AllLeaves(r)
  {
    if ps == [] then []
    else
      var prev := ExtraLeaves(value, ps[..|ps| - 1], ctx);
      var p := ps[|ps| - 1];
      if p.name == "text" then prev
      else
        var item := CreateTranslationItem("", ChoiceType, p, ctx);
        if item.None? then prev
        else prev + [Leaf(value + "." + item.value.name, item.value.field, item.value.defaultValue)]
  }

  /** The leaves one choice contributes: none, or its own leaf (named by and defaulting to its value) and its extra leaves. */
  function ChoiceEntry(c: ChoiceItem, ctx: Ctx): (r: seq<Node>)
    ensures r != [] <==> CanAddChoice(c, ctx)
    ensures r != [] ==> r[0] == Leaf(c.value, c.locText, c.value)
    ensures AllLeaves(r)
  {
    if CanAddChoice(c, ctx)
    then [Leaf(c.value, c.locText, c.value)] + ExtraLeaves(c.value, LocalizedProperties(c.props), ctx)
    else []
  }

  /** `createItemValuesLocale`: the leaves of a choice-list group. */
  function ChoiceLeaves(items: seq<ChoiceItem>, ctx: Ctx): (r: seq<Node>)
    ensures AllLeaves(r)
  {
    if items == [] then [] else ChoiceLeaves(items[..|items| - 1], ctx) + ChoiceEntry(items[|items| - 1], ctx)
  }

  // ---------------------------------------------------------------------------------------
  // Object groups

  /** The name of the group for element `i` of array property `pname`: its own name, else `pname[i]`. */
  function ElementName(pname: string, i: nat, e: Host): (r: string)
    ensures r != ""
    ensures e.name != "" ==> r == e.name
  {
    if e.name != "" then e.name else pname + "[" + NatToString(i) + "]"
  }

  /** `fillItems` on an object: its leaves, then the groups of its array properties. */
  function ObjectItems(h: Host, ctx: Ctx): (r: seq<Node>)
    ensures ItemsPruned(r)
    decreases h, 2
  {
    PropertyLeaves(h.name, h.typ, LocalizedProperties(h.props), ctx) + ArrayGroups(h, ArrayProperties(h.props), ctx)
  }

  /** The groups contributed by the array properties `aps` of `h`. */
  function ArrayGroups(h: Host, aps: seq<Property>, ctx: Ctx): (r: seq<Node>)
    requires forall p :: p in aps ==> p in h.props && IsArrayProperty(p)
    ensures ItemsPruned(r)
    decreases h, 1, |aps|
  {
    if aps == [] then []
    else
      var prev := ArrayGroups(h, aps[..|aps| - 1], ctx);
      var p := aps[|aps| - 1];
      assert p in aps && IsArrayProperty(p);
      if IsItemValueArray(p.value) then
        var g := Group(p.name, ChoiceLeaves(p.value.items, ctx));
        prev + (if HasItems(g) then [g] else [])
      else
        prev + ElementGroups(h, p, |p.value.elems|, ctx)
  }

  /** `createGroups`: a group for each of the first `n` typed elements that has items. */
  function ElementGroups(h: Host, p: Property, n: nat, ctx: Ctx): (r: seq<Node>)
    requires p in h.props && p.value.Objects? && n <= |p.value.elems|
    ensures ItemsPruned(r)
    decreases h, 0, n
  {
    if n == 0 then []
    else
      var prev := ElementGroups(h, p, n - 1, ctx);
      var e := p.value.elems[n - 1];
      if e.Some? && HasItems(ElementGroup(p.name, n - 1, e.value, ctx))
      then prev + [ElementGroup(p.name, n - 1, e.value, ctx)]
      else prev
  }

  /** The group built for element `i` of array property `pname`. */
  function ElementGroup(pname: string, i: nat, e: Host, ctx: Ctx): (r: Node)
    ensures r.Group? && Pruned(r)
    decreases e, 3
  {
    Group(ElementName(pname, i, e), ObjectItems(e, ctx))
  }

  /** The root group over `rootObj`: never pruned itself, every group below it has items. */
  function RootGroup(rootName: string, rootObj: Host, ctx: Ctx): (r: Node)
    ensures r.Group? && r.name == rootName && Pruned(r)
  {
    Group(rootName, ObjectItems(rootObj, ctx))
  }

  // ---------------------------------------------------------------------------------------
  // Naming

  /** Unnamed elements of one array property get the same group name only at the same index. */
  lemma UnnamedElementNames(pname: string, i: nat, j: nat, e: Host, f: Host)
    requires e.name == "" && f.name == ""
    ensures ElementName(pname, i, e) == ElementName(pname, j, f) <==> i == j
  {
    var a, b := NatToString(i), NatToString(j);
    var s, t := pname + "[" + a + "]", pname + "[" + b + "]";
    if s == t {
      assert a == s[|pname| + 1..|s| - 1];
      assert b == t[|pname| + 1..|t| - 1];
      NatToStringInjective(i, j);
    }
  }

  /**
   * `createGroups` keeps exactly the typed elements whose group has items: every group it
   * returns is the group of some element, and every element group with items is returned.
   */
  lemma {:induction false} ElementGroupsExactly(h: Host, p: Property, n: nat, ctx: Ctx)
    requires p in h.props && p.value.Objects? && n <= |p.value.elems|
    ensures forall g :: g in ElementGroups(h, p, n, ctx) ==>
      (exists i :: 0 <= i < n && p.value.elems[i].Some? && HasItems(g)
        && g == ElementGroup(p.name, i, p.value.elems[i].value, ctx))
    ensures forall i :: 0 <= i < n && p.value.elems[i].Some? && HasItems(ElementGroup(p.name, i, p.value.elems[i].value, ctx)) ==>
      ElementGroup(p.name, i, p.value.elems[i].value, ctx) in ElementGroups(h, p, n, ctx)
  {
    if n > 0 {
      ElementGroupsExactly(h, p, n - 1, ctx);
    }
  }

  /** The property leaves are exactly the leaves `createTranslationItem` makes for `ps`. */
  lemma {:induction false} PropertyLeavesExactly(ownerName: string, ownerType: string, ps: seq<Property>, ctx: Ctx)
    ensures forall l :: l in PropertyLeaves(ownerName, ownerType, ps, ctx) ==>
      (exists p :: p in ps && CreateTranslationItem(ownerName, ownerType, p, ctx) == Some(l))
    ensures forall p :: p in ps && CreateTranslationItem(ownerName, ownerType, p, ctx).Some? ==>
      CreateTranslationItem(ownerName, ownerType, p, ctx).value in PropertyLeaves(ownerName, ownerType, ps, ctx)
  {
    if ps != [] {
      PropertyLeavesExactly(ownerName, ownerType, ps[..|ps| - 1], ctx);
      assert forall q :: q in ps <==> q in ps[..|ps| - 1] || q == ps[|ps| - 1];
    }
  }

  /**
   * The extra leaves of a choice with value `value` are exactly its non-"text" localizable
   * fields that `createTranslationItem` keeps, each named `<value>.<property>`.
   */
  lemma {:induction false} ExtraLeavesExactly(value: string, ps: seq<Property>, ctx: Ctx)
    ensures forall l :: l in ExtraLeaves(value, ps, ctx) ==>
      (exists p :: p in ps && p.name != "text" && CreateTranslationItem("", ChoiceType, p, ctx).Some? &&
        l == Leaf(value + "." + p.name, p.locStr.value, DefaultValue("", ChoiceType, p)))
    ensures forall p :: p in ps && p.name != "text" && CreateTranslationItem("", ChoiceType, p, ctx).Some? ==>
      Leaf(value + "." + p.name, p.locStr.value, DefaultValue("", ChoiceType, p)) in ExtraLeaves(value, ps, ctx)
  {
    if ps != [] {
      ExtraLeavesExactly(value, ps[..|ps| - 1], ctx);
      assert forall q :: q in ps <==> q in ps[..|ps| - 1] || q == ps[|ps| - 1];
    }
  }

  /** A child is smaller than its group, for the termination of recursion over the tree. */
  lemma ChildSmaller(g: Node, i: nat)
    requires g.Group? && i < |g.items|
    ensures g.items[i] < g
  {
  }
}
