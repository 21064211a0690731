/**
 * Locale discovery over a translation tree (`fillLocales`) and the locale registry of a
 * translation: an ordered list of locales without duplicates, each visible and/or enabled.
 */
module Locales {
  import opened Common
  import opened LocStrings
  import opened Tree

  // ---------------------------------------------------------------------------------------
  // Discovery

  /** `TranslationItem.fillLocales` given the field's keys: append each new, non-empty, non-default key. */
  function AddKeys(acc: seq<string>, keys: seq<string>): (r: seq<string>)
    ensures |r| >= |acc| && r[..|acc|] == acc
  {
    if keys == [] then acc
    else
      var prev := AddKeys(acc, keys[..|keys| - 1]);
      var k := keys[|keys| - 1];
      if k != "" && k !in prev && k != DefaultKey then prev + [k] else prev
  }

  /** What `fillLocales` on a tree appends, visiting `leaves` in order (a group holds no keys of its own). */
  function CollectLocales(acc: seq<string>, leaves: seq<Node>, store: Store, canEnumerate: bool): (r: seq<string>)
    ensures |r| >= |acc| && r[..|acc|] == acc
  {
    if leaves == [] then acc
    else
      var prev := CollectLocales(acc, leaves[..|leaves| - 1], store, canEnumerate);
      var l := leaves[|leaves| - 1];
      if l.Leaf? then AddKeys(prev, GetKeys(Field(store, l.field), canEnumerate)) else prev
  }

  /** A key `fillLocales` may report: non-empty and not the storage key of the default locale. */
  predicate Reportable(k: string)
  {
    k != "" && k != DefaultKey
  }

  /**
   * Appending keys never duplicates: what is appended is reportable and new, and every
   * reportable key ends up in the result.
   */
  lemma {:induction false} AddKeysSpec(acc: seq<string>, keys: seq<string>)
    ensures NoDuplicates(acc) ==> NoDuplicates(AddKeys(acc, keys))
    ensures forall i :: |acc| <= i < |AddKeys(acc, keys)| ==> Reportable(AddKeys(acc, keys)[i]) && AddKeys(acc, keys)[i] in keys
    ensures forall k :: k in keys && Reportable(k) ==> k in AddKeys(acc, keys)
  {
    if keys != [] {
      var init := keys[..|keys| - 1];
      AddKeysSpec(acc, init);
      assert forall k :: k in keys <==> k in init || k == keys[|keys| - 1];
    }
  }

  /** Whether a leaf's field holds `k` among its keys. */
  predicate LeafHoldsKey(l: Node, k: string, store: Store)
  {
    l.Leaf? && k in Field(store, l.field).keys
  }

  /**
   * `fillLocales` over leaves keeps the given locales in place, adds no duplicate, adds only
   * keys some leaf holds, and adds every reportable key any leaf holds.
   */
  lemma CollectLocalesSpec(acc: seq<string>, leaves: seq<Node>, store: Store, canEnumerate: bool)
    ensures NoDuplicates(acc) ==> NoDuplicates(CollectLocales(acc, leaves, store, canEnumerate))
    ensures forall i :: |acc| <= i < |CollectLocales(acc, leaves, store, canEnumerate)| ==>
      var k := CollectLocales(acc, leaves, store, canEnumerate)[i];
      Reportable(k) && exists j :: 0 <= j < |leaves| && LeafHoldsKey(leaves[j], k, store)
    ensures forall j, k :: 0 <= j < |leaves| && Reportable(k) && LeafHoldsKey(leaves[j], k, store) ==>
      k in CollectLocales(acc, leaves, store, canEnumerate)
  {
    CollectLocalesUnique(acc, leaves, store, canEnumerate);
    CollectLocalesSound(acc, leaves, store, canEnumerate);
    CollectLocalesComplete(acc, leaves, store, canEnumerate);
  }

  /** The keys of the last leaf, or none when it is a group. */
  function LastKeys(leaves: seq<Node>, store: Store, canEnumerate: bool): seq<string>
    requires leaves != []
  {
    var l := leaves[|leaves| - 1];
    if l.Leaf? then GetKeys(Field(store, l.field), canEnumerate) else []
  }

  /** One more leaf visited: its keys appended to what the ones before it gave. */
  lemma CollectLocalesLast(acc: seq<string>, leaves: seq<Node>, store: Store, canEnumerate: bool)
    requires leaves != []
    ensures CollectLocales(acc, leaves, store, canEnumerate)
      == AddKeys(CollectLocales(acc, leaves[..|leaves| - 1], store, canEnumerate), LastKeys(leaves, store, canEnumerate))
  {
  }

  /** `fillLocales` adds no duplicate. */
  lemma {:induction false} CollectLocalesUnique(acc: seq<string>, leaves: seq<Node>, store: Store, canEnumerate: bool)
    ensures NoDuplicates(acc) ==> NoDuplicates(CollectLocales(acc, leaves, store, canEnumerate))
  {
    if leaves != [] {
      var init := leaves[..|leaves| - 1];
      CollectLocalesUnique(acc, init, store, canEnumerate);
      CollectLocalesLast(acc, leaves, store, canEnumerate);
      AddKeysSpec(CollectLocales(acc, init, store, canEnumerate), LastKeys(leaves, store, canEnumerate));
    }
  }

  /** Each key `fillLocales` adds is reportable and held by some leaf. */
  lemma {:induction false} CollectLocalesSound(acc: seq<string>, leaves: seq<Node>, store: Store, canEnumerate: bool)
    ensures forall i :: |acc| <= i < |CollectLocales(acc, leaves, store, canEnumerate)| ==>
      var k := CollectLocales(acc, leaves, store, canEnumerate)[i];
      Reportable(k) && exists j :: 0 <= j < |leaves| && LeafHoldsKey(leaves[j], k, store)
  {
    if leaves != [] {
      var n := |leaves| - 1;
      var init := leaves[..n];
      CollectLocalesSound(acc, init, store, canEnumerate);
      var prev := CollectLocales(acc, init, store, canEnumerate);
      var keys := LastKeys(leaves, store, canEnumerate);
      AddKeysSpec(prev, keys);
      CollectLocalesLast(acc, leaves, store, canEnumerate);
      var r := AddKeys(prev, keys);
      forall i | |acc| <= i < |r|
        ensures Reportable(r[i]) && exists j :: 0 <= j < |leaves| && LeafHoldsKey(leaves[j], r[i], store)
      {
        if i < |prev| {
          assert r[i] == prev[i];
          var j :| 0 <= j < |init| && LeafHoldsKey(init[j], prev[i], store);
          assert leaves[j] == init[j];
        } else {
          assert LeafHoldsKey(leaves[n], r[i], store);
        }
      }
    }
  }

  /** Every reportable key any leaf holds is in what `fillLocales` gives. */
  lemma {:induction false} CollectLocalesComplete(acc: seq<string>, leaves: seq<Node>, store: Store, canEnumerate: bool)
    ensures forall j, k :: 0 <= j < |leaves| && Reportable(k) && LeafHoldsKey(leaves[j], k, store) ==>
      k in CollectLocales(acc, leaves, store, canEnumerate)
  {
    if leaves != [] {
      var n := |leaves| - 1;
      var init := leaves[..n];
      CollectLocalesComplete(acc, init, store, canEnumerate);
      var prev := CollectLocales(acc, init, store, canEnumerate);
      var keys := LastKeys(leaves, store, canEnumerate);
      AddKeysSpec(prev, keys);
      CollectLocalesLast(acc, leaves, store, canEnumerate);
      var r := AddKeys(prev, keys);
      forall j, k | 0 <= j < |leaves| && Reportable(k) && LeafHoldsKey(leaves[j], k, store)
        ensures k in r
      {
        if j < n {
          assert init[j] == leaves[j];
          assert k in prev;
          assert k in r[..|prev|];
        } else {
          assert k in keys;
        }
      }
    }
  }

  /**
   * Whether the field can enumerate its locales or only its JSON form is inspected makes no
   * difference: an empty or scalar JSON holds nothing but the default locale.
   */
  lemma {:induction false} EnumerationIrrelevant(acc: seq<string>, leaves: seq<Node>, store: Store)
    ensures CollectLocales(acc, leaves, store, true) == CollectLocales(acc, leaves, store, false)
  {
    if leaves != [] {
      var n := |leaves| - 1;
      EnumerationIrrelevant(acc, leaves[..n], store);
      var prev := CollectLocales(acc, leaves[..n], store, true);
      if leaves[n].Leaf? && Field(store, leaves[n].field).keys == [DefaultKey] {
        var s := Field(store, leaves[n].field);
        assert AddKeys(prev, s.keys) == prev by {
          assert s.keys[..0] == [];
        }
      }
    }
  }

  lemma {:induction false} CollectLocalesAppend(acc: seq<string>, a: seq<Node>, b: seq<Node>, store: Store, canEnumerate: bool)
    ensures CollectLocales(acc, a + b, store, canEnumerate)
      == CollectLocales(CollectLocales(acc, a, store, canEnumerate), b, store, canEnumerate)
  {
    if b != [] {
      var n := |b| - 1;
      assert (a + b)[..|a + b| - 1] == a + b[..n];
      CollectLocalesAppend(acc, a, b[..n], store, canEnumerate);
    } else {
      assert a + b == a;
    }
  }

  /** Over a single leaf, `fillLocales` appends the keys of its field. */
  lemma CollectLocalesSingle(acc: seq<string>, n: Node, store: Store, canEnumerate: bool)
    requires n.Leaf?
    ensures CollectLocales(acc, Leaves(n), store, canEnumerate) == AddKeys(acc, GetKeys(Field(store, n.field), canEnumerate))
  {
    assert Leaves(n)[..0] == [];
  }

  /** Over a group, `fillLocales` asks one more child after the ones before it. */
  lemma CollectLocalesOfStep(acc: seq<string>, g: Node, i: nat, store: Store, canEnumerate: bool)
    requires g.Group? && i < |g.items|
    ensures CollectLocales(acc, LeavesOf(g, i + 1), store, canEnumerate)
      == CollectLocales(CollectLocales(acc, LeavesOf(g, i), store, canEnumerate), Leaves(g.items[i]), store, canEnumerate)
  {
    CollectLocalesAppend(acc, LeavesOf(g, i), Leaves(g.items[i]), store, canEnumerate);
  }

  /** `TranslationItem.fillLocales`: the loop over the field's keys. */
  method FillLocalesOfLeaf(leaf: Node, locales: seq<string>, store: Store, canEnumerate: bool) returns (r: seq<string>)
    requires leaf.Leaf?
    ensures r == AddKeys(locales, GetKeys(Field(store, leaf.field), canEnumerate))
  {
    var keys := GetKeys(Field(store, leaf.field), canEnumerate);
    r := locales;
    var i := 0;
    while i < |keys|
      invariant 0 <= i <= |keys|
      invariant r == AddKeys(locales, keys[..i])
    {
      assert keys[..i + 1][..i] == keys[..i];
      var key := keys[i];
      if key != "" && key !in r && key != DefaultKey {
        r := r + [key];
      }
      i := i + 1;
    }
    assert keys[..|keys|] == keys;
  }

  /** `fillLocales` on any node: a group asks each of its children in order. */
  method FillLocales(n: Node, locales: seq<string>, store: Store, canEnumerate: bool) returns (r: seq<string>)
    ensures r == CollectLocales(locales, Leaves(n), store, canEnumerate)
    decreases n
  {
    if n.Leaf? {
      r := FillLocalesOfLeaf(n, locales, store, canEnumerate);
      CollectLocalesSingle(locales, n, store, canEnumerate);
      return;
    }
    r := locales;
    var i := 0;
    while i < |n.items|
      invariant 0 <= i <= |n.items|
      invariant r == CollectLocales(locales, LeavesOf(n, i), store, canEnumerate)
    {
      ChildSmaller(n, i);
      r := FillLocales(n.items[i], r, store, canEnumerate);
      CollectLocalesOfStep(locales, n, i, store, canEnumerate);
      i := i + 1;
    }
  }

  // ---------------------------------------------------------------------------------------
  // Registry

  /** A `TranslationLocale`. */
  datatype TranslationLocale = TranslationLocale(locale: string, visible: bool, enabled: bool)

  /** `localesStr`: the locale names in registry order. */
  function LocaleNames(locs: seq<TranslationLocale>): (r: seq<string>)
    ensures |r| == |locs| && forall i :: 0 <= i < |r| ==> r[i] == locs[i].locale
  {
    if locs == [] then [] else LocaleNames(locs[..|locs| - 1]) + [locs[|locs| - 1].locale]
  }

  /** `hasLocale`: the search through the registry; the locale is one of the registered names. */
  predicate HasLocale(locs: seq<TranslationLocale>, loc: string)
  {
    exists i :: 0 <= i < |locs| && locs[i].locale == loc
  }

  ghost predicate Distinct(locs: seq<TranslationLocale>)
  {
    forall i, j :: 0 <= i < j < |locs| ==> locs[i].locale != locs[j].locale
  }

  /**
   * `isLocaleEnabled`: the default locale always is; any locale is when no supported list is
   * set; otherwise only the supported ones are.
   */
  predicate IsLocaleEnabled(loc: string, supported: seq<string>)
  {
    loc == "" || |supported| == 0 || loc in supported
  }

  /** A registry entry for a newly added locale: visible exactly when enabled. */
  function NewLocale(loc: string, supported: seq<string>): (r: TranslationLocale)
    ensures r.locale == loc && r.visible == r.enabled
    ensures r.enabled <==> IsLocaleEnabled(loc, supported)
  {
    var enabled := IsLocaleEnabled(loc, supported);
    TranslationLocale(loc, enabled, enabled)
  }

  /** `setLocales`: append an entry for each locale of `add` not yet registered. */
  function SetLocales(locs: seq<TranslationLocale>, add: seq<string>, supported: seq<string>): (r: seq<TranslationLocale>)
    ensures |r| >= |locs| && r[..|locs|] == locs
  {
    if add == [] then locs
    else
      var prev := SetLocales(locs, add[..|add| - 1], supported);
      var loc := add[|add| - 1];
      if HasLocale(prev, loc) then prev else prev + [NewLocale(loc, supported)]
  }

  /**
   * `setLocales` keeps the registered entries in place with their flags, never registers a
   * locale twice, registers exactly the locales of `add` that were missing, and gives each new
   * entry the flags of a new locale.
   */
  lemma {:induction false} SetLocalesSpec(locs: seq<TranslationLocale>, add: seq<string>, supported: seq<string>)
    ensures Distinct(locs) ==> Distinct(SetLocales(locs, add, supported))
    ensures forall l :: HasLocale(SetLocales(locs, add, supported), l) <==> HasLocale(locs, l) || l in add
    ensures forall i :: |locs| <= i < |SetLocales(locs, add, supported)| ==>
      var e := SetLocales(locs, add, supported)[i];
      e == NewLocale(e.locale, supported) && e.locale in add
  {
    if add != [] {
      var init := add[..|add| - 1];
      SetLocalesSpec(locs, init, supported);
      var prev := SetLocales(locs, init, supported);
      var loc := add[|add| - 1];
      assert forall l :: l in add <==> l in init || l == loc;
      if !HasLocale(prev, loc) {
        var r := prev + [NewLocale(loc, supported)];
        forall l | HasLocale(r, l) ensures HasLocale(prev, l) || l == loc {
          var i :| 0 <= i < |r| && r[i].locale == l;
          if i < |prev| { assert prev[i] == r[i]; }
        }
        forall l | HasLocale(prev, l) ensures HasLocale(r, l) {
          var i :| 0 <= i < |prev| && prev[i].locale == l;
          assert r[i] == prev[i];
        }
        assert r[|prev|].locale == loc;
      }
    }
  }

  /** `setSelectedLocales`' second loop: visible exactly when enabled and selected. */
  function ApplySelection(locs: seq<TranslationLocale>, selected: seq<string>, supported: seq<string>): (r: seq<TranslationLocale>)
    ensures |r| == |locs|
  {
    if locs == [] then []
    else
      var l := locs[|locs| - 1];
      var enabled := IsLocaleEnabled(l.locale, supported);
      ApplySelection(locs[..|locs| - 1], selected, supported)
        + [TranslationLocale(l.locale, enabled && l.locale in selected, enabled)]
  }

  /** The selection keeps every entry's locale and sets its flags from the supported and selected lists alone. */
  lemma {:induction false} ApplySelectionSpec(locs: seq<TranslationLocale>, selected: seq<string>, supported: seq<string>)
    ensures forall i :: 0 <= i < |locs| ==>
      var r := ApplySelection(locs, selected, supported);
      && r[i].locale == locs[i].locale
      && (r[i].enabled <==> IsLocaleEnabled(locs[i].locale, supported))
      && (r[i].visible <==> r[i].enabled && locs[i].locale in selected)
  {
    if locs != [] {
      ApplySelectionSpec(locs[..|locs| - 1], selected, supported);
    }
  }

  /** The registry after `setSelectedLocales(selected)`. */
  function SelectLocales(locs: seq<TranslationLocale>, selected: seq<string>, supported: seq<string>): seq<TranslationLocale>
  {
    ApplySelection(SetLocales(locs, selected, supported), selected, supported)
  }

  /**
   * After `setSelectedLocales`, every selected locale is registered, and is visible exactly when
   * it is enabled; every other locale is hidden; no locale is registered twice.
   */
  lemma SelectLocalesSpec(locs: seq<TranslationLocale>, selected: seq<string>, supported: seq<string>)
    requires Distinct(locs)
    ensures Distinct(SelectLocales(locs, selected, supported))
    ensures forall l :: l in selected ==> HasLocale(SelectLocales(locs, selected, supported), l)
    ensures forall e :: e in SelectLocales(locs, selected, supported) ==>
      (e.visible <==> e.locale in selected && IsLocaleEnabled(e.locale, supported))
  {
    var mid := SetLocales(locs, selected, supported);
    SetLocalesSpec(locs, selected, supported);
    ApplySelectionSpec(mid, selected, supported);
    var r := ApplySelection(mid, selected, supported);
    forall l | l in selected ensures HasLocale(r, l) {
      var i :| 0 <= i < |mid| && mid[i].locale == l;
      assert r[i].locale == l;
    }
  }

  /** Whether some visible entry of the registry has locale `loc`. */
  predicate ShowsLocale(locs: seq<TranslationLocale>, loc: string)
  {
    exists i :: 0 <= i < |locs| && locs[i].visible && locs[i].locale == loc
  }

  /** `getVisibleLocales`: the names of the visible entries, in order. */
  function VisibleLocales(locs: seq<TranslationLocale>): (r: seq<string>)
    ensures |r| <= |locs|
    ensures forall l :: l in r <==> ShowsLocale(locs, l)
  {
    if locs == [] then []
    else
      var init := locs[..|locs| - 1];
      var l := locs[|locs| - 1];
      var prev := VisibleLocales(init);
      assert forall x :: ShowsLocale(locs, x) <==> ShowsLocale(init, x) || (l.visible && l.locale == x) by {
        forall x ensures ShowsLocale(locs, x) <==> ShowsLocale(init, x) || (l.visible && l.locale == x) {
          if ShowsLocale(locs, x) {
            var i :| 0 <= i < |locs| && locs[i].visible && locs[i].locale == x;
            if i < |init| { assert init[i] == locs[i]; }
          }
          if ShowsLocale(init, x) {
            var i :| 0 <= i < |init| && init[i].visible && init[i].locale == x;
            assert locs[i] == init[i];
          }
        }
      }
      prev + (if l.visible then [l.locale] else [])
  }

  // ---------------------------------------------------------------------------------------
  // Column width

  /** `localeCount` as intended: the number of visible registry entries. */
  method LocaleCount(locs: seq<TranslationLocale>) returns (n: nat)
    ensures n == |VisibleLocales(locs)|
  {
    n := 0;
    var i := 0;
    while i < |locs|
      invariant 0 <= i <= |locs|
      invariant n == |VisibleLocales(locs[..i])|
    {
      assert locs[..i + 1][..i] == locs[..i];
      if locs[i].visible {
        n := n + 1;
      }
      i := i + 1;
    }
    assert locs[..|locs|] == locs;
  }

  /**
   * Reading `visible` off an element of `localesStr`: the elements are strings, which have no
   * such property, so the read gives `undefined`, which is falsy.
   */
  predicate StringVisibleFlag(s: string)
  {
    false
  }

  /** `TranslationGroup.localeCount` as written: it counts over `localesStr`, whose strings are never "visible". */
  function GroupLocaleCountAsWritten(localesStr: seq<string>): (n: nat)
    ensures n == 0
  {
    if localesStr == [] then 0
    else
      GroupLocaleCountAsWritten(localesStr[..|localesStr| - 1])
        + (if StringVisibleFlag(localesStr[|localesStr| - 1]) then 1 else 0)
  }

  lemma DivisionBounds(count: nat)
    requires count >= 2
    ensures (100 / count) * count <= 100 < (100 / count + 1) * count
  {
    var q, r := 100 / count, 100 % count;
    assert q * count + r == 100;
    assert (q + 1) * count == q * count + count;
  }

  /** `locWidth`: each locale column's share of the width, as a whole percentage followed by "%". */
  function LocWidth(count: nat): (s: string)
    ensures |s| >= 2 && s[|s| - 1] == '%' && IsDigits(s[..|s| - 1])
    ensures count < 2 ==> ParseNat(s[..|s| - 1]) == 100
    ensures count >= 2 ==> ParseNat(s[..|s| - 1]) * count <= 100 < (ParseNat(s[..|s| - 1]) + 1) * count
  {
    var w := if count < 2 then 100 else 100 / count;
    var s := NatToString(w) + "%";
    assert count >= 2 ==> w * count <= 100 < (w + 1) * count by {
      if count >= 2 { DivisionBounds(count); }
    }
    assert s[..|s| - 1] == NatToString(w);
    NatToStringRoundTrip(w);
    s
  }

  /**
   * With two visible locales the intended count is 2 and each column gets "50%"; the count as
   * written is 0, which gives "100%".
   */
  lemma LocaleCountFinding()
    ensures var locs := [TranslationLocale("", true, true), TranslationLocale("fr", true, true)];
      |VisibleLocales(locs)| == 2 && LocWidth(|VisibleLocales(locs)|) == "50%"
      && LocWidth(GroupLocaleCountAsWritten(LocaleNames(locs))) == "100%"
  {
    var locs := [TranslationLocale("", true, true), TranslationLocale("fr", true, true)];
    assert locs[..1] == [locs[0]];
    assert [locs[0]][..0] == [];
    assert NatToString(50) == "50";
    assert NatToString(100) == "100";
  }
}
