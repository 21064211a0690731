/**
 * The translation editor's state: the survey whose texts are translated, the locale registry,
 * and the tree of groups and leaves shown for the current scope.
 */
module Translations {
  import opened Common
  import opened LocStrings
  import opened Host
  import opened Tree
  import opened Build
  import opened Locales
  import opened PathIndex
  import opened Csv
  import opened Merge
  import opened Filtering

  /**
   * The survey being translated: its object graph, whether its localizable strings can list
   * their locales, and the texts of all its localizable fields. Every translation tree built
   * over the same survey reads and writes these same texts.
   */
  class SurveyDoc {
    const host: Host
    const canEnumerateLocales: bool
    var texts: Store

    constructor(host: Host, canEnumerateLocales: bool, texts: Store)
      ensures this.host == host && this.canEnumerateLocales == canEnumerateLocales && this.texts == texts
    {
      this.host := host;
      this.canEnumerateLocales := canEnumerateLocales;
      this.texts := texts;
    }

    /** `TranslationItem.getLocText(loc)`. */
    function GetLocText(leaf: Node, loc: string): string
      reads this
      requires leaf.Leaf?
    {
      GetText(Field(texts, leaf.field), loc)
    }

    /** `TranslationItem.setLocText(loc, v)`: the leaf now reads `v` in that locale and nothing else changed. */
    method SetLocText(leaf: Node, loc: string, v: string)
      requires leaf.Leaf?
      modifies this
      ensures GetLocText(leaf, loc) == v
      ensures forall l :: StorageKey(l) != StorageKey(loc) ==> GetLocText(leaf, l) == old(GetLocText(leaf, l))
      ensures forall id :: id != leaf.field ==> Field(texts, id) == Field(old(texts), id)
      ensures texts == WriteText(old(texts), leaf.field, loc, v)
    {
      texts := WriteText(texts, leaf.field, loc, v);
    }

    /**
     * `updateItemWithStrings(item, values, locales)`: for each column present in both lists,
     * a cell that is blank after trimming is skipped, any other is written trimmed.
     */
    method UpdateItemWithStrings(leaf: Node, values: seq<string>, locales: seq<string>)
      requires leaf.Leaf?
      modifies this
      ensures texts == WriteCells(old(texts), leaf.field, values, locales, Min(|values|, |locales|))
    {
      var i := 0;
      while i < |values| && i < |locales|
        invariant 0 <= i <= Min(|values|, |locales|)
        invariant texts == WriteCells(old(texts), leaf.field, values, locales, i)
      {
        var val := Trim(values[i]);
        if val != "" {
          texts := WriteText(texts, leaf.field, locales[i], val);
        }
        i := i + 1;
      }
    }

    /** `TranslationItem.mergeLocaleWithDefault(loc)`. */
    method MergeItem(leaf: Node, loc: string)
      requires leaf.Leaf?
      modifies this
      ensures texts == MergeLeaf(old(texts), leaf.field, loc)
    {
      var locText := GetLocText(leaf, loc);
      if locText == "" {
        return;
      }
      texts := WriteText(texts, leaf.field, "", locText);
      texts := WriteText(texts, leaf.field, loc, "");
    }

    /** `TranslationGroup.mergeLocaleWithDefault(loc)`: every item of the group in order, groups recursively. */
    method MergeNode(n: Node, loc: string)
      modifies this
      ensures texts == MergeLeaves(old(texts), Leaves(n), loc)
      decreases n
    {
      if n.Leaf? {
        MergeItem(n, loc);
        MergeLeavesSingle(old(texts), n, loc);
        return;
      }
      var i := 0;
      while i < |n.items|
        invariant 0 <= i <= |n.items|
        invariant texts == MergeLeaves(old(texts), LeavesOf(n, i), loc)
      {
        ChildSmaller(n, i);
        MergeNode(n.items[i], loc);
        MergeLeavesOfStep(old(texts), n, i, loc);
        i := i + 1;
      }
    }
  }

  /** The registry a translation starts from, and returns to after a merge: the default locale alone. */
  const DefaultOnly: seq<TranslationLocale> := [TranslationLocale("", true, true)]

  /** The object the tree is built over: the filtered page, or the whole survey. */
  function RootObject(survey: Host, filteredPage: Option<Host>): Host
  {
    if filteredPage.Some? then filteredPage.value else survey
  }

  /** The root group's name: the filtered page's name, or "survey". */
  function RootName(filteredPage: Option<Host>): string
  {
    if filteredPage.Some? then filteredPage.value.name else "survey"
  }

  /** One more data row imported. */
  lemma ImportRowsStep(store: Store, idx: seq<Entry>, locs: seq<string>, rows: seq<seq<string>>, k: nat)
    requires LeafIndex(idx) && NonEmptyRows(rows) && k < |rows|
    ensures NonEmptyRows(rows[..k]) && NonEmptyRows(rows[..k + 1]) && |rows[k]| > 0
    ensures ImportRows(store, idx, locs, rows[..k + 1]) == ApplyRow(ImportRows(store, idx, locs, rows[..k]), idx, locs, rows[k])
  {
    assert rows[..k + 1][..k] == rows[..k];
    assert ImportRows(store, idx, locs, rows[..k + 1]) == ImportLastRow(store, idx, locs, rows[..k + 1]);
  }

  /** The header row of an export: the description cell, then one cell per column locale. */
  method ExportHeaderRow(visibleLocales: seq<string>) returns (headerRow: seq<string>)
    ensures headerRow == HeaderRow(visibleLocales)
  {
    headerRow := [DescriptionHeader];
    var i := 0;
    while i < |visibleLocales|
      invariant 0 <= i <= |visibleLocales|
      invariant headerRow == [DescriptionHeader] + HeaderCells(visibleLocales[..i])
    {
      assert visibleLocales[..i + 1][..i] == visibleLocales[..i];
      headerRow := headerRow + [if visibleLocales[i] != "" then visibleLocales[i] else "default"];
      i := i + 1;
    }
    assert visibleLocales[..|visibleLocales|] == visibleLocales;
  }

  /** The data row of one index entry: its key, then its text in each column locale. */
  method ExportItemRow(e: Entry, visibleLocales: seq<string>, texts: Store) returns (row: seq<string>)
    requires e.leaf.Leaf?
    ensures row == ExportRow(e, visibleLocales, texts)
  {
    var cells := [];
    var i := 0;
    while i < |visibleLocales|
      invariant 0 <= i <= |visibleLocales|
      invariant cells == ExportCells(e.leaf, visibleLocales, i, texts)
    {
      var val := GetText(Field(texts, e.leaf.field), visibleLocales[i]);
      cells := cells + [if val == "" && i == 0 then e.leaf.defaultValue else val];
      i := i + 1;
    }
    row := [e.key] + cells;
  }

  /** The row loop of an import: each row whose trimmed key names an indexed string updates it. */
  method ImportDataRows(doc: SurveyDoc, itemsHash: seq<Entry>, locales: seq<string>, data: seq<seq<string>>)
    requires LeafIndex(itemsHash) && NonEmptyRows(data)
    modifies doc
    ensures doc.texts == ImportRows(old(doc.texts), itemsHash, locales, data)
  {
    var k := 0;
    while k < |data|
      invariant 0 <= k <= |data|
      invariant doc.texts == ImportRows(old(doc.texts), itemsHash, locales, data[..k])
    {
      ImportRowsStep(old(doc.texts), itemsHash, locales, data, k);
      var row := data[k];
      var name := Trim(row[0]);
      if name != "" {
        var item := Lookup(itemsHash, name);
        LookupInIndex(itemsHash, name);
        if item.Some? {
          doc.UpdateItemWithStrings(item.value, row[1..], locales);
        }
      }
      k := k + 1;
    }
    assert data[..|data|] == data;
  }

  /** The tree an import indexes: the whole survey, every string shown. */
  function ImportTree(survey: SurveyDoc): (r: Node)
    reads survey
    ensures r.Group?
  {
    RootGroup("survey", survey.host, Ctx(true, survey.texts))
  }

  /**
   * With no page filter, the index an import builds finds every entry of the index of the tree
   * shown, with the same leaf, provided the import's tree writes no key twice.
   */
  lemma SurveyIndexFindsAll(host: Host, showAllStrings: bool, store: Store)
    requires UniqueKeys(Paths("", RootGroup("survey", host, Ctx(true, store))))
    ensures FindsAll(BuildIndex(RootGroup("survey", host, Ctx(true, store))),
      BuildIndex(RootGroup(RootName(None), RootObject(host, None), Ctx(showAllStrings, store))))
  {
    assert ShowAll(Ctx(showAllStrings, store)) == Ctx(true, store);
    BuildIndexWithin("survey", host, Ctx(showAllStrings, store));
  }

  /**
   * `exportToCSV` followed by `importFromNestedArray` with no page filter: the table exported
   * from the tree shown over the whole survey (`Tree()`, with or without empty strings) is read
   * back through the index of the tree the import builds (`ImportTree`). Provided that tree
   * writes no key twice, every exported locale of every exported leaf then holds its exported
   * cell, and every other locale and every other field keeps its text.
   */
  lemma ExportThenImport(host: Host, showAllStrings: bool, store: Store, locs: seq<string>, idx: seq<Entry>, into: seq<Entry>)
    requires idx == BuildIndex(RootGroup(RootName(None), RootObject(host, None), Ctx(showAllStrings, store)))
    requires into == BuildIndex(RootGroup("survey", host, Ctx(true, store)))
    requires UniqueKeys(Paths("", RootGroup("survey", host, Ctx(true, store))))
    requires LeafIndex(idx) && ReadableKeys(idx) && DistinctFields(idx) && DistinctStorageKeys(locs)
    requires forall i, m :: 0 <= i < |idx| && 0 <= m < |locs| ==>
      Trim(ExportCell(idx[i].leaf, locs[m], m, store)) == ExportCell(idx[i].leaf, locs[m], m, store)
    ensures LeafIndex(into)
    ensures forall i, j :: 0 <= i < |idx| && 0 <= j < |locs| ==>
      GetText(Field(RoundTrip(into, idx, locs, store), idx[i].leaf.field), locs[j]) == ExportCell(idx[i].leaf, locs[j], j, store)
    ensures forall i, loc :: 0 <= i < |idx| && NoColumn(loc, locs) ==>
      GetText(Field(RoundTrip(into, idx, locs, store), idx[i].leaf.field), loc) == GetText(Field(store, idx[i].leaf.field), loc)
    ensures forall id :: (forall i :: 0 <= i < |idx| ==> idx[i].leaf.field != id) ==>
      Field(RoundTrip(into, idx, locs, store), id) == Field(store, id)
  {
    SurveyIndexFindsAll(host, showAllStrings, store);
    ExportImportRoundTrip(into, idx, locs, store);
  }

  /** Adding a locale that is not registered appends one entry for it and changes nothing else. */
  lemma AddOneLocale(locs: seq<TranslationLocale>, loc: string, supported: seq<string>)
    requires Distinct(locs) && !HasLocale(locs, loc)
    ensures SetLocales(locs, LocaleNames(locs) + [loc], supported) == locs + [NewLocale(loc, supported)]
  {
    var names := LocaleNames(locs);
    assert (names + [loc])[..|names|] == names;
    SetLocalesKnown(locs, names, supported);
  }

  /** Registering names that are all registered already changes nothing. */
  lemma {:induction false} SetLocalesKnown(locs: seq<TranslationLocale>, add: seq<string>, supported: seq<string>)
    requires forall i :: 0 <= i < |add| ==> add[i] in LocaleNames(locs)
    ensures SetLocales(locs, add, supported) == locs
  {
    if add != [] {
      SetLocalesKnown(locs, add[..|add| - 1], supported);
      var k :| 0 <= k < |locs| && LocaleNames(locs)[k] == add[|add| - 1];
    }
  }

  lemma SetLocalesStep(locs: seq<TranslationLocale>, add: seq<string>, i: nat, supported: seq<string>)
    requires i < |add|
    ensures SetLocales(locs, add[..i + 1], supported) ==
      if HasLocale(SetLocales(locs, add[..i], supported), add[i]) then SetLocales(locs, add[..i], supported)
      else SetLocales(locs, add[..i], supported) + [NewLocale(add[i], supported)]
  {
    assert add[..i + 1][..i] == add[..i];
  }

  /** One registry entry with the flags `setSelectedLocales` gives it. */
  function Flagged(l: TranslationLocale, selected: seq<string>, supported: seq<string>): TranslationLocale
  {
    var enabled := IsLocaleEnabled(l.locale, supported);
    TranslationLocale(l.locale, enabled && l.locale in selected, enabled)
  }

  lemma ApplySelectionPointwise(locs: seq<TranslationLocale>, r: seq<TranslationLocale>, selected: seq<string>, supported: seq<string>)
    requires |r| == |locs|
    requires forall k :: 0 <= k < |locs| ==> r[k] == Flagged(locs[k], selected, supported)
    ensures r == ApplySelection(locs, selected, supported)
  {
    ApplySelectionSpec(locs, selected, supported);
  }

  /** `setSelectedLocales`' second loop: each registry entry takes the flags of `Flagged`. */
  method FlagLocales(locs: seq<TranslationLocale>, selected: seq<string>, supported: seq<string>) returns (r: seq<TranslationLocale>)
    ensures r == ApplySelection(locs, selected, supported)
  {
    r := locs;
    var i := 0;
    while i < |r|
      invariant 0 <= i <= |r| == |locs|
      invariant forall k :: 0 <= k < i ==> r[k] == Flagged(locs[k], selected, supported)
      invariant forall k :: i <= k < |locs| ==> r[k] == locs[k]
    {
      var enabled := IsLocaleEnabled(r[i].locale, supported);
      var visible := enabled && r[i].locale in selected;
      r := r[i := TranslationLocale(r[i].locale, visible, enabled)];
      i := i + 1;
    }
    ApplySelectionPointwise(locs, r, selected, supported);
  }

  /** The translation editor: the locale registry and the tree of the current scope. */
  class Translation {
    const survey: SurveyDoc
    /** The survey library's default locale, the one merge-with-default folds into the default slot. */
    const defaultLocale: string
    /** The survey library's supported locales; empty when any locale is allowed. */
    const supportedLocales: seq<string>
    var locales: seq<TranslationLocale>
    var root: Node
    var showAllStrings: bool
    var filteredPage: Option<Host>
    var isEmpty: bool
    var canMergeLocaleWithDefault: bool

    /**
     * The registry starts with the default locale, which stays enabled, and never holds a
     * locale twice; the tree is a group whose subgroups all have items; the two flags agree
     * with the registry and the tree.
     */
    ghost predicate Valid()
      reads this
    {
      RegistryValid() && TreeValid()
    }

    ghost predicate RegistryValid()
      reads this`locales, this`canMergeLocaleWithDefault
    {
      && |locales| > 0 && locales[0].locale == "" && locales[0].enabled
      && Distinct(locales)
      && (canMergeLocaleWithDefault <==> HasLocale(locales, defaultLocale))
    }

    ghost predicate TreeValid()
      reads this`root, this`isEmpty
    {
      root.Group? && Pruned(root) && (isEmpty <==> |Leaves(root)| == 0)
    }

    /** The tree `reset` builds for the current scope and the survey's current texts. */
    function Tree(): Node
      reads this, survey
    {
      RootGroup(RootName(filteredPage), RootObject(survey.host, filteredPage), Ctx(showAllStrings, survey.texts))
    }

    /** The locales `resetLocales` finds in the texts of `root`, after the default locale. */
    function Discovered(): seq<string>
      reads this, survey
    {
      CollectLocales([""], Leaves(root), survey.texts, survey.canEnumerateLocales)
    }

    constructor(survey: SurveyDoc, defaultLocale: string, supportedLocales: seq<string>)
      ensures Valid()
      ensures this.survey == survey && this.defaultLocale == defaultLocale && this.supportedLocales == supportedLocales
      ensures !showAllStrings && filteredPage == None
      ensures root == Tree()
      ensures locales == SetLocales(DefaultOnly, Discovered(), supportedLocales)
    {
      this.survey := survey;
      this.defaultLocale := defaultLocale;
      this.supportedLocales := supportedLocales;
      locales := DefaultOnly;
      showAllStrings := false;
      filteredPage := None;
      root := Group("survey", []);
      isEmpty := true;
      canMergeLocaleWithDefault := false;
      new;
      Reset();
    }

    /**
     * `reset`: rebuild the tree over the filtered page, or the whole survey; register the
     * locales found in its texts; record whether it has any leaf.
     */
    method Reset()
      requires |locales| > 0 && locales[0].locale == "" && locales[0].enabled && Distinct(locales)
      modifies this
      ensures Valid()
      ensures root == Tree()
      ensures locales == SetLocales(old(locales), Discovered(), supportedLocales)
      ensures showAllStrings == old(showAllStrings) && filteredPage == old(filteredPage)
    {
      var rootObj := if filteredPage.Some? then filteredPage.value else survey.host;
      var rootName := if filteredPage.Some? then rootObj.name else "survey";
      root := NewObjectGroup(rootName, rootObj, Ctx(showAllStrings, survey.texts));
      ResetLocales();
      var hasItems := ComputeHasItems(root);
      isEmpty := !hasItems;
    }

    /** `hasLocale`. */
    method HasLocaleM(loc: string) returns (b: bool)
      ensures b <==> HasLocale(locales, loc)
    {
      var i := 0;
      while i < |locales|
        invariant 0 <= i <= |locales|
        invariant forall k :: 0 <= k < i ==> locales[k].locale != loc
      {
        if locales[i].locale == loc {
          return true;
        }
        i := i + 1;
      }
      return false;
    }

    /** `setLocales`: register each locale of `locs` that is not registered yet, in order. */
    method SetLocalesM(locs: seq<string>)
      requires |locales| > 0 && locales[0].locale == "" && locales[0].enabled && Distinct(locales)
      modifies this`locales, this`canMergeLocaleWithDefault
      ensures locales == SetLocales(old(locales), locs, supportedLocales)
      ensures |locales| > 0 && locales[0].locale == "" && locales[0].enabled && Distinct(locales)
      ensures canMergeLocaleWithDefault <==> HasLocale(locales, defaultLocale)
      ensures root == old(root) && isEmpty == old(isEmpty)
      ensures showAllStrings == old(showAllStrings) && filteredPage == old(filteredPage)
    {
      var i := 0;
      assert locs[..0] == [];
      while i < |locs|
        invariant 0 <= i <= |locs|
        invariant locales == SetLocales(old(locales), locs[..i], supportedLocales)
        modifies this`locales
      {
        SetLocalesStep(old(locales), locs, i, supportedLocales);
        var loc := locs[i];
        var has := HasLocaleM(loc);
        if !has {
          locales := locales + [NewLocale(loc, supportedLocales)];
        }
        i := i + 1;
      }
      assert locs[..|locs|] == locs;
      SetLocalesSpec(old(locales), locs, supportedLocales);
      canMergeLocaleWithDefault := HasLocaleM(defaultLocale);
    }

    /** `addLocale`: register `loc` at the end unless it is registered. */
    method AddLocale(loc: string)
      requires RegistryValid()
      modifies this
      ensures RegistryValid() && isEmpty == old(isEmpty)
      ensures HasLocale(old(locales), loc) ==> locales == old(locales)
      ensures !HasLocale(old(locales), loc) ==> locales == old(locales) + [NewLocale(loc, supportedLocales)]
      ensures root == old(root) && showAllStrings == old(showAllStrings) && filteredPage == old(filteredPage)
    {
      var has := HasLocaleM(loc);
      if !has {
        var locs := LocaleNames(locales) + [loc];
        AddOneLocale(locales, loc, supportedLocales);
        SetLocalesM(locs);
      }
    }

    /** `resetLocales`: the default locale, then the locales found in the tree's texts. */
    method ResetLocales()
      requires |locales| > 0 && locales[0].locale == "" && locales[0].enabled && Distinct(locales)
      modifies this
      ensures locales == SetLocales(old(locales), Discovered(), supportedLocales)
      ensures |locales| > 0 && locales[0].locale == "" && locales[0].enabled && Distinct(locales)
      ensures canMergeLocaleWithDefault <==> HasLocale(locales, defaultLocale)
      ensures root == old(root) && isEmpty == old(isEmpty)
      ensures showAllStrings == old(showAllStrings) && filteredPage == old(filteredPage)
    {
      var locs := FillLocales(root, [""], survey.texts, survey.canEnumerateLocales);
      SetLocalesM(locs);
    }

    /**
     * `setSelectedLocales(selected)`: register the selected locales not yet registered, then make
     * each entry enabled exactly when its locale is enabled and visible exactly when it is also selected.
     */
    method SetSelectedLocales(selected: seq<string>)
      requires Valid()
      modifies this
      ensures Valid()
      ensures locales == SelectLocales(old(locales), selected, supportedLocales)
      ensures root == old(root) && showAllStrings == old(showAllStrings) && filteredPage == old(filteredPage)
    {
      AddLocales(selected);
      ghost var mid := locales;
      locales := FlagLocales(locales, selected, supportedLocales);
      SelectedRegistryValid(mid, selected);
    }

    /** `setSelectedLocales`' first loop: `addLocale` for each selected locale not registered yet. */
    method AddLocales(selected: seq<string>)
      requires RegistryValid()
      modifies this
      ensures RegistryValid() && locales == SetLocales(old(locales), selected, supportedLocales)
      ensures root == old(root) && isEmpty == old(isEmpty) && showAllStrings == old(showAllStrings) && filteredPage == old(filteredPage)
    {
      var i := 0;
      assert selected[..0] == [];
      while i < |selected|
        invariant 0 <= i <= |selected|
        invariant RegistryValid() && isEmpty == old(isEmpty)
        invariant locales == SetLocales(old(locales), selected[..i], supportedLocales)
        invariant root == old(root) && showAllStrings == old(showAllStrings) && filteredPage == old(filteredPage)
      {
        SetLocalesStep(old(locales), selected, i, supportedLocales);
        var has := HasLocaleM(selected[i]);
        if !has {
          AddLocale(selected[i]);
        }
        i := i + 1;
      }
      assert selected[..|selected|] == selected;
    }

    lemma SelectedRegistryValid(mid: seq<TranslationLocale>, selected: seq<string>)
      requires |mid| > 0 && mid[0].locale == "" && Distinct(mid)
      ensures var r := ApplySelection(mid, selected, supportedLocales);
        && r[0].locale == "" && r[0].enabled && Distinct(r)
        && (HasLocale(r, defaultLocale) <==> HasLocale(mid, defaultLocale))
    {
      var r := ApplySelection(mid, selected, supportedLocales);
      ApplySelectionSpec(mid, selected, supportedLocales);
      forall l ensures HasLocale(r, l) <==> HasLocale(mid, l) {
        if HasLocale(r, l) {
          var k :| 0 <= k < |r| && r[k].locale == l;
          assert mid[k].locale == l;
        }
        if HasLocale(mid, l) {
          var k :| 0 <= k < |mid| && mid[k].locale == l;
          assert r[k].locale == l;
        }
      }
    }

    /** Turning "show all strings" on or off rebuilds the tree; setting the current value does nothing. */
    method SetShowAllStrings(v: bool)
      requires Valid()
      modifies this
      ensures Valid() && showAllStrings == v && filteredPage == old(filteredPage)
      ensures v == old(showAllStrings) ==> root == old(root) && locales == old(locales)
      ensures v != old(showAllStrings) ==> root == Tree() && locales == SetLocales(old(locales), Discovered(), supportedLocales)
    {
      if v != showAllStrings {
        showAllStrings := v;
        Reset();
      }
    }

    /** Choosing another page (or none, for the whole survey) rebuilds the tree over it. */
    method SetFilteredPage(page: Option<Host>)
      requires Valid()
      modifies this
      ensures Valid() && filteredPage == page && showAllStrings == old(showAllStrings)
      ensures page == old(filteredPage) ==> root == old(root) && locales == old(locales)
      ensures page != old(filteredPage) ==> root == Tree() && locales == SetLocales(old(locales), Discovered(), supportedLocales)
    {
      if page != filteredPage {
        filteredPage := page;
        Reset();
      }
    }

    /**
     * `exportToCSV`, up to the CSV writer: the header row, then one row per key of the index of
     * the current tree, with one cell per visible locale.
     */
    method ExportToCSV() returns (rows: seq<seq<string>>)
      requires Valid()
      ensures rows == ExportTable(BuildIndex(root), VisibleLocales(locales), survey.texts)
    {
      var visibleLocales := VisibleLocales(locales);
      var headerRow := ExportHeaderRow(visibleLocales);
      rows := [headerRow];
      var itemsHash := FillItemsHash("", root, []);
      assert itemsHash == BuildIndex(root);
      var k := 0;
      while k < |itemsHash|
        invariant 0 <= k <= |itemsHash|
        invariant LeafIndex(itemsHash[..k])
        invariant rows == [HeaderRow(visibleLocales)] + DataRows(itemsHash[..k], visibleLocales, survey.texts)
      {
        assert itemsHash[k] in itemsHash;
        var row := ExportItemRow(itemsHash[k], visibleLocales, survey.texts);
        DataRowsStep(itemsHash, visibleLocales, survey.texts, k);
        rows := rows + [row];
        k := k + 1;
      }
      assert itemsHash[..|itemsHash|] == itemsHash;
    }

    /**
     * `importFromNestedArray(rows)`: read the column locales off the header, index a fresh
     * tree of the whole survey with every string shown, apply each data row whose trimmed key
     * is in that index, then rebuild this translation. Every row must have a first cell, and a
     * header row must be there.
     */
    method ImportFromNestedArray(rows: seq<seq<string>>)
      requires Valid()
      requires |rows| > 0 && NonEmptyRows(rows[1..])
      modifies this, survey
      ensures Valid()
      ensures survey.texts ==
        ImportRows(old(survey.texts), BuildIndex(old(ImportTree(survey))), HeaderLocales(rows[0]), rows[1..])
      ensures root == Tree() && locales == SetLocales(old(locales), Discovered(), supportedLocales)
      ensures showAllStrings == old(showAllStrings) && filteredPage == old(filteredPage)
    {
      var header := rows[0];
      var locs := if |header| > 0 then header[1..] else [];
      if |locs| > 0 && locs[0] == "default" {
        locs := [""] + locs[1..];
      }
      assert locs == HeaderLocales(header);
      var translation := new Translation(survey, defaultLocale, supportedLocales);
      translation.SetShowAllStrings(true);
      assert translation.root == old(ImportTree(survey));
      var itemsHash := FillItemsHash("", translation.root, []);
      assert itemsHash == BuildIndex(translation.root);
      ImportDataRows(survey, itemsHash, locs, rows[1..]);
      Reset();
    }

    /**
     * `mergeLocaleWithDefault`: when the survey's default locale is registered, move its texts
     * into the default slot throughout the current tree, shrink the registry to the default
     * locale and rebuild, which registers again the locales still found in the texts.
     */
    method MergeLocaleWithDefault()
      requires Valid()
      modifies this, survey
      ensures Valid()
      ensures showAllStrings == old(showAllStrings) && filteredPage == old(filteredPage)
      ensures !HasLocale(old(locales), defaultLocale) ==>
        locales == old(locales) && root == old(root) && survey.texts == old(survey.texts)
      ensures HasLocale(old(locales), defaultLocale) ==>
        && survey.texts == MergeLeaves(old(survey.texts), Leaves(old(root)), defaultLocale)
        && root == Tree()
        && locales == SetLocales(DefaultOnly, Discovered(), supportedLocales)
    {
      var has := HasLocaleM(defaultLocale);
      if !has {
        return;
      }
      survey.MergeNode(root, defaultLocale);
      locales := DefaultOnly;
      Reset();
    }
  }
}