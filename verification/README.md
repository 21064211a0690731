# Translation layer of the survey creator, in Dafny

This project models the translation tab of the survey creator
(`packages/survey-creator-core/src/tabs/translation.ts`) and proves properties of that model.
The tab shows a survey's localizable strings as a tree and keeps a registry of locales. It
exports the strings as a table and imports such a table back.

- **Tree.** Groups stand for the survey, its pages, questions and choice lists. Leaves stand for
  the localizable fields to translate.
- **Locale registry.** An ordered list of locales with `visible` and `enabled` flags.
- **Export and import.** Tables of strings, keyed by dotted paths.
- **Merge.** A locale's texts can be merged into the default slot.

The parts:

- `common.dfy`: `Option`, decimal printing and parsing of indices, and JavaScript's `trim`.
- `locstrings.dfy`: the localizable string (`LocString`).
  - It holds texts by storage key. The empty locale is kept under `"default"`, and setting a
    blank text removes the locale.
  - All fields of a survey live in one `Store`, indexed by `FieldId`. A tree's leaves refer to
    fields by id, so two trees over one survey see each other's writes.
- `host.dfy`: the reflected object graph.
  - Objects have a name, a type and properties.
  - A property has the reflector's flags, its localizable field, and a value that is a choice
    list, a list of objects or anything else.
- `tree.dfy`: the tree `fillItems` builds, as functions.
  - Leaves are created with `createTranslationItem`.
  - Groups come from object arrays and choice lists.
  - Pruning: a child group is kept only when it has items.
- `build.dfy`: the same construction as the source performs it, with loops that push items. Each
  method is proved equal to the function in `tree.dfy`.
- `locales.dfy`: locale discovery (`fillLocales`), the registry (`setLocales`, `isLocaleEnabled`,
  `setSelectedLocales`, `getVisibleLocales`), `localeCount` and `locWidth`.
- `pathindex.dfy`: the path-key index `fillItemsHash`. It is modelled as a hash table filled in
  insertion order, where later writes win.
- `csv.dfy`: export rows, the import of rows, and the export-then-import round trip.
- `filtering.dfy`: the tree with strings filtered is kept within the tree with all strings shown,
  so the import index finds every exported entry when no page is filtered.
- `merge.dfy`: `mergeLocaleWithDefault` on a field, on a sequence of leaves and on a tree.
- `translation.dfy`: the stateful objects.
  - `SurveyDoc` holds the texts of the survey.
  - `Translation` holds the registry, the tree and the flags. It has `reset`, `addLocale`,
    `setSelectedLocales`, export, import and merge.

Discovery, merge and the read-back of exported rows walk sequences of tree nodes. A group among
them is passed over, which is what the source's recursion amounts to: a group holds no text of
its own.

## Model

| member | source | states |
|---|---|---|
| Common.NatToString | packages/survey-creator-core/src/tabs/translation.ts:402 | `i.toString()` is a non-empty digit string without a leading zero |
| Common.NatToStringRoundTrip | packages/survey-creator-core/src/tabs/translation.ts:402 | reading the printed index back gives the index |
| Common.NatToStringInjective | packages/survey-creator-core/src/tabs/translation.ts:402 | two indices print alike only if they are equal |
| Common.Trim | packages/survey-creator-core/src/tabs/translation.ts:714 | the trimmed string is empty exactly when the input is all whitespace; otherwise it starts and ends with a non-whitespace character |
| Common.TrimSlice | packages/survey-creator-core/src/tabs/translation.ts:782 | the trimmed string is a slice of the input with only whitespace cut from either end |
| Common.TrimIdempotent | packages/survey-creator-core/src/tabs/translation.ts:782 | trimming a trimmed string changes nothing |
| LocStrings.StorageKey | packages/survey-creator-core/src/tabs/translation.ts:118 | the empty locale is stored under the key `default`, every other locale under its own name |
| LocStrings.SetText | packages/survey-creator-core/src/tabs/translation.ts:91-92 | after `setLocaleText(loc, v)` the string reads `v` at `loc`, and setting a non-empty text leaves the string non-empty |
| LocStrings.SetTextOther | packages/survey-creator-core/src/tabs/translation.ts:91-92 | every locale with another storage key reads as before |
| LocStrings.SetTextValid | packages/survey-creator-core/src/tabs/translation.ts:91-92 | the key list stays free of duplicates and in step with the texts |
| LocStrings.GetKeys | packages/survey-creator-core/src/tabs/translation.ts:123-132 | the keys are the locale list when the string can list them; otherwise an empty or default-only string reports none |
| LocStrings.WriteText | packages/survey-creator-core/src/tabs/translation.ts:91-92 | the written field reads the new text at the written locale |
| LocStrings.WriteTextField | packages/survey-creator-core/src/tabs/translation.ts:91-92 | a write changes its own field as `SetText` does, and no other field |
| LocStrings.WriteTextOther | packages/survey-creator-core/src/tabs/translation.ts:91-92 | the written field reads as before at every locale with another storage key |
| LocStrings.WriteTextValid | packages/survey-creator-core/src/tabs/translation.ts:91-92 | a write keeps every field of the store well formed |
| LocStrings.EmptyMeansNoText | packages/survey-creator-core/src/tabs/translation.ts:359 | an empty string has no text in any locale; a non-empty one has some text |
| Translations.SurveyDoc.SetLocText | packages/survey-creator-core/src/tabs/translation.ts:88-100 | `getLocText` reads back the value written; other locales and other fields are unchanged |
| Translations.SurveyDoc.GetLocText | packages/survey-creator-core/src/tabs/translation.ts:88-90 | an item reads its text at a locale from its own field (no contract: the read is the definition `SetLocText` is stated in) |
| Tree.HasItemsIffLeaves | packages/survey-creator-core/src/tabs/translation.ts:242-249 | `hasItems` holds exactly when some leaf lies below the group |
| Tree.HasItems | packages/survey-creator-core/src/tabs/translation.ts:242-249 | a group has items when a child is a leaf or a child group has items (no contract; `HasItemsIffLeaves` states what it means) |
| Tree.LocalizedProperties | packages/survey-creator-core/src/tabs/translation.ts:328-338 | keeps exactly the serializable, localizable, writable, visible properties |
| Tree.ArrayProperties | packages/survey-creator-core/src/tabs/translation.ts:339-351 | keeps exactly the serializable properties that hold a non-empty list |
| Tree.IsItemValueArray | packages/survey-creator-core/src/tabs/translation.ts:384-394 | a value is a choice list when it is a non-empty list of choice items (no contract: it is the definition `ArrayProperties` and `ArrayGroups` use) |
| Tree.DefaultValue | packages/survey-creator-core/src/tabs/translation.ts:368-383 | the default value is the owner's name for the computed title of a non-page object, and "" otherwise |
| Tree.CreateTranslationItem | packages/survey-creator-core/src/tabs/translation.ts:352-367 | there is no leaf exactly when the field is missing, or when strings are filtered and both the default value and the field are empty; a leaf carries the property's name, field and default value |
| Tree.CanAddChoice | packages/survey-creator-core/src/tabs/translation.ts:416-418 | a choice is shown when all strings are, when its text is set, or when its value is not a number (no contract; `ChoiceEntry` states its effect) |
| Tree.ChoiceEntry | packages/survey-creator-core/src/tabs/translation.ts:413-429 | a choice adds leaves exactly when all strings are shown, its text is set or its value is not numeric; its first leaf is named by its value and defaults to it |
| Tree.ElementGroup | packages/survey-creator-core/src/tabs/translation.ts:395-412 | the group of an array element is a group with no empty subgroup |
| Tree.RootGroup | packages/survey-creator-core/src/tabs/translation.ts:588-592 | the root is a group named as given, and every group below it has items (the root itself may be empty) |
| Tree.ElementName | packages/survey-creator-core/src/tabs/translation.ts:399-405 | an element group is named by the element's own name when it has one, and the name is never empty |
| Tree.UnnamedElementNames | packages/survey-creator-core/src/tabs/translation.ts:399-405 | unnamed elements `prop[i]` and `prop[j]` get the same name only when `i == j` |
| Tree.ElementGroupsExactly | packages/survey-creator-core/src/tabs/translation.ts:395-412 | `createGroups` returns exactly the groups of the typed elements that have items |
| Tree.PropertyLeavesExactly | packages/survey-creator-core/src/tabs/translation.ts:258-266 | the object's leaves are exactly the leaves `createTranslationItem` makes for its localized properties |
| Tree.ExtraLeavesExactly | packages/survey-creator-core/src/tabs/translation.ts:430-445 | each extra leaf of a choice is the leaf of one of its non-`text` localizable fields that `createTranslationItem` keeps, named `<value>.<property>` with that field and default value; each such field gives one |
| Build.GetLocalizedProperties | packages/survey-creator-core/src/tabs/translation.ts:328-338 | the filtering loop returns the localized properties, in order |
| Build.GetArrayProperties | packages/survey-creator-core/src/tabs/translation.ts:339-351 | the filtering loop returns the array properties, in order |
| Build.ComputeHasItems | packages/survey-creator-core/src/tabs/translation.ts:242-249 | the two-phase search answers true exactly when the group has a leaf below it |
| Build.NewObjectGroup | packages/survey-creator-core/src/tabs/translation.ts:160-172 | constructing a group over an object fills it with that object's items |
| Build.FillItems | packages/survey-creator-core/src/tabs/translation.ts:253-288 | the pushing loops produce the object's leaves and then its kept array groups |
| Build.AddPropertyItems | packages/survey-creator-core/src/tabs/translation.ts:258-266 | the first loop pushes the leaves `createTranslationItem` returns |
| Build.AddArrayItems | packages/survey-creator-core/src/tabs/translation.ts:267-285 | the second loop appends a choice-list group that has items, or the element groups |
| Build.CreateGroups | packages/survey-creator-core/src/tabs/translation.ts:395-412 | the loop appends the kept element groups |
| Build.NewChoiceGroup | packages/survey-creator-core/src/tabs/translation.ts:253-256 | a group over a choice list holds that list's leaves |
| Build.CreateItemValuesLocale | packages/survey-creator-core/src/tabs/translation.ts:413-429 | the loop pushes each shown choice's leaf followed by its extra leaves |
| Build.AddCustomPropertiesForItemValue | packages/survey-creator-core/src/tabs/translation.ts:430-445 | the loop appends the choice's extra leaves |
| Locales.AddKeys | packages/survey-creator-core/src/tabs/translation.ts:110-122 | the locales already collected stay in place |
| Locales.CollectLocales | packages/survey-creator-core/src/tabs/translation.ts:110-122 | discovery over a run of leaves keeps the locales already collected in place and appends after them |
| Locales.AddKeysSpec | packages/survey-creator-core/src/tabs/translation.ts:110-122 | no duplicate is added; what is appended is non-empty, not the default key and among the keys; every such key ends up in the list |
| Locales.CollectLocalesSpec | packages/survey-creator-core/src/tabs/translation.ts:234-238 | over a tree, discovery adds no duplicate, adds only keys some leaf holds, and adds every reportable key any leaf holds |
| Locales.CollectLocalesUnique | packages/survey-creator-core/src/tabs/translation.ts:234-238 | discovery adds no duplicate |
| Locales.CollectLocalesSound | packages/survey-creator-core/src/tabs/translation.ts:234-238 | each locale discovery adds is reportable and held by some leaf |
| Locales.CollectLocalesComplete | packages/survey-creator-core/src/tabs/translation.ts:234-238 | every reportable key any leaf holds is discovered |
| Locales.EnumerationIrrelevant | packages/survey-creator-core/src/tabs/translation.ts:123-132 | whether keys come from the locale list or from the JSON form gives the same locales |
| Locales.CollectLocalesAppend | packages/survey-creator-core/src/tabs/translation.ts:234-238 | discovery over two runs of leaves is discovery over the first, continued over the second |
| Locales.CollectLocalesSingle | packages/survey-creator-core/src/tabs/translation.ts:110-122 | discovery over an item appends the keys of its field |
| Locales.CollectLocalesOfStep | packages/survey-creator-core/src/tabs/translation.ts:234-238 | a group asks one more child after the ones before it |
| Locales.FillLocalesOfLeaf | packages/survey-creator-core/src/tabs/translation.ts:110-122 | the item's loop appends its new keys to the caller's list |
| Locales.FillLocales | packages/survey-creator-core/src/tabs/translation.ts:234-238 | a group's recursive loop collects the locales of all leaves below it, in order |
| Locales.LocaleNames | packages/survey-creator-core/src/tabs/translation.ts:597-604 | `localesStr` lists the registry's locales in order |
| Locales.NewLocale | packages/survey-creator-core/src/tabs/translation.ts:805-817 | a new entry is visible exactly when enabled, and enabled exactly when `isLocaleEnabled` holds |
| Locales.IsLocaleEnabled | packages/survey-creator-core/src/tabs/translation.ts:818-823 | the default locale is always enabled; any locale is when no supported list is set; otherwise only the supported ones are (no contract: it is the definition `NewLocale` and `ApplySelectionSpec` are stated in) |
| Locales.HasLocale | packages/survey-creator-core/src/tabs/translation.ts:611-617 | a locale is registered exactly when some registry entry carries it (no contract: it is the definition `SetLocalesSpec`, `AddLocale` and `SelectLocalesSpec` are stated in) |
| Locales.SetLocales | packages/survey-creator-core/src/tabs/translation.ts:805-817 | existing entries stay in place with their flags |
| Locales.SetLocalesSpec | packages/survey-creator-core/src/tabs/translation.ts:805-823 | no locale is registered twice; exactly the missing locales are added; each new entry has the flags of a new locale |
| Locales.ApplySelection | packages/survey-creator-core/src/tabs/translation.ts:645-651 | the second loop of `setSelectedLocales` keeps the registry's length, one entry per entry |
| Locales.SelectLocales | packages/survey-creator-core/src/tabs/translation.ts:638-653 | the registry after `setSelectedLocales`: the selected locales registered, then the flags set (no contract; `SelectLocalesSpec` states what it guarantees) |
| Locales.ApplySelectionSpec | packages/survey-creator-core/src/tabs/translation.ts:645-651 | each entry keeps its locale, is enabled iff its locale is enabled, and is visible iff it is enabled and selected |
| Locales.SelectLocalesSpec | packages/survey-creator-core/src/tabs/translation.ts:638-653 | after selection every selected locale is registered, visible iff enabled; unselected ones are hidden; there are no duplicates |
| Locales.VisibleLocales | packages/survey-creator-core/src/tabs/translation.ts:788-793 | the visible locales are exactly the locales of visible entries |
| Locales.LocaleCount | packages/survey-creator-core/src/tabs/translation.ts:211-219 | the corrected count is the number of visible entries |
| Locales.GroupLocaleCountAsWritten | packages/survey-creator-core/src/tabs/translation.ts:211-219 | the count as written is always 0 |
| Locales.LocWidth | packages/survey-creator-core/src/tabs/translation.ts:220-224 | the width is a whole percentage followed by `%`: 100 below two locales, otherwise the floor of 100 divided by the count |
| Locales.LocaleCountFinding | packages/survey-creator-core/src/tabs/translation.ts:211-224 | on a registry with two visible locales the intended width is `50%`, but the count as written over that registry's `localesStr` gives `100%` |
| PathIndex.GroupKey | packages/survey-creator-core/src/tabs/translation.ts:799 | a group's key part is its name, after the parent's key part and a dot when there is one |
| PathIndex.Paths | packages/survey-creator-core/src/tabs/translation.ts:794-804 | the entries `fillItemsHash` writes for a group, in write order: direct leaves, then each child group (no contract; `PathsCoverLeaves`, `LeafEntriesSpec`, `ChildPathsIncluded` and `GroupPathsFrom` state them) |
| PathIndex.LeafEntriesSpec | packages/survey-creator-core/src/tabs/translation.ts:800-802 | the entries are exactly the direct leaf children, keyed `<group key>.<leaf name>` |
| PathIndex.ChildPathsIncluded | packages/survey-creator-core/src/tabs/translation.ts:803 | the entries of every child group are written under the parent's key |
| PathIndex.GroupPathsFrom | packages/survey-creator-core/src/tabs/translation.ts:803 | every entry written for the child groups was written for one of them |
| PathIndex.PathsCoverLeaves | packages/survey-creator-core/src/tabs/translation.ts:794-804 | every written entry holds a leaf of the tree, and every leaf of the tree is written |
| PathIndex.PathsSound | packages/survey-creator-core/src/tabs/translation.ts:794-804 | every written entry holds a leaf of the tree |
| PathIndex.PathsComplete | packages/survey-creator-core/src/tabs/translation.ts:794-804 | every leaf of the tree is held by a written entry |
| PathIndex.LookupInIndex | packages/survey-creator-core/src/tabs/translation.ts:716 | a key found in the table is held by an entry for it |
| PathIndex.LookupUnique | packages/survey-creator-core/src/tabs/translation.ts:685 | in a table with unique keys every entry is found under its own key |
| PathIndex.FindsAllSelf | packages/survey-creator-core/src/tabs/translation.ts:685 | a table with unique keys finds each of its own entries under its key |
| PathIndex.PutLookup | packages/survey-creator-core/src/tabs/translation.ts:801 | a hash write sets its key to its leaf and leaves every other key as it was |
| PathIndex.PutKeys | packages/survey-creator-core/src/tabs/translation.ts:801 | a known key keeps its place; a new key is appended |
| PathIndex.PutMembers | packages/survey-creator-core/src/tabs/translation.ts:801 | a hash write adds no entry but its own |
| PathIndex.PutUnique | packages/survey-creator-core/src/tabs/translation.ts:801 | a hash write keeps keys unique |
| PathIndex.PutAllSpec | packages/survey-creator-core/src/tabs/translation.ts:801 | a run of writes adds nothing but the entries written and keeps keys unique |
| PathIndex.LookupPutAll | packages/survey-creator-core/src/tabs/translation.ts:801 | later writes win: a key holds the last leaf written under it |
| PathIndex.PutAllAppend | packages/survey-creator-core/src/tabs/translation.ts:800-803 | writing two runs is writing the first, then the second |
| PathIndex.BuildIndex | packages/survey-creator-core/src/tabs/translation.ts:680-681 | the index of a tree has unique keys, and only leaves of that tree are its values |
| PathIndex.PutLeafItems | packages/survey-creator-core/src/tabs/translation.ts:800-802 | the first loop writes each direct leaf under `<group key>.<leaf name>`, in order |
| PathIndex.FillItemsHash | packages/survey-creator-core/src/tabs/translation.ts:794-804 | the recursive loops write the tree's entries in order into the table |
| Csv.HeaderCells | packages/survey-creator-core/src/tabs/translation.ts:677-679 | one header cell per column locale |
| Csv.HeaderCellsAt | packages/survey-creator-core/src/tabs/translation.ts:677-679 | header cell `j` is the storage key of column locale `j` |
| Csv.ExportCellsAt | packages/survey-creator-core/src/tabs/translation.ts:686-689 | cell `j` of a row is the text at locale `j`, or the default value when the first column is empty |
| Csv.ExportCell | packages/survey-creator-core/src/tabs/translation.ts:686-689 | a cell is the text at its column's locale, or the default value when the first column's text is empty (no contract; `ExportCellsAt` and `ExportRowShape` place it) |
| Csv.DataRowsAt | packages/survey-creator-core/src/tabs/translation.ts:683-691 | data row `i` is the row of index entry `i` |
| Csv.ExportRowShape | packages/survey-creator-core/src/tabs/translation.ts:684-690 | a data row is its key followed by one cell per visible locale |
| Csv.DataRowsShape | packages/survey-creator-core/src/tabs/translation.ts:683-691 | every data row has one more cell than there are visible locales, and starts with its key |
| Csv.HeaderLocales | packages/survey-creator-core/src/tabs/translation.ts:705-708 | one column locale per header cell after the first |
| Csv.HeaderLocalesSpec | packages/survey-creator-core/src/tabs/translation.ts:705-708 | each column locale is its header cell, except that a first `default` is read as the empty locale |
| Csv.HeaderRoundTrip | packages/survey-creator-core/src/tabs/translation.ts:676-708 | reading an exported header back gives each column a locale with the storage key it was exported for |
| Csv.LastCell | packages/survey-creator-core/src/tabs/translation.ts:780-785 | a value taken from a row is never blank |
| Csv.LastCellExists | packages/survey-creator-core/src/tabs/translation.ts:780-785 | a locale gets a value from a row exactly when some cell for its storage key is not blank |
| Csv.LastCellOnly | packages/survey-creator-core/src/tabs/translation.ts:780-785 | when only one column is stored under a key, that key's value is that column's trimmed cell, unless it is blank |
| Csv.LastCellNone | packages/survey-creator-core/src/tabs/translation.ts:780-785 | a key with no column gets no value |
| Csv.ApplyCellsSpec | packages/survey-creator-core/src/tabs/translation.ts:780-785 | after a row, each locale reads the trimmed text of its last non-blank cell, or its old text when every such cell is blank |
| Csv.WriteCellsField | packages/survey-creator-core/src/tabs/translation.ts:776-787 | writing a row's cells changes that item's field as `ApplyCells` says, and no other field |
| Csv.WriteCellsValid | packages/survey-creator-core/src/tabs/translation.ts:776-787 | writing a row's cells keeps the store well formed |
| Csv.WriteCellsOther | packages/survey-creator-core/src/tabs/translation.ts:776-787 | writing a row's cells to one field leaves every other field unchanged |
| Csv.ApplyRow | packages/survey-creator-core/src/tabs/translation.ts:713-719 | one data row: its trimmed key, when not blank and in the index, sends its cells to that leaf (no contract; `ApplyRowSpec` states it) |
| Csv.ImportRows | packages/survey-creator-core/src/tabs/translation.ts:703-722 | the data rows applied in order (no contract; `ImportFrame`, `ImportValid` and `ReimportPrefix` state what it does) |
| Csv.ApplyRowSpec | packages/survey-creator-core/src/tabs/translation.ts:713-719 | a row whose trimmed key is blank or not in the index changes nothing; otherwise its first `min(values, locales)` cells go to the keyed leaf's field only |
| Csv.ImportFrame | packages/survey-creator-core/src/tabs/translation.ts:703-722 | import touches only the fields of indexed leaves |
| Csv.ImportValid | packages/survey-creator-core/src/tabs/translation.ts:703-722 | import keeps the store well formed |
| Csv.ReimportRow | packages/survey-creator-core/src/tabs/translation.ts:684-690 | importing an exported data row through an index that finds its entry writes its cells to that entry's field |
| Csv.ReimportPrefix | packages/survey-creator-core/src/tabs/translation.ts:672-722 | importing the exported data rows through an index that finds every exported entry writes each entry's cells to its field in turn |
| Csv.ReimportPrefixStep | packages/survey-creator-core/src/tabs/translation.ts:713-719 | reading back one more exported row extends the read-back by that row's entry |
| Csv.ReimportStepOther | packages/survey-creator-core/src/tabs/translation.ts:713-719 | reading back one entry's row leaves every other field unchanged |
| Csv.ReimportStepSame | packages/survey-creator-core/src/tabs/translation.ts:713-719 | reading back one entry's row applies its exported cells to its own field |
| Csv.ReimportUnchanged | packages/survey-creator-core/src/tabs/translation.ts:713-719 | a field no entry in a run of rows names is unchanged by that run |
| Csv.ReimportField | packages/survey-creator-core/src/tabs/translation.ts:672-722 | with distinct fields, after the rows are read back each entry's field is its original text with the entry's exported cells applied |
| Csv.ReimportCells | packages/survey-creator-core/src/tabs/translation.ts:686-689 | with distinct column keys and trimmed texts, re-importing a row gives each column's locale its exported cell |
| Csv.ReimportOtherLocale | packages/survey-creator-core/src/tabs/translation.ts:780-785 | a locale without a column keeps its text |
| Csv.RoundTrip | packages/survey-creator-core/src/tabs/translation.ts:672-722 | importing an exported table reads its header back as column locales and applies its data rows in order |
| Csv.ExportImportRoundTrip | packages/survey-creator-core/src/tabs/translation.ts:672-722 | importing the export of an index with readable keys and distinct fields, through an import index that finds every exported entry with the same leaf, gives every exported locale its exported cell, and leaves other locales and fields unchanged |
| Merge.MergeField | packages/survey-creator-core/src/tabs/translation.ts:133-138 | the locale's text ends up empty; with no text nothing changes; otherwise the default slot takes its text |
| Merge.MergeFieldOther | packages/survey-creator-core/src/tabs/translation.ts:133-138 | every locale stored under neither the default key nor the merged locale's key keeps its text |
| Merge.MergeIntoItselfClears | packages/survey-creator-core/src/tabs/translation.ts:133-138 | merging a locale stored under the default key discards the default text |
| Merge.MergeFieldIdempotent | packages/survey-creator-core/src/tabs/translation.ts:133-138 | merging twice is merging once |
| Merge.MergeLeaf | packages/survey-creator-core/src/tabs/translation.ts:133-138 | on the store, a field with no text in the locale is left exactly as it was; otherwise the field is merged as `MergeField` says |
| Merge.MergeLeafOther | packages/survey-creator-core/src/tabs/translation.ts:133-138 | merging an item changes no other field |
| Merge.MergeLeafValid | packages/survey-creator-core/src/tabs/translation.ts:133-138 | merging an item keeps the store well formed |
| Merge.MergeLeaves | packages/survey-creator-core/src/tabs/translation.ts:250-252 | the merge applied to a run of leaves in order, groups passed over (no contract; `MergeLeavesSpec` states its effect) |
| Merge.MergeLeavesSpec | packages/survey-creator-core/src/tabs/translation.ts:250-252 | after merging a tree's leaves each of their fields is merged once, however many leaves share it; other fields are untouched |
| Merge.MergeLeavesValid | packages/survey-creator-core/src/tabs/translation.ts:250-252 | merging keeps the store well formed |
| Merge.MergeLeavesNothingToDo | packages/survey-creator-core/src/tabs/translation.ts:133-135 | when no leaf has text in the locale, merging changes nothing |
| Merge.MergeLeavesIdempotent | packages/survey-creator-core/src/tabs/translation.ts:250-252 | merging a tree twice is merging it once |
| Merge.MergeLeavesAppend | packages/survey-creator-core/src/tabs/translation.ts:250-252 | merging two runs of leaves is merging the first, then the second |
| Merge.MergeLeavesSingle | packages/survey-creator-core/src/tabs/translation.ts:133-138 | merging the leaves of an item is merging the item |
| Merge.MergeLeavesOfStep | packages/survey-creator-core/src/tabs/translation.ts:250-252 | a group merges one more child after the ones before it |
| Translations.AddOneLocale | packages/survey-creator-core/src/tabs/translation.ts:618-624 | registering all names plus one new locale appends exactly one new entry |
| Translations.SetLocalesKnown | packages/survey-creator-core/src/tabs/translation.ts:808-809 | registering only names already registered changes nothing |
| Filtering.PropertyLeavesWithin | packages/survey-creator-core/src/tabs/translation.ts:352-367 | every leaf `createTranslationItem` makes with strings filtered it also makes, the same, with all strings shown |
| Filtering.ExtraLeavesWithin | packages/survey-creator-core/src/tabs/translation.ts:430-445 | every extra leaf of a choice with strings filtered is one of its extra leaves with all strings shown |
| Filtering.ChoiceLeavesWithin | packages/survey-creator-core/src/tabs/translation.ts:413-429 | with all strings shown every choice is added, with at least the leaves it has when strings are filtered |
| Filtering.ChoiceGroupWithin | packages/survey-creator-core/src/tabs/translation.ts:253-256 | the choice-list group with strings filtered keeps a part of the one with all strings shown |
| Filtering.WithinHasItems | packages/survey-creator-core/src/tabs/translation.ts:242-249 | a group that keeps a part of another has items only when the other has |
| Filtering.ObjectItemsWithin | packages/survey-creator-core/src/tabs/translation.ts:253-288 | every child of an object with strings filtered is kept among its children with all strings shown |
| Filtering.ArrayGroupsWithin | packages/survey-creator-core/src/tabs/translation.ts:267-285 | every array group with strings filtered keeps a part of an array group with all strings shown |
| Filtering.ElementGroupsWithin | packages/survey-creator-core/src/tabs/translation.ts:395-412 | every element group kept with strings filtered keeps a part of one kept with all strings shown |
| Filtering.ElementGroupWithin | packages/survey-creator-core/src/tabs/translation.ts:395-412 | an element's group with strings filtered keeps a part of its group with all strings shown |
| Filtering.RootGroupWithin | packages/survey-creator-core/src/tabs/translation.ts:588-592 | the root with strings filtered keeps a part of the root with all strings shown |
| Filtering.PathsWithin | packages/survey-creator-core/src/tabs/translation.ts:794-804 | every entry `fillItemsHash` writes for a group is written, under the same key, for a group that keeps more |
| Filtering.LastWithUnique | packages/survey-creator-core/src/tabs/translation.ts:801 | in a run of writes with unique keys each entry is the last written under its key |
| Filtering.BuildIndexWithin | packages/survey-creator-core/src/tabs/translation.ts:672-722 | when the tree with all strings shown writes no key twice, its index finds every entry of the index of the tree with strings filtered, with the same leaf |
| Translations.SurveyIndexFindsAll | packages/survey-creator-core/src/tabs/translation.ts:703-712 | with no page filter, the index `importFromNestedArray` builds finds every entry of the index the tree shown gives, with the same leaf, when the import's tree writes no key twice |
| Translations.ExportThenImport | packages/survey-creator-core/src/tabs/translation.ts:672-722 | with no page filter, importing what `exportToCSV` exported (readable keys, distinct fields and column keys, trimmed texts, no key written twice by the import's tree) gives every exported locale of every exported leaf its exported cell and leaves every other locale and field unchanged |
| Translations.ExportHeaderRow | packages/survey-creator-core/src/tabs/translation.ts:674-679 | the header loop builds the description cell, then one cell per visible locale |
| Translations.ExportItemRow | packages/survey-creator-core/src/tabs/translation.ts:684-690 | the cell loop builds the key, then the entry's cell for each visible locale |
| Translations.ImportDataRows | packages/survey-creator-core/src/tabs/translation.ts:713-719 | the row loop applies the data rows in order |
| Translations.SurveyDoc.UpdateItemWithStrings | packages/survey-creator-core/src/tabs/translation.ts:776-787 | the loop writes the trimmed non-blank cells of the first `min(values, locales)` columns |
| Translations.SurveyDoc.MergeItem | packages/survey-creator-core/src/tabs/translation.ts:133-138 | an item merges its own field |
| Translations.SurveyDoc.MergeNode | packages/survey-creator-core/src/tabs/translation.ts:250-252 | a group merges every leaf below it, in order |
| Translations.Translation.constructor | packages/survey-creator-core/src/tabs/translation.ts:476-496 | a new translation starts from the default locale alone, unfiltered, with strings filtered, then resets |
| Translations.Translation.Reset | packages/survey-creator-core/src/tabs/translation.ts:588-596 | the tree is rebuilt over the page or the survey; the locales found in it are registered; `isEmpty` and `canMergeLocaleWithDefault` agree with the tree and the registry |
| Translations.Translation.HasLocaleM | packages/survey-creator-core/src/tabs/translation.ts:611-617 | the search answers whether the locale is registered |
| Translations.Translation.SetLocalesM | packages/survey-creator-core/src/tabs/translation.ts:805-817 | the loop registers the missing locales in order and sets `canMergeLocaleWithDefault` |
| Translations.Translation.AddLocale | packages/survey-creator-core/src/tabs/translation.ts:618-624 | a registered locale changes nothing; a new one is appended with the flags of a new locale |
| Translations.Translation.ResetLocales | packages/survey-creator-core/src/tabs/translation.ts:625-629 | the locales found in the tree are registered after the default locale |
| Translations.Translation.SetSelectedLocales | packages/survey-creator-core/src/tabs/translation.ts:638-653 | the selected locales are registered, then every entry's flags are set from the supported and selected lists |
| Translations.Translation.AddLocales | packages/survey-creator-core/src/tabs/translation.ts:640-644 | the first loop registers each selected locale that is missing, in order, keeping the registry valid |
| Translations.FlagLocales | packages/survey-creator-core/src/tabs/translation.ts:645-651 | the second loop gives each entry the flags `ApplySelection` describes |
| Translations.Translation.SelectedRegistryValid | packages/survey-creator-core/src/tabs/translation.ts:645-651 | selection keeps the default locale first and enabled, and keeps the registry free of duplicates |
| Translations.Translation.SetShowAllStrings | packages/survey-creator-core/src/tabs/translation.ts:558-571 | changing the flag rebuilds the tree; setting it to its current value changes nothing |
| Translations.Translation.SetFilteredPage | packages/survey-creator-core/src/tabs/translation.ts:558-571 | changing the page rebuilds the tree over it; setting it to its current value changes nothing |
| Translations.Translation.ExportToCSV | packages/survey-creator-core/src/tabs/translation.ts:672-691 | the rows are the header and one row per entry of the index of the current tree, over the visible locales |
| Translations.Translation.ImportFromNestedArray | packages/survey-creator-core/src/tabs/translation.ts:703-722 | the data rows are applied through the index of a tree over the whole survey with all strings shown; then the translation is reset |
| Translations.Translation.MergeLocaleWithDefault | packages/survey-creator-core/src/tabs/translation.ts:746-752 | without the default locale registered nothing changes; otherwise every leaf of the tree is merged and the registry restarts from the default locale, then resets; `showAllStrings` and the page filter are kept |

## Left out

- The survey library's `LocalizableString` is not part of this model. Its behaviour is assumed:
  - the empty locale's text is stored under `default`;
  - a blank text removes the locale;
  - `getJson` is null when empty, and a plain string when only the default text is set;
  - `getLocaleText` of a missing locale is "".
- The CSV writer and reader (`unparse`, `parse`) and the file and DOM plumbing are left out
  (`exportToSCVFile`, `importFromCSVFile`, `exportToCSVFileUI`, `importFromCSVFileUI`). Export
  stops at the table of rows, and import starts from one.
- Export iteration order: the index is a table kept in insertion order. Its keys always contain
  a dot, so JavaScript's integer-keys-first order never applies.
- Sorting by name (`sortItems`) is left out, because it depends on locale-sensitive collation.
  The model keeps the tree in the order the items are created, as when sorting is switched off.
- Presentation is left out, because it does not change which leaves exist:
  - `expanded`, `showHeader`, `expandAll`, `collapseAll`, `keepOnGroupExpanded`, `setAsRoot`;
  - `readOnly`, `setupToolbarItems`, `afterRender`, `translateItemAfterRender`;
  - the captions from `editorLocalization`, group `text`, `customText`, `getLocaleName`.
- The reflector (`Serializer.getPropertiesByObj`) is replaced by the properties recorded on each
  host object. Its inputs are modelled as follows:
  - `isNaN(value)` is a recorded flag;
  - a list is either a choice list or a list of objects (a `None` element has no type);
  - mixed lists are not modelled.
- `surveyLocalization.defaultLocale` and `supportedLocales` are constants of a translation.
- `updateAvailableTranlations`, `availableLanguages`, `updateFilteredPages` and `filteredPages`
  are left out, because they only feed the drop-downs. So is `selectedLanguageToAdd`, which
  calls `addLocale` (modelled).
- Callbacks are left out: `fireOnObjCreating`, `tranlationChangedCallback`,
  `importFinishedCallback`, `availableTranlationsChangedCallback`. The reset that a change of
  `showAllStrings` or `filteredPage` triggers is modelled by the setters, and `canMergeLocaleWithDefault`
  by the assignment in `setLocales`. `mergeLocaleWithDefaultText` is left out.
- `getItemByName`, `locItems`, `groups`, `getSelectedLocales` and `localesStr` are read-only
  views. They appear only inside the operations that use them (`getSelectedLocales` returns the
  same list as `VisibleLocales`).
- Translations.SurveyDoc.UpdateItemWithStrings: writes each cell's text directly. The source
  writes through a cached per-locale `TranslationItemString` (`values`), and two effects of that
  cache are not modelled:
  - The cached string calls `setLocaleText` only when the text differs from the one it holds.
    The two differ when one field is written through two cached strings: two columns with one
    storage key (`default` and the empty locale), or two index keys for one field. For example,
    with keys K1 and K2 on one field and the rows [K1, "A"], [K2, "B"], [K1, "A"], the source
    ends with "B" (the cache of K1 still holds "A", so the third row writes nothing) and the
    model ends with "A".
  - The cache is a plain object. For a column locale that names an inherited member
    (`constructor`, `toString`, `valueOf`, `__proto__`, ...) `values` returns that member, and
    the assignment of `.text` lands on it (for `__proto__`, on `Object.prototype`) instead of
    the field. The source never writes such a column; the model does. `ExportThenImport`'s
    read-back then fails for such a locale when it is the first column and the default value
    was exported in place of an empty text: the source leaves the text empty.
- Translations.Translation.ImportFromNestedArray: requires a header row and a first cell in
  every data row. On such input the source throws (`shift()` on an empty array gives
  `undefined`), so the model does not cover those runs. Two more points:
  - The source's `itemsHash` is a plain object, so a row key that names an inherited member
    finds that member. For `constructor` it is `Object`, whose `values` is `Object.values`;
    the assignment of `.text` lands on the array it returns, so the row writes nothing and
    the import goes on, as in the model. For a member with no `values` (`toString`,
    `valueOf`, `hasOwnProperty`, `__proto__`, ...) `updateItemWithStrings` throws a TypeError
    on the row's first non-blank cell, and the remaining rows and the final `reset()` are
    abandoned. The model looks keys up in the index alone and skips such a row.
  - `rows.shift()` and `row.shift()` remove the header row and each key cell from the caller's
    arrays. The model takes the rows as a value and leaves no trace of them.
- Translations.ExportThenImport: covers only a translation with no page filter. With a page
  filtered, `exportToCSV` writes keys that start with the page's name (`page1.q1.title`), while
  `importFromNestedArray` indexes a tree over the whole survey whose keys start with `survey.`.
  Every exported data row then misses the index and is skipped, so nothing is imported. The
  lemma also assumes the import's tree writes no key twice; with duplicate keys the later
  write wins (`PathIndex.LookupPutAll`) and a row can reach a leaf other than the exported one.
  A first-column locale named after an inherited member is a further exception; see
  `Translations.SurveyDoc.UpdateItemWithStrings` above.
- Translations.Translation.MergeLocaleWithDefault: the registry afterwards is the default locale
  followed by the locales `reset` rediscovers in the texts. It is not the default locale alone,
  because `mergeLocaleWithDefault` calls `reset`, which registers every locale still present.
- `fillLocales` pushes into a caller's array. The model passes that array in and returns it
  extended (`FillLocales`).
- Tree nodes are values. The source's groups are objects, but nothing in the core updates a
  group after it is built, apart from the presentation flags listed above.

## Findings

| source | as written | input that shows it | evidently intended | confidence | as-written member | corrected member |
|---|---|---|---|---|---|---|
| packages/survey-creator-core/src/tabs/translation.ts:211-219 | `localeCount` counts elements of `localesStr` whose `visible` is truthy, but those elements are strings, so the count is always 0 and `locWidth` is always `100%` | a registry of the default locale and `fr`, both visible: count 0, width `100%` | count the visible registry entries: 2, width `50%` | not executed | Locales.GroupLocaleCountAsWritten | Locales.LocaleCount |
