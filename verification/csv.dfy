/**
 * The nested-array form of the CSV exchange: the table `exportToCSV` hands to the CSV writer,
 * and what `importFromNestedArray` does with the rows the CSV reader returns.
 */
module Csv {
  import opened Common
  import opened LocStrings
  import opened Tree
  import opened PathIndex

  const DescriptionHeader: string := "description \U{2193} - language \U{2192}"

  /** The header cells of the locale columns: each locale's storage key, so the default locale is written "default". */
  function HeaderCells(locs: seq<string>): (r: seq<string>)
    ensures |r| == |locs|
  {
    if locs == [] then [] else HeaderCells(locs[..|locs| - 1]) + [StorageKey(locs[|locs| - 1])]
  }

  /** One header cell per column locale, in order. */
  lemma {:induction false} HeaderCellsAt(locs: seq<string>)
    ensures forall j :: 0 <= j < |locs| ==> HeaderCells(locs)[j] == StorageKey(locs[j])
  {
    if locs != [] {
      HeaderCellsAt(locs[..|locs| - 1]);
    }
  }

  /** The first row of the export: the description cell, then one cell per visible locale. */
  function HeaderRow(locs: seq<string>): seq<string>
  {
    [DescriptionHeader] + HeaderCells(locs)
  }

  ghost predicate LeafIndex(idx: seq<Entry>)
  {
    forall e :: e in idx ==> e.leaf.Leaf?
  }

  /** Every prefix of an index of leaves is one. */
  lemma LeafIndexPrefix(idx: seq<Entry>, k: nat)
    requires LeafIndex(idx) && k <= |idx|
    ensures LeafIndex(idx[..k])
  {
    assert forall x :: x in idx[..k] ==> x in idx;
  }

  /**
   * The cell of `leaf` in column `col` (locale `loc`): its text in that locale, except that an
   * empty text in the first column shows the leaf's default value.
   */
  function ExportCell(leaf: Node, loc: string, col: nat, store: Store): string
    requires leaf.Leaf?
  {
    var val := GetText(Field(store, leaf.field), loc);
    if val == "" && col == 0 then leaf.defaultValue else val
  }

  /** The first `k` locale cells of the row of `leaf`. */
  function ExportCells(leaf: Node, locs: seq<string>, k: nat, store: Store): (r: seq<string>)
    requires leaf.Leaf? && k <= |locs|
    ensures |r| == k
  {
    if k == 0 then [] else ExportCells(leaf, locs, k - 1, store) + [ExportCell(leaf, locs[k - 1], k - 1, store)]
  }

  function ExportRow(e: Entry, locs: seq<string>, store: Store): seq<string>
    requires e.leaf.Leaf?
  {
    [e.key] + ExportCells(e.leaf, locs, |locs|, store)
  }

  /** One row per index entry, in the order the entries were first written. */
  function DataRows(idx: seq<Entry>, locs: seq<string>, store: Store): (r: seq<seq<string>>)
    requires LeafIndex(idx)
    ensures |r| == |idx|
  {
    if idx == [] then []
    else
      var e := idx[|idx| - 1];
      assert e in idx;
      DataRows(idx[..|idx| - 1], locs, store) + [ExportRow(e, locs, store)]
  }

  /** The whole exported table: header first, then the data rows. */
  function ExportTable(idx: seq<Entry>, locs: seq<string>, store: Store): seq<seq<string>>
    requires LeafIndex(idx)
  {
    [HeaderRow(locs)] + DataRows(idx, locs, store)
  }

  lemma {:induction false} ExportCellsAt(leaf: Node, locs: seq<string>, k: nat, store: Store, j: nat)
    requires leaf.Leaf? && j < k <= |locs|
    ensures ExportCells(leaf, locs, k, store)[j] == ExportCell(leaf, locs[j], j, store)
  {
    if j < k - 1 {
      ExportCellsAt(leaf, locs, k - 1, store, j);
    }
  }

  lemma {:induction false} DataRowsAt(idx: seq<Entry>, locs: seq<string>, store: Store, i: nat)
    requires LeafIndex(idx) && i < |idx|
    ensures DataRows(idx, locs, store)[i] == ExportRow(idx[i], locs, store)
  {
    if i < |idx| - 1 {
      assert forall e :: e in idx[..|idx| - 1] ==> e in idx;
      DataRowsAt(idx[..|idx| - 1], locs, store, i);
    }
  }

  /** One more entry of the index exported: one more data row. */
  lemma DataRowsStep(idx: seq<Entry>, locs: seq<string>, store: Store, k: nat)
    requires LeafIndex(idx) && k < |idx|
    ensures LeafIndex(idx[..k]) && LeafIndex(idx[..k + 1])
    ensures DataRows(idx[..k + 1], locs, store) == DataRows(idx[..k], locs, store) + [ExportRow(idx[k], locs, store)]
  {
    assert forall x :: x in idx[..k + 1] ==> x in idx;
    assert idx[..k + 1][..k] == idx[..k];
  }

  /**
   * The exported table has a header naming every visible locale and exactly one row per key
   * of the index, in index order; each row starts with its key and holds one cell per visible
   * locale, the text of that locale, or the default value when the first column's text is empty.
   */
  lemma ExportRowShape(idx: seq<Entry>, locs: seq<string>, store: Store, i: nat)
    requires LeafIndex(idx) && i < |idx|
    ensures |DataRows(idx, locs, store)[i]| == |locs| + 1
    ensures DataRows(idx, locs, store)[i][0] == idx[i].key
    ensures forall j :: 0 <= j < |locs| ==> DataRows(idx, locs, store)[i][j + 1] == ExportCell(idx[i].leaf, locs[j], j, store)
  {
    DataRowsAt(idx, locs, store, i);
    forall j | 0 <= j < |locs|
      ensures DataRows(idx, locs, store)[i][j + 1] == ExportCell(idx[i].leaf, locs[j], j, store)
    {
      ExportCellsAt(idx[i].leaf, locs, |locs|, store, j);
    }
  }

  lemma DataRowsShape(idx: seq<Entry>, locs: seq<string>, store: Store)
    requires LeafIndex(idx)
    ensures |DataRows(idx, locs, store)| == |idx|
    ensures forall i :: 0 <= i < |idx| ==>
      |DataRows(idx, locs, store)[i]| == |locs| + 1 && DataRows(idx, locs, store)[i][0] == idx[i].key
    ensures forall i, j :: 0 <= i < |idx| && 0 <= j < |locs| ==>
      |DataRows(idx, locs, store)[i]| == |locs| + 1 &&
      DataRows(idx, locs, store)[i][j + 1] == ExportCell(idx[i].leaf, locs[j], j, store)
  {
    forall i | 0 <= i < |idx| {
      ExportRowShape(idx, locs, store, i);
    }
  }

  // ---------------------------------------------------------------------------------------
  // Import

  /** The locales of the columns after the key column: a first column named "default" is the default locale. */
  function HeaderLocales(header: seq<string>): (r: seq<string>)
    ensures |r| == if |header| > 0 then |header| - 1 else 0
  {
    var locs := if |header| > 0 then header[1..] else [];
    if |locs| > 0 && locs[0] == "default" then [""] + locs[1..] else locs
  }

  /** Each column keeps its header cell, except a first `default`, which becomes the empty locale. */
  lemma HeaderLocalesSpec(header: seq<string>)
    ensures forall j :: 0 < j < |HeaderLocales(header)| ==> HeaderLocales(header)[j] == header[j + 1]
    ensures |HeaderLocales(header)| > 0 ==> HeaderLocales(header)[0] == if header[1] == "default" then "" else header[1]
  {
  }

  /** Reading the header back gives each column a locale with the storage key the column was exported for. */
  lemma HeaderRoundTrip(locs: seq<string>)
    ensures |HeaderLocales(HeaderRow(locs))| == |locs|
    ensures forall j :: 0 <= j < |locs| ==> StorageKey(HeaderLocales(HeaderRow(locs))[j]) == StorageKey(locs[j])
  {
    HeaderCellsAt(locs);
    HeaderLocalesSpec(HeaderRow(locs));
  }

  /** The text the first `k` cells of a row leave in `s`: a blank cell is skipped, any other is written trimmed. */
  function ApplyCells(s: LocString, values: seq<string>, locales: seq<string>, k: nat): LocString
    requires k <= |values| && k <= |locales|
  {
    if k == 0 then s
    else
      var prev := ApplyCells(s, values, locales, k - 1);
      var val := Trim(values[k - 1]);
      if val == "" then prev else SetText(prev, locales[k - 1], val)
  }

  /** The trimmed value of the last non-blank cell among the first `k` whose locale is stored under `key`. */
  function LastCell(values: seq<string>, locales: seq<string>, k: nat, key: string): (r: Option<string>)
    requires k <= |values| && k <= |locales|
    ensures r.Some? ==> r.value != ""
  {
    if k == 0 then None
    else if StorageKey(locales[k - 1]) == key && Trim(values[k - 1]) != "" then Some(Trim(values[k - 1]))
    else LastCell(values, locales, k - 1, key)
  }

  /** There is a last cell for `key` exactly when some column stored under `key` is not blank. */
  lemma {:induction false} LastCellExists(values: seq<string>, locales: seq<string>, k: nat, key: string)
    requires k <= |values| && k <= |locales|
    ensures LastCell(values, locales, k, key).Some? <==>
      exists j :: 0 <= j < k && StorageKey(locales[j]) == key && !IsBlank(values[j])
  {
    if k > 0 {
      LastCellExists(values, locales, k - 1, key);
    }
  }

  /** A row's cells set each locale to its last non-blank cell and leave every other locale as it was. */
  lemma {:induction false} ApplyCellsSpec(s: LocString, values: seq<string>, locales: seq<string>, k: nat, loc: string)
    requires k <= |values| && k <= |locales|
    ensures GetText(ApplyCells(s, values, locales, k), loc) ==
      match LastCell(values, locales, k, StorageKey(loc))
      case Some(v) => v
      case None => GetText(s, loc)
  {
    if k > 0 {
      ApplyCellsSpec(s, values, locales, k - 1, loc);
      var prev := ApplyCells(s, values, locales, k - 1);
      var val := Trim(values[k - 1]);
      if val != "" && StorageKey(locales[k - 1]) != StorageKey(loc) {
        SetTextOther(prev, locales[k - 1], val, loc);
      }
    }
  }

  /** The store after the first `k` cells of a row are applied to field `id`, one write per non-blank cell. */
  function WriteCells(store: Store, id: FieldId, values: seq<string>, locales: seq<string>, k: nat): Store
    requires k <= |values| && k <= |locales|
  {
    if k == 0 then store
    else
      var prev := WriteCells(store, id, values, locales, k - 1);
      var val := Trim(values[k - 1]);
      if val == "" then prev else WriteText(prev, id, locales[k - 1], val)
  }

  /** Writing a row's cells changes field `id` as `ApplyCells` says and no other field. */
  lemma {:induction false} WriteCellsField(store: Store, id: FieldId, values: seq<string>, locales: seq<string>, k: nat)
    requires k <= |values| && k <= |locales|
    ensures Field(WriteCells(store, id, values, locales, k), id) == ApplyCells(Field(store, id), values, locales, k)
    ensures forall other :: other != id ==> Field(WriteCells(store, id, values, locales, k), other) == Field(store, other)
  {
    if k > 0 {
      WriteCellsField(store, id, values, locales, k - 1);
    }
  }

  /** Writing a row's cells keeps the store well formed. */
  lemma {:induction false} WriteCellsValid(store: Store, id: FieldId, values: seq<string>, locales: seq<string>, k: nat)
    requires k <= |values| && k <= |locales| && StoreValid(store)
    ensures StoreValid(WriteCells(store, id, values, locales, k))
  {
    if k > 0 {
      WriteCellsValid(store, id, values, locales, k - 1);
      var prev := WriteCells(store, id, values, locales, k - 1);
      if Trim(values[k - 1]) != "" {
        WriteTextValid(prev, id, locales[k - 1], Trim(values[k - 1]));
      }
    }
  }

  /** Writing a row's cells to field `id` leaves field `f` alone. */
  lemma WriteCellsOther(store: Store, id: FieldId, values: seq<string>, locales: seq<string>, k: nat, f: FieldId)
    requires k <= |values| && k <= |locales| && f != id
    ensures Field(WriteCells(store, id, values, locales, k), f) == Field(store, f)
  {
    WriteCellsField(store, id, values, locales, k);
  }

  /** One field after a row's cells are written to field `id`. */
  lemma WriteCellsAt(store: Store, id: FieldId, values: seq<string>, locales: seq<string>, k: nat, f: FieldId)
    requires k <= |values| && k <= |locales|
    ensures Field(WriteCells(store, id, values, locales, k), f) ==
      if f == id then ApplyCells(Field(store, id), values, locales, k) else Field(store, f)
  {
    WriteCellsField(store, id, values, locales, k);
  }

  function Min(a: nat, b: nat): nat
  {
    if a < b then a else b
  }

  /** The effect of one data row: its trimmed first cell names an index key, the rest are texts by column. */
  function ApplyRow(store: Store, idx: seq<Entry>, locales: seq<string>, row: seq<string>): Store
    requires LeafIndex(idx) && |row| > 0
  {
    var name := Trim(row[0]);
    if name == "" then store
    else
      LookupInIndex(idx, name);
      match Lookup(idx, name)
      case None => store
      case Some(leaf) =>
        var values := row[1..];
        WriteCells(store, leaf.field, values, locales, Min(|values|, |locales|))
  }

  /**
   * A row whose trimmed key is blank or not in the index changes nothing; otherwise its cells,
   * up to the shorter of the row and the header, go to the field of the leaf that key names.
   */
  lemma ApplyRowSpec(store: Store, idx: seq<Entry>, locales: seq<string>, row: seq<string>)
    requires LeafIndex(idx) && |row| > 0
    ensures Trim(row[0]) == "" || Lookup(idx, Trim(row[0])).None? ==> ApplyRow(store, idx, locales, row) == store
    ensures Trim(row[0]) != "" && Lookup(idx, Trim(row[0])).Some? ==>
      var leaf := Lookup(idx, Trim(row[0])).value;
      && Entry(Trim(row[0]), leaf) in idx
      && Field(ApplyRow(store, idx, locales, row), leaf.field) ==
         ApplyCells(Field(store, leaf.field), row[1..], locales, Min(|row| - 1, |locales|))
      && forall other :: other != leaf.field ==> Field(ApplyRow(store, idx, locales, row), other) == Field(store, other)
  {
    var name := Trim(row[0]);
    if name != "" {
      LookupInIndex(idx, name);
      if Lookup(idx, name).Some? {
        var values := row[1..];
        WriteCellsField(store, Lookup(idx, name).value.field, values, locales, Min(|values|, |locales|));
      }
    }
  }

  ghost predicate NonEmptyRows(rows: seq<seq<string>>)
  {
    forall i :: 0 <= i < |rows| ==> |rows[i]| > 0
  }

  /** The data rows applied in order. */
  function ImportRows(store: Store, idx: seq<Entry>, locales: seq<string>, rows: seq<seq<string>>): Store
    requires LeafIndex(idx) && NonEmptyRows(rows)
    decreases |rows|, 1
  {
    if rows == [] then store else ImportLastRow(store, idx, locales, rows)
  }

  /** The last of `rows` applied after the others. */
  function ImportLastRow(store: Store, idx: seq<Entry>, locales: seq<string>, rows: seq<seq<string>>): Store
    requires LeafIndex(idx) && NonEmptyRows(rows) && rows != []
    decreases |rows|, 0
  {
    ApplyRow(ImportRows(store, idx, locales, rows[..|rows| - 1]), idx, locales, rows[|rows| - 1])
  }

  /** Import touches only the texts of indexed leaves. */
  lemma {:induction false} ImportFrame(store: Store, idx: seq<Entry>, locales: seq<string>, rows: seq<seq<string>>)
    requires LeafIndex(idx) && NonEmptyRows(rows)
    ensures forall id :: (forall e :: e in idx ==> e.leaf.field != id) ==>
      Field(ImportRows(store, idx, locales, rows), id) == Field(store, id)
  {
    if rows != [] {
      var prev := rows[..|rows| - 1];
      assert ImportRows(store, idx, locales, rows) == ImportLastRow(store, idx, locales, rows);
      ImportFrame(store, idx, locales, prev);
      ApplyRowSpec(ImportRows(store, idx, locales, prev), idx, locales, rows[|rows| - 1]);
    }
  }

  /** Import keeps every text well formed. */
  lemma {:induction false} ImportValid(store: Store, idx: seq<Entry>, locales: seq<string>, rows: seq<seq<string>>)
    requires LeafIndex(idx) && NonEmptyRows(rows) && StoreValid(store)
    ensures StoreValid(ImportRows(store, idx, locales, rows))
  {
    if rows != [] {
      var prev := rows[..|rows| - 1];
      assert ImportRows(store, idx, locales, rows) == ImportLastRow(store, idx, locales, rows);
      ImportValid(store, idx, locales, prev);
      var row := rows[|rows| - 1];
      var name := Trim(row[0]);
      if name != "" {
        LookupInIndex(idx, name);
        if Lookup(idx, name).Some? {
          var values := row[1..];
          WriteCellsValid(ImportRows(store, idx, locales, prev), Lookup(idx, name).value.field, values, locales, Min(|values|, |locales|));
        }
      }
    }
  }


  // ---------------------------------------------------------------------------------------
  // Export followed by import

  /** When only column `j` is stored under `key`, the last cell for `key` is column `j`'s, if not blank. */
  lemma {:induction false} LastCellOnly(values: seq<string>, locales: seq<string>, k: nat, key: string, j: nat)
    requires k <= |values| && k <= |locales| && j < k
    requires StorageKey(locales[j]) == key
    requires forall m :: 0 <= m < k && m != j ==> StorageKey(locales[m]) != key
    ensures LastCell(values, locales, k, key) == if Trim(values[j]) != "" then Some(Trim(values[j])) else None
  {
    if k - 1 != j {
      LastCellOnly(values, locales, k - 1, key, j);
    } else {
      LastCellNone(values, locales, k - 1, key);
    }
  }

  lemma {:induction false} LastCellNone(values: seq<string>, locales: seq<string>, k: nat, key: string)
    requires k <= |values| && k <= |locales|
    requires forall m :: 0 <= m < k ==> StorageKey(locales[m]) != key
    ensures LastCell(values, locales, k, key) == None
  {
    if k > 0 {
      LastCellNone(values, locales, k - 1, key);
    }
  }

  ghost predicate DistinctStorageKeys(locs: seq<string>)
  {
    forall a, b :: 0 <= a < b < |locs| ==> StorageKey(locs[a]) != StorageKey(locs[b])
  }

  /** No column of the table is stored under the storage key of `loc`. */
  ghost predicate NoColumn(loc: string, locs: seq<string>)
  {
    forall m :: 0 <= m < |locs| ==> StorageKey(loc) != StorageKey(locs[m])
  }

  ghost predicate DistinctFields(idx: seq<Entry>)
    requires LeafIndex(idx)
  {
    forall a, b :: 0 <= a < b < |idx| ==> idx[a].leaf.field != idx[b].leaf.field
  }

  /** Every key comes back unchanged from trimming and names something. */
  ghost predicate ReadableKeys(idx: seq<Entry>)
  {
    forall e :: e in idx ==> e.key != "" && Trim(e.key) == e.key
  }

  /** The column locales an exported header is read back as. */
  function ReadLocales(locs: seq<string>): (r: seq<string>)
    ensures |r| == |locs|
  {
    HeaderLocales(HeaderRow(locs))
  }

  /** The text `s` of `leaf` once its exported cells are read back into it. */
  function Reimported(s: LocString, leaf: Node, locs: seq<string>, store: Store): LocString
    requires leaf.Leaf?
  {
    ApplyCells(s, ExportCells(leaf, locs, |locs|, store), ReadLocales(locs), |locs|)
  }

  lemma {:induction false} DataRowsNonEmpty(idx: seq<Entry>, locs: seq<string>, store: Store)
    requires LeafIndex(idx)
    ensures NonEmptyRows(DataRows(idx, locs, store))
  {
    if idx != [] {
      assert forall e :: e in idx[..|idx| - 1] ==> e in idx;
      DataRowsNonEmpty(idx[..|idx| - 1], locs, store);
    }
  }

  /**
   * Reading back, through an index `into` that finds every entry of `idx`, the exported row of
   * an entry of `idx` writes that entry's cells to that entry's field.
   */
  lemma ReimportRow(s: Store, into: seq<Entry>, idx: seq<Entry>, locs: seq<string>, locales: seq<string>, store: Store, i: nat)
    requires LeafIndex(into) && LeafIndex(idx) && FindsAll(into, idx) && ReadableKeys(idx)
    requires i < |idx| && |locales| == |locs|
    ensures idx[i].leaf.Leaf?
    ensures ApplyRow(s, into, locales, ExportRow(idx[i], locs, store)) ==
      WriteCells(s, idx[i].leaf.field, ExportCells(idx[i].leaf, locs, |locs|, store), locales, |locs|)
  {
    var row := ExportRow(idx[i], locs, store);
    assert idx[i] in idx;
    assert row[1..] == ExportCells(idx[i].leaf, locs, |locs|, store);
  }

  /**
   * The store after the exported rows of the first `k` entries of the index are read back with
   * column locales `locales`: each entry's cells written, in order, to its own field.
   */
  function Reimport(store: Store, idx: seq<Entry>, locs: seq<string>, locales: seq<string>, k: nat): Store
    requires k <= |idx| && |locales| == |locs|
    decreases k, 1
  {
    if k == 0 then store else ReimportEntry(store, idx, locs, locales, k)
  }

  /**
   * The store once the row of the `k`-th entry is read back after those before it (an entry
   * that holds no leaf, which an index of leaves never has, is passed over).
   */
  function ReimportEntry(store: Store, idx: seq<Entry>, locs: seq<string>, locales: seq<string>, k: nat): Store
    requires 0 < k <= |idx| && |locales| == |locs|
    decreases k, 0
  {
    var e := idx[k - 1];
    var prev := Reimport(store, idx, locs, locales, k - 1);
    if e.leaf.Leaf? then WriteCells(prev, e.leaf.field, ExportCells(e.leaf, locs, |locs|, store), locales, |locs|) else prev
  }

  /** One step of `Reimport` leaves every field but its entry's alone. */
  lemma ReimportStepOther(store: Store, idx: seq<Entry>, locs: seq<string>, locales: seq<string>, k: nat, f: FieldId)
    requires 0 < k <= |idx| && |locales| == |locs|
    requires idx[k - 1].leaf.Leaf? ==> f != idx[k - 1].leaf.field
    ensures Field(Reimport(store, idx, locs, locales, k), f) == Field(Reimport(store, idx, locs, locales, k - 1), f)
  {
    var e := idx[k - 1];
    assert Reimport(store, idx, locs, locales, k) == ReimportEntry(store, idx, locs, locales, k);
    if e.leaf.Leaf? {
      WriteCellsOther(Reimport(store, idx, locs, locales, k - 1), e.leaf.field, ExportCells(e.leaf, locs, |locs|, store), locales, |locs|, f);
    }
  }

  /** One step of `Reimport` applies its entry's cells to its entry's field. */
  lemma ReimportStepSame(store: Store, idx: seq<Entry>, locs: seq<string>, locales: seq<string>, k: nat)
    requires 0 < k <= |idx| && |locales| == |locs| && idx[k - 1].leaf.Leaf?
    ensures Field(Reimport(store, idx, locs, locales, k), idx[k - 1].leaf.field) ==
      ApplyCells(Field(Reimport(store, idx, locs, locales, k - 1), idx[k - 1].leaf.field), ExportCells(idx[k - 1].leaf, locs, |locs|, store), locales, |locs|)
  {
    var e := idx[k - 1];
    assert Reimport(store, idx, locs, locales, k) == ReimportEntry(store, idx, locs, locales, k);
    WriteCellsField(Reimport(store, idx, locs, locales, k - 1), e.leaf.field, ExportCells(e.leaf, locs, |locs|, store), locales, |locs|);
  }

  /** A field that no entry from the `j`-th up to the `k`-th writes keeps its text over those steps. */
  lemma {:induction false} ReimportUnchanged(store: Store, idx: seq<Entry>, locs: seq<string>, locales: seq<string>, j: nat, k: nat, f: FieldId)
    requires j <= k <= |idx| && |locales| == |locs|
    requires forall m :: j <= m < k && idx[m].leaf.Leaf? ==> idx[m].leaf.field != f
    ensures Field(Reimport(store, idx, locs, locales, k), f) == Field(Reimport(store, idx, locs, locales, j), f)
  {
    if j < k {
      ReimportUnchanged(store, idx, locs, locales, j, k - 1, f);
      ReimportStepOther(store, idx, locs, locales, k, f);
    }
  }

  /** After the rows of the first `k` entries are read back, each entry's field holds its own row applied to its original text. */
  lemma ReimportField(store: Store, idx: seq<Entry>, locs: seq<string>, locales: seq<string>, k: nat, i: nat)
    requires LeafIndex(idx) && DistinctFields(idx) && i < k <= |idx| && |locales| == |locs|
    ensures idx[i].leaf.Leaf?
    ensures Field(Reimport(store, idx, locs, locales, k), idx[i].leaf.field) ==
      ApplyCells(Field(store, idx[i].leaf.field), ExportCells(idx[i].leaf, locs, |locs|, store), locales, |locs|)
  {
    assert idx[i] in idx;
    var f := idx[i].leaf.field;
    ReimportUnchanged(store, idx, locs, locales, 0, i, f);
    ReimportStepSame(store, idx, locs, locales, i + 1);
    ReimportUnchanged(store, idx, locs, locales, i + 1, k, f);
  }

  lemma ImportRowsSnoc(store: Store, idx: seq<Entry>, locales: seq<string>, rows: seq<seq<string>>, row: seq<string>)
    requires LeafIndex(idx) && NonEmptyRows(rows) && |row| > 0
    ensures NonEmptyRows(rows + [row])
    ensures ImportRows(store, idx, locales, rows + [row]) == ApplyRow(ImportRows(store, idx, locales, rows), idx, locales, row)
  {
    assert (rows + [row])[..|rows|] == rows;
    assert ImportRows(store, idx, locales, rows + [row]) == ImportLastRow(store, idx, locales, rows + [row]);
  }

  /** Reading back, through `into`, the exported row of entry `k - 1` after those before it extends `Reimport` by that entry. */
  lemma ReimportPrefixStep(into: seq<Entry>, idx: seq<Entry>, locs: seq<string>, locales: seq<string>, store: Store, k: nat)
    requires LeafIndex(into) && LeafIndex(idx) && FindsAll(into, idx) && ReadableKeys(idx)
    requires 0 < k <= |idx| && |locales| == |locs|
    requires LeafIndex(idx[..k - 1]) && NonEmptyRows(DataRows(idx[..k - 1], locs, store))
    requires ImportRows(store, into, locales, DataRows(idx[..k - 1], locs, store)) == Reimport(store, idx, locs, locales, k - 1)
    ensures LeafIndex(idx[..k]) && NonEmptyRows(DataRows(idx[..k], locs, store))
    ensures ImportRows(store, into, locales, DataRows(idx[..k], locs, store)) == Reimport(store, idx, locs, locales, k)
  {
    DataRowsStep(idx, locs, store, k - 1);
    DataRowsNonEmpty(idx[..k], locs, store);
    var prev := DataRows(idx[..k - 1], locs, store);
    var row := ExportRow(idx[k - 1], locs, store);
    ImportRowsSnoc(store, into, locales, prev, row);
    var before := Reimport(store, idx, locs, locales, k - 1);
    ReimportRow(before, into, idx, locs, locales, store, k - 1);
    assert Reimport(store, idx, locs, locales, k) == ReimportEntry(store, idx, locs, locales, k);
    assert DataRows(idx[..k], locs, store) == prev + [row];
  }

  /** Reading back, through `into`, the exported rows of the first `k` entries of `idx` gives `Reimport`. */
  lemma {:induction false} ReimportPrefix(into: seq<Entry>, idx: seq<Entry>, locs: seq<string>, locales: seq<string>, store: Store, k: nat)
    requires LeafIndex(into) && LeafIndex(idx) && ReadableKeys(idx) && FindsAll(into, idx)
    requires k <= |idx| && |locales| == |locs|
    ensures LeafIndex(idx[..k]) && NonEmptyRows(DataRows(idx[..k], locs, store))
    ensures ImportRows(store, into, locales, DataRows(idx[..k], locs, store)) == Reimport(store, idx, locs, locales, k)
  {
    if k > 0 {
      ReimportPrefix(into, idx, locs, locales, store, k - 1);
      ReimportPrefixStep(into, idx, locs, locales, store, k);
    } else {
      ReimportPrefixEmpty(into, idx, locs, locales, store);
    }
  }

  lemma ReimportPrefixEmpty(into: seq<Entry>, idx: seq<Entry>, locs: seq<string>, locales: seq<string>, store: Store)
    requires LeafIndex(into) && LeafIndex(idx) && |locales| == |locs|
    ensures LeafIndex(idx[..0]) && NonEmptyRows(DataRows(idx[..0], locs, store))
    ensures ImportRows(store, into, locales, DataRows(idx[..0], locs, store)) == Reimport(store, idx, locs, locales, 0)
  {
    assert idx[..0] == [];
  }

  /**
   * The store after the table exported from `idx` is imported back through the index `into`:
   * its header read back as column locales, its data rows applied in order.
   */
  function RoundTrip(into: seq<Entry>, idx: seq<Entry>, locs: seq<string>, store: Store): (r: Store)
    requires LeafIndex(into) && LeafIndex(idx)
    ensures NonEmptyRows(DataRows(idx, locs, store))
    ensures r == ImportRows(store, into, ReadLocales(locs), DataRows(idx, locs, store))
  {
    DataRowsNonEmpty(idx, locs, store);
    var rows := ExportTable(idx, locs, store);
    assert rows[0] == HeaderRow(locs) && rows[1..] == DataRows(idx, locs, store);
    ImportRows(store, into, HeaderLocales(rows[0]), rows[1..])
  }

  /** The text of one exported locale of a leaf after its row is read back is its exported cell. */
  lemma ReimportCells(leaf: Node, locs: seq<string>, store: Store, j: nat)
    requires leaf.Leaf? && j < |locs| && DistinctStorageKeys(locs)
    requires forall m :: 0 <= m < |locs| ==> Trim(ExportCell(leaf, locs[m], m, store)) == ExportCell(leaf, locs[m], m, store)
    ensures GetText(Reimported(Field(store, leaf.field), leaf, locs, store), locs[j]) == ExportCell(leaf, locs[j], j, store)
  {
    var cells := ExportCells(leaf, locs, |locs|, store);
    var hl := ReadLocales(locs);
    HeaderRoundTrip(locs);
    var key := StorageKey(locs[j]);
    forall m | 0 <= m < |locs| && m != j ensures StorageKey(hl[m]) != key {
      if m < j {
        assert StorageKey(locs[m]) != StorageKey(locs[j]);
      } else {
        assert StorageKey(locs[j]) != StorageKey(locs[m]);
      }
    }
    LastCellOnly(cells, hl, |locs|, key, j);
    ApplyCellsSpec(Field(store, leaf.field), cells, hl, |locs|, locs[j]);
    ExportCellsAt(leaf, locs, |locs|, store, j);
  }

  /** Locales with no column keep their text when a row is read back. */
  lemma ReimportOtherLocale(leaf: Node, locs: seq<string>, store: Store, loc: string)
    requires leaf.Leaf?
    requires NoColumn(loc, locs)
    ensures GetText(Reimported(Field(store, leaf.field), leaf, locs, store), loc) == GetText(Field(store, leaf.field), loc)
  {
    var hl := ReadLocales(locs);
    HeaderRoundTrip(locs);
    LastCellNone(ExportCells(leaf, locs, |locs|, store), hl, |locs|, StorageKey(loc));
    ApplyCellsSpec(Field(store, leaf.field), ExportCells(leaf, locs, |locs|, store), hl, |locs|, loc);
  }

  /**
   * Export followed by import is a fixpoint for the texts, up to the default values the export
   * puts in the first column: reading back the table `exportToCSV` produces from index `idx`
   * (with readable keys and distinct fields, and texts without surrounding whitespace) through
   * an import index `into` that finds every entry of `idx` leaves every exported locale of every
   * exported leaf holding exactly its exported cell, and every other locale and every other
   * field as it was.
   */
  lemma ExportImportRoundTrip(into: seq<Entry>, idx: seq<Entry>, locs: seq<string>, store: Store)
    requires LeafIndex(into) && LeafIndex(idx) && FindsAll(into, idx) && ReadableKeys(idx) && DistinctFields(idx)
    requires DistinctStorageKeys(locs)
    requires forall i, m :: 0 <= i < |idx| && 0 <= m < |locs| ==>
      Trim(ExportCell(idx[i].leaf, locs[m], m, store)) == ExportCell(idx[i].leaf, locs[m], m, store)
    ensures forall i, j :: 0 <= i < |idx| && 0 <= j < |locs| ==>
      GetText(Field(RoundTrip(into, idx, locs, store), idx[i].leaf.field), locs[j]) == ExportCell(idx[i].leaf, locs[j], j, store)
    ensures forall i, loc :: 0 <= i < |idx| && NoColumn(loc, locs) ==>
      GetText(Field(RoundTrip(into, idx, locs, store), idx[i].leaf.field), loc) == GetText(Field(store, idx[i].leaf.field), loc)
    ensures forall id :: (forall i :: 0 <= i < |idx| ==> idx[i].leaf.field != id) ==>
      Field(RoundTrip(into, idx, locs, store), id) == Field(store, id)
  {
    var locales := ReadLocales(locs);
    ReimportPrefix(into, idx, locs, locales, store, |idx|);
    assert idx[..|idx|] == idx;
    assert RoundTrip(into, idx, locs, store) == Reimport(store, idx, locs, locales, |idx|);
    forall i, j | 0 <= i < |idx| && 0 <= j < |locs|
      ensures GetText(Field(RoundTrip(into, idx, locs, store), idx[i].leaf.field), locs[j]) == ExportCell(idx[i].leaf, locs[j], j, store)
    {
      ReimportField(store, idx, locs, locales, |idx|, i);
      ReimportCells(idx[i].leaf, locs, store, j);
    }
    forall i, loc | 0 <= i < |idx| && NoColumn(loc, locs)
      ensures GetText(Field(RoundTrip(into, idx, locs, store), idx[i].leaf.field), loc) == GetText(Field(store, idx[i].leaf.field), loc)
    {
      ReimportField(store, idx, locs, locales, |idx|, i);
      ReimportOtherLocale(idx[i].leaf, locs, store, loc);
    }
    forall id | forall i :: 0 <= i < |idx| ==> idx[i].leaf.field != id
      ensures Field(RoundTrip(into, idx, locs, store), id) == Field(store, id)
    {
      ReimportUnchanged(store, idx, locs, locales, 0, |idx|, id);
    }
  }
}
