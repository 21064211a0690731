/**
 * The localizable-string fields the translation layer reads and writes. They belong to the
 * host survey and outlive every translation tree; trees refer to them by `FieldId`, so that
 * two trees over the same survey see each other's writes.
 */
module LocStrings {

  type FieldId = nat

  /** The storage key that stands for the default (empty-string) locale. */
  const DefaultKey: string := "default"

  /** Where the text for `loc` is kept: the empty locale is stored under `DefaultKey`. */
  function StorageKey(loc: string): (k: string)
    ensures k != ""
    ensures loc != "" ==> k == loc
    ensures loc == "" ==> k == DefaultKey
  {
    if loc == "" then DefaultKey else loc
  }

  /** A multi-locale text: its non-empty texts by storage key, and the keys in insertion order. */
  datatype LocString = LocString(keys: seq<string>, texts: map<string, string>)

  const EmptyText: LocString := LocString([], map[])

  ghost predicate NoDuplicates(s: seq<string>)
  {
    forall i, j :: 0 <= i < j < |s| ==> s[i] != s[j]
  }

  ghost predicate Valid(s: LocString)
  {
    && NoDuplicates(s.keys)
    && (forall k :: k in s.texts <==> k in s.keys)
    && (forall k :: k in s.texts ==> s.texts[k] != "")
  }

  /** `getLocaleText(loc)`: the text held for `loc`, or "" when there is none. */
  function GetText(s: LocString, loc: string): string
  {
    var k := StorageKey(loc);
    if k in s.texts then s.texts[k] else ""
  }

  /** `isEmpty`: no locale holds a text. */
  predicate IsEmpty(s: LocString)
  {
    s.keys == []
  }

  lemma EmptyMeansNoText(s: LocString, loc: string)
    requires Valid(s)
    ensures IsEmpty(s) ==> GetText(s, loc) == ""
    ensures !IsEmpty(s) ==> exists k :: k in s.texts && s.texts[k] != ""
  {
    if !IsEmpty(s) {
      assert s.keys[0] in s.texts;
    }
  }

  /** `keys` with every occurrence of `k` removed, order kept. */
  function Without(keys: seq<string>, k: string): (r: seq<string>)
    ensures forall x :: x in r <==> x in keys && x != k
    ensures NoDuplicates(keys) ==> NoDuplicates(r)
  {
    if keys == [] then []
    else if keys[0] == k then Without(keys[1..], k)
    else
      var rest := Without(keys[1..], k);
      assert NoDuplicates(keys) ==> keys[0] !in keys[1..];
      [keys[0]] + rest
  }

  /** `setLocaleText(loc, v)`: a blank value removes the locale, any other value replaces it. */
  function SetText(s: LocString, loc: string, v: string): (r: LocString)
    ensures GetText(r, loc) == v
    ensures v != "" ==> !IsEmpty(r)
  {
    var k := StorageKey(loc);
    if v == "" then
      LocString(Without(s.keys, k), s.texts - {k})
    else if k in s.keys then
      LocString(s.keys, s.texts[k := v])
    else
      LocString(s.keys + [k], s.texts[k := v])
  }

  /** Setting a text leaves every locale with another storage key as it was. */
  lemma SetTextOther(s: LocString, loc: string, v: string, l: string)
    requires StorageKey(l) != StorageKey(loc)
    ensures GetText(SetText(s, loc, v), l) == GetText(s, l)
  {
  }

  /** Setting a text keeps the key list free of duplicates and in step with the texts. */
  lemma SetTextValid(s: LocString, loc: string, v: string)
    requires Valid(s)
    ensures Valid(SetText(s, loc, v))
  {
  }

  /**
   * The locale keys `getKeys` reports: the key list when the string can enumerate its locales,
   * otherwise the keys of its JSON form, which is null when empty and a plain string when only
   * the default locale is set; both of those report no keys.
   */
  function GetKeys(s: LocString, canEnumerate: bool): (r: seq<string>)
    ensures canEnumerate ==> r == s.keys
    ensures r == [] || r == s.keys
    ensures !canEnumerate && (s.keys == [] || s.keys == [DefaultKey]) ==> r == []
  {
    if canEnumerate then s.keys
    else if s.keys == [] || s.keys == [DefaultKey] then []
    else s.keys
  }

  /** The texts of every field of the survey, by id. */
  type Store = map<FieldId, LocString>

  function Field(store: Store, id: FieldId): LocString
  {
    if id in store then store[id] else EmptyText
  }

  ghost predicate StoreValid(store: Store)
  {
    forall id :: id in store ==> Valid(store[id])
  }

  /** The store after `setLocaleText(loc, v)` on field `id`. */
  function WriteText(store: Store, id: FieldId, loc: string, v: string): (r: Store)
    ensures GetText(Field(r, id), loc) == v
  {
    store[id := SetText(Field(store, id), loc, v)]
  }

  /** A write to field `id` sets that field as `SetText` does and leaves every other field alone. */
  lemma WriteTextField(store: Store, id: FieldId, loc: string, v: string, f: FieldId)
    ensures Field(WriteText(store, id, loc, v), f) == if f == id then SetText(Field(store, id), loc, v) else Field(store, f)
  {
  }

  /** A write to one locale of a field leaves the field's other locales alone. */
  lemma WriteTextOther(store: Store, id: FieldId, loc: string, v: string, l: string)
    requires StorageKey(l) != StorageKey(loc)
    ensures GetText(Field(WriteText(store, id, loc, v), id), l) == GetText(Field(store, id), l)
  {
    SetTextOther(Field(store, id), loc, v, l);
  }

  lemma WriteTextValid(store: Store, id: FieldId, loc: string, v: string)
    requires StoreValid(store)
    ensures StoreValid(WriteText(store, id, loc, v))
  {
    if id in store {
      SetTextValid(store[id], loc, v);
    } else {
      SetTextValid(EmptyText, loc, v);
    }
  }
}
