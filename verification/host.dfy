/**
 * The host object graph the translation layer reflects over (a survey, its pages, questions
 * and choice lists), reduced to what the reflector reports about each object.
 */
module Host {
  import opened Common
  import opened LocStrings

  /**
   * One property the reflector reports for an object. `locStr` is the localizable-string
   * field behind it (absent when the object holds none); `hasTextCallback` says whether that
   * field has a computed or rendered-text override; `value` is the plain property value.
   */
  datatype Property = Property(
    name: string,
    isSerializable: bool,
    isLocalizable: bool,
    readOnly: bool,
    visible: bool,
    locStr: Option<FieldId>,
    hasTextCallback: bool,
    value: Value)

  /** A property value, as far as arrays matter: a choice list, a list of objects or anything else. */
  datatype Value =
    | Scalar
    | Choices(items: seq<ChoiceItem>)
    | Objects(elems: seq<Option<Host>>)  // None: a null element or one without a type

  /**
   * An element of a choice list: its value, whether that value reads as a number
   * (`!isNaN(value)`), its primary text field and the properties it reports itself.
   */
  datatype ChoiceItem = ChoiceItem(value: string, numeric: bool, locText: FieldId, props: seq<Property>)

  /** A typed host object; an empty `name` means the object has none. */
  datatype Host = Host(name: string, typ: string, props: seq<Property>)

  /** The type name of the choice-list element class. */
  const ChoiceType: string := "itemvalue"

  /** The type name of a page, whose title never gets a default value. */
  const PageType: string := "page"
}
