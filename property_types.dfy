/** The column schema of a database block: the twelve property types, the
    type-specific options record, the property definition and the values a
    row may hold for a property. */
module PropertyTypes {
  import opened Common
  import opened Json

  /** The closed set of column types. */
  datatype PropertyType =
    | Text | Number | Select | MultiSelect | Date | Checkbox
    | Url | Email | Person | Files | Formula | Relation

  /** Every type, in declaration order. */
  const AllTypes: seq<PropertyType> :=
    [Text, Number, Select, MultiSelect, Date, Checkbox, Url, Email, Person, Files, Formula, Relation]

  /** The string each type is stored as inside the `properties` JSON. */
  function TypeName(t: PropertyType): string {
    match t
    case Text => "text"
    case Number => "number"
    case Select => "select"
    case MultiSelect => "multi_select"
    case Date => "date"
    case Checkbox => "checkbox"
    case Url => "url"
    case Email => "email"
    case Person => "person"
    case Files => "files"
    case Formula => "formula"
    case Relation => "relation"
  }

  /** Reading a stored type string back: the enum membership test that
      input validation applies to `type` fields. */
  function TypeFromName(s: string): (r: Option<PropertyType>)
    ensures r.Some? ==> TypeName(r.value) == s
  {
    if s == "text" then Some(Text)
    else if s == "number" then Some(Number)
    else if s == "select" then Some(Select)
    else if s == "multi_select" then Some(MultiSelect)
    else if s == "date" then Some(Date)
    else if s == "checkbox" then Some(Checkbox)
    else if s == "url" then Some(Url)
    else if s == "email" then Some(Email)
    else if s == "person" then Some(Person)
    else if s == "files" then Some(Files)
    else if s == "formula" then Some(Formula)
    else if s == "relation" then Some(Relation)
    else None
  }

  /** Decoding a type's stored string gives the type back, so (with the
      ensures of TypeFromName) names and types are in one-to-one correspondence. */
  lemma TypeNameRoundTrip(t: PropertyType)
    ensures TypeFromName(TypeName(t)) == Some(t)
  {
  }

  /** The stored strings are pairwise distinct, and AllTypes lists exactly the
      twelve types, each once. */
  lemma TypeNamesDistinct()
    ensures |AllTypes| == 12
    ensures forall t: PropertyType :: t in AllTypes
    ensures forall i, j :: 0 <= i < j < |AllTypes| ==> TypeName(AllTypes[i]) != TypeName(AllTypes[j])
  {
    forall t: PropertyType ensures t in AllTypes {
      match t
      case Text => assert AllTypes[0] == t;
      case Number => assert AllTypes[1] == t;
      case Select => assert AllTypes[2] == t;
      case MultiSelect => assert AllTypes[3] == t;
      case Date => assert AllTypes[4] == t;
      case Checkbox => assert AllTypes[5] == t;
      case Url => assert AllTypes[6] == t;
      case Email => assert AllTypes[7] == t;
      case Person => assert AllTypes[8] == t;
      case Files => assert AllTypes[9] == t;
      case Formula => assert AllTypes[10] == t;
      case Relation => assert AllTypes[11] == t;
    }
    forall i, j | 0 <= i < j < |AllTypes|
      ensures TypeName(AllTypes[i]) != TypeName(AllTypes[j])
    {
      TypeNameRoundTrip(AllTypes[i]);
      TypeNameRoundTrip(AllTypes[j]);
    }
  }

  datatype SelectOption = SelectOption(id: string, name: string, color: string)

  datatype NumberFormat = FormatNumber | FormatPercent | FormatCurrency

  /** Type-specific options in one record; every field is optional. */
  datatype PropertyOptions = PropertyOptions(
    options: Option<seq<SelectOption>>,   // select and multi-select
    format: Option<NumberFormat>,         // number
    includeTime: Option<bool>,            // date
    dateFormat: Option<string>,           // date
    formula: Option<string>,              // formula
    relatedDatabaseId: Option<string>)    // relation

  /** One column: a stable id, a display name, a type, and optional width and options. */
  datatype PropertyDefinition = PropertyDefinition(
    id: Id,
    name: string,
    propertyType: PropertyType,
    width: Option<real>,
    options: Option<PropertyOptions>)

  /** The values the schema declares for a row property: a string, a number,
      a boolean, a list of strings, or null. Stored values are untyped JSON,
      so this is a check, not a constraint the store enforces. */
  predicate IsPropertyValue(v: Json) {
    match v
    case JNull => true
    case JBool(_) => true
    case JNumber(_) => true
    case JString(_) => true
    case JArray(items) => forall i :: 0 <= i < |items| ==> items[i].JString?
    case JObject(_) => false
  }

  /** The property map of a row, keyed by property id. */
  type RowProperties = map<string, Json>

  predicate WellTypedProperties(m: RowProperties) {
    forall k :: k in m ==> IsPropertyValue(m[k])
  }

  /** The default colours offered for select options. */
  const SELECT_COLORS: seq<string> :=
    ["gray", "brown", "orange", "yellow", "green", "blue", "purple", "pink", "red"]

  lemma SelectColorsFixed()
    ensures |SELECT_COLORS| == 9
    ensures forall i, j :: 0 <= i < j < |SELECT_COLORS| ==> SELECT_COLORS[i] != SELECT_COLORS[j]
  {
  }
}
