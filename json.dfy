/** JSON values as the store keeps them in its `jsonb` columns (row properties,
    row content, view configuration), with the JavaScript truthiness the
    services test them by. */
module Json {
  import opened Common

  datatype Json =
    | JNull
    | JBool(b: bool)
    | JNumber(n: real)
    | JString(s: string)
    | JArray(items: seq<Json>)
    | JObject(fields: map<string, Json>)

  /** JavaScript truthiness of a value read out of an object: a missing key
      (`undefined`), `null`, `false`, `0` and `""` are falsy; every array and
      every object is truthy. */
  predicate Truthy(v: Option<Json>) {
    match v
    case None => false
    case Some(JNull) => false
    case Some(JBool(b)) => b
    case Some(JNumber(n)) => n != 0.0
    case Some(JString(s)) => s != ""
    case Some(JArray(_)) => true
    case Some(JObject(_)) => true
  }

  /** Reading a key of an object; a missing key (`undefined`) is None. */
  function Lookup(m: map<string, Json>, key: string): Option<Json>
  {
    if key in m then Some(m[key]) else None
  }

  /** The object that a stored `properties` value stands for: the object itself,
      or the empty object when the stored value is null, an array or a scalar. */
  function ObjectOrEmpty(j: Json): map<string, Json>
  {
    if j.JObject? then j.fields else map[]
  }
}
