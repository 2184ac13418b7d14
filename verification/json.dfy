/** The values `JSON.parse` can produce, and the few JavaScript operations the
    chat components apply to them without checking their shape: truthiness,
    member access and reading `.length`. */
module Json {
  import opened Wrappers

  datatype Json =
    | JNull
    | JBool(b: bool)
    | JNumber(n: real)
    | JString(s: string)
    | JArray(items: seq<Json>)
    | JObject(members: map<string, Json>)

  /** JavaScript truthiness of a parsed value (`None` is `null`/`undefined`). */
  predicate Truthy(v: Option<Json>) {
    match v
    case None => false
    case Some(JNull) => false
    case Some(JBool(b)) => b
    case Some(JNumber(n)) => n != 0.0
    case Some(JString(s)) => s != []
    case Some(_) => true
  }

  /** `v.key`: only objects carry the member names the chat code reads. */
  function Member(v: Json, key: string): Option<Json> {
    if v.JObject? && key in v.members then Some(v.members[key]) else None
  }

  /** `x.length > 0`: `None` when reading `.length` throws (on `undefined` or
      `null`); strings and arrays compare their length; other values have no
      `length`, and `undefined > 0` is false. */
  function LengthPositive(x: Option<Json>): (r: Option<bool>)
    ensures r.None? <==> (x.None? || x.value.JNull?)
    ensures r == Some(true) <==> x.Some? && ((x.value.JString? && x.value.s != []) || (x.value.JArray? && x.value.items != []))
  {
    match x
    case None => None
    case Some(JNull) => None
    case Some(JString(s)) => Some(|s| > 0)
    case Some(JArray(items)) => Some(|items| > 0)
    case Some(_) => Some(false)
  }
}
