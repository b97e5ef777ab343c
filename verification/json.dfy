/** JSON values, as produced by `JSON.parse` in the frontend routes. */
module Json {

  datatype Json =
    | JNull
    | JBool(b: bool)
    | JNumber(n: real)
    | JString(s: string)
    | JArray(items: seq<Json>)
    | JObject(fields: map<string, Json>)

  /** JavaScript truthiness of a parsed value: `null`, `false`, `0` and `""` are falsy. */
  predicate Truthy(v: Json) {
    match v
    case JNull => false
    case JBool(b) => b
    case JNumber(n) => n != 0.0
    case JString(s) => s != ""
    case _ => true
  }

  /** `typeof v[key] === 'string'`: the field is present and holds a string. */
  predicate HasStringField(v: Json, key: string) {
    v.JObject? && key in v.fields && v.fields[key].JString?
  }
}
