/** JSON documents, as `serde_json::Value` holds them. */
module Json {
  import opened Prelude

  datatype Value =
    | Null
    | Bool(flag: bool)
    | Number(number: real)
    | Text(text: string)
    | Array(items: seq<Value>)
    | Object(members: map<string, Value>)

  /** `Value::get` with a string key: `None` on anything but an object holding the key. */
  function Get(j: Value, key: string): Option<Value> {
    if j.Object? && key in j.members then Some(j.members[key]) else None
  }

  /** The type words of section 6.1.1 of JSON Schema Validation; an integer is a
      number without a fractional part. */
  predicate HasType(v: Value, word: string) {
    match v
    case Null => word == "null"
    case Bool(_) => word == "boolean"
    case Number(r) => word == "number" || (word == "integer" && r == r.Floor as real)
    case Text(_) => word == "string"
    case Array(_) => word == "array"
    case Object(_) => word == "object"
  }
}
