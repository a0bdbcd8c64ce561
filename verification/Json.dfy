/** Decoded JSON, as Python's `json` module represents it. */
module Json {
  datatype Json =
    | Null
    | Bool(b: bool)
    | Int(n: int)
    | Float(r: real)
    | Str(s: string)
    | Arr(items: seq<Json>)
    | Obj(fields: Fields)

  type Fields = map<string, Json>

  /** `fields.get(key)` */
  function Get(fields: Fields, key: string): Json {
    if key in fields then fields[key] else Null
  }
}
