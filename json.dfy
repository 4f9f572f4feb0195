/**
  The decoded JSON of the agricultural-products API: a payload whose `RS` field
  reports the status and whose `Data` field is a list of flat records.
*/
module Json {
  import opened Wrappers

  /** A scalar JSON value as Python's `json` module decodes it. */
  datatype Value = Null | Bool(b: bool) | Num(x: real) | Str(s: string)

  /** One decoded JSON object of the `Data` list. */
  type Record = map<string, Value>

  /** The top-level object: `data.get("RS")` and `data.get("Data")`. */
  datatype Payload = Payload(rs: Option<Value>, data: Option<seq<Record>>)

  /** `record.get(key)`: None when the key is absent. */
  function Get(rec: Record, key: string): Option<Value>
  {
    if key in rec then Some(rec[key]) else None
  }

  /** Python truthiness of what `dict.get` returned (a missing key gives None, which is false). */
  predicate Truthy(v: Option<Value>)
  {
    match v
    case None => false
    case Some(Null) => false
    case Some(Bool(b)) => b
    case Some(Num(x)) => x != 0.0
    case Some(Str(s)) => s != ""
  }
}
