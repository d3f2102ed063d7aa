/** The JSON values that JWKs and JOSE headers are made of, as `serde_json::Value`. */
module Json {
  import opened Bytes

  datatype Value =
    | Null
    | Bool(b: bool)
    | Number(n: int)
    | Str(s: bytes)
    | Arr(items: seq<Value>)
    | Obj(fields: map<string, Value>)
  {
    /** `get(key)`: None also when the value is not an object. */
    function Get(key: string): Option<Value> {
      if Obj? && key in fields then Some(fields[key]) else None
    }

    /** `get(key).and_then(as_str)` */
    function GetStr(key: string): Option<bytes> {
      if Get(key).Some? && Get(key).value.Str? then Some(Get(key).value.s) else None
    }

    /** `get(key).and_then(as_u64)` */
    function GetU64(key: string): Option<nat> {
      if Get(key).Some? && Get(key).value.Number? && 0 <= Get(key).value.n < 0x1_0000_0000_0000_0000
      then Some(Get(key).value.n) else None
    }
  }
}
