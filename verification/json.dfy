/** The part of a `serde_json::Value` the core inspects: a reply from the
    guest agent, already parsed. Numbers keep the integer/non-integer
    distinction that `as_i64` depends on; objects are maps from key to value,
    so a key occurs at most once. */
module Json {
  import opened Wrappers

  const I64_MIN: int := -0x8000_0000_0000_0000
  const I64_MAX: int := 0x7FFF_FFFF_FFFF_FFFF

  datatype Json =
    | Null
    | Bool(b: bool)
    | Int(n: int)
    | Float(text: string)   // a number with a fraction or exponent, kept as written
    | Str(s: string)
    | Arr(items: seq<Json>)
    | Obj(fields: map<string, Json>)

  /** `Value::get(key)`: a field of an object; nothing for any other value. */
  function Get(v: Json, key: string): (r: Option<Json>)
    ensures r.Some? <==> v.Obj? && key in v.fields
    ensures r.Some? ==> r.value == v.fields[key]
  {
    if v.Obj? && key in v.fields then Some(v.fields[key]) else None
  }

  /** `v.get(key).and_then(|x| x.as_i64())`: an integer field in the i64 range. */
  function IntAt(v: Json, key: string): (r: Option<int>)
    ensures r.Some? ==> Get(v, key) == Some(Int(r.value)) && I64_MIN <= r.value <= I64_MAX
    ensures r.None? ==> !(Get(v, key).Some? && Get(v, key).value.Int? && I64_MIN <= Get(v, key).value.n <= I64_MAX)
  {
    match Get(v, key)
    case Some(Int(n)) => if I64_MIN <= n <= I64_MAX then Some(n) else None
    case _ => None
  }

  /** `v.get(key).and_then(|x| x.as_str())`: a string field. */
  function StrAt(v: Json, key: string): (r: Option<string>)
    ensures r.Some? <==> Get(v, key).Some? && Get(v, key).value.Str?
    ensures r.Some? ==> Get(v, key) == Some(Str(r.value))
  {
    match Get(v, key)
    case Some(Str(s)) => Some(s)
    case _ => None
  }

  /** `v.get(key).and_then(|x| x.as_bool())`: a boolean field. */
  function BoolAt(v: Json, key: string): (r: Option<bool>)
    ensures r.Some? <==> Get(v, key).Some? && Get(v, key).value.Bool?
    ensures r.Some? ==> Get(v, key) == Some(Bool(r.value))
  {
    match Get(v, key)
    case Some(Bool(b)) => Some(b)
    case _ => None
  }
}
