/** Parsed JSON documents, the shape of `serde_json::Value`, with the few
    accessors the transforms use. Parsing and printing JSON text are not
    part of this model: documents arrive already parsed. */
module JsonValues {
  import opened Wrappers

  const I64_MIN: int := -0x8000_0000_0000_0000
  const I64_MAX: int := 0x7FFF_FFFF_FFFF_FFFF

  /** A number is `Int` when written without fraction or exponent and `Float`
      otherwise, except that `-0` is a `Float` (serde_json reads it as the
      float negative zero, so `as_i64` gives nothing for it); objects have
      unique keys. */
  datatype Json =
    | Null
    | Bool(b: bool)
    | Int(i: int)
    | Float(f: real)
    | Str(s: string)
    | Arr(items: seq<Json>)
    | Obj(fields: map<string, Json>)

  /** `value.get(key)`: a member of an object; `None` for anything else. */
  function Get(v: Json, key: string): (r: Option<Json>)
    ensures r.Some? <==> v.Obj? && key in v.fields
    ensures r.Some? ==> r.value == v.fields[key]
  {
    if v.Obj? && key in v.fields then Some(v.fields[key]) else None
  }

  /** `Value::as_array`: the items of an array; `None` for anything else. */
  function AsArray(v: Json): (r: Option<seq<Json>>)
    ensures r.Some? <==> v.Arr?
    ensures r.Some? ==> v == Arr(r.value)
  {
    if v.Arr? then Some(v.items) else None
  }

  /** `Value::as_bool`: the value of a boolean; `None` for anything else,
      the string `"true"` included. */
  function AsBool(v: Json): (r: Option<bool>)
    ensures r.Some? <==> v.Bool?
    ensures r.Some? ==> v == Bool(r.value)
  {
    if v.Bool? then Some(v.b) else None
  }

  /** `Value::as_i64`: integers that fit in 64 signed bits; never a float. */
  function AsI64(v: Json): (r: Option<int>)
    ensures r.Some? ==> v == Int(r.value) && I64_MIN <= r.value <= I64_MAX
    ensures v.Int? && I64_MIN <= v.i <= I64_MAX ==> r == Some(v.i)
  {
    if v.Int? && I64_MIN <= v.i <= I64_MAX then Some(v.i) else None
  }
}
