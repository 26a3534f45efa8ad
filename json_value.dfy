/** Decoded JSON values, as Python's `json` module hands them to the handler,
    and the one operation the handler applies to them: `dict.get`. */
module JsonValue {
  import opened Wrappers

  /** A decoded JSON document. Integers and floats decode to different Python
      types, so the two kinds of number are kept apart; a float is modelled by
      the real number it denotes. */
  datatype Json =
    | JNull
    | JBool(b: bool)
    | JInt(i: int)
    | JFloat(f: real)
    | JStr(s: string)
    | JArr(items: seq<Json>)
    | JObj(fields: map<string, Json>)

  /** The name of the Python type a JSON value decodes to. */
  function TypeName(v: Json): (name: string)
    ensures name == "dict" <==> v.JObj?
    ensures name == "list" <==> v.JArr?
    ensures name == "NoneType" <==> v.JNull?
  {
    match v
    case JNull => "NoneType"
    case JBool(_) => "bool"
    case JInt(_) => "int"
    case JFloat(_) => "float"
    case JStr(_) => "str"
    case JArr(_) => "list"
    case JObj(_) => "dict"
  }

  /** The text of the `AttributeError` Python raises when `attr` is looked up
      on a value whose type lacks it. */
  function NoAttribute(v: Json, attr: string): string {
    "'" + TypeName(v) + "' object has no attribute '" + attr + "'"
  }

  /** `v.get(key, default)`: only a dict has `get`; on any other value the
      call raises `AttributeError`. */
  function Get(v: Json, key: string, default: Json): (r: Result<Json, string>)
    ensures r.Ok? <==> v.JObj?
    ensures r.Ok? && key in v.fields ==> r.value == v.fields[key]
    ensures r.Ok? && key !in v.fields ==> r.value == default
    ensures r.Err? ==> r.error == "'" + TypeName(v) + "' object has no attribute 'get'"
  {
    if v.JObj? then
      Ok(if key in v.fields then v.fields[key] else default)
    else
      Err(NoAttribute(v, "get"))
  }
}
