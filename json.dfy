/**
 * A decoded JSON value as Python's json module hands it to the handlers (None, bool,
 * int, float, str, list, dict), with the two Python behaviours the handlers branch on:
 * truthiness (`if not x`) and dict.get(key, default). Numbers are finite and strings are
 * sequences of code points: NaN, the infinities and lone surrogates have no value here.
 */
module Json {

  datatype Value =
    | JNull
    | JBool(b: bool)
    | JInt(i: int)
    | JFloat(f: real)
    | JString(s: string)
    | JArray(items: seq<Value>)
    | JObject(fields: map<string, Value>)

  /** Python truthiness: None, False, 0, 0.0, "", [] and {} are false, everything else is true. */
  predicate Truthy(v: Value) {
    match v
    case JNull => false
    case JBool(b) => b
    case JInt(i) => i != 0
    case JFloat(f) => f != 0.0
    case JString(s) => s != []
    case JArray(items) => items != []
    case JObject(fields) => fields != map[]
  }

  /** Python's dict.get(key, default). */
  function Get(fields: map<string, Value>, key: string, default: Value): Value {
    if key in fields then fields[key] else default
  }

  /** The name Python gives the type of a decoded value (type(v).__name__). */
  function TypeName(v: Value): string {
    match v
    case JNull => "NoneType"
    case JBool(_) => "bool"
    case JInt(_) => "int"
    case JFloat(_) => "float"
    case JString(_) => "str"
    case JArray(_) => "list"
    case JObject(_) => "dict"
  }

  /**
   * What an f-string placeholder `{v}` produces: a string is inserted as it is; for every
   * other value Python's str() is used, which is taken as the parameter `render`.
   */
  function Format(v: Value, render: Value -> string): string {
    if v.JString? then v.s else render(v)
  }
}
