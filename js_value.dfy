/**
 * The JavaScript values that a request body parsed by `express.json()` can
 * hold, with just enough of the language's semantics for the registry:
 * `typeof`, truthiness (`!x`) and reading a property that may be absent.
 */
module JsValue {

  datatype Option<+T> = None | Some(value: T)

  /** A JSON value as JavaScript sees it after parsing. `Undefined` is what
      reading an absent property yields. JSON text cannot produce `undefined`
      or NaN. Infinity, which `JSON.parse` yields for a number literal too
      large for a double, is not modelled (see README, Left out), so numbers
      are finite reals. */
  datatype Value =
    | Undefined
    | Null
    | Bool(b: bool)
    | Num(x: real)
    | Str(s: string)
    | Arr(items: seq<Value>)
    | Obj(fields: map<string, Value>)

  /** A plain object such as `req.body` or an element of `alumnos`. */
  type Record = map<string, Value>

  /** `obj[key]`: the stored value, or `undefined` when the key is absent,
      so an absent key and one holding `undefined` read the same. */
  function Field(obj: Record, key: string): (v: Value)
    ensures v == Undefined <==> key !in obj || obj[key] == Undefined
    ensures key in obj && obj[key] != Undefined ==> v == obj[key]
  {
    if key in obj then obj[key] else Undefined
  }

  /** The string that the `typeof` operator yields (`typeof null` is "object"). */
  function TypeOf(v: Value): (t: string)
    ensures t in {"undefined", "object", "boolean", "number", "string"}
    ensures t == "number" <==> v.Num?
    ensures t == "string" <==> v.Str?
    ensures t == "undefined" <==> v == Undefined
    ensures t == "boolean" <==> v.Bool?
    ensures t == "object" <==> v.Null? || v.Arr? || v.Obj?
  {
    match v
    case Undefined => "undefined"
    case Null => "object"
    case Bool(_) => "boolean"
    case Num(_) => "number"
    case Str(_) => "string"
    case Arr(_) => "object"
    case Obj(_) => "object"
  }

  /** JavaScript truthiness: `!v` is true exactly for undefined, null, false,
      0 (and -0, which a real cannot tell apart) and the empty string. */
  predicate Truthy(v: Value)
    ensures TypeOf(v) == "undefined" ==> !Truthy(v)
    ensures TypeOf(v) == "number" ==> (Truthy(v) <==> v.x != 0.0)
    ensures TypeOf(v) == "string" ==> (Truthy(v) <==> v.s != "")
    ensures TypeOf(v) == "object" ==> (Truthy(v) <==> v != Null)
  {
    match v
    case Undefined => false
    case Null => false
    case Bool(b) => b
    case Num(x) => x != 0.0
    case Str(s) => s != ""
    case Arr(_) => true
    case Obj(_) => true
  }
}
