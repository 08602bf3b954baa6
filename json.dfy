/** JSON values as the FastAPI handlers receive them in a request body
    (`dict`), and the truthiness Python gives them in `if not x:`. */
module Json {

  /** A decoded JSON value. Numbers are integers here: floating-point numbers
      are not part of this model. */
  datatype Value =
    | Null
    | Bool(b: bool)
    | Num(n: int)
    | Str(s: string)
    | Arr(items: seq<Value>)
    | Obj(fields: seq<(string, Value)>)

  /** A request body: a JSON object decoded into a Python `dict`. */
  type Dict = map<string, Value>

  /** Python truthiness: None, False, 0, "", [] and {} are false. */
  predicate Truthy(v: Value): (r: bool)
    ensures !r <==> v in {Null, Bool(false), Num(0), Str(""), Arr([]), Obj([])}
  {
    match v
    case Null => false
    case Bool(b) => b
    case Num(n) => n != 0
    case Str(s) => s != ""
    case Arr(items) => items != []
    case Obj(fields) => fields != []
  }

  /** `d.get(key, default)`. */
  function Get(d: Dict, key: string, default: Value): Value
  {
    if key in d then d[key] else default
  }
}
