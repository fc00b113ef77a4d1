/** An already-parsed JSON value, as `json.loads` would hand it to the
    program, and Python's truth test on it. */
module Json {

  datatype Json =
    | Null
    | Bool(b: bool)
    | Number(n: int)
    | Str(s: string)
    | Arr(items: seq<Json>)
    | Obj(members: seq<(string, Json)>)

  /** Python's `bool(v)` for the value `json.loads` produces: `None`, `False`,
      `0`, `""`, `[]` and `{}` are false, everything else is true. */
  predicate Truthy(v: Json)
  {
    match v
    case Null => false
    case Bool(b) => b
    case Number(n) => n != 0
    case Str(s) => |s| > 0
    case Arr(items) => |items| > 0
    case Obj(members) => |members| > 0
  }
}
