/**
 * The Python values a request can hold: Python 2 `str`, `int` and `long`, `bool`, `None`, list,
 * tuple and dict. `Int` stands for both integer types: a value between `PY_INT_MIN` and `PY_INT_MAX`
 * is an `int`, any other a `long`. Floats are not modelled.
 */
module Values {

  /** `-sys.maxint - 1` and `sys.maxint` of a 64-bit Python 2 build. */
  const PY_INT_MIN: int := -0x8000_0000_0000_0000
  const PY_INT_MAX: int := 0x7FFF_FFFF_FFFF_FFFF

  /** `type(v) is int`: an integer small enough not to be a `long`; a `bool` is not one. */
  predicate IsPyInt(v: Json)
  {
    v.Int? && PY_INT_MIN <= v.i <= PY_INT_MAX
  }

  datatype Json =
    | Null
    | Bool(b: bool)
    | Int(i: int)
    | Str(s: string)
    | List(items: seq<Json>)
    | Tuple(items: seq<Json>)
    | Dict(entries: map<string, Json>)
}
