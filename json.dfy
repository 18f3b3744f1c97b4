/**
 * JSON values as Python's `json` module produces and consumes them, and the
 * few Python conversions the macro player applies to them: truthiness,
 * `int(v)` and `float(v)`.
 */
module Json {
  import opened Wrappers

  /** A decoded JSON document: `None`, `bool`, `int`, `float`, `str`, `list` or `dict`. */
  datatype Value =
    | Null
    | Bool(b: bool)
    | Int(i: int)
    | Num(r: real)
    | Str(s: string)
    | Arr(items: seq<Value>)
    | Obj(fields: map<string, Value>)

  /** A Python `dict` with string keys, as `json.loads` returns for an object. */
  type Object = map<string, Value>

  /** `d.get(key, default)`. */
  function Get(d: Object, key: string, default: Value): (v: Value)
    ensures key in d ==> v == d[key]
    ensures key !in d ==> v == default
  {
    if key in d then d[key] else default
  }

  /** Python truthiness (`if v:`) of a JSON value. */
  predicate Truthy(v: Value) {
    match v
    case Null => false
    case Bool(b) => b
    case Int(i) => i != 0
    case Num(r) => r != 0.0
    case Str(s) => s != []
    case Arr(items) => items != []
    case Obj(fields) => fields != map[]
  }

  /** Python's `int(r)` for a float: truncation toward zero. */
  function Truncate(r: real): (n: int)
    ensures r >= 0.0 ==> n as real <= r < n as real + 1.0
    ensures r < 0.0 ==> n as real - 1.0 < r <= n as real
  {
    if r >= 0.0 then r.Floor else -((-r).Floor)
  }

  /**
   * What the interpreter provides for text: `int(s)` and `float(s)` of a
   * string, `None` where Python raises `ValueError`.
   */
  datatype TextNumbers = TextNumbers(intOf: string -> Option<int>, floatOf: string -> Option<real>)

  /** `int(v)`: `bool` is an `int` in Python, a float is truncated, other types raise. */
  function ToInt(v: Value, text: TextNumbers): (r: Result<int, string>)
    ensures v.Int? ==> r == Ok(v.i)
    ensures v.Bool? ==> r == Ok(if v.b then 1 else 0)
    ensures (v.Null? || v.Arr? || v.Obj?) ==> r.Err?
  {
    match v
    case Int(i) => Ok(i)
    case Bool(b) => Ok(if b then 1 else 0)
    case Num(r) => Ok(Truncate(r))
    case Str(s) =>
      (match text.intOf(s)
       case Some(n) => Ok(n)
       case None => Err("ValueError: invalid literal for int()"))
    case _ => Err("TypeError: int() argument must be a string or a number")
  }

  /** `float(v)`: ints and bools convert exactly, other types raise. */
  function ToFloat(v: Value, text: TextNumbers): (r: Result<real, string>)
    ensures v.Num? ==> r == Ok(v.r)
    ensures v.Int? ==> r == Ok(v.i as real)
    ensures (v.Null? || v.Arr? || v.Obj?) ==> r.Err?
  {
    match v
    case Int(i) => Ok(i as real)
    case Bool(b) => Ok(if b then 1.0 else 0.0)
    case Num(r) => Ok(r)
    case Str(s) =>
      (match text.floatOf(s)
       case Some(x) => Ok(x)
       case None => Err("ValueError: could not convert string to float"))
    case _ => Err("TypeError: float() argument must be a string or a real number")
  }
}
