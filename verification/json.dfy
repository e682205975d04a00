/** The values the firmware keeps in its configuration and exchanges as
    JSON, with the Python semantics the code relies on: truthiness (`if x:`)
    and the numeric operations `+`, `min` and `max`, which raise (`None`)
    on anything but numbers. Python's `bool` is a kind of `int`. */
module Json {
  import opened Wrappers

  datatype Value =
    | Null
    | Bool(b: bool)
    | Int(n: int)
    | Float(f: real)
    | Str(s: string)
    | List(items: seq<Value>)
    | Dict(fields: map<string, Value>)

  /** Python truthiness: `None`, `False`, zero and empty containers are
      false. */
  predicate Truthy(v: Value)
  {
    match v
    case Null => false
    case Bool(b) => b
    case Int(n) => n != 0
    case Float(f) => f != 0.0
    case Str(s) => |s| > 0
    case List(items) => |items| > 0
    case Dict(fields) => |fields| > 0
  }

  /** The numeric reading of a value, `None` for non-numbers. */
  function Number(v: Value): Option<real>
  {
    match v
    case Bool(b) => Some(if b then 1.0 else 0.0)
    case Int(n) => Some(n as real)
    case Float(f) => Some(f)
    case _ => None
  }

  /** `a + b` on numbers: an `int` unless a `float` takes part. */
  function Add(a: Value, b: Value): (r: Option<Value>)
    ensures r.Some? <==> Number(a).Some? && Number(b).Some?
    ensures r.Some? ==> Number(r.value) == Some(Number(a).value + Number(b).value)
    ensures r.Some? ==> (r.value.Float? <==> a.Float? || b.Float?) && (r.value.Int? <==> !r.value.Float?)
  {
    if Number(a).None? || Number(b).None? then None
    else if a.Float? || b.Float? then Some(Float(Number(a).value + Number(b).value))
    else Some(Int(IntOf(a) + IntOf(b)))
  }

  /** `a - b` on numbers: an `int` unless a `float` takes part. */
  function Sub(a: Value, b: Value): (r: Option<Value>)
    ensures r.Some? <==> Number(a).Some? && Number(b).Some?
    ensures r.Some? ==> Number(r.value) == Some(Number(a).value - Number(b).value)
    ensures r.Some? ==> (r.value.Float? <==> a.Float? || b.Float?) && (r.value.Int? <==> !r.value.Float?)
  {
    if Number(a).None? || Number(b).None? then None
    else if a.Float? || b.Float? then Some(Float(Number(a).value - Number(b).value))
    else Some(Int(IntOf(a) - IntOf(b)))
  }

  /** The integer an `int` or `bool` stands for. */
  function IntOf(v: Value): (n: int)
    ensures Number(v).Some? && !v.Float? ==> Number(v) == Some(n as real)
  {
    match v
    case Bool(b) => if b then 1 else 0
    case Int(n) => n
    case _ => 0
  }

  /** `min(a, b)` on numbers: `b` only when it is strictly smaller. */
  function Min(a: Value, b: Value): (r: Option<Value>)
    ensures r.Some? <==> Number(a).Some? && Number(b).Some?
    ensures r.Some? ==> r.value == a || r.value == b
    ensures r.Some? ==> Number(r.value).value <= Number(a).value
    ensures r.Some? ==> Number(r.value).value <= Number(b).value
    ensures r.Some? && !(Number(b).value < Number(a).value) ==> r.value == a
  {
    match (Number(a), Number(b))
    case (Some(x), Some(y)) => Some(if y < x then b else a)
    case _ => None
  }

  /** `max(a, b)` on numbers: `b` only when it is strictly larger. */
  function Max(a: Value, b: Value): (r: Option<Value>)
    ensures r.Some? <==> Number(a).Some? && Number(b).Some?
    ensures r.Some? ==> r.value == a || r.value == b
    ensures r.Some? ==> Number(r.value).value >= Number(a).value
    ensures r.Some? ==> Number(r.value).value >= Number(b).value
    ensures r.Some? && !(Number(b).value > Number(a).value) ==> r.value == a
  {
    match (Number(a), Number(b))
    case (Some(x), Some(y)) => Some(if y > x then b else a)
    case _ => None
  }

  /** A number lying in `[lo, hi]`. */
  predicate Between(v: Value, lo: real, hi: real)
  {
    Number(v).Some? && lo <= Number(v).value <= hi
  }
}
