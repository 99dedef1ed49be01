/** The JavaScript values that flow through the transformer: option values,
    attribute values and the optional results of the extractors. */
module JsValues {
  import Radix

  /** `Num` holds the integral numbers the options use; `Obj` stands for any
      object or array and carries the text `String(value)` gives for it. */
  datatype JsValue =
    | Undefined
    | Null
    | Bool(b: bool)
    | Num(n: int)
    | Str(s: string)
    | Obj(text: string)

  /** JavaScript truthiness: `undefined`, `null`, `false`, `0` and `""` are
      falsy; every object, even an empty array, is truthy. */
  predicate Truthy(v: JsValue)
  {
    match v
    case Undefined => false
    case Null => false
    case Bool(b) => b
    case Num(n) => n != 0
    case Str(s) => s != ""
    case Obj(_) => true
  }

  /** `String(n)` for an integral number. */
  function Decimal(n: int): (r: string)
    ensures r != "" && (r[0] == '-' <==> n < 0)
    ensures n >= 0 ==> Radix.FromRadix(r, 10) == n
  {
    Radix.FromToRadix(if n < 0 then -n else n, 10);
    if n < 0 then "-" + Radix.ToRadix(-n, 10) else Radix.ToRadix(n, 10)
  }

  /** `String(v)`, which is also what a template literal `${v}` inserts. */
  function ToJsString(v: JsValue): string
  {
    match v
    case Undefined => "undefined"
    case Null => "null"
    case Bool(b) => if b then "true" else "false"
    case Num(n) => Decimal(n)
    case Str(s) => s
    case Obj(t) => t
  }
}
