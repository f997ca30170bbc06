/**
 The slice of JavaScript value semantics the bridge relies on: numbers (with NaN and
 the two infinities), truthiness, and the `a || b` operator, which yields `a` itself
 when `a` is truthy and `b` otherwise.
 */
module JsValues {

  /** A JavaScript number. Finite values are modelled as exact reals; the sign of zero
      and binary64 rounding are not modelled. */
  datatype JsNum = Finite(r: real) | PosInfinity | NegInfinity | NaN

  /** A JavaScript value as read from the player. Objects are opaque. */
  datatype JsValue =
    | Undefined
    | Null
    | Bool(b: bool)
    | Number(n: JsNum)
    | Str(s: string)
    | Object

  /** JavaScript truthiness: `undefined`, `null`, `false`, `0`, `NaN` and `''` are falsy. */
  predicate Truthy(v: JsValue) {
    match v
    case Undefined => false
    case Null => false
    case Bool(b) => b
    case Number(n) => !(n.NaN? || n == Finite(0.0))
    case Str(s) => s != ""
    case Object => true
  }

  /** `a || b`: the left operand when it is truthy, the right operand otherwise. */
  function Or(a: JsValue, b: JsValue): (r: JsValue)
    ensures r == a || r == b
    ensures Truthy(a) ==> r == a
    ensures !Truthy(a) ==> r == b
    ensures Truthy(b) ==> Truthy(r)
  {
    if Truthy(a) then a else b
  }

  /** `x / 100` on a JavaScript number other than NaN; the infinities keep their sign. */
  function DivideBy100(x: JsNum): (r: JsNum)
    requires !x.NaN?
    ensures !r.NaN?
    ensures x.Finite? <==> r.Finite?
    ensures x.Finite? ==> r.r * 100.0 == x.r
    ensures !x.Finite? ==> r == x
  {
    match x
    case Finite(v) => Finite(v / 100.0)
    case PosInfinity => PosInfinity
    case NegInfinity => NegInfinity
  }
}
