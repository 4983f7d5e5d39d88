/**
  The JavaScript values that reach the controllers in request bodies and error
  objects, with the coercions the code applies to them: truthiness, `typeof`,
  `Number.isInteger`, and the numeric comparison SQLite makes between a bound
  number and an INTEGER column.
 */
module Js {
  import opened Wrappers

  /** An IEEE double, seen only through the distinctions the code makes. */
  datatype Number = NaN | PosInf | NegInf | Finite(v: real)

  /** A JSON-ish value: what `req.body.x`, `err.statusCode` or `payload.isAdmin` can hold. */
  datatype Value = Undefined | Null | Bool(b: bool) | Num(n: Number) | Str(s: string) | Object

  /** The value 500 as a JavaScript number. */
  const FiveHundred: Value := Num(Finite(500.0))

  /** JavaScript truthiness: false, 0, -0, NaN, "", null and undefined are falsy. */
  predicate Truthy(x: Value)
  {
    match x
    case Undefined => false
    case Null => false
    case Bool(b) => b
    case Num(n) => n != NaN && n != Finite(0.0)
    case Str(s) => s != []
    case Object => true
  }

  /** `Number.isInteger(n)`: finite and without fractional part. */
  predicate IsInteger(n: Number)
  {
    n.Finite? && n.v == n.v.Floor as real
  }

  /** `Number.isInteger(x)` for an arbitrary value: only numbers can be integers. */
  predicate IsIntegerValue(x: Value)
  {
    x.Num? && IsInteger(x.n)
  }

  /**
    The INTEGER key a bound number selects in `WHERE key = ?`: SQLite compares
    numerically, so only a finite number without fractional part selects a row.
   */
  function KeyOf(n: Number): (k: Option<int>)
    ensures k.Some? <==> IsInteger(n)
    ensures k.Some? ==> n == Finite(k.value as real)
  {
    if IsInteger(n) then Some(n.v.Floor) else None
  }

  /** The integer a value holds once `Number.isInteger` accepted it. */
  function IntOf(x: Value): (i: int)
    requires IsIntegerValue(x)
    ensures x == Num(Finite(i as real))
  {
    x.n.v.Floor
  }

  /** A numeric key selects exactly the key it equals. */
  lemma KeyOfSelects(n: Number, k: int)
    ensures KeyOf(n) == Some(k) <==> n == Finite(k as real)
  {
    if n == Finite(k as real) {
      assert (k as real).Floor == k;
    }
  }
}
