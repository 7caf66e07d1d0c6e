/** The few JavaScript operator semantics the modelled code relies on.

    Dafny's `%` is Euclidean, JavaScript's truncates toward zero; reading an
    array outside its bounds yields `undefined` instead of failing; and `||`
    picks its left operand only when that operand is truthy.
 */
module Js {
  import opened Outcomes

  /** `a % b` for a positive divisor, as JavaScript computes it: the
      remainder takes the sign of the dividend, so it agrees with Dafny's
      Euclidean remainder on non-negative dividends and is odd in `a`. */
  function Rem(a: int, b: int): (r: int)
    requires b > 0
    ensures -b < r < b
    ensures a >= 0 ==> r == a % b
    ensures a <= 0 ==> r <= 0 && -r == (-a) % b
  {
    if a >= 0 then a % b else -((-a) % b)
  }

  /** `xs[i]`: the element, or `undefined` for any index outside the array
      (negative indices included). */
  function At<T>(xs: seq<T>, i: int): (r: Option<T>)
    ensures r.Some? <==> 0 <= i < |xs|
    ensures r.Some? ==> r.value == xs[i]
  {
    if 0 <= i < |xs| then Some(xs[i]) else None
  }

  /** Truthiness of a value that is a string or `undefined`. */
  predicate Truthy(v: Option<string>) {
    v.Some? && v.value != ""
  }

  /** `a || b` on values that are strings or `undefined`. */
  function Or(a: Option<string>, b: Option<string>): (r: Option<string>)
    ensures Truthy(a) ==> r == a
    ensures !Truthy(a) ==> r == b
  {
    if Truthy(a) then a else b
  }

  /** `a || d` where the default `d` is a string literal: the result is
      always a string. */
  function OrDefault(a: Option<string>, d: string): (r: string)
    ensures Truthy(a) ==> r == a.value
    ensures !Truthy(a) ==> r == d
  {
    if Truthy(a) then a.value else d
  }
}
