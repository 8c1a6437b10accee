/**
 * Physical dimensions as exponents over named base dimensions (length, mass, time, ...).
 * The Java `Dimension` class is not part of this model; it is represented abstractly as a map from
 * base-dimension name to integer exponent with no zero entries, so that two dimensions are equal
 * exactly when all their exponents agree.
 */
module Dimensions {

  type Dimension = map<string, int>

  /** The exponent of base dimension `b` in `d` (absent means zero). */
  function Exponent(d: Dimension, b: string): int
  {
    if b in d then d[b] else 0
  }

  /** No base dimension is stored with a zero exponent. */
  ghost predicate Normal(d: Dimension)
  {
    forall b :: b in d ==> d[b] != 0
  }

  /** The dimension of a dimensionless quantity. */
  function Dimensionless(): (r: Dimension)
    ensures Normal(r)
    ensures forall b :: Exponent(r, b) == 0
  {
    map[]
  }

  /** The dimension of a base unit of base dimension `b`, such as L for the metre. */
  function BaseDimension(b: string): (r: Dimension)
    ensures Normal(r)
    ensures Exponent(r, b) == 1
    ensures forall c :: c != b ==> Exponent(r, c) == 0
  {
    map[b := 1]
  }

  /** The dimension of a product of units: exponents add. */
  function Multiply(x: Dimension, y: Dimension): (r: Dimension)
    ensures Normal(r)
    ensures forall b :: Exponent(r, b) == Exponent(x, b) + Exponent(y, b)
  {
    map b | b in x.Keys + y.Keys && Exponent(x, b) + Exponent(y, b) != 0 :: Exponent(x, b) + Exponent(y, b)
  }

  /** The dimension of a quotient of units: exponents subtract. */
  function Divide(x: Dimension, y: Dimension): (r: Dimension)
    ensures Normal(r)
    ensures forall b :: Exponent(r, b) == Exponent(x, b) - Exponent(y, b)
  {
    map b | b in x.Keys + y.Keys && Exponent(x, b) - Exponent(y, b) != 0 :: Exponent(x, b) - Exponent(y, b)
  }

  /** The dimension of a unit raised to an integer power: exponents scale. */
  function Power(x: Dimension, n: int): (r: Dimension)
    ensures Normal(r)
    ensures forall b :: Exponent(r, b) == n * Exponent(x, b)
  {
    map b | b in x.Keys && n * Exponent(x, b) != 0 :: n * Exponent(x, b)
  }
}
