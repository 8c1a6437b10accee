/**
 * The unit tree. Each Java unit class that the conversion engine dispatches on becomes one
 * constructor of a closed datatype. Every unit carries its identifier and optional symbol; names and
 * alternative names are plain attribute storage and are not modelled.
 *
 * Java `null` appears only where the shown code tolerates it: the definition unit of a singular unit
 * and the unit of a unit multiple. The terms of compound units are always present.
 */
module Units {
  import opened Wrappers
  import opened Dimensions

  type Id = string

  datatype Unit =
    /** A singular unit; with no definition unit it is a base unit of intrinsic dimension `intrinsic`. */
    | Singular(id: Id, symbol: Option<string>, definition: Option<Unit>, definitionFactor: real, intrinsic: Dimension)
    /** A unit multiplied by a custom factor, such as 125 g. */
    | Multiple(id: Id, symbol: Option<string>, base: Option<Unit>, factor: real)
    /** A product of two units, such as N.m. */
    | Multiplication(id: Id, symbol: Option<string>, term1: Unit, term2: Unit)
    /** A quotient of two units, such as m/s. */
    | Division(id: Id, symbol: Option<string>, numerator: Unit, denominator: Unit)
    /** A unit raised to an integer power, such as m^3. */
    | Exponentiation(id: Id, symbol: Option<string>, radix: Unit, exponent: int)

  /** Internal failures that Java surfaces as exceptions or non-finite doubles. */
  datatype Failure =
    /** A `NullPointerException` from following an absent unit. */
    | NullReference
    /** A division by zero, which Java would carry on as an infinite or NaN double. */
    | NonFinite
    /** The two operands of a conversion have different dimensions. */
    | DimensionMismatch

  /** Number of unit nodes in the tree; a termination measure. */
  function Size(u: Unit): nat
  {
    match u
    case Singular(_, _, def, _, _) => if def.Some? then 1 + Size(def.value) else 1
    case Multiple(_, _, b, _) => if b.Some? then 1 + Size(b.value) else 1
    case Multiplication(_, _, a, b) => 1 + Size(a) + Size(b)
    case Division(_, _, a, b) => 1 + Size(a) + Size(b)
    case Exponentiation(_, _, a, _) => 1 + Size(a)
  }

  /** No absent unit is reached from `u` through definition units, multiples' units and terms. */
  predicate Complete(u: Unit)
  {
    match u
    case Singular(_, _, def, _, _) => def.None? || Complete(def.value)
    case Multiple(_, _, b, _) => b.Some? && Complete(b.value)
    case Multiplication(_, _, a, b) => Complete(a) && Complete(b)
    case Division(_, _, a, b) => Complete(a) && Complete(b)
    case Exponentiation(_, _, a, _) => Complete(a)
  }

  /**
   * The dimension of a unit, derived structurally from its constituents; `None` when an absent unit
   * is reached, where Java throws a `NullPointerException`. A unit multiple delegates to its unit;
   * the rules for the other variants are this model's assumption.
   */
  function Dim(u: Unit): (r: Option<Dimension>)
    ensures r.Some? <==> Complete(u)
    ensures u.Multiple? && u.base.Some? ==> r == Dim(u.base.value)
    ensures u.Singular? && u.definition.None? ==> r == Some(u.intrinsic)
  {
    match u
    case Singular(_, _, def, _, intrinsic) =>
      if def.None? then Some(intrinsic) else Dim(def.value)
    case Multiple(_, _, b, _) =>
      if b.None? then None else Dim(b.value)
    case Multiplication(_, _, a, b) =>
      var da := Dim(a);
      var db := Dim(b);
      if da.None? || db.None? then None else Some(Multiply(da.value, db.value))
    case Division(_, _, a, b) =>
      var da := Dim(a);
      var db := Dim(b);
      if da.None? || db.None? then None else Some(Divide(da.value, db.value))
    case Exponentiation(_, _, a, n) =>
      var da := Dim(a);
      if da.None? then None else Some(Power(da.value, n))
  }

  /**
   * Java's `x.equals(y)` on units, with `x` the receiver. Equal identifiers always suffice. Otherwise a
   * unit multiple asks the other unit's base to compare itself with its own base and compares the
   * factors exactly; a singular unit relies on identifiers only. Products compare their terms in
   * either order; quotients and powers compare position by position.
   */
  function Equal(x: Unit, y: Unit): (r: bool)
    ensures x.id == y.id ==> r
    ensures r && x.id != y.id ==> !x.Singular? && SameVariant(x, y)
    decreases Size(x) + Size(y)
  {
    if x.id == y.id then true
    else
      match x
      case Singular(_, _, _, _, _) => false
      case Multiple(_, _, xb, xf) =>
        && y.Multiple?
        && (if y.base.None? || xb.None? then y.base.None? && xb.None? else Equal(y.base.value, xb.value))
        && y.factor == xf
      case Multiplication(_, _, x1, x2) =>
        && y.Multiplication?
        && ((Equal(x1, y.term1) && Equal(x2, y.term2)) || (Equal(x1, y.term2) && Equal(x2, y.term1)))
      case Division(_, _, xn, xd) =>
        y.Division? && Equal(xn, y.numerator) && Equal(xd, y.denominator)
      case Exponentiation(_, _, xr, xe) =>
        y.Exponentiation? && Equal(xr, y.radix) && xe == y.exponent
  }

  /** Both units are built by the same constructor. */
  predicate SameVariant(x: Unit, y: Unit)
  {
    || (x.Singular? && y.Singular?)
    || (x.Multiple? && y.Multiple?)
    || (x.Multiplication? && y.Multiplication?)
    || (x.Division? && y.Division?)
    || (x.Exponentiation? && y.Exponentiation?)
  }

  /** Every unit equals itself. */
  lemma EqualReflexive(u: Unit)
    ensures Equal(u, u)
  {
  }

  /** Unit equality does not depend on which side is the receiver. */
  lemma {:induction false} EqualSymmetric(x: Unit, y: Unit)
    ensures Equal(x, y) == Equal(y, x)
    decreases Size(x) + Size(y)
  {
    if x.id != y.id {
      match x
      case Singular(_, _, _, _, _) =>
      case Multiple(_, _, xb, xf) =>
        if y.Multiple? && xb.Some? && y.base.Some? {
          EqualSymmetric(y.base.value, xb.value);
        }
      case Multiplication(_, _, x1, x2) =>
        if y.Multiplication? {
          EqualSymmetric(x1, y.term1);
          EqualSymmetric(x2, y.term2);
          EqualSymmetric(x1, y.term2);
          EqualSymmetric(x2, y.term1);
        }
      case Division(_, _, xn, xd) =>
        if y.Division? {
          EqualSymmetric(xn, y.numerator);
          EqualSymmetric(xd, y.denominator);
        }
      case Exponentiation(_, _, xr, xe) =>
        if y.Exponentiation? {
          EqualSymmetric(xr, y.radix);
        }
    }
  }

  /**
   * Two unit multiples with different identifiers are equal exactly when their bases are both absent
   * or equal, and their factors are identical; in particular an absent base never equals a present one.
   */
  lemma MultipleEquality(x: Unit, y: Unit)
    requires x.Multiple? && y.Multiple? && x.id != y.id
    ensures Equal(x, y) <==>
      && ((x.base.None? && y.base.None?) || (x.base.Some? && y.base.Some? && Equal(x.base.value, y.base.value)))
      && x.factor == y.factor
  {
    if x.base.Some? && y.base.Some? {
      EqualSymmetric(x.base.value, y.base.value);
    }
  }

  /** Equality of products ignores the order of the terms. */
  lemma MultiplicationEqualityIgnoresOrder(id1: Id, id2: Id, s1: Option<string>, s2: Option<string>, a: Unit, b: Unit)
    ensures Equal(Multiplication(id1, s1, a, b), Multiplication(id2, s2, b, a))
  {
    EqualReflexive(a);
    EqualReflexive(b);
  }
}
