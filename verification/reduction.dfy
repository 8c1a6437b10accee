/**
 * Reduction of a unit or a scale to a transform relative to its ultimate base
 * (`getUnitConversionToBaseUnit` and `getScaleConversionToBaseScale`), over `real`.
 */
module Reduction {
  import opened Wrappers
  import opened Units
  import opened Scales
  import opened Transforms

  /** `x` raised to a natural power. */
  function PowNat(x: real, n: nat): (r: real)
    ensures x != 0.0 ==> r != 0.0
    ensures n == 0 ==> r == 1.0
  {
    if n <= 0 then 1.0 else x * PowNat(x, n - 1)
  }

  /**
   * `Math.pow` restricted to integer exponents. A negative power of zero is infinite in Java and a
   * non-finite failure here.
   */
  function Pow(x: real, n: int): (r: Result<real, Failure>)
    ensures r.Failure? <==> n < 0 && x == 0.0
    ensures r.Success? && n < 0 ==> r.value * PowNat(x, -n) == 1.0
    ensures r.Success? && n >= 0 ==> r.value == PowNat(x, n)
  {
    if n >= 0 then Success(PowNat(x, n))
    else if x == 0.0 then Failure(NonFinite)
    else Success(1.0 / PowNat(x, -n))
  }

  /**
   * Whether following the definition units of singular units and the units of multiples from `u`
   * ends at an exponentiation; the reduction of such a unit reports the offset 1.
   */
  predicate ChainEndsInPower(u: Unit)
  {
    match u
    case Singular(_, _, def, _, _) => def.Some? && ChainEndsInPower(def.value)
    case Multiple(_, _, b, _) => b.Some? && ChainEndsInPower(b.value)
    case Exponentiation(_, _, _, _) => true
    case _ => false
  }

  /**
   * The code's reduction of `u` to its base unit, with `acc` the factor accumulated so far (the
   * first call passes 1). A singular unit without definition unit ends the walk with `(acc, 0)`; a
   * singular unit with one, and a unit multiple, multiply `acc` by their factor and continue into the
   * referenced unit. Quotients and products reduce both sides from 1 and combine the factors with
   * `acc`. An exponentiation raises its base's factor to the exponent, returns the offset 1 and does
   * not use `acc`. Following an absent unit fails, as the Java null result, once dereferenced, does.
   * So a unit whose dimension is unknown cannot be reduced, and a successful reduction has the offset
   * 0 except where the chain of definition units and multiples ends at an exponentiation.
   */
  function ToBase(u: Unit, acc: real): (r: Result<Transform, Failure>)
    ensures Dim(u).None? ==> r.Failure?
    ensures r.Success? ==> r.value.offset == (if ChainEndsInPower(u) then 1.0 else 0.0)
    decreases u
  {
    match u
    case Singular(_, _, def, f, _) =>
      if def.None? then Success(Transform(acc, 0.0)) else ToBase(def.value, Times(acc, f))
    case Multiple(_, _, b, f) =>
      if b.None? then Failure(NullReference) else ToBase(b.value, Times(acc, f))
    case Division(_, _, n, d) =>
      var nr := ToBase(n, 1.0);
      if nr.Failure? then Failure(nr.error) else
      var dr := ToBase(d, 1.0);
      if dr.Failure? then Failure(dr.error) else
      if dr.value.factor == 0.0 then Failure(NonFinite)
      else Success(Transform(Times(acc, nr.value.factor) / dr.value.factor, 0.0))
    case Multiplication(_, _, a, b) =>
      var ar := ToBase(a, 1.0);
      if ar.Failure? then Failure(ar.error) else
      var br := ToBase(b, 1.0);
      if br.Failure? then Failure(br.error) else
      Success(Transform(Times(Times(acc, ar.value.factor), br.value.factor), 0.0))
    case Exponentiation(_, _, x, n) =>
      var xr := ToBase(x, 1.0);
      if xr.Failure? then Failure(xr.error) else
      var p := Pow(xr.value.factor, n);
      if p.Failure? then Failure(p.error) else Success(Transform(p.value, 1.0))
  }

  /** The reduction of a product does not depend on the order of its terms. */
  lemma MultiplicationOrderIrrelevant(id1: Id, id2: Id, s1: Option<string>, s2: Option<string>, a: Unit, b: Unit, acc: real)
    ensures ToBase(Multiplication(id1, s1, a, b), acc).Success? <==> ToBase(Multiplication(id2, s2, b, a), acc).Success?
    ensures ToBase(Multiplication(id1, s1, a, b), acc).Success? ==>
      ToBase(Multiplication(id1, s1, a, b), acc) == ToBase(Multiplication(id2, s2, b, a), acc)
  {
    if ToBase(a, 1.0).Success? && ToBase(b, 1.0).Success? {
      TimesAssociates(acc, ToBase(a, 1.0).value.factor, ToBase(b, 1.0).value.factor);
      TimesAssociates(acc, ToBase(b, 1.0).value.factor, ToBase(a, 1.0).value.factor);
      TimesCommutes(ToBase(a, 1.0).value.factor, ToBase(b, 1.0).value.factor);
    }
  }

  /** An exponentiation reduces to the same transform whatever factor was accumulated above it. */
  lemma ExponentiationIgnoresAccumulator(u: Unit, acc1: real, acc2: real)
    requires u.Exponentiation?
    ensures ToBase(u, acc1) == ToBase(u, acc2)
  {
  }

  /** A reduction factor scaled by `k`, keeping its failure. */
  function Scaled(r: Result<real, Failure>, k: real): Result<real, Failure>
  {
    if r.Success? then Success(Times(k, r.value)) else r
  }

  /** The factor of a reduction, keeping its failure. */
  function FactorOf(r: Result<Transform, Failure>): Result<real, Failure>
  {
    if r.Success? then Success(r.value.factor) else Failure(r.error)
  }

  /**
   * The factor of a unit relative to its base unit, this model's reference definition, without an
   * accumulator: a definition factor or multiple's factor scales the factor of the unit it refers to,
   * a quotient divides, a product multiplies and a power raises.
   */
  function BaseFactor(u: Unit): Result<real, Failure>
    decreases u
  {
    match u
    case Singular(_, _, def, f, _) =>
      if def.None? then Success(1.0) else Scaled(BaseFactor(def.value), f)
    case Multiple(_, _, b, f) =>
      if b.None? then Failure(NullReference) else Scaled(BaseFactor(b.value), f)
    case Division(_, _, n, d) =>
      var nr := BaseFactor(n);
      if nr.Failure? then nr else
      var dr := BaseFactor(d);
      if dr.Failure? then dr else
      if dr.value == 0.0 then Failure(NonFinite) else Success(nr.value / dr.value)
    case Multiplication(_, _, a, b) =>
      var ar := BaseFactor(a);
      if ar.Failure? then ar else
      var br := BaseFactor(b);
      if br.Failure? then br else
      Success(Times(ar.value, br.value))
    case Exponentiation(_, _, x, n) =>
      var xr := BaseFactor(x);
      if xr.Failure? then xr else Pow(xr.value, n)
  }

  /**
   * The code's reduction with the exponentiation case corrected: the power is multiplied by the
   * accumulated factor, and a unit has no offset.
   */
  function ToBaseFixed(u: Unit, acc: real): Result<Transform, Failure>
    decreases u
  {
    match u
    case Singular(_, _, def, f, _) =>
      if def.None? then Success(Transform(acc, 0.0)) else ToBaseFixed(def.value, Times(acc, f))
    case Multiple(_, _, b, f) =>
      if b.None? then Failure(NullReference) else ToBaseFixed(b.value, Times(acc, f))
    case Division(_, _, n, d) =>
      var nr := ToBaseFixed(n, 1.0);
      if nr.Failure? then Failure(nr.error) else
      var dr := ToBaseFixed(d, 1.0);
      if dr.Failure? then Failure(dr.error) else
      if dr.value.factor == 0.0 then Failure(NonFinite)
      else Success(Transform(Times(acc, nr.value.factor) / dr.value.factor, 0.0))
    case Multiplication(_, _, a, b) =>
      var ar := ToBaseFixed(a, 1.0);
      if ar.Failure? then Failure(ar.error) else
      var br := ToBaseFixed(b, 1.0);
      if br.Failure? then Failure(br.error) else
      Success(Transform(Times(Times(acc, ar.value.factor), br.value.factor), 0.0))
    case Exponentiation(_, _, x, n) =>
      var xr := ToBaseFixed(x, 1.0);
      if xr.Failure? then Failure(xr.error) else
      var p := Pow(xr.value.factor, n);
      if p.Failure? then Failure(p.error) else Success(Transform(Times(acc, p.value), 0.0))
  }

  /**
   * The corrected reduction of `u` from `acc` is `acc` times the unit's factor relative to its base,
   * with the offset 0, and fails exactly where that factor is undefined.
   */
  ghost predicate FixedAgrees(u: Unit, acc: real)
  {
    && FactorOf(ToBaseFixed(u, acc)) == Scaled(BaseFactor(u), acc)
    && (ToBaseFixed(u, acc).Success? ==> ToBaseFixed(u, acc).value.offset == 0.0)
  }

  lemma FixedAgreesThroughLink(u: Unit, acc: real)
    requires u.Singular? || u.Multiple?
    requires u.Singular? && u.definition.Some? ==> FixedAgrees(u.definition.value, Times(acc, u.definitionFactor))
    requires u.Multiple? && u.base.Some? ==> FixedAgrees(u.base.value, Times(acc, u.factor))
    ensures FixedAgrees(u, acc)
  {
    if u.Singular? {
      if u.definition.None? {
        TimesOne(acc);
      } else if BaseFactor(u.definition.value).Success? {
        TimesAssociates(acc, u.definitionFactor, BaseFactor(u.definition.value).value);
      }
    } else if u.base.Some? && BaseFactor(u.base.value).Success? {
      TimesAssociates(acc, u.factor, BaseFactor(u.base.value).value);
    }
  }

  lemma FixedAgreesForQuotient(u: Unit, acc: real)
    requires u.Division?
    requires FixedAgrees(u.numerator, 1.0) && FixedAgrees(u.denominator, 1.0)
    ensures FixedAgrees(u, acc)
  {
    if BaseFactor(u.numerator).Success? && BaseFactor(u.denominator).Success? && BaseFactor(u.denominator).value != 0.0 {
      TimesOne(BaseFactor(u.numerator).value);
      TimesOne(BaseFactor(u.denominator).value);
      TimesThenDivide(acc, BaseFactor(u.numerator).value, BaseFactor(u.denominator).value);
    }
  }

  lemma FixedAgreesForProduct(u: Unit, acc: real)
    requires u.Multiplication?
    requires FixedAgrees(u.term1, 1.0) && FixedAgrees(u.term2, 1.0)
    ensures FixedAgrees(u, acc)
  {
    if BaseFactor(u.term1).Success? && BaseFactor(u.term2).Success? {
      TimesOne(BaseFactor(u.term1).value);
      TimesOne(BaseFactor(u.term2).value);
      TimesAssociates(acc, BaseFactor(u.term1).value, BaseFactor(u.term2).value);
    }
  }

  lemma FixedAgreesForPower(u: Unit, acc: real)
    requires u.Exponentiation?
    requires FixedAgrees(u.radix, 1.0)
    ensures FixedAgrees(u, acc)
  {
    if BaseFactor(u.radix).Success? {
      TimesOne(BaseFactor(u.radix).value);
    }
  }

  /**
   * The corrected reduction computes `acc` times the unit's factor relative to its base, with the
   * offset 0, and fails exactly where that factor is undefined.
   */
  lemma {:induction false} ToBaseFixedIsScaledBaseFactor(u: Unit, acc: real)
    ensures FactorOf(ToBaseFixed(u, acc)) == Scaled(BaseFactor(u), acc)
    ensures ToBaseFixed(u, acc).Success? ==> ToBaseFixed(u, acc).value.offset == 0.0
    decreases u
  {
    if u.Singular? {
      if u.definition.Some? {
        ToBaseFixedIsScaledBaseFactor(u.definition.value, Times(acc, u.definitionFactor));
      }
      FixedAgreesThroughLink(u, acc);
    } else if u.Multiple? {
      if u.base.Some? {
        ToBaseFixedIsScaledBaseFactor(u.base.value, Times(acc, u.factor));
      }
      FixedAgreesThroughLink(u, acc);
    } else if u.Division? {
      ToBaseFixedIsScaledBaseFactor(u.numerator, 1.0);
      ToBaseFixedIsScaledBaseFactor(u.denominator, 1.0);
      FixedAgreesForQuotient(u, acc);
    } else if u.Multiplication? {
      ToBaseFixedIsScaledBaseFactor(u.term1, 1.0);
      ToBaseFixedIsScaledBaseFactor(u.term2, 1.0);
      FixedAgreesForProduct(u, acc);
    } else {
      ToBaseFixedIsScaledBaseFactor(u.radix, 1.0);
      FixedAgreesForPower(u, acc);
    }
  }

  /** From the accumulator 1 the corrected reduction's factor is the factor relative to the base. */
  lemma FixedReductionIsBaseFactor(u: Unit)
    ensures FactorOf(ToBaseFixed(u, 1.0)) == BaseFactor(u)
  {
    ToBaseFixedIsScaledBaseFactor(u, 1.0);
    if BaseFactor(u).Success? {
      TimesOne(BaseFactor(u).value);
    }
  }

  /**
   * No exponentiation is reached through the definition unit of a singular unit or the unit of a
   * multiple, the only places where the code's reduction accumulates a factor.
   */
  predicate NoScaledPower(u: Unit)
  {
    match u
    case Singular(_, _, def, _, _) => def.None? || (!def.value.Exponentiation? && NoScaledPower(def.value))
    case Multiple(_, _, b, _) => b.None? || (!b.value.Exponentiation? && NoScaledPower(b.value))
    case Division(_, _, n, d) => NoScaledPower(n) && NoScaledPower(d)
    case Multiplication(_, _, a, b) => NoScaledPower(a) && NoScaledPower(b)
    case Exponentiation(_, _, x, _) => NoScaledPower(x)
  }

  /**
   * Where no exponentiation sits below a scaled link, the code's reduction and the corrected one
   * agree on the factor; the defect is confined to exponentiations under singular units and
   * multiples.
   */
  lemma {:induction false} ToBaseAgreesWithoutScaledPower(u: Unit, acc: real)
    requires NoScaledPower(u)
    requires u.Exponentiation? ==> acc == 1.0
    ensures FactorOf(ToBase(u, acc)) == FactorOf(ToBaseFixed(u, acc))
    decreases u
  {
    if u.Singular? && u.definition.Some? {
      ToBaseAgreesWithoutScaledPower(u.definition.value, Times(acc, u.definitionFactor));
    } else if u.Multiple? && u.base.Some? {
      ToBaseAgreesWithoutScaledPower(u.base.value, Times(acc, u.factor));
    } else if u.Division? {
      ToBaseAgreesWithoutScaledPower(u.numerator, 1.0);
      ToBaseAgreesWithoutScaledPower(u.denominator, 1.0);
    } else if u.Multiplication? {
      ToBaseAgreesWithoutScaledPower(u.term1, 1.0);
      ToBaseAgreesWithoutScaledPower(u.term2, 1.0);
    } else if u.Exponentiation? {
      ToBaseAgreesWithoutScaledPower(u.radix, 1.0);
      if ToBase(u.radix, 1.0).Success? && Pow(ToBase(u.radix, 1.0).value.factor, u.exponent).Success? {
        assert Times(1.0, Pow(ToBase(u.radix, 1.0).value.factor, u.exponent).value)
          == Pow(ToBase(u.radix, 1.0).value.factor, u.exponent).value;
      }
    }
  }

  /** Every power of one is one. */
  lemma {:induction false} PowNatOfOne(n: nat)
    ensures PowNat(1.0, n) == 1.0
  {
    if n > 0 {
      PowNatOfOne(n - 1);
    }
  }

  /**
   * A unit defined as `f` times a power of a base unit (the litre, 0.001 cubic metre, is one): the
   * code reduces it to the factor 1 and the offset 1, dropping `f`.
   */
  lemma ScaledPowerLosesDefinitionFactor(u: Unit)
    requires u.Singular? && u.definition.Some? && u.definition.value.Exponentiation?
    requires u.definition.value.radix.Singular? && u.definition.value.radix.definition.None?
    requires u.definition.value.exponent >= 0
    ensures ToBase(u, 1.0) == Success(Transform(1.0, 1.0))
  {
    PowNatOfOne(u.definition.value.exponent);
    assert ToBase(u.definition.value.radix, 1.0) == Success(Transform(1.0, 0.0));
    assert Pow(1.0, u.definition.value.exponent) == Success(1.0);
    assert ToBase(u.definition.value, Times(1.0, u.definitionFactor)) == Success(Transform(1.0, 1.0));
  }

  /** The corrected reduction gives such a unit its definition factor `f`. */
  lemma ScaledPowerKeepsDefinitionFactor(u: Unit)
    requires u.Singular? && u.definition.Some? && u.definition.value.Exponentiation?
    requires u.definition.value.radix.Singular? && u.definition.value.radix.definition.None?
    requires u.definition.value.exponent >= 0
    ensures ToBaseFixed(u, 1.0) == Success(Transform(u.definitionFactor, 0.0))
  {
    PowNatOfOne(u.definition.value.exponent);
    TimesOne(u.definitionFactor);
    assert ToBaseFixed(u.definition.value.radix, 1.0) == Success(Transform(1.0, 0.0));
    assert Pow(1.0, u.definition.value.exponent) == Success(1.0);
    assert ToBaseFixed(u.definition.value, Times(1.0, u.definitionFactor))
      == Success(Transform(Times(Times(1.0, u.definitionFactor), 1.0), 0.0));
  }

  /**
   * The code's reduction of a scale: walk the definition chain to its base scale, multiplying the
   * factors and adding the definition offsets as they are. The result is the accumulated factor
   * times the product of the definition factors, and the accumulated offset plus their plain sum.
   */
  function ScaleToBase(s: Scale, factor: real, offset: real): (r: Transform)
    ensures r.factor == Times(factor, ChainFactor(s))
    ensures r.offset == offset + ChainOffset(s)
    decreases s
  {
    if s.definition.None? then
      TimesOne(factor);
      Transform(factor, offset)
    else
      TimesAssociates(factor, s.definitionFactor, ChainFactor(s.definition.value));
      ScaleToBase(s.definition.value, Times(factor, s.definitionFactor), offset + s.definitionOffset)
  }

  /** The product of the definition factors along a scale's definition chain. */
  function ChainFactor(s: Scale): real
    decreases s
  {
    if s.definition.None? then 1.0 else Times(s.definitionFactor, ChainFactor(s.definition.value))
  }

  /** The plain sum of the definition offsets along a scale's definition chain. */
  function ChainOffset(s: Scale): real
    decreases s
  {
    if s.definition.None? then 0.0 else s.definitionOffset + ChainOffset(s.definition.value)
  }

  /**
   * The scale reduction as evidently intended, reading a definition as
   * `value in scale = factor * value in definition scale + offset`: each offset met along the chain
   * is expressed in the starting scale, so it is multiplied by the factor accumulated so far.
   */
  function ScaleToBaseFixed(s: Scale, factor: real, offset: real): Transform
    decreases s
  {
    if s.definition.None? then Transform(factor, offset)
    else ScaleToBaseFixed(s.definition.value, Times(factor, s.definitionFactor), offset + Times(factor, s.definitionOffset))
  }

  /** The offset of a scale relative to its base, each definition offset rescaled into the scale. */
  function ChainOffsetFixed(s: Scale): real
    decreases s
  {
    if s.definition.None? then 0.0 else s.definitionOffset + Times(s.definitionFactor, ChainOffsetFixed(s.definition.value))
  }

  /** The corrected reduction composes the accumulated transform with the chain's affine map. */
  lemma {:induction false} ScaleToBaseFixedIsAffine(s: Scale, factor: real, offset: real)
    ensures ScaleToBaseFixed(s, factor, offset).factor == Times(factor, ChainFactor(s))
    ensures ScaleToBaseFixed(s, factor, offset).offset == offset + Times(factor, ChainOffsetFixed(s))
    decreases s
  {
    if s.definition.Some? {
      ScaleToBaseFixedIsAffine(s.definition.value, Times(factor, s.definitionFactor), offset + Times(factor, s.definitionOffset));
      TimesAssociates(factor, s.definitionFactor, ChainFactor(s.definition.value));
      TimesAssociates(factor, s.definitionFactor, ChainOffsetFixed(s.definition.value));
      assert Times(factor, s.definitionOffset + Times(s.definitionFactor, ChainOffsetFixed(s.definition.value)))
        == Times(factor, s.definitionOffset) + Times(factor, Times(s.definitionFactor, ChainOffsetFixed(s.definition.value)));
    } else {
      assert Times(factor, 1.0) == factor;
      assert Times(factor, 0.0) == 0.0;
    }
  }
}
