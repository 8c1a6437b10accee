/**
 * `SingularUnitImpl`: a unit with a name of its own, optionally defined as a multiple of another unit
 * (its definition unit) by a numerical value. Without a definition unit it is a base unit; without a
 * numerical value it is the definition unit under another name, with the value 1.
 *
 * The identifier is a parameter: the Java constructors without one draw it from `UnitImpl`, which is
 * not part of this model. Names are not modelled.
 */
module SingularUnits {
  import opened Wrappers
  import opened Dimensions
  import opened Units
  import opened Transforms
  import opened Reduction
  import opened Conversion

  /** The numerical value a singular unit takes when its constructor is given none. */
  const DefaultDefinitionFactor: real := 1.0

  /** `getDefinitionUnit`: the unit this one is defined in, absent for a base unit. */
  function DefinitionUnit(u: Unit): Option<Unit>
    requires u.Singular?
  {
    u.definition
  }

  /** `getDefinitionNumericalValue`: how many definition units make one of this unit. */
  function DefinitionNumericalValue(u: Unit): real
    requires u.Singular?
  {
    u.definitionFactor
  }

  /**
   * Every `SingularUnitImpl` constructor: the definition unit and the numerical value are stored as
   * given, an absent numerical value defaults to 1. A singular unit without a definition unit is
   * taken to be dimensionless (its dimension comes from `UnitImpl`, which is not part of this model);
   * one with a definition unit has that unit's dimension.
   */
  function NewSingularUnit(id: Id, symbol: Option<string>, definition: Option<Unit>, factor: Option<real>): (u: Unit)
    ensures u.Singular? && u.id == id && u.symbol == symbol
    ensures DefinitionUnit(u) == definition
    ensures factor.Some? ==> DefinitionNumericalValue(u) == factor.value
    ensures factor.None? ==> DefinitionNumericalValue(u) == DefaultDefinitionFactor
    ensures definition.None? ==> Dim(u) == Some(Dimensionless())
    ensures definition.Some? ==> Dim(u) == Dim(definition.value)
  {
    Singular(id, symbol, definition, factor.GetOr(DefaultDefinitionFactor), Dimensionless())
  }

  /**
   * A base unit of base dimension `dimension` (`BaseUnitImpl`, which is not part of this model): a
   * singular unit with no definition unit, the value 1, and the base dimension as its dimension.
   */
  function NewBaseUnit(id: Id, symbol: Option<string>, dimension: string): (u: Unit)
    ensures u.Singular? && u.id == id && u.symbol == symbol
    ensures DefinitionUnit(u).None? && DefinitionNumericalValue(u) == 1.0
    ensures Dim(u) == Some(BaseDimension(dimension))
  {
    Singular(id, symbol, None, 1.0, BaseDimension(dimension))
  }

  /**
   * A singular unit without a definition unit is its own base: reduction returns the accumulated
   * factor with offset 0, in the code's reduction and in the corrected one alike, whatever numerical
   * value it carries.
   */
  lemma UndefinedUnitIsBase(u: Unit, acc: real)
    requires u.Singular? && DefinitionUnit(u).None?
    ensures ToBase(u, acc) == Success(Transform(acc, 0.0))
    ensures ToBaseFixed(u, acc) == Success(Transform(acc, 0.0))
    ensures BaseFactor(u) == Success(1.0)
  {
  }

  /**
   * A singular unit built without a numerical value is its definition unit under another name:
   * converting between them is the identity.
   */
  lemma DefaultFactorConvertsAsIdentity(id: Id, symbol: Option<string>, d: Unit)
    requires Dim(d).Some? && ToBase(d, 1.0).Success? && ToBase(d, 1.0).value.factor != 0.0
    ensures ComputeUnitConversion(NewSingularUnit(id, symbol, Some(d), None), d) == Success(Identity)
  {
    var u := NewSingularUnit(id, symbol, Some(d), None);
    TimesOne(1.0);
    assert ToBase(u, 1.0) == ToBase(d, 1.0);
    QuotientOfSelf(ToBase(d, 1.0).value.factor);
  }

  /**
   * The numerical value multiplies: `v` of a singular unit defined as `f` definition units is
   * `v * f` definition units (one astronomical unit is 1.495978707e11 metres). The corrected engine
   * always gives this; the code's engine gives it unless an exponentiation is reached through a
   * scaled link from the definition unit.
   */
  lemma FactorMultiplies(id: Id, symbol: Option<string>, d: Unit, f: real, v: real)
    requires Dim(d).Some? && BaseFactor(d).Success? && BaseFactor(d).value != 0.0
    ensures ComputeUnitConversionFixed(NewSingularUnit(id, symbol, Some(d), Some(f)), d).Success?
    ensures Apply(ComputeUnitConversionFixed(NewSingularUnit(id, symbol, Some(d), Some(f)), d).value, v) == v * f
    ensures NoScaledPower(d) && !d.Exponentiation? ==>
      && ComputeUnitConversion(NewSingularUnit(id, symbol, Some(d), Some(f)), d).Success?
      && Apply(ComputeUnitConversion(NewSingularUnit(id, symbol, Some(d), Some(f)), d).value, v) == v * f
  {
    var u := NewSingularUnit(id, symbol, Some(d), Some(f));
    LinkedUnitConversion(u, d, f);
    ApplyWithoutOffset(ComputeUnitConversionFixed(u, d).value, f, v);
    if NoScaledPower(d) && !d.Exponentiation? {
      ApplyWithoutOffset(ComputeUnitConversion(u, d).value, f, v);
    }
  }
}
