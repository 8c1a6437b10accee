/**
 * The conversion engine of `AbstractUnitConversionFactory`: derives the affine transform between two
 * units or two scales from their reductions, guards it with null and dimension checks, rewraps every
 * internal failure as a conversion error carrying the operands, and memoises unit transforms in a
 * cache threaded through the calls.
 */
module Conversion {
  import opened Wrappers
  import opened Units
  import opened Scales
  import opened Transforms
  import opened Reduction

  /**
   * A key of the engine's cache. The Java map is keyed by pairs of arbitrary objects: the unit path
   * stores and looks up identifier pairs, looks up the reverse direction as a pair of units, and the
   * scale path looks up pairs of scales. Keys of different kinds never collide.
   */
  datatype CacheKey =
    | IdKey(sourceId: Id, targetId: Id)
    | UnitKey(sourceUnit: Unit, targetUnit: Unit)
    | ScaleKey(sourceScale: Scale, targetScale: Scale)

  type Cache = map<CacheKey, Transform>

  /** Why a conversion failed: an absent operand, or a failure inside the guarded computation. */
  datatype Cause = NullSource | NullTarget | Wrapped(failure: Failure)

  /** `UnitConversionException` and `ScaleConversionException`, with their source and target. */
  datatype ConversionError =
    | UnitConversionError(sourceUnit: Option<Unit>, targetUnit: Option<Unit>, cause: Cause)
    | ScaleConversionError(sourceScale: Option<Scale>, targetScale: Option<Scale>, cause: Cause)

  /** The outcome of one engine call together with the cache it leaves behind. */
  datatype Step = Step(result: Result<Transform, ConversionError>, cache: Cache)

  /** A converted value together with the cache the conversion leaves behind. */
  datatype Converted = Converted(value: Result<real, ConversionError>, cache: Cache)

  /** Only identifier pairs are stored, which is all the engine itself ever stores. */
  ghost predicate IdKeyed(c: Cache)
  {
    forall k :: k in c ==> k.IdKey?
  }

  /**
   * The checks `getUnitConversion` makes before reducing: both dimensions must be known, since asking
   * a unit whose tree reaches an absent unit for its dimension throws, and equal. `None` when they
   * pass.
   */
  function UnitGuard(s: Unit, t: Unit): (r: Option<Failure>)
    ensures r.None? <==> Dim(s).Some? && Dim(t).Some? && Dim(s).value == Dim(t).value
    ensures r == Some(DimensionMismatch) <==> Dim(s).Some? && Dim(t).Some? && Dim(s).value != Dim(t).value
  {
    if Dim(s).None? || Dim(t).None? then Some(NullReference)
    else if Dim(s).value != Dim(t).value then Some(DimensionMismatch)
    else None
  }

  /**
   * The unit transform between two reductions: the source's factor over the target's, with offset
   * 0. A failed reduction fails it, the source's first, and so does a zero target factor.
   */
  function Quotient(b1: Result<Transform, Failure>, b2: Result<Transform, Failure>): (r: Result<Transform, Failure>)
    ensures r.Success? <==> b1.Success? && b2.Success? && b2.value.factor != 0.0
    ensures r.Success? ==> r.value.offset == 0.0 && Times(r.value.factor, b2.value.factor) == b1.value.factor
    ensures b1.Failure? ==> r == Failure(b1.error)
  {
    if b1.Failure? then Failure(b1.error)
    else if b2.Failure? then Failure(b2.error)
    else if b2.value.factor == 0.0 then Failure(NonFinite)
    else
      DivideThenTimes(b2.value.factor, b1.value.factor);
      Success(Transform(b1.value.factor / b2.value.factor, 0.0))
  }

  /**
   * The transform from `s` to `t` computed afresh, as the code computes it: both dimensions must be
   * known and equal, both units must reduce with the code's reduction, and the transform multiplies
   * by the factor that takes the target's base factor to the source's, with offset 0.
   */
  function ComputeUnitConversion(s: Unit, t: Unit): (r: Result<Transform, Failure>)
    ensures r.Success? <==> && Dim(s).Some? && Dim(t).Some? && Dim(s).value == Dim(t).value
                            && ToBase(s, 1.0).Success? && ToBase(t, 1.0).Success? && ToBase(t, 1.0).value.factor != 0.0
    ensures r.Success? ==> r.value.offset == 0.0 && Times(r.value.factor, ToBase(t, 1.0).value.factor) == ToBase(s, 1.0).value.factor
    ensures Dim(s).Some? && Dim(t).Some? && Dim(s).value != Dim(t).value ==> r == Failure(DimensionMismatch)
  {
    if UnitGuard(s, t).Some? then Failure(UnitGuard(s, t).value)
    else Quotient(ToBase(s, 1.0), ToBase(t, 1.0))
  }

  /** The same computation with the corrected reduction of finding 1. */
  function ComputeUnitConversionFixed(s: Unit, t: Unit): (r: Result<Transform, Failure>)
    ensures r.Success? <==> && Dim(s).Some? && Dim(t).Some? && Dim(s).value == Dim(t).value
                            && BaseFactor(s).Success? && BaseFactor(t).Success? && BaseFactor(t).value != 0.0
    ensures r.Success? ==> r.value.offset == 0.0 && Times(r.value.factor, BaseFactor(t).value) == BaseFactor(s).value
    ensures Dim(s).Some? && Dim(t).Some? && Dim(s).value != Dim(t).value ==> r == Failure(DimensionMismatch)
  {
    FixedReductionIsBaseFactor(s);
    FixedReductionIsBaseFactor(t);
    if UnitGuard(s, t).Some? then Failure(UnitGuard(s, t).value)
    else Quotient(ToBaseFixed(s, 1.0), ToBaseFixed(t, 1.0))
  }

  /**
   * Where no exponentiation sits below a scaled link on either side, the code's transform and the
   * corrected one are the same, failures included.
   */
  lemma ConversionAgreesWithoutScaledPower(s: Unit, t: Unit)
    requires NoScaledPower(s) && NoScaledPower(t)
    ensures ComputeUnitConversion(s, t) == ComputeUnitConversionFixed(s, t)
  {
    ToBaseAgreesWithoutScaledPower(s, 1.0);
    ToBaseAgreesWithoutScaledPower(t, 1.0);
    assert Quotient(ToBase(s, 1.0), ToBase(t, 1.0)) == Quotient(ToBaseFixed(s, 1.0), ToBaseFixed(t, 1.0));
  }

  /**
   * The engine-level effect of finding 1: a singular unit defined as `f` times a non-negative power of
   * a base unit converts into that power by the identity, where the corrected engine applies `f`.
   */
  lemma ScaledPowerConvertsByOne(u: Unit)
    requires u.Singular? && u.definition.Some? && u.definition.value.Exponentiation?
    requires u.definition.value.radix.Singular? && u.definition.value.radix.definition.None?
    requires u.definition.value.exponent >= 0
    ensures ComputeUnitConversion(u, u.definition.value) == Success(Identity)
    ensures ComputeUnitConversionFixed(u, u.definition.value) == Success(Transform(u.definitionFactor, 0.0))
  {
    var p := u.definition.value;
    ScaledPowerLosesDefinitionFactor(u);
    PowNatOfOne(p.exponent);
    assert ToBase(p, 1.0) == Success(Transform(1.0, 1.0));
    QuotientOfSelf(1.0);
    ScaledPowerKeepsDefinitionFactor(u);
    assert ToBaseFixed(p, 1.0) == Success(Transform(Times(1.0, 1.0), 0.0));
    TimesOne(u.definitionFactor);
  }

  /**
   * `getUnitConversion`: reject absent operands before touching the cache; return a transform cached
   * under the identifier pair, or the inverse of one cached under the reversed unit pair; otherwise
   * compute it, store it under the identifier pair and return it. Any failure after the null checks
   * is wrapped with both operands.
   */
  function GetUnitConversion(cache: Cache, source: Option<Unit>, target: Option<Unit>): (r: Step)
    ensures r.result.Failure? ==> r.result.error == UnitConversionError(source, target, r.result.error.cause)
    ensures r.result.Failure? ==> (r.result.error.cause == NullSource <==> source.None?)
    ensures r.result.Failure? ==> (r.result.error.cause == NullTarget <==> source.Some? && target.None?)
    ensures forall k :: k in cache ==> k in r.cache && r.cache[k] == cache[k]
    ensures forall k :: k in r.cache && k !in cache ==>
      source.Some? && target.Some? && k == IdKey(source.value.id, target.value.id) && r.result == Success(r.cache[k])
    ensures source.Some? && target.Some? && IdKey(source.value.id, target.value.id) in cache ==>
      r == Step(Success(cache[IdKey(source.value.id, target.value.id)]), cache)
    ensures source.Some? && target.Some? && IdKey(source.value.id, target.value.id) !in cache
            && UnitKey(target.value, source.value) in cache ==>
      r == Step(Wrap(source.value, target.value, Invert(cache[UnitKey(target.value, source.value)])), cache)
    ensures source.Some? && target.Some? && IdKey(source.value.id, target.value.id) !in cache
            && UnitKey(target.value, source.value) !in cache ==>
      r.result == Wrap(source.value, target.value, ComputeUnitConversion(source.value, target.value))
    ensures source.Some? && target.Some? && IdKey(source.value.id, target.value.id) !in cache
            && UnitKey(target.value, source.value) !in cache && r.result.Success? ==>
      r.cache == cache[IdKey(source.value.id, target.value.id) := r.result.value]
  {
    if source.None? then Step(Failure(UnitConversionError(source, target, NullSource)), cache)
    else if target.None? then Step(Failure(UnitConversionError(source, target, NullTarget)), cache)
    else
      var s := source.value;
      var t := target.value;
      var key := IdKey(s.id, t.id);
      if key in cache then Step(Success(cache[key]), cache)
      else if UnitKey(t, s) in cache then
        var inverse := Invert(cache[UnitKey(t, s)]);
        if inverse.Failure? then Step(Failure(UnitConversionError(source, target, Wrapped(inverse.error))), cache)
        else Step(Success(inverse.value), cache)
      else
        var computed := ComputeUnitConversion(s, t);
        if computed.Failure? then Step(Failure(UnitConversionError(source, target, Wrapped(computed.error))), cache)
        else Step(Success(computed.value), cache[key := computed.value])
  }

  /** `convertDoubleValueToUnit`: obtain the transform and apply it to `v`. */
  function ConvertUnitValue(cache: Cache, v: real, source: Option<Unit>, target: Option<Unit>): (r: Converted)
    ensures r.cache == GetUnitConversion(cache, source, target).cache
    ensures r.value.Success? <==> GetUnitConversion(cache, source, target).result.Success?
    ensures r.value.Success? ==> r.value.value == Apply(GetUnitConversion(cache, source, target).result.value, v)
  {
    var step := GetUnitConversion(cache, source, target);
    if step.result.Failure? then Converted(Failure(step.result.error), step.cache)
    else Converted(Success(Apply(step.result.value, v)), step.cache)
  }

  /** An absent operand is reported the same way whatever the cache holds. */
  lemma NullOperandIgnoresCache(c1: Cache, c2: Cache, source: Option<Unit>, target: Option<Unit>)
    requires source.None? || target.None?
    ensures GetUnitConversion(c1, source, target).result == GetUnitConversion(c2, source, target).result
    ensures GetUnitConversion(c1, source, target).cache == c1
  {
  }

  /**
   * The cache is sound for an environment `env` that maps every identifier to its unit when every
   * entry is an identifier pair of `env` holding the transform computed afresh for that pair.
   */
  ghost predicate CacheSound(c: Cache, env: map<Id, Unit>)
  {
    forall k :: k in c ==>
      && k.IdKey?
      && k.sourceId in env && k.targetId in env
      && ComputeUnitConversion(env[k.sourceId], env[k.targetId]) == Success(c[k])
  }

  /** The fresh computation wrapped as `getUnitConversion` reports it. */
  function Wrap(s: Unit, t: Unit, r: Result<Transform, Failure>): Result<Transform, ConversionError>
  {
    if r.Success? then Success(r.value) else Failure(UnitConversionError(Some(s), Some(t), Wrapped(r.error)))
  }

  /**
   * With a sound cache and units that their identifiers determine, the cache is transparent: the
   * engine returns exactly the freshly computed transform, and the cache stays sound.
   */
  lemma CachedConversionIsFresh(c: Cache, env: map<Id, Unit>, s: Unit, t: Unit)
    requires CacheSound(c, env)
    requires s.id in env && env[s.id] == s && t.id in env && env[t.id] == t
    ensures GetUnitConversion(c, Some(s), Some(t)).result == Wrap(s, t, ComputeUnitConversion(s, t))
    ensures CacheSound(GetUnitConversion(c, Some(s), Some(t)).cache, env)
    ensures IdKeyed(GetUnitConversion(c, Some(s), Some(t)).cache)
  {
    assert UnitKey(t, s) !in c;
  }

  /**
   * Once a conversion has succeeded, its transform is cached under the identifier pair, unless it was
   * served inverted from the reversed unit pair; asking again returns the same transform and leaves
   * the cache alone.
   */
  lemma RepeatCallHitsCache(c: Cache, s: Unit, t: Unit)
    requires GetUnitConversion(c, Some(s), Some(t)).result.Success?
    ensures UnitKey(t, s) in c || IdKey(s.id, t.id) in GetUnitConversion(c, Some(s), Some(t)).cache
    ensures var first := GetUnitConversion(c, Some(s), Some(t));
            GetUnitConversion(first.cache, Some(s), Some(t)) == first
  {
    var first := GetUnitConversion(c, Some(s), Some(t));
    if IdKey(s.id, t.id) !in c && UnitKey(t, s) !in c {
      assert IdKey(s.id, t.id) in first.cache;
    } else if IdKey(s.id, t.id) !in c {
      assert first.cache == c;
      assert IdKey(s.id, t.id) !in first.cache;
    }
  }

  /**
   * Converting a unit to itself is the identity, and it succeeds exactly when the unit has a known
   * dimension and reduces to a nonzero factor.
   */
  lemma UnitConversionToItself(u: Unit)
    ensures ComputeUnitConversion(u, u).Success? <==>
      Dim(u).Some? && ToBase(u, 1.0).Success? && ToBase(u, 1.0).value.factor != 0.0
    ensures ComputeUnitConversion(u, u).Success? ==> ComputeUnitConversion(u, u).value == Identity
  {
    if Dim(u).Some? && ToBase(u, 1.0).Success? && ToBase(u, 1.0).value.factor != 0.0 {
      QuotientOfSelf(ToBase(u, 1.0).value.factor);
    }
  }

  /**
   * Inverting the transform from `s` to `t` gives exactly the transform from `t` to `s`, including
   * its failure when the source's base factor is zero.
   */
  lemma UnitInverseAgreesWithReverse(s: Unit, t: Unit)
    requires ComputeUnitConversion(s, t).Success?
    ensures Invert(ComputeUnitConversion(s, t).value) == ComputeUnitConversion(t, s)
  {
    var b1 := ToBase(s, 1.0).value.factor;
    var b2 := ToBase(t, 1.0).value.factor;
    assert ComputeUnitConversion(s, t).value == Transform(b1 / b2, 0.0);
    if b1 != 0.0 {
      QuotientReciprocal(b1, b2);
      assert ComputeUnitConversion(t, s) == Success(Transform(b2 / b1, 0.0));
    }
  }

  /** Converting a value from `s` to `t` and back gives the value again. */
  lemma UnitRoundTrip(s: Unit, t: Unit, v: real)
    requires ComputeUnitConversion(s, t).Success? && ComputeUnitConversion(t, s).Success?
    ensures Apply(ComputeUnitConversion(t, s).value, Apply(ComputeUnitConversion(s, t).value, v)) == v
  {
    UnitInverseAgreesWithReverse(s, t);
    InvertRoundTrip(ComputeUnitConversion(s, t).value, v);
  }

  /** Quotients chain: `a/b` times `b/c` is `a/c`. */
  lemma QuotientsChain(a: real, b: real, c: real)
    requires b != 0.0 && c != 0.0
    ensures Times(a / b, b / c) == a / c
  {
  }

  /** Converting from `a` to `b` and then from `b` to `c` is converting from `a` to `c`. */
  lemma UnitConversionComposes(a: Unit, b: Unit, c: Unit)
    requires ComputeUnitConversion(a, b).Success? && ComputeUnitConversion(b, c).Success?
    ensures ComputeUnitConversion(a, c).Success?
    ensures ComputeUnitConversion(a, c).value.factor
      == Times(ComputeUnitConversion(a, b).value.factor, ComputeUnitConversion(b, c).value.factor)
  {
    var fa, fb, fc := ToBase(a, 1.0).value.factor, ToBase(b, 1.0).value.factor, ToBase(c, 1.0).value.factor;
    assert ComputeUnitConversion(a, b).value.factor == fa / fb;
    assert ComputeUnitConversion(b, c).value.factor == fb / fc;
    assert ComputeUnitConversion(a, c).value.factor == fa / fc;
    QuotientsChain(fa, fb, fc);
  }

  /**
   * Converting a singular unit into its definition unit, or a unit multiple into its unit, applies
   * exactly the definition's factor (the kilometre-to-metre factor 1000, say), wherever the unit
   * referred to sits in its own definition chain. The corrected engine always does; the code's
   * engine does unless an exponentiation is reached through a scaled link from the unit referred to.
   */
  lemma LinkedUnitConversion(u: Unit, d: Unit, f: real)
    requires || (u.Singular? && u.definition == Some(d) && u.definitionFactor == f)
             || (u.Multiple? && u.base == Some(d) && u.factor == f)
    requires Dim(d).Some? && BaseFactor(d).Success? && BaseFactor(d).value != 0.0
    ensures ComputeUnitConversionFixed(u, d) == Success(Transform(f, 0.0))
    ensures NoScaledPower(d) && !d.Exponentiation? ==> ComputeUnitConversion(u, d) == Success(Transform(f, 0.0))
  {
    var b := BaseFactor(d).value;
    assert BaseFactor(u) == Success(Times(f, b));
    LinkedFactor(ComputeUnitConversionFixed(u, d).value.factor, f, b);
    if NoScaledPower(d) && !d.Exponentiation? {
      assert NoScaledPower(u);
      ConversionAgreesWithoutScaledPower(u, d);
    }
  }

  /** The only factor that takes `b` to `f * b`, for nonzero `b`, is `f`. */
  lemma LinkedFactor(q: real, f: real, b: real)
    requires b != 0.0 && Times(q, b) == Times(f, b)
    ensures q == f
  {
    assert (q - f) * b == 0.0;
  }

  /**
   * With a sound cache, converting a value from `s` to `t` and then from `t` back to `s` through the
   * engine gives the value again.
   */
  lemma CachedUnitRoundTrip(c: Cache, env: map<Id, Unit>, s: Unit, t: Unit, v: real)
    requires CacheSound(c, env)
    requires s.id in env && env[s.id] == s && t.id in env && env[t.id] == t
    requires ComputeUnitConversion(s, t).Success? && ComputeUnitConversion(t, s).Success?
    ensures var there := ConvertUnitValue(c, v, Some(s), Some(t));
            && there.value.Success?
            && ConvertUnitValue(there.cache, there.value.value, Some(t), Some(s)).value == Success(v)
  {
    CachedConversionIsFresh(c, env, s, t);
    var there := ConvertUnitValue(c, v, Some(s), Some(t));
    CachedConversionIsFresh(there.cache, env, t, s);
    UnitRoundTrip(s, t, v);
  }

  /**
   * The checks `getScaleConversion` makes before reducing: both scales need units of known and equal
   * dimension. `None` when they pass.
   */
  function ScaleGuard(s: Scale, t: Scale): (r: Option<Failure>)
    ensures r.None? <==> s.unit.Some? && t.unit.Some? && Dim(s.unit.value).Some? && Dim(t.unit.value).Some?
                         && Dim(s.unit.value).value == Dim(t.unit.value).value
    ensures r == Some(DimensionMismatch) <==> s.unit.Some? && t.unit.Some? && Dim(s.unit.value).Some? && Dim(t.unit.value).Some?
                                              && Dim(s.unit.value).value != Dim(t.unit.value).value
  {
    if s.unit.None? || Dim(s.unit.value).None? || t.unit.None? || Dim(t.unit.value).None? then Some(NullReference)
    else if Dim(s.unit.value).value != Dim(t.unit.value).value then Some(DimensionMismatch)
    else None
  }

  /**
   * The transform from scale `s` to scale `t` as the code computes it: after the guard, both scales
   * reduce with the code's reduction, and the transform is the one that, composed after the source's
   * reduction, gives the target's. It fails exactly when the source's chain factor is zero.
   */
  function ComputeScaleConversion(s: Scale, t: Scale): (r: Result<Transform, Failure>)
    ensures r.Success? <==> ScaleGuard(s, t).None? && ChainFactor(s) != 0.0
    ensures r.Success? ==> forall x :: Apply(r.value, Apply(ScaleToBase(s, 1.0, 0.0), x)) == Apply(ScaleToBase(t, 1.0, 0.0), x)
    ensures ScaleGuard(s, t).Some? ==> r == Failure(ScaleGuard(s, t).value)
  {
    TimesOne(ChainFactor(s));
    if ScaleGuard(s, t).Some? then Failure(ScaleGuard(s, t).value)
    else Between(ScaleToBase(s, 1.0, 0.0), ScaleToBase(t, 1.0, 0.0))
  }

  /** The same computation with the corrected scale reduction of finding 3. */
  function ComputeScaleConversionFixed(s: Scale, t: Scale): (r: Result<Transform, Failure>)
    ensures r.Success? <==> ScaleGuard(s, t).None? && ChainFactor(s) != 0.0
    ensures r.Success? ==> forall x :: Apply(r.value, Apply(ScaleToBaseFixed(s, 1.0, 0.0), x)) == Apply(ScaleToBaseFixed(t, 1.0, 0.0), x)
    ensures ScaleGuard(s, t).Some? ==> r == Failure(ScaleGuard(s, t).value)
  {
    ScaleToBaseFixedIsAffine(s, 1.0, 0.0);
    TimesOne(ChainFactor(s));
    if ScaleGuard(s, t).Some? then Failure(ScaleGuard(s, t).value)
    else Between(ScaleToBaseFixed(s, 1.0, 0.0), ScaleToBaseFixed(t, 1.0, 0.0))
  }

  /** The fresh scale computation wrapped as `getScaleConversion` reports it. */
  function WrapScale(s: Scale, t: Scale, r: Result<Transform, Failure>): Result<Transform, ConversionError>
  {
    if r.Success? then Success(r.value) else Failure(ScaleConversionError(Some(s), Some(t), Wrapped(r.error)))
  }

  /**
   * `getScaleConversion`: reject absent operands; look up the scale pair and the reversed pair, the
   * latter inverted; otherwise compute the transform. Nothing is stored.
   */
  function GetScaleConversion(cache: Cache, source: Option<Scale>, target: Option<Scale>): (r: Step)
    ensures r.cache == cache
    ensures r.result.Failure? ==> r.result.error == ScaleConversionError(source, target, r.result.error.cause)
    ensures r.result.Failure? ==> (r.result.error.cause == NullSource <==> source.None?)
    ensures r.result.Failure? ==> (r.result.error.cause == NullTarget <==> source.Some? && target.None?)
    ensures source.Some? && target.Some? && ScaleKey(source.value, target.value) in cache ==>
      r.result == Success(cache[ScaleKey(source.value, target.value)])
    ensures source.Some? && target.Some? && ScaleKey(source.value, target.value) !in cache
            && ScaleKey(target.value, source.value) in cache ==>
      r.result == WrapScale(source.value, target.value, Invert(cache[ScaleKey(target.value, source.value)]))
    ensures source.Some? && target.Some? && ScaleKey(source.value, target.value) !in cache
            && ScaleKey(target.value, source.value) !in cache ==>
      r.result == WrapScale(source.value, target.value, ComputeScaleConversion(source.value, target.value))
  {
    if source.None? then Step(Failure(ScaleConversionError(source, target, NullSource)), cache)
    else if target.None? then Step(Failure(ScaleConversionError(source, target, NullTarget)), cache)
    else
      var s := source.value;
      var t := target.value;
      if ScaleKey(s, t) in cache then Step(Success(cache[ScaleKey(s, t)]), cache)
      else if ScaleKey(t, s) in cache then
        var inverse := Invert(cache[ScaleKey(t, s)]);
        if inverse.Failure? then Step(Failure(ScaleConversionError(source, target, Wrapped(inverse.error))), cache)
        else Step(Success(inverse.value), cache)
      else
        var computed := ComputeScaleConversion(s, t);
        if computed.Failure? then Step(Failure(ScaleConversionError(source, target, Wrapped(computed.error))), cache)
        else Step(Success(computed.value), cache)
  }

  /** `convertDoubleValueToScale`: obtain the transform and apply it to `v`. */
  function ConvertScaleValue(cache: Cache, v: real, source: Option<Scale>, target: Option<Scale>): (r: Converted)
    ensures r.cache == cache
    ensures r.value.Success? <==> GetScaleConversion(cache, source, target).result.Success?
    ensures r.value.Success? ==> r.value.value == Apply(GetScaleConversion(cache, source, target).result.value, v)
  {
    var step := GetScaleConversion(cache, source, target);
    if step.result.Failure? then Converted(Failure(step.result.error), step.cache)
    else Converted(Success(Apply(step.result.value, v)), step.cache)
  }

  /**
   * Since the engine only stores identifier pairs, the scale lookups never hit: every scale conversion
   * on such a cache is computed afresh.
   */
  lemma ScaleLookupsNeverHit(c: Cache, s: Scale, t: Scale)
    requires IdKeyed(c)
    ensures GetScaleConversion(c, Some(s), Some(t)).result == WrapScale(s, t, ComputeScaleConversion(s, t))
  {
    assert ScaleKey(s, t) !in c && ScaleKey(t, s) !in c;
  }

  /** Converting a scale to itself is the identity whenever it succeeds. */
  lemma ScaleConversionToItself(s: Scale)
    ensures ComputeScaleConversion(s, s).Success? ==> ComputeScaleConversion(s, s).value == Identity
  {
    if ComputeScaleConversion(s, s).Success? {
      assert ScaleGuard(s, s).None?;
      assert ComputeScaleConversion(s, s) == Between(ScaleToBase(s, 1.0, 0.0), ScaleToBase(s, 1.0, 0.0));
      BetweenItself(ScaleToBase(s, 1.0, 0.0));
    }
  }

  /**
   * Inverting the transform from scale `s` to scale `t` gives exactly the transform from `t` to `s`,
   * including its failure when the target reduces to a zero factor.
   */
  lemma ScaleInverseAgreesWithReverse(s: Scale, t: Scale)
    requires ComputeScaleConversion(s, t).Success?
    ensures Invert(ComputeScaleConversion(s, t).value) == ComputeScaleConversion(t, s)
  {
    assert ScaleGuard(s, t).None?;
    assert ScaleGuard(t, s).None?;
    assert ComputeScaleConversion(s, t) == Between(ScaleToBase(s, 1.0, 0.0), ScaleToBase(t, 1.0, 0.0));
    assert ComputeScaleConversion(t, s) == Between(ScaleToBase(t, 1.0, 0.0), ScaleToBase(s, 1.0, 0.0));
    BetweenInverse(ScaleToBase(s, 1.0, 0.0), ScaleToBase(t, 1.0, 0.0));
  }

  /**
   * Two scales with units of the same known dimension and nonzero chain factors convert both ways,
   * and converting a value from `s` to `t` and back gives the value again.
   */
  lemma ScaleRoundTrip(s: Scale, t: Scale, v: real)
    requires ScaleGuard(s, t).None? && ChainFactor(s) != 0.0 && ChainFactor(t) != 0.0
    ensures ComputeScaleConversion(s, t).Success? && ComputeScaleConversion(t, s).Success?
    ensures Apply(ComputeScaleConversion(t, s).value, Apply(ComputeScaleConversion(s, t).value, v)) == v
  {
    assert ScaleGuard(t, s).None?;
    ScaleInverseAgreesWithReverse(s, t);
    InvertRoundTrip(ComputeScaleConversion(s, t).value, v);
  }

  /**
   * With the corrected reduction, converting from a scale's definition scale `p` into the scale
   * applies exactly the definition: the factor and offset from the definition scale, wherever `p`
   * itself sits in its chain.
   */
  lemma DefinitionScaleConversion(s: Scale)
    requires s.definition.Some? && ScaleGuard(s.definition.value, s).None?
    requires ChainFactor(s.definition.value) != 0.0
    ensures ComputeScaleConversionFixed(s.definition.value, s) == Success(Transform(s.definitionFactor, s.definitionOffset))
  {
    ScaleToBaseFixedIsAffine(s.definition.value, 1.0, 0.0);
    TimesOne(ChainFactor(s.definition.value));
    TimesOne(ChainOffsetFixed(s.definition.value));
    assert ScaleToBaseFixed(s.definition.value, 1.0, 0.0)
      == Transform(ChainFactor(s.definition.value), ChainOffsetFixed(s.definition.value));
    TimesOne(s.definitionFactor);
    TimesOne(s.definitionOffset);
    assert ScaleToBaseFixed(s, 1.0, 0.0) == ScaleToBaseFixed(s.definition.value, s.definitionFactor, s.definitionOffset);
    ScaleToBaseFixedIsAffine(s.definition.value, s.definitionFactor, s.definitionOffset);
    BetweenRescaled(ChainFactor(s.definition.value), ChainOffsetFixed(s.definition.value), s.definitionFactor, s.definitionOffset);
  }

  /**
   * The code's conversion from a scale's definition scale `p` into the scale: the factor is right,
   * but the offset is the definition offset plus `p`'s summed chain offset times `1 - factor`.
   */
  lemma DefinitionScaleConversionAsWritten(s: Scale)
    requires s.definition.Some? && ScaleGuard(s.definition.value, s).None?
    requires ChainFactor(s.definition.value) != 0.0
    ensures ComputeScaleConversion(s.definition.value, s) == Success(Transform(s.definitionFactor,
      s.definitionOffset + ChainOffset(s.definition.value) - Times(ChainOffset(s.definition.value), s.definitionFactor)))
  {
    TimesOne(ChainFactor(s.definition.value));
    assert ScaleToBase(s.definition.value, 1.0, 0.0)
      == Transform(ChainFactor(s.definition.value), ChainOffset(s.definition.value));
    TimesOne(s.definitionFactor);
    assert ScaleToBase(s, 1.0, 0.0) == ScaleToBase(s.definition.value, s.definitionFactor, s.definitionOffset);
    BetweenShifted(ChainFactor(s.definition.value), ChainOffset(s.definition.value), s.definitionFactor, s.definitionOffset);
  }

  /**
   * The discrepancy: once the definition scale itself carries an offset from its base and the
   * definition factor is not one, the code's transform from the definition scale differs from the
   * definition.
   */
  lemma DefinitionScaleOffsetMisplaced(s: Scale)
    requires s.definition.Some? && ScaleGuard(s.definition.value, s).None?
    requires ChainFactor(s.definition.value) != 0.0
    requires ChainOffset(s.definition.value) != 0.0 && s.definitionFactor != 1.0
    ensures ComputeScaleConversion(s.definition.value, s) != ComputeScaleConversionFixed(s.definition.value, s)
  {
    DefinitionScaleConversion(s);
    DefinitionScaleConversionAsWritten(s);
    TimesMoves(ChainOffset(s.definition.value), s.definitionFactor);
  }
}
