# om-java-libs conversion engine and unit registry, in Dafny

This project models three parts of the om-java-libs units-of-measure library, and proves properties of the model:

- The conversion engine of `AbstractUnitConversionFactory`.
  - It reduces a unit tree to a factor relative to its ultimate base unit.
  - It reduces a measurement scale's definition chain to a factor and an offset.
  - It composes two reductions into the affine transform `v * factor + offset`.
  - It inverts transforms and memoises unit transforms in a cache.
  - It reports absent operands, dimension mismatches and internal failures as conversion errors carrying both operands.
- The registry `DefaultUnitAndScaleFactory`.
  - It keeps every unit and scale under its identifier, and every unit in a bucket for its dimension.
  - The `create*` methods built from units only return an equal unit already filed instead of registering a new one.
  - The named and identified variants always register.
- The two unit classes whose code is shown: `UnitMultipleImpl` and `SingularUnitImpl`.
  - For `UnitMultipleImpl`: dimension delegation, structural equality, symbol synthesis and getters.
  - For `SingularUnitImpl`: definition unit and numerical-value defaults.

Units are a closed datatype (`Units.Unit`), so every definition chain is finite. Doubles are modelled as `real`.

Java's `null` is modelled as `Option` where the code handles it: operands of a conversion, a singular unit's definition unit, a multiple's unit, and a scale's unit and definition scale. Following an absent unit gives the failure `NullReference`, the model of a `NullPointerException`. Inside the engine it is then wrapped into a conversion error, as the Java `catch (Throwable)` does.

The engine is a set of pure functions. Each call takes the cache and returns the cache it leaves behind. The registry is threaded the same way.

Several classes the code relies on are not part of this model. Their behaviour is stated as assumptions:

- Dimensions are maps from base-dimension name to integer exponent. A compound unit's dimension is derived from its parts.
- A unit that is neither a multiple nor a compound equals another only when their identifiers are equal. Products are equal in either term order. Quotients and powers are compared position by position.
- A base unit is a singular unit with no definition unit whose dimension is its base dimension.
- A singular unit built without a definition unit is dimensionless.

A scale defined from another by `(factor, offset)` reads `value in scale = factor * value in definition scale + offset`, as the code's conversion `v * factor + offset` computes it. In this convention Celsius is defined from kelvin with factor 1 and offset -273.15.

The engine (`Conversion.GetUnitConversion`, `Conversion.GetScaleConversion`) follows the code: it is built on the code's reductions `Reduction.ToBase` and `Reduction.ScaleToBase`. Findings 1 and 3 below correct those reductions. The corrected engine is kept separately as `Conversion.ComputeUnitConversionFixed` and `Conversion.ComputeScaleConversionFixed`, and lemmas show where the two agree and where they differ.

## Model

Source paths are relative to the repository root.

| member | source | states |
|---|---|---|
| Transforms.Apply | OM-java-conversion/src/main/java/nl/wur/fbr/om/conversion/AbstractUnitConversionFactory.java:258-260 | Applying the identity leaves a value unchanged, and a transform with factor 0 gives its offset whatever the value. |
| Transforms.Between | OM-java-conversion/src/main/java/nl/wur/fbr/om/conversion/AbstractUnitConversionFactory.java:157-159 | The transform between two reductions exists exactly when the first has a nonzero factor. Applied after the first reduction, it gives the second reduction of every value. |
| Transforms.Invert | OM-java-conversion/src/main/java/nl/wur/fbr/om/conversion/AbstractUnitConversionFactory.java:248-251 | Inverting succeeds exactly when the factor is nonzero (Java would produce infinities otherwise). The inverse factor times the factor is 1, and the inverse offset is minus the offset times the inverse factor. |
| Transforms.InvertRoundTrip | OM-java-conversion/src/main/java/nl/wur/fbr/om/conversion/AbstractUnitConversionFactory.java:248-260 | For a nonzero factor, converting a value and then converting it back with the inverse gives the value again, in either order. |
| Transforms.InvertInvolution | OM-java-conversion/src/main/java/nl/wur/fbr/om/conversion/AbstractUnitConversionFactory.java:248-251 | Inverting twice gives back the original transform. |
| Transforms.BetweenInverse | OM-java-conversion/src/main/java/nl/wur/fbr/om/conversion/AbstractUnitConversionFactory.java:157-159 | The transform from reduction `a` to reduction `b`, inverted, is exactly the transform from `b` to `a`, including its failure when `b`'s factor is zero. |
| Transforms.BetweenItself | OM-java-conversion/src/main/java/nl/wur/fbr/om/conversion/AbstractUnitConversionFactory.java:157-159 | The transform from a reduction with a nonzero factor to itself is the identity. |
| Units.Dim | OM-java-core/src/main/java/nl/wur/fbr/om/core/impl/units/UnitMultipleImpl.java:143-146 | A dimension is known exactly when no absent unit is reached through the unit's tree. A multiple has its unit's dimension, and a singular unit without a definition unit has its own base dimension. |
| Units.Equal | OM-java-core/src/main/java/nl/wur/fbr/om/core/impl/units/UnitMultipleImpl.java:157-170 | Equal identifiers always make two units equal. Units with different identifiers are equal only when both are built by the same constructor, and never when the receiver is a singular unit. |
| Units.EqualReflexive | OM-java-core/src/main/java/nl/wur/fbr/om/core/impl/units/UnitMultipleImpl.java:157-170 | Every unit equals itself. |
| Units.EqualSymmetric | OM-java-core/src/main/java/nl/wur/fbr/om/core/impl/units/UnitMultipleImpl.java:157-170 | Equality gives the same answer whichever unit is the receiver. This holds although a multiple asks the other multiple's unit to compare itself with its own. |
| Units.MultipleEquality | OM-java-core/src/main/java/nl/wur/fbr/om/core/impl/units/UnitMultipleImpl.java:157-170 | Two multiples with different identifiers are equal exactly when the following holds: their units are both absent or both present and equal, and their factors are identical. An absent unit never equals a present one. |
| Units.MultiplicationEqualityIgnoresOrder | OM-java-core/src/main/java/nl/wur/fbr/om/core/impl/units/UnitMultipleImpl.java:157-170 | A product equals every product of the same two terms in swapped order, whatever the identifiers and symbols. |
| Scales.NewScale | OM-java-core/src/main/java/nl/wur/fbr/om/core/factory/DefaultUnitAndScaleFactory.java:732-768 | A scale built without a definition scale keeps its identifier and unit, and is a base scale. |
| Scales.NewDefinedScale | OM-java-core/src/main/java/nl/wur/fbr/om/core/factory/DefaultUnitAndScaleFactory.java:784-834 | A defined scale stores its definition scale, offset and factor as given. The offset comes before the factor, as in the Java signature. |
| Reduction.Pow | OM-java-conversion/src/main/java/nl/wur/fbr/om/conversion/AbstractUnitConversionFactory.java:204-208 | `Math.pow` for integer exponents fails exactly for a negative power of zero. A non-negative power is the repeated product, and a negative power is its reciprocal. |
| Reduction.ToBase | OM-java-conversion/src/main/java/nl/wur/fbr/om/conversion/AbstractUnitConversionFactory.java:178-210 | A unit whose tree reaches an absent unit cannot be reduced. A successful reduction has offset 0, except for a unit whose chain of definition units and multiples ends at an exponentiation, which gets offset 1. |
| Reduction.MultiplicationOrderIrrelevant | OM-java-conversion/src/main/java/nl/wur/fbr/om/conversion/AbstractUnitConversionFactory.java:197-203 | A product reduces to the same transform, or fails alike, whichever order its terms are in. |
| Reduction.ExponentiationIgnoresAccumulator | OM-java-conversion/src/main/java/nl/wur/fbr/om/conversion/AbstractUnitConversionFactory.java:204-208 | The code reduces an exponentiation to the same transform whatever factor was accumulated above it. |
| Reduction.ScaledPowerLosesDefinitionFactor | OM-java-conversion/src/main/java/nl/wur/fbr/om/conversion/AbstractUnitConversionFactory.java:179-208 | Take a singular unit defined as `f` times a non-negative power of a base unit, such as the litre as 0.001 m³. The code reduces it to factor 1 and offset 1, losing `f`. |
| Reduction.ScaledPowerKeepsDefinitionFactor | OM-java-conversion/src/main/java/nl/wur/fbr/om/conversion/AbstractUnitConversionFactory.java:179-208 | The corrected reduction gives that unit factor `f` and offset 0. |
| Reduction.ToBaseFixedIsScaledBaseFactor | OM-java-conversion/src/main/java/nl/wur/fbr/om/conversion/AbstractUnitConversionFactory.java:178-210 | The corrected reduction is the accumulated factor times the unit's factor relative to its base. That factor is given by an independent definition without an accumulator. The corrected reduction fails exactly where that definition fails, and its offset is 0. |
| Reduction.ToBaseAgreesWithoutScaledPower | OM-java-conversion/src/main/java/nl/wur/fbr/om/conversion/AbstractUnitConversionFactory.java:178-210 | The code's and the corrected reductions agree on the factor unless an exponentiation sits below a singular unit's definition or a multiple. |
| Reduction.ScaleToBase | OM-java-conversion/src/main/java/nl/wur/fbr/om/conversion/AbstractUnitConversionFactory.java:212-218 | The code's scale reduction gives the accumulated factor times the product of the definition factors along the chain, and the accumulated offset plus the plain sum of the definition offsets. |
| Reduction.ScaleToBaseFixedIsAffine | OM-java-conversion/src/main/java/nl/wur/fbr/om/conversion/AbstractUnitConversionFactory.java:212-218 | The corrected scale reduction composes the affine maps along the chain. Each offset is multiplied by the factors of the links above it. |
| Conversion.UnitGuard | OM-java-conversion/src/main/java/nl/wur/fbr/om/conversion/AbstractUnitConversionFactory.java:104-108 | The unit path passes its checks exactly when both dimensions are known and equal. Known but different dimensions give a dimension mismatch. |
| Conversion.Quotient | OM-java-conversion/src/main/java/nl/wur/fbr/om/conversion/AbstractUnitConversionFactory.java:111-114 | The transform between two reductions succeeds exactly when both reductions do and the target's factor is nonzero. Its offset is 0, and its factor times the target's factor is the source's factor. A failed source reduction is reported first. |
| Conversion.ComputeUnitConversion | OM-java-conversion/src/main/java/nl/wur/fbr/om/conversion/AbstractUnitConversionFactory.java:104-114 | As the code computes it: converting `s` to `t` succeeds exactly when both dimensions are known and equal and the code reduces both, the target to a nonzero factor. The transform has offset 0, and its factor times the target's base factor is the source's. Known but different dimensions give a dimension mismatch. |
| Conversion.ComputeUnitConversionFixed | OM-java-conversion/src/main/java/nl/wur/fbr/om/conversion/AbstractUnitConversionFactory.java:104-114 | With the corrected reduction, the same conversion succeeds exactly when both dimensions are known and equal and both factors relative to the base are defined, the target's nonzero. Its factor times the target's factor relative to its base is the source's, with offset 0. |
| Conversion.ConversionAgreesWithoutScaledPower | OM-java-conversion/src/main/java/nl/wur/fbr/om/conversion/AbstractUnitConversionFactory.java:178-210 | When no exponentiation is reached through a scaled link on either side, the code's transform and the corrected one are identical, failures included. |
| Conversion.ScaledPowerConvertsByOne | OM-java-conversion/src/main/java/nl/wur/fbr/om/conversion/AbstractUnitConversionFactory.java:204-208 | Take a singular unit defined as `f` times a non-negative power of a base unit, such as the litre as 0.001 m³. The code converts it into that power by the identity, while the corrected engine applies `f`. |
| Conversion.GetUnitConversion | OM-java-conversion/src/main/java/nl/wur/fbr/om/conversion/AbstractUnitConversionFactory.java:88-122 | A failure carries both operands. Its cause is an absent source exactly when the source is absent, and an absent target exactly when only the target is absent. A transform cached under the identifier pair is returned as it is. Failing that, one cached under the reversed unit pair is returned inverted. Otherwise the fresh computation is returned, wrapped as an error when it fails. A fresh transform that succeeds is stored under the identifier pair of the operands, and nothing else changes in the cache. Entries already cached are kept unchanged, and no other entry is ever added. |
| Conversion.ConvertUnitValue | OM-java-conversion/src/main/java/nl/wur/fbr/om/conversion/AbstractUnitConversionFactory.java:49-53 | Converting a value succeeds exactly when obtaining the transform does. It then applies the transform, and leaves the cache the transform lookup leaves. |
| Conversion.NullOperandIgnoresCache | OM-java-conversion/src/main/java/nl/wur/fbr/om/conversion/AbstractUnitConversionFactory.java:89-94 | An absent operand is reported before the cache is consulted: the result does not depend on the cache, and the cache is unchanged. |
| Conversion.CachedConversionIsFresh | OM-java-conversion/src/main/java/nl/wur/fbr/om/conversion/AbstractUnitConversionFactory.java:98-115 | The cache is sound if every entry holds the freshly computed transform for its identifier pair. With a sound cache, the engine returns exactly the fresh computation, wrapped as an error when it fails. The cache stays sound and holds identifier pairs only. |
| Conversion.RepeatCallHitsCache | OM-java-conversion/src/main/java/nl/wur/fbr/om/conversion/AbstractUnitConversionFactory.java:98-115 | After a successful conversion, its transform is cached under the identifier pair, unless it was served inverted from the reversed unit pair. Asking again returns the same transform and leaves the cache as it is. |
| Conversion.UnitConversionToItself | OM-java-conversion/src/main/java/nl/wur/fbr/om/conversion/AbstractUnitConversionFactory.java:111-114 | Converting a unit to itself succeeds exactly when its dimension is known and the code reduces it to a nonzero factor. The result is then the identity. |
| Conversion.UnitInverseAgreesWithReverse | OM-java-conversion/src/main/java/nl/wur/fbr/om/conversion/AbstractUnitConversionFactory.java:101-114 | Inverting the transform from `s` to `t` gives exactly the transform computed from `t` to `s`, including its failure. |
| Conversion.UnitRoundTrip | OM-java-conversion/src/main/java/nl/wur/fbr/om/conversion/AbstractUnitConversionFactory.java:111-114 | Converting a value from `s` to `t` and back gives the value again. |
| Conversion.UnitConversionComposes | OM-java-conversion/src/main/java/nl/wur/fbr/om/conversion/AbstractUnitConversionFactory.java:111-114 | If `a` converts to `b` and `b` to `c`, then `a` converts to `c`, and the factor is the product of the two factors. |
| Conversion.LinkedUnitConversion | OM-java-conversion/src/main/java/nl/wur/fbr/om/conversion/AbstractUnitConversionFactory.java:179-190 | Take a singular unit and its definition unit, or a multiple and its unit, where the unit referred to has a nonzero factor relative to its base. The corrected engine converts between them by exactly the definition's factor with offset 0, wherever the unit referred to sits in its own chain. The code's engine does the same when no exponentiation is reached through a scaled link from the unit referred to. |
| Conversion.CachedUnitRoundTrip | OM-java-conversion/src/main/java/nl/wur/fbr/om/conversion/AbstractUnitConversionFactory.java:49-122 | With a sound cache, converting a value from `s` to `t` and then back, through the engine and the cache it leaves, gives the value again. |
| Conversion.ScaleGuard | OM-java-conversion/src/main/java/nl/wur/fbr/om/conversion/AbstractUnitConversionFactory.java:147-150 | Scale conversion passes its checks exactly when both scales have units, both dimensions are known, and they are equal. Known but different dimensions give a dimension mismatch. |
| Conversion.ComputeScaleConversion | OM-java-conversion/src/main/java/nl/wur/fbr/om/conversion/AbstractUnitConversionFactory.java:147-163 | As the code computes it: converting scale `s` to scale `t` succeeds exactly when the scale checks pass and the product of `s`'s definition factors is nonzero. Applied after `s`'s reduction by the code, the transform gives `t`'s reduction of every value. A failed check is reported as it is. |
| Conversion.ComputeScaleConversionFixed | OM-java-conversion/src/main/java/nl/wur/fbr/om/conversion/AbstractUnitConversionFactory.java:147-163 | With the corrected scale reduction, the same conversion succeeds exactly when the checks pass and the product of `s`'s definition factors is nonzero. Applied after `s`'s corrected reduction, it gives `t`'s corrected reduction of every value. |
| Conversion.GetScaleConversion | OM-java-conversion/src/main/java/nl/wur/fbr/om/conversion/AbstractUnitConversionFactory.java:131-168 | A scale conversion never changes the cache. A failure carries both scales, with an absent-source or absent-target cause exactly when that operand is absent. A transform cached under the scale pair is returned as it is. Failing that, one cached under the reversed pair is returned inverted. Otherwise the code's fresh computation is returned, wrapped as an error when it fails. |
| Conversion.ConvertScaleValue | OM-java-conversion/src/main/java/nl/wur/fbr/om/conversion/AbstractUnitConversionFactory.java:64-68 | Converting a value between scales succeeds exactly when obtaining the transform does, and then applies it. |
| Conversion.ScaleLookupsNeverHit | OM-java-conversion/src/main/java/nl/wur/fbr/om/conversion/AbstractUnitConversionFactory.java:141-144 | While the cache holds only identifier pairs, which is all the engine stores, the two scale-pair lookups never hit. Every scale conversion returns the fresh computation, wrapped as an error when it fails. |
| Conversion.ScaleConversionToItself | OM-java-conversion/src/main/java/nl/wur/fbr/om/conversion/AbstractUnitConversionFactory.java:152-163 | A successful conversion of a scale to itself is the identity. |
| Conversion.ScaleInverseAgreesWithReverse | OM-java-conversion/src/main/java/nl/wur/fbr/om/conversion/AbstractUnitConversionFactory.java:152-163 | Inverting the transform from scale `s` to scale `t` gives exactly the transform from `t` to `s`, including its failure. |
| Conversion.ScaleRoundTrip | OM-java-conversion/src/main/java/nl/wur/fbr/om/conversion/AbstractUnitConversionFactory.java:152-163 | When both scales have units of the same known dimension and nonzero chain factors, both directions convert, and converting a value from `s` to `t` and back gives the value again. |
| Conversion.DefinitionScaleConversion | OM-java-conversion/src/main/java/nl/wur/fbr/om/conversion/AbstractUnitConversionFactory.java:152-163 | With the corrected scale reduction, converting from a scale's definition scale into the scale applies exactly the definition's factor and offset, at any depth of the chain. |
| Conversion.DefinitionScaleConversionAsWritten | OM-java-conversion/src/main/java/nl/wur/fbr/om/conversion/AbstractUnitConversionFactory.java:212-218 | The code's conversion from a scale's definition scale `p` into the scale has the definition's factor `f`. Its offset is the definition offset plus `p`'s summed chain offset times `1 - f`. |
| Conversion.DefinitionScaleOffsetMisplaced | OM-java-conversion/src/main/java/nl/wur/fbr/om/conversion/AbstractUnitConversionFactory.java:212-218 | When the definition scale itself has an offset from its base and the definition factor is not 1, the code's transform differs from the corrected one. |
| SingularUnits.NewSingularUnit | OM-java-core/src/main/java/nl/wur/fbr/om/core/impl/units/SingularUnitImpl.java:20-176 | The constructors store the definition unit as given. They store the numerical value as given, or 1 when none is given. Without a definition unit the dimension is dimensionless; with one it is the definition unit's. |
| SingularUnits.NewBaseUnit | OM-java-core/src/main/java/nl/wur/fbr/om/core/factory/DefaultUnitAndScaleFactory.java:162-202 | A base unit has no definition unit, numerical value 1, and its base dimension. |
| SingularUnits.UndefinedUnitIsBase | OM-java-conversion/src/main/java/nl/wur/fbr/om/conversion/AbstractUnitConversionFactory.java:179-182 | A singular unit without a definition unit reduces to the accumulated factor with offset 0, whatever numerical value it carries. Its factor relative to its base is 1. |
| SingularUnits.DefaultFactorConvertsAsIdentity | OM-java-core/src/main/java/nl/wur/fbr/om/core/impl/units/SingularUnitImpl.java:39-42 | A singular unit built with a definition unit and no numerical value converts to that unit by the identity, whenever the code reduces the definition unit to a nonzero factor. |
| SingularUnits.FactorMultiplies | OM-java-core/src/main/java/nl/wur/fbr/om/core/impl/units/SingularUnitImpl.java:52-56 | With the corrected engine, `v` of a singular unit defined as `f` definition units converts to `v * f` definition units: the numerical value multiplies. The code's engine gives the same when no exponentiation is reached through a scaled link from the definition unit. |
| UnitMultiples.JavaIntCast | OM-java-core/src/main/java/nl/wur/fbr/om/core/impl/units/UnitMultipleImpl.java:41-42 | The `(int)` cast truncates toward zero within the `int` range and saturates at its bounds. |
| UnitMultiples.NatToDecimalRoundTrip | OM-java-core/src/main/java/nl/wur/fbr/om/core/impl/units/UnitMultipleImpl.java:42 | The decimal digits of a natural number are non-empty digits with no leading zero, and read back as the number. |
| UnitMultiples.IntToDecimalRoundTrip | OM-java-core/src/main/java/nl/wur/fbr/om/core/impl/units/UnitMultipleImpl.java:42 | The decimal text of an `int`, with an optional minus sign, reads back as the number. |
| UnitMultiples.SynthesizedSymbol | OM-java-core/src/main/java/nl/wur/fbr/om/core/impl/units/UnitMultipleImpl.java:40-46 | A symbol is made up exactly when the unit and its symbol are present. For a factor above 1 it is the truncated factor followed by the unit's symbol; otherwise it is the rendered double followed by the unit's symbol. |
| UnitMultiples.SynthesizedSymbolShowsWholeFactor | OM-java-core/src/main/java/nl/wur/fbr/om/core/impl/units/UnitMultipleImpl.java:40-46 | For a factor between 1 and the `int` maximum, the made-up symbol is a decimal numeral followed by the unit's symbol, and the numeral reads back as the whole part of the factor. |
| UnitMultiples.NewUnitMultiple | OM-java-core/src/main/java/nl/wur/fbr/om/core/impl/units/UnitMultipleImpl.java:36-90 | The getters return the unit and factor given. A given symbol is kept; without one the symbol is made up. The dimension is the unit's, and an absent unit has none. |
| UnitMultiples.NewIdentifiedUnitMultiple | OM-java-core/src/main/java/nl/wur/fbr/om/core/impl/units/UnitMultipleImpl.java:102-106 | The identifier constructor keeps the symbol exactly as given, absent or not. It never makes one up. |
| UnitMultiples.MultiplesOfSameUnitAreEqual | OM-java-core/src/main/java/nl/wur/fbr/om/core/impl/units/UnitMultipleImpl.java:157-170 | Multiples of the same unit with the same factor are equal whatever their identifiers and symbols. With different identifiers, an absent unit and a present unit are never equal. |
| UnitMultiples.MultipleConvertsByFactor | OM-java-core/src/main/java/nl/wur/fbr/om/core/impl/units/UnitMultipleImpl.java:115-129 | With the corrected engine, converting `v` of a multiple into its unit gives `v` times the factor. The code's engine gives the same when no exponentiation is reached through a scaled link from the unit. |
| Registry.EmptyIsConsistent | OM-java-core/src/main/java/nl/wur/fbr/om/core/factory/DefaultUnitAndScaleFactory.java:82-87 | The fresh factory satisfies the invariant. Every identifier maps to the unit or scale with that identifier, and every bucket is non-empty and holds only units of its dimension. |
| Registry.GetUnitOrScale | OM-java-core/src/main/java/nl/wur/fbr/om/core/factory/DefaultUnitAndScaleFactory.java:131-138 | A lookup succeeds exactly for a registered identifier and returns its entry. Otherwise it fails with the identifier, never making up a unit. |
| Registry.GetUnitsInDimension | OM-java-core/src/main/java/nl/wur/fbr/om/core/factory/DefaultUnitAndScaleFactory.java:147-151 | Returns the bucket of the dimension, or the empty list when there is none. |
| Registry.AddUnit | OM-java-core/src/main/java/nl/wur/fbr/om/core/factory/DefaultUnitAndScaleFactory.java:870-879 | The unit is filed under its identifier, replacing an earlier entry. On success it is appended to its dimension's bucket, and no other identifier or bucket changes. When its dimension cannot be computed, the identifier entry is still written, the buckets are unchanged and the call fails. The invariant is preserved. |
| Registry.LookupAfterAddUnit | OM-java-core/src/main/java/nl/wur/fbr/om/core/factory/DefaultUnitAndScaleFactory.java:870-871 | After adding, the unit's identifier finds the unit, and every other identifier finds what it found before. |
| Registry.BucketsAfterAddUnit | OM-java-core/src/main/java/nl/wur/fbr/om/core/factory/DefaultUnitAndScaleFactory.java:872-878 | After adding, the unit's bucket is the old bucket with the unit appended, and every other bucket is unchanged. |
| Registry.AddScale | OM-java-core/src/main/java/nl/wur/fbr/om/core/factory/DefaultUnitAndScaleFactory.java:885-887 | A scale is filed under its identifier only, and no bucket changes. The invariant is preserved. |
| Registry.ScalesStayOutOfBuckets | OM-java-core/src/main/java/nl/wur/fbr/om/core/factory/DefaultUnitAndScaleFactory.java:885-887 | A scale added is found under its identifier, and every bucket of units is what it was. |
| Registry.IndexOfEqual | OM-java-core/src/main/java/nl/wur/fbr/om/core/factory/DefaultUnitAndScaleFactory.java:857-858 | Finds the first position holding a unit the argument equals, with the argument as receiver. It finds none exactly when no element is equal. |
| Registry.CheckExistingAndAddUnit | OM-java-core/src/main/java/nl/wur/fbr/om/core/factory/DefaultUnitAndScaleFactory.java:853-864 | A unit of unknown dimension fails and changes nothing. If an equal unit is filed, the first such unit is returned and nothing changes. Otherwise the unit is added as `addUnit` does and returned. Any unit returned is equal to the argument and filed in its bucket. The invariant is preserved. |
| Registry.CheckExistingIdempotent | OM-java-core/src/main/java/nl/wur/fbr/om/core/factory/DefaultUnitAndScaleFactory.java:853-864 | A second call with the same unit returns what the first returned and leaves the registry as the first call left it. |
| Registry.SecondCreationReturnsFirst | OM-java-core/src/main/java/nl/wur/fbr/om/core/factory/DefaultUnitAndScaleFactory.java:853-864 | Rebuild a unit under a second fresh identifier, where the unit equals its renamed self. This returns the instance filed the first time and registers nothing. |
| Registry.Deduplicated | OM-java-core/src/main/java/nl/wur/fbr/om/core/factory/DefaultUnitAndScaleFactory.java:583-587 | A deduplicating create method leaves the registry as `checkExistingAndAddUnit` does. It succeeds exactly when that succeeds with a unit of the class the method casts to. |
| Registry.Registered | OM-java-core/src/main/java/nl/wur/fbr/om/core/factory/DefaultUnitAndScaleFactory.java:600-604 | A registering create method always files the new unit under its identifier. It succeeds exactly when the unit's dimension is known. It then appends the unit to its bucket and changes no other identifier or bucket; otherwise no bucket changes. |
| Registry.DeduplicatingVersusRegistering | OM-java-core/src/main/java/nl/wur/fbr/om/core/factory/DefaultUnitAndScaleFactory.java:853-879 | When an equal unit is filed, deduplication leaves the registry unchanged, while registration still grows the bucket by one. |
| Registry.CreateBaseUnit | OM-java-core/src/main/java/nl/wur/fbr/om/core/factory/DefaultUnitAndScaleFactory.java:162-166 | Any unit returned is a singular unit equal to the requested one. If an equal unit is filed, the first such unit is returned when it is a singular unit, and otherwise the cast fails; either way nothing changes. Otherwise the new base unit is filed under its identifier, appended to its bucket and returned. |
| Registry.CreateNamedBaseUnit | OM-java-core/src/main/java/nl/wur/fbr/om/core/factory/DefaultUnitAndScaleFactory.java:180-202 | The named and identified variants always file the new base unit under its identifier, append it to its bucket and return it. |
| Registry.CreateSingularUnit | OM-java-core/src/main/java/nl/wur/fbr/om/core/factory/DefaultUnitAndScaleFactory.java:265-373 | Covers the three variants built from units only (265-269, 314-318, 369-373). Any unit returned is a singular unit equal to the requested one. If an equal unit is filed, the first such unit is returned when it is a singular unit, and otherwise the cast fails; either way nothing changes. Otherwise, when its dimension is known, the new unit is filed under its identifier, appended to its bucket and returned. When the unit's dimension is unknown, the dimension lookup fails with a null reference before anything is filed, and nothing changes. |
| Registry.CreateNamedSingularUnit | OM-java-core/src/main/java/nl/wur/fbr/om/core/factory/DefaultUnitAndScaleFactory.java:281-413 | Covers the six variants with a name (281-285, 298-302, 333-337, 352-356, 389-393, 409-413). The new unit is always filed under its identifier. The call succeeds exactly when the definition unit is absent or of known dimension, and then appends the new unit to its bucket and returns it. On failure no bucket changes. |
| Registry.CreateUnitMultiple | OM-java-core/src/main/java/nl/wur/fbr/om/core/factory/DefaultUnitAndScaleFactory.java:508-512 | As written: the registry changes as with deduplication, but any unit returned is the new multiple. With the unit present, of known dimension and nothing equal filed, the new multiple is filed, appended to its bucket and returned. If an equal multiple is filed, the new multiple is returned instead of it and nothing changes; if the equal unit filed is not a multiple, the cast fails. An absent unit, or one of unknown dimension, fails with a null reference and changes nothing. |
| Registry.UnitMultipleDuplicateIsUnregistered | OM-java-core/src/main/java/nl/wur/fbr/om/core/factory/DefaultUnitAndScaleFactory.java:508-512 | When an equal multiple is filed and the new identifier is unused, the call succeeds, but the factory does not know the identifier of the unit it returned. |
| Registry.CreateUnitMultipleFixed | OM-java-core/src/main/java/nl/wur/fbr/om/core/factory/DefaultUnitAndScaleFactory.java:508-512 | Corrected: any unit returned is a multiple equal to the requested one and filed in its bucket. If an equal unit is filed, nothing changes, and the first such unit is returned when it is a multiple; otherwise the cast fails. If none is filed and the unit is present and of known dimension, the new multiple is filed, appended to its bucket and returned. An absent unit, or one of unknown dimension, fails with a null reference and changes nothing. |
| Registry.UnitMultipleFixedReturnsFiled | OM-java-core/src/main/java/nl/wur/fbr/om/core/factory/DefaultUnitAndScaleFactory.java:508-512 | With the correction, a duplicate request returns the first equal multiple filed. |
| Registry.CreateNamedUnitMultiple | OM-java-core/src/main/java/nl/wur/fbr/om/core/factory/DefaultUnitAndScaleFactory.java:529-553 | The named variants always file the new multiple under its identifier. They succeed exactly when its unit is present and of known dimension, and then append the new multiple to its bucket and return it. On failure no bucket changes. |
| Registry.CreateIdentifiedUnitMultiple | OM-java-core/src/main/java/nl/wur/fbr/om/core/factory/DefaultUnitAndScaleFactory.java:569-573 | The identified variant always files the new multiple, with the symbol as given. It succeeds exactly when the unit is present and of known dimension, and then appends the multiple to its bucket. On failure no bucket changes. |
| Registry.CreateUnitMultiplication | OM-java-core/src/main/java/nl/wur/fbr/om/core/factory/DefaultUnitAndScaleFactory.java:583-587 | Any unit returned is a product equal to the requested one. If an equal unit is filed, the first such unit is returned when it is a product, and otherwise the cast fails; either way nothing changes. Otherwise, with both dimensions known, the new product is filed under its identifier, appended to its bucket and returned. When the product's dimension is unknown, the dimension lookup fails with a null reference before anything is filed, and nothing changes. |
| Registry.CreateNamedUnitMultiplication | OM-java-core/src/main/java/nl/wur/fbr/om/core/factory/DefaultUnitAndScaleFactory.java:600-621 | Always files the new product under its identifier. It succeeds exactly when both terms have known dimensions, and then appends the product to its bucket. On failure no bucket changes. |
| Registry.CreateUnitDivision | OM-java-core/src/main/java/nl/wur/fbr/om/core/factory/DefaultUnitAndScaleFactory.java:632-636 | Any unit returned is a quotient equal to the requested one. If an equal unit is filed, the first such unit is returned when it is a quotient, and otherwise the cast fails; either way nothing changes. Otherwise, with both dimensions known, the new quotient is filed under its identifier, appended to its bucket and returned. When the quotient's dimension is unknown, the dimension lookup fails with a null reference before anything is filed, and nothing changes. |
| Registry.CreateNamedUnitDivision | OM-java-core/src/main/java/nl/wur/fbr/om/core/factory/DefaultUnitAndScaleFactory.java:650-672 | Always files the new quotient under its identifier. It succeeds exactly when both parts have known dimensions, and then appends the quotient to its bucket. On failure no bucket changes. |
| Registry.DivisionCreatedOnce | OM-java-core/src/main/java/nl/wur/fbr/om/core/factory/DefaultUnitAndScaleFactory.java:632-636 | Creating the same quotient twice under two fresh identifiers returns the first quotient the second time, and the registry does not change. |
| Registry.CreateUnitExponentiation | OM-java-core/src/main/java/nl/wur/fbr/om/core/factory/DefaultUnitAndScaleFactory.java:683-687 | Any unit returned is a power equal to the requested one. If an equal unit is filed, the first such unit is returned when it is a power, and otherwise the cast fails; either way nothing changes. Otherwise, with the base's dimension known, the new power is filed under its identifier, appended to its bucket and returned. When the power's dimension is unknown, the dimension lookup fails with a null reference before anything is filed, and nothing changes. |
| Registry.CreateNamedUnitExponentiation | OM-java-core/src/main/java/nl/wur/fbr/om/core/factory/DefaultUnitAndScaleFactory.java:701-723 | Always files the new power under its identifier. It succeeds exactly when its base has a known dimension, and then appends the power to its bucket. On failure no bucket changes. |
| Registry.CreateScale | OM-java-core/src/main/java/nl/wur/fbr/om/core/factory/DefaultUnitAndScaleFactory.java:732-768 | Always files the new base scale under its identifier and returns it. No bucket changes. |
| Registry.CreateDefinedScale | OM-java-core/src/main/java/nl/wur/fbr/om/core/factory/DefaultUnitAndScaleFactory.java:784-834 | Always files the new defined scale under its identifier and returns it. No bucket changes. |
| Registry.ScalesAreNeverDeduplicated | OM-java-core/src/main/java/nl/wur/fbr/om/core/factory/DefaultUnitAndScaleFactory.java:732-736 | Creating the same scale twice under two identifiers files both. |

## Left out

- The prefixed-unit create methods (`createPrefixedBaseUnit`, `createPrefixedUnit`, DefaultUnitAndScaleFactory.java:213-495): `PrefixedUnitImpl` and `PrefixedBaseUnitImpl` are not part of this model. The unit datatype has no prefixed variant.
- Bulk loading in `addUnitAndScaleSet` (DefaultUnitAndScaleFactory.java:97-116): it is reflective class loading.
- Names and alternative names of units and scales: plain attribute storage. The constructors that differ only in taking a name are modelled by one function.
- Identifier generation: the constructors without an identifier draw one from `UnitImpl` and `ScaleImpl`, which are not part of this model. Identifiers are parameters.
- Transforms.Invert: division by a zero factor is reported as a `NonFinite` failure. Java would carry on with infinite or NaN doubles. The same holds for a zero base factor in `Conversion.ComputeUnitConversion` and `Conversion.ComputeScaleConversion`, where Java would also cache the non-finite transform. It also holds for a zero denominator in a quotient (`Reduction.ToBase`) and a negative power of zero (`Reduction.Pow`). Rounding of doubles is not modelled: arithmetic is over `real`.
- Reduction.Pow: exponents are integers. `Math.pow` with a non-integer `double` exponent is not modelled, and neither are the `double` exponents of `createUnitExponentiation`.
- UnitMultiples.SynthesizedSymbol: Java's text for a `double` factor of at most 1 is the parameter `render`, not a model of `Double.toString`.
- `Dimension`, `UnitImpl.equals`, `BaseUnitImpl`, `ScaleImpl`, `UnitMultiplicationImpl`, `UnitDivisionImpl` and `UnitExponentiationImpl` are not part of this model. The following are assumptions:
  - their dimension rules and equality rules;
  - the dimension of a singular unit built without a definition unit;
  - the defaults of a scale without a definition scale;
  - products, quotients and powers built from units only carry no symbol.
- A dimension's `toString()` is the bucket key, and it is assumed to tell dimensions apart. `getUnitsInDimension(null)` would throw, but the model has no absent dimension.
- The terms of products and quotients and the base of a power are never absent in the model. A null term in Java would give a `NullPointerException` where the model cannot express one.
- The `return null` for an unrecognised unit class (AbstractUnitConversionFactory.java:209): the unit datatype is closed and has no other variant.
- A base unit and a singular unit without a definition unit are not told apart, so a `(BaseUnit)` cast failure on a filed singular unit is not modelled.
- The `conversion == null` checks in `convertDoubleValueToUnit` and `convertDoubleValueToScale` (AbstractUnitConversionFactory.java:51, 66): the transform is never null once obtained.
- Conversion.LinkedUnitConversion: for the code's engine, the definition's factor is promised only when no exponentiation is reached through a scaled link from the unit referred to. Below such a link the code loses the factor (finding 1, `Conversion.ScaledPowerConvertsByOne`).
- SingularUnits.FactorMultiplies: for the code's engine, promised under the same condition as `Conversion.LinkedUnitConversion`, for the same reason.
- UnitMultiples.MultipleConvertsByFactor: for the code's engine, promised under the same condition as `Conversion.LinkedUnitConversion`, for the same reason.
- Registry.GetUnitsInDimension: Java returns the factory's own list for a known dimension (DefaultUnitAndScaleFactory.java:148-149), so a caller that adds to or removes from it changes, and can empty, the registry's bucket. The model returns an immutable value, and `Registry.Consistent` assumes no caller does that.
- Debug output (`System.out.println`), and thread safety of the `HashMap`s.
- The interfaces `UnitAndScaleFactory`, `SingularUnit` and `UnitMultiplication`, and the quantity classes: declarations and delegation only.

## Findings

| source | as written | input that shows it | evidently intended | confidence | as-written member | corrected member |
|---|---|---|---|---|---|---|
| OM-java-conversion/src/main/java/nl/wur/fbr/om/conversion/AbstractUnitConversionFactory.java:204-208 | An exponentiation reduces to `(pow(base factor, exponent), 1.0)`, ignoring the factor accumulated above it. | A singular unit defined as 0.001 times the cube of a base unit (the litre as 0.001 m³) reduces to factor 1, so one litre would convert to one cubic metre. | Multiply the power by the accumulated factor, with offset 0. `Conversion.ComputeUnitConversionFixed` states the intended conversion through the factor relative to the base, and `Conversion.LinkedUnitConversion` proves that it applies the definition's factor. | high; not executed | Conversion.ScaledPowerConvertsByOne | Conversion.ComputeUnitConversionFixed |
| OM-java-core/src/main/java/nl/wur/fbr/om/core/factory/DefaultUnitAndScaleFactory.java:508-512 | `createUnitMultiple(unit, factor)` assigns the deduplication result to its parameter and returns the new multiple. | Take an equal multiple that is already filed, and a new multiple whose identifier is unused. The multiple returned is unknown to `getUnitOrScale`. | Return the filed multiple, as every other deduplicating create method does. `Registry.UnitMultipleFixedReturnsFiled` proves it. | high; not executed | Registry.UnitMultipleDuplicateIsUnregistered | Registry.CreateUnitMultipleFixed |
| OM-java-conversion/src/main/java/nl/wur/fbr/om/conversion/AbstractUnitConversionFactory.java:212-218 | Scale reduction adds the definition offsets as they are, without rescaling them by the factors below. | Scale `p` is defined from base scale `b` by factor 1 and offset 10, and scale `s` from `p` by factor 2 and offset 0. Converting from `p` to `s` gives offset -10 where the definition says 0. | Multiply each offset by the factor accumulated before it. `Conversion.DefinitionScaleConversion` proves that converting from a definition scale then applies exactly the definition. | medium; not executed | Conversion.DefinitionScaleOffsetMisplaced | Conversion.ComputeScaleConversionFixed |
