/**
 * Measurement scales. A scale has a unit and is optionally defined against a parent scale by a factor
 * and an offset; a scale without a definition scale is a base scale. The Java class `ScaleImpl` is
 * not part of this model: its constructor defaults (factor 1, offset 0 when no definition scale is
 * given) are assumptions.
 */
module Scales {
  import opened Wrappers
  import opened Units

  datatype Scale = Scale(
    id: Id,
    symbol: Option<string>,
    unit: Option<Unit>,
    definition: Option<Scale>,
    definitionFactor: real,
    definitionOffset: real)

  /** A base scale on `unit`, as built by `new ScaleImpl(unit)` and its named variants. */
  function NewScale(id: Id, symbol: Option<string>, unit: Option<Unit>): (s: Scale)
    ensures s.id == id && s.unit == unit
    ensures s.definition.None?
  {
    Scale(id, symbol, unit, None, 1.0, 0.0)
  }

  /**
   * A scale defined against `definition`; the Java constructor takes the offset before the factor,
   * and so does this function.
   */
  function NewDefinedScale(id: Id, symbol: Option<string>, definition: Option<Scale>, offset: real, factor: real, unit: Option<Unit>): (s: Scale)
    ensures s.id == id && s.unit == unit && s.definition == definition
    ensures s.definitionFactor == factor && s.definitionOffset == offset
  {
    Scale(id, symbol, unit, definition, factor, offset)
  }
}
