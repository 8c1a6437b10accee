/**
 * `UnitMultipleImpl`: a unit multiplied by a custom factor. Its dimension is its unit's, its getters
 * return what it was built with, and the constructors without an identifier synthesize a symbol from
 * the factor and the unit's symbol when none is given.
 */
module UnitMultiples {
  import opened Wrappers
  import opened Units
  import opened Transforms
  import opened Reduction
  import opened Conversion

  /** `Integer.MAX_VALUE` and `Integer.MIN_VALUE`. */
  const IntMax: int := 0x7fff_ffff
  const IntMin: int := -0x8000_0000

  /**
   * Java's `(int)` cast of a double: truncation toward zero, saturating at the bounds of `int`.
   */
  function JavaIntCast(x: real): (n: int)
    ensures IntMin <= n <= IntMax
    ensures 0.0 <= x < IntMax as real ==> n as real <= x < n as real + 1.0
    ensures IntMin as real < x <= 0.0 ==> n as real - 1.0 < x <= n as real
    ensures x >= IntMax as real ==> n == IntMax
    ensures x <= IntMin as real ==> n == IntMin
  {
    if x >= IntMax as real then IntMax
    else if x <= IntMin as real then IntMin
    else if x >= 0.0 then x.Floor
    else -((-x).Floor)
  }

  /** The character of a decimal digit. */
  function DigitChar(d: nat): char
    requires d < 10
  {
    (('0' as int) + d) as char
  }

  predicate IsDigit(c: char)
  {
    '0' <= c <= '9'
  }

  function DigitValue(c: char): nat
    requires IsDigit(c)
  {
    (c as int) - ('0' as int)
  }

  /** Decimal digits of a natural number, most significant first, with no leading zero. */
  function NatToDecimal(n: nat): string
    decreases n
  {
    if n < 10 then [DigitChar(n)] else NatToDecimal(n / 10) + [DigitChar(n % 10)]
  }

  /** `Integer.toString`: the decimal digits, with a leading minus sign for a negative number. */
  function IntToDecimal(n: int): string
  {
    if n < 0 then "-" + NatToDecimal(-n) else NatToDecimal(n)
  }

  predicate AllDigits(s: string)
  {
    forall i :: 0 <= i < |s| ==> IsDigit(s[i])
  }

  /** The value of a string of decimal digits. */
  function ParseDigits(s: string): nat
    requires AllDigits(s)
  {
    if |s| == 0 then 0 else ParseDigits(s[..|s| - 1]) * 10 + DigitValue(s[|s| - 1])
  }

  /** The value of a decimal numeral with an optional leading minus sign. */
  function ParseDecimal(s: string): int
    requires |s| > 0 && (if s[0] == '-' then AllDigits(s[1..]) else AllDigits(s))
  {
    if s[0] == '-' then -(ParseDigits(s[1..]) as int) else ParseDigits(s)
  }

  /** The digits of a natural number read back as that number, with no leading zero. */
  lemma {:induction false} NatToDecimalRoundTrip(n: nat)
    ensures |NatToDecimal(n)| > 0 && AllDigits(NatToDecimal(n))
    ensures ParseDigits(NatToDecimal(n)) == n
    ensures |NatToDecimal(n)| > 1 ==> NatToDecimal(n)[0] != '0'
    decreases n
  {
    if n >= 10 {
      NatToDecimalRoundTrip(n / 10);
      var s := NatToDecimal(n);
      assert s[..|s| - 1] == NatToDecimal(n / 10);
      assert DigitValue(s[|s| - 1]) == n % 10;
    }
  }

  /** `Integer.toString` read back gives the number again. */
  lemma IntToDecimalRoundTrip(n: int)
    ensures |IntToDecimal(n)| > 0
    ensures IntToDecimal(n)[0] == '-' ==> AllDigits(IntToDecimal(n)[1..])
    ensures IntToDecimal(n)[0] != '-' ==> AllDigits(IntToDecimal(n))
    ensures ParseDecimal(IntToDecimal(n)) == n
  {
    var s := IntToDecimal(n);
    if n < 0 {
      var m: nat := -n;
      var d := NatToDecimal(m);
      NatToDecimalRoundTrip(m);
      assert s == "-" + d;
      assert s[1..] == d;
    } else {
      var d := NatToDecimal(n);
      NatToDecimalRoundTrip(n);
      assert s == d;
      assert IsDigit(d[0]);
    }
  }

  /**
   * The symbol a unit multiple makes up from its factor and its unit's symbol: the factor truncated
   * to an `int` when it exceeds 1, Java's rendering of the double otherwise (`render`), followed by
   * the unit's symbol. No symbol when the unit or its symbol is absent.
   */
  function SynthesizedSymbol(unit: Option<Unit>, factor: real, render: real -> string): (r: Option<string>)
    ensures r.Some? <==> unit.Some? && unit.value.symbol.Some?
    ensures r.Some? && factor > 1.0 ==> r.value == IntToDecimal(JavaIntCast(factor)) + unit.value.symbol.value
    ensures r.Some? && factor <= 1.0 ==> r.value == render(factor) + unit.value.symbol.value
  {
    if unit.Some? && unit.value.symbol.Some? then
      if factor > 1.0 then Some(IntToDecimal(JavaIntCast(factor)) + unit.value.symbol.value)
      else Some(render(factor) + unit.value.symbol.value)
    else None
  }

  /**
   * For a factor above 1 within the range of `int`, the synthesized symbol is a decimal numeral
   * followed by the unit's symbol, and the numeral reads back as the whole part of the factor.
   */
  lemma SynthesizedSymbolShowsWholeFactor(unit: Unit, factor: real, render: real -> string)
    requires unit.symbol.Some? && 1.0 < factor < IntMax as real
    ensures var r := SynthesizedSymbol(Some(unit), factor, render);
            && r.Some?
            && |r.value| > |unit.symbol.value|
            && r.value[|r.value| - |unit.symbol.value|..] == unit.symbol.value
            && AllDigits(r.value[..|r.value| - |unit.symbol.value|])
            && ParseDigits(r.value[..|r.value| - |unit.symbol.value|]) == factor.Floor
  {
    var n := JavaIntCast(factor);
    assert n == factor.Floor && n >= 1;
    NatToDecimalRoundTrip(n);
    var r := SynthesizedSymbol(Some(unit), factor, render).value;
    assert r == NatToDecimal(n) + unit.symbol.value;
    assert r[..|r| - |unit.symbol.value|] == NatToDecimal(n);
  }

  /** `getUnit`: the unit this one is a multiple of. */
  function UnitOf(u: Unit): Option<Unit>
    requires u.Multiple?
  {
    u.base
  }

  /** `getFactor`: the multiplication factor. */
  function FactorOfMultiple(u: Unit): real
    requires u.Multiple?
  {
    u.factor
  }

  /**
   * `new UnitMultipleImpl(unit, factor)`, `(name, unit, factor)` and `(name, symbol, unit, factor)`:
   * a given symbol is kept; without one the symbol is synthesized. The dimension is the unit's, and
   * following an absent unit is a null reference.
   */
  function NewUnitMultiple(id: Id, symbol: Option<string>, unit: Option<Unit>, factor: real, render: real -> string): (u: Unit)
    ensures u.Multiple? && u.id == id
    ensures UnitOf(u) == unit && FactorOfMultiple(u) == factor
    ensures symbol.Some? ==> u.symbol == symbol
    ensures symbol.None? ==> u.symbol == SynthesizedSymbol(unit, factor, render)
    ensures unit.Some? ==> Dim(u) == Dim(unit.value)
    ensures unit.None? ==> Dim(u).None?
  {
    Multiple(id, if symbol.Some? then symbol else SynthesizedSymbol(unit, factor, render), unit, factor)
  }

  /**
   * `new UnitMultipleImpl(identifier, name, symbol, unit, factor)`: the symbol is kept as given, even
   * when absent.
   */
  function NewIdentifiedUnitMultiple(id: Id, symbol: Option<string>, unit: Option<Unit>, factor: real): (u: Unit)
    ensures u.Multiple? && u.id == id && u.symbol == symbol
    ensures UnitOf(u) == unit && FactorOfMultiple(u) == factor
    ensures unit.Some? ==> Dim(u) == Dim(unit.value)
    ensures unit.None? ==> Dim(u).None?
  {
    Multiple(id, symbol, unit, factor)
  }

  /**
   * Two multiples built from the same unit and factor are equal whatever their identifiers and
   * symbols, and a multiple of an absent unit never equals one of a present unit.
   */
  lemma MultiplesOfSameUnitAreEqual(x: Unit, y: Unit)
    requires x.Multiple? && y.Multiple?
    ensures UnitOf(x) == UnitOf(y) && FactorOfMultiple(x) == FactorOfMultiple(y) ==> Equal(x, y)
    ensures UnitOf(x).None? != UnitOf(y).None? && x.id != y.id ==> !Equal(x, y)
  {
    if x.base.Some? {
      EqualReflexive(x.base.value);
    }
  }

  /**
   * Converting a value of a multiple into its unit multiplies it by the factor. The corrected engine
   * always gives this; the code's engine gives it unless an exponentiation is reached through a
   * scaled link from the unit.
   */
  lemma MultipleConvertsByFactor(u: Unit, v: real)
    requires u.Multiple? && UnitOf(u).Some?
    requires Dim(UnitOf(u).value).Some? && BaseFactor(UnitOf(u).value).Success? && BaseFactor(UnitOf(u).value).value != 0.0
    ensures ComputeUnitConversionFixed(u, UnitOf(u).value).Success?
    ensures Apply(ComputeUnitConversionFixed(u, UnitOf(u).value).value, v) == v * FactorOfMultiple(u)
    ensures NoScaledPower(UnitOf(u).value) && !UnitOf(u).value.Exponentiation? ==>
      && ComputeUnitConversion(u, UnitOf(u).value).Success?
      && Apply(ComputeUnitConversion(u, UnitOf(u).value).value, v) == v * FactorOfMultiple(u)
  {
    var d := UnitOf(u).value;
    LinkedUnitConversion(u, d, FactorOfMultiple(u));
    ApplyWithoutOffset(ComputeUnitConversionFixed(u, d).value, FactorOfMultiple(u), v);
    if NoScaledPower(d) && !d.Exponentiation? {
      ApplyWithoutOffset(ComputeUnitConversion(u, d).value, FactorOfMultiple(u), v);
    }
  }
}
