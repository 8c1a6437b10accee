/**
 * The affine transform `y = x * factor + offset` that the conversion engine derives, caches and
 * applies (the private class `UnitOrScaleConversion`).
 */
module Transforms {
  import opened Wrappers
  import opened Units

  datatype Transform = Transform(factor: real, offset: real)

  /**
   * The product of two factors (Java's `*` on doubles, over the reals). Reductions accumulate their
   * factors through this function, so that the accumulated products are compared as terms.
   */
  function Times(a: real, b: real): real
  {
    a * b
  }

  /** Products of factors may be regrouped. */
  lemma TimesAssociates(a: real, b: real, c: real)
    ensures Times(Times(a, b), c) == Times(a, Times(b, c))
  {
  }

  /** One is the neutral factor. */
  lemma TimesOne(a: real)
    ensures Times(1.0, a) == a && Times(a, 1.0) == a
  {
  }

  /** Dividing a product by `d` divides its second factor by `d`. */
  lemma TimesThenDivide(a: real, n: real, d: real)
    requires d != 0.0
    ensures Times(a, n) / d == Times(a, n / d)
  {
  }

  /** Products of factors may be reordered. */
  lemma TimesCommutes(a: real, b: real)
    ensures Times(a, b) == Times(b, a)
  {
  }

  /** The identity transform. */
  const Identity := Transform(1.0, 0.0)

  /**
   * Converts a value expressed in the source unit or scale to the target one. The identity leaves
   * it alone; a transform with a zero factor forgets the value and yields its offset.
   */
  function Apply(t: Transform, v: real): (r: real)
    ensures t == Identity ==> r == v
    ensures t.factor == 0.0 ==> r == t.offset
  {
    v * t.factor + t.offset
  }

  /** A transform with no offset scales every value by its factor. */
  lemma ApplyWithoutOffset(t: Transform, f: real, v: real)
    requires t == Transform(f, 0.0)
    ensures Apply(t, v) == v * f
  {
  }

  /**
   * The transform in the opposite direction, `(1/factor, -offset/factor)`. With a zero factor Java
   * would produce infinite components; the model reports that as a non-finite failure.
   */
  function Invert(t: Transform): (r: Result<Transform, Failure>)
    ensures r.Success? <==> t.factor != 0.0
    ensures r.Success? ==> r.value.factor * t.factor == 1.0
    ensures r.Success? ==> r.value.offset == -t.offset * r.value.factor
  {
    if t.factor == 0.0 then Failure(NonFinite)
    else Success(Transform(1.0 / t.factor, -t.offset / t.factor))
  }

  /** Applying a transform and then its inverse gives back the original value, and vice versa. */
  lemma InvertRoundTrip(t: Transform, v: real)
    requires t.factor != 0.0
    ensures Apply(Invert(t).value, Apply(t, v)) == v
    ensures Apply(t, Apply(Invert(t).value, v)) == v
  {
    var i := Invert(t).value;
    assert t.factor * i.factor == 1.0;
    calc {
      Apply(i, Apply(t, v));
      (v * t.factor + t.offset) * i.factor - t.offset * i.factor;
      v * (t.factor * i.factor);
      v * 1.0;
    }
    calc {
      Apply(t, Apply(i, v));
      (v * i.factor - t.offset * i.factor) * t.factor + t.offset;
      v * (t.factor * i.factor) - t.offset * (t.factor * i.factor) + t.offset;
      v;
    }
  }

  /** Inverting twice gives back the original transform. */
  lemma InvertInvolution(t: Transform)
    requires t.factor != 0.0
    ensures Invert(t).Success? && Invert(Invert(t).value) == Success(t)
  {
    var i := Invert(t).value;
    assert i.factor != 0.0;
    var ii := Invert(i).value;
    assert ii.factor == t.factor by {
      assert ii.factor * i.factor == 1.0;
      assert t.factor * i.factor == 1.0;
    }
    calc {
      ii.offset;
      -i.offset * ii.factor;
      t.offset * i.factor * t.factor;
      t.offset;
    }
  }

  /** A nonzero quotient of a value by itself is one. */
  lemma QuotientOfSelf(b: real)
    requires b != 0.0
    ensures b / b == 1.0
  {
  }

  /** The reciprocal of a quotient is the swapped quotient. */
  lemma QuotientReciprocal(a: real, b: real)
    requires a != 0.0 && b != 0.0
    ensures 1.0 / (a / b) == b / a
  {
  }

  /** The offset arithmetic behind the inverse of a scale transform. */
  lemma ScaleInverseArithmetic(f1: real, f2: real, o1: real, o2: real)
    requires f1 != 0.0 && f2 != 0.0
    ensures -(o2 - o1 * (f2 / f1)) / (f2 / f1) == o1 - o2 * (f1 / f2)
  {
    QuotientReciprocal(f2, f1);
    calc {
      -(o2 - o1 * (f2 / f1)) / (f2 / f1);
      -(o2 - o1 * (f2 / f1)) * (f1 / f2);
      -o2 * (f1 / f2) + o1 * ((f2 / f1) * (f1 / f2));
      { assert (f2 / f1) * (f1 / f2) == 1.0; }
      o1 - o2 * (f1 / f2);
    }
  }

  /**
   * The transform between two scales whose reductions to a common base are `a` and `b`: the factor
   * is `b.factor / a.factor` and the offset `b.offset - a.offset * factor`; a zero factor in `a`
   * gives a non-finite result.
   */
  function Between(a: Transform, b: Transform): (r: Result<Transform, Failure>)
    ensures r.Success? <==> a.factor != 0.0
    ensures r.Success? ==> forall x :: Apply(r.value, Apply(a, x)) == Apply(b, x)
  {
    if a.factor == 0.0 then Failure(NonFinite)
    else
      BetweenComposes(a, b);
      Success(Transform(b.factor / a.factor, b.offset - a.offset * (b.factor / a.factor)))
  }

  /**
   * The transform between two reductions maps every reading of the first onto the reading of the
   * second for the same base value.
   */
  lemma BetweenComposes(a: Transform, b: Transform)
    requires a.factor != 0.0
    ensures forall x :: Apply(Transform(b.factor / a.factor, b.offset - a.offset * (b.factor / a.factor)), Apply(a, x)) == Apply(b, x)
  {
    var q := b.factor / a.factor;
    var t := Transform(q, b.offset - a.offset * q);
    DivideThenTimes(a.factor, b.factor);
    forall x
      ensures Apply(t, Apply(a, x)) == Apply(b, x)
    {
      ComposeStep(a, b, q, x);
    }
  }

  /** Multiplying a quotient by its divisor gives back the dividend. */
  lemma DivideThenTimes(d: real, n: real)
    requires d != 0.0
    ensures d * (n / d) == n
  {
  }

  /** Composing `y = x*f + o` with `z = y*q + (p - o*q)`, where `f*q == g`, cancels the offset `o`. */
  lemma ComposeStep(a: Transform, b: Transform, q: real, x: real)
    requires a.factor * q == b.factor
    ensures Apply(Transform(q, b.offset - a.offset * q), Apply(a, x)) == Apply(b, x)
  {
    assert (x * a.factor + a.offset) * q == x * (a.factor * q) + a.offset * q;
  }

  /** The transform from `a` to `b`, inverted, is the transform from `b` to `a`. */
  lemma BetweenInverse(a: Transform, b: Transform)
    requires Between(a, b).Success?
    ensures Invert(Between(a, b).value) == Between(b, a)
  {
    var q := b.factor / a.factor;
    var o := b.offset - a.offset * q;
    assert Between(a, b).value == Transform(q, o);
    if b.factor != 0.0 {
      QuotientReciprocal(b.factor, a.factor);
      ScaleInverseArithmetic(a.factor, b.factor, a.offset, b.offset);
      assert Invert(Transform(q, o)).value == Transform(1.0 / q, -o / q);
      assert Between(b, a).value == Transform(a.factor / b.factor, a.offset - b.offset * (a.factor / b.factor));
      assert Invert(Between(a, b).value).value == Between(b, a).value;
    }
  }

  /** The transform from a reduction to itself is the identity. */
  lemma BetweenItself(a: Transform)
    requires a.factor != 0.0
    ensures Between(a, a) == Success(Identity)
  {
    var q := a.factor / a.factor;
    QuotientOfSelf(a.factor);
    assert a.offset - a.offset * q == 0.0;
    assert Between(a, a).value == Transform(q, a.offset - a.offset * q);
  }

  /**
   * Between a reduction `(c, d)` and the reduction of a scale defined from it by `(f, o)`, correctly
   * composed as `(f*c, o + f*d)`, lies exactly the definition `(f, o)`.
   */
  lemma BetweenRescaled(c: real, d: real, f: real, o: real)
    requires c != 0.0
    ensures Between(Transform(c, d), Transform(Times(f, c), o + Times(f, d))) == Success(Transform(f, o))
  {
    var q := Times(f, c) / c;
    assert q == f;
    assert Between(Transform(c, d), Transform(Times(f, c), o + Times(f, d))).value == Transform(q, o + Times(f, d) - d * q);
    assert d * q == Times(f, d);
    assert Between(Transform(c, d), Transform(Times(f, c), o + Times(f, d))).value == Transform(f, o);
  }

  /**
   * Between a reduction `(c, d)` and `(f*c, o + d)`, where the offset `d` was added without being
   * rescaled, lies `(f, o + d - d*f)`.
   */
  lemma BetweenShifted(c: real, d: real, f: real, o: real)
    requires c != 0.0
    ensures Between(Transform(c, d), Transform(Times(f, c), o + d)) == Success(Transform(f, o + d - Times(d, f)))
  {
    var q := Times(f, c) / c;
    assert q == f;
    assert Between(Transform(c, d), Transform(Times(f, c), o + d)).value == Transform(q, o + d - d * q);
    assert d * q == Times(d, f);
    assert Between(Transform(c, d), Transform(Times(f, c), o + d)).value == Transform(f, o + d - Times(d, f));
  }

  /** A nonzero value scaled by a factor other than one changes. */
  lemma TimesMoves(d: real, f: real)
    requires d != 0.0 && f != 1.0
    ensures Times(d, f) != d
  {
    assert Times(d, f) - d == d * (f - 1.0);
  }
}
