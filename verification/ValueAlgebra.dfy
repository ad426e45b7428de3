/** The arithmetic of possibly undefined values. */
module ValueAlgebra {
  import opened Wrappers
  import opened Expressions
  import opened RealFacts

  type Value = Option<real>

  lemma MulCommutes(a: Value, b: Value)
    ensures MulValues(a, b) == MulValues(b, a)
  {
    if a.Some? && b.Some? { assert Times(a.value, b.value) == Times(b.value, a.value); }
  }

  lemma MulAssociates(a: Value, b: Value, c: Value)
    ensures MulValues(a, MulValues(b, c)) == MulValues(MulValues(a, b), c)
  {
    if a.Some? && b.Some? && c.Some? {
      TimesAssociates(a.value, b.value, c.value);
    }
  }

  lemma MulOverAdd(a: Value, b: Value, c: Value)
    ensures MulValues(a, AddValues(b, c)) == AddValues(MulValues(a, b), MulValues(a, c))
    ensures MulValues(AddValues(b, c), a) == AddValues(MulValues(b, a), MulValues(c, a))
  {
    MulCommutes(a, b); MulCommutes(a, c); MulCommutes(a, AddValues(b, c));
    if a.Some? && b.Some? && c.Some? {
      TimesDistributes(b.value, c.value, a.value);
    }
  }

  lemma MulOverSub(a: Value, b: Value, c: Value)
    ensures MulValues(a, SubValues(b, c)) == SubValues(MulValues(a, b), MulValues(a, c))
    ensures MulValues(SubValues(b, c), a) == SubValues(MulValues(b, a), MulValues(c, a))
  {
    MulCommutes(a, b); MulCommutes(a, c); MulCommutes(a, SubValues(b, c));
    if a.Some? && b.Some? && c.Some? {
      TimesDistributes(b.value, -c.value, a.value);
      TimesNegates(c.value, a.value);
    }
  }

  lemma MulZeroOne(a: Value)
    ensures a.Some? ==> MulValues(a, Some(0.0)) == Some(0.0) == MulValues(Some(0.0), a)
    ensures a.Some? ==> MulValues(a, Some(1.0)) == a == MulValues(Some(1.0), a)
  {
    if a.Some? {
      assert Times(a.value, 0.0) == 0.0 == Times(0.0, a.value);
      assert Times(a.value, 1.0) == a.value == Times(1.0, a.value);
    }
  }

  lemma DivZeroOne(a: Value)
    ensures DivValues(Some(0.0), a).Some? ==> DivValues(Some(0.0), a) == Some(0.0)
    ensures DivValues(a, Some(1.0)) == a
    ensures DivValues(a, a).Some? ==> DivValues(a, a) == Some(1.0)
  {
    if a.Some? {
      assert a.value != 0.0 ==> a.value / a.value == 1.0 && 0.0 / a.value == 0.0;
      assert a.value / 1.0 == a.value;
    }
  }

  /** The sum of scaled values keeps the scale: 1 * a + 1 * a is 2 * a. */
  lemma Doubling(a: Value)
    ensures AddValues(a, a) == MulValues(Some(2.0), a)
  {
    if a.Some? { assert Times(2.0, a.value) == a.value + a.value; }
  }
}
