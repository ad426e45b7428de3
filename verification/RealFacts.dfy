/** Facts of real arithmetic, each small enough to be proved on its own. */
module RealFacts {

  lemma ProductNonZero(x: real, y: real)
    requires x != 0.0 && y != 0.0
    ensures x * y != 0.0
  {
  }

  /** Multiplication as a named function, so that equal factors visibly give equal products. */
  function Times(x: real, y: real): real {
    x * y
  }

  /** The absolute value. */
  function Mag(x: real): (r: real)
    ensures r >= 0.0
  {
    if x < 0.0 then -x else x
  }

  lemma QuotientIsProduct(y: real, z: real)
    requires z != 0.0
    ensures y / z == Times(y, 1.0 / z)
  {
  }

  lemma TimesDistributes(x: real, y: real, l: real)
    ensures Times(x + y, l) == Times(x, l) + Times(y, l)
  {
  }

  lemma TimesRotates(b: real, x: real, y: real)
    ensures Times(b, Times(x, y)) == Times(x, Times(b, y))
  {
  }

  lemma TimesAssociates(x: real, y: real, z: real)
    ensures Times(x, Times(y, z)) == Times(Times(x, y), z)
  {
  }

  lemma TimesNegates(x: real, y: real)
    ensures Times(-x, y) == -Times(x, y)
  {
  }

  lemma Cancel(b: real, x: real, y: real)
    requires b != 0.0 && Times(b, x) == Times(b, y)
    ensures x == y
  {
    assert b * (x - y) == 0.0;
  }

  lemma Reciprocal(x: real, y: real)
    requires x != 0.0 && Times(x, y) == 1.0
    ensures y == 1.0 / x
  {
  }

  lemma QuotientStep(b: real, p: real, bp: real)
    requires b != 0.0 && p != 0.0 && bp == b * p
    ensures bp != 0.0 && 1.0 / p == Times(b, 1.0 / bp)
  {
    var q := 1.0 / bp;
    assert q * bp == 1.0;
    assert (b * q) * p == 1.0;
  }

  lemma OnlyOneIsItsSquare(u: real)
    requires u > 0.0 && u == Times(u, u)
    ensures u == 1.0
  {
    assert u * (u - 1.0) == 0.0;
  }

  lemma PositiveProduct(x: real, y: real)
    requires x > 0.0 && y > 0.0
    ensures Times(x, y) > 0.0
  {
  }

  lemma OppositeSquares(x: real)
    ensures Times(-x, -x) == Times(x, x)
  {
  }

  lemma SquarePositive(x: real)
    ensures x != 0.0 ==> Times(x, x) > 0.0
    ensures x == 0.0 ==> Times(x, x) == 0.0
  {
    if x > 0.0 {
      PositiveProduct(x, x);
    } else if x < 0.0 {
      PositiveProduct(-x, -x);
      OppositeSquares(x);
    }
  }
}
