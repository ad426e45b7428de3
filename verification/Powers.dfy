/** The law of exponents for `powf`, derived from the laws of exp and ln. */
module Powers {
  import opened Wrappers
  import opened Expressions
  import opened RealFacts

  lemma ExpSum(m: Lib, x: real, y: real, z: real)
    requires Lawful(m) && z == x + y
    ensures m.fn(Exp, z) == Times(m.fn(Exp, x), m.fn(Exp, y))
    ensures m.fn(Exp, z) > 0.0
  {
    assert ExpOfSum(m, x, y) && ExpIsPositive(m, z);
  }

  lemma ExpAtZero(m: Lib, z: real)
    requires Lawful(m) && z == 0.0
    ensures m.fn(Exp, z) == 1.0
  {
    ExpSum(m, z, z, z);
    OnlyOneIsItsSquare(m.fn(Exp, z));
  }

  // ----- integer powers -----

  /** A sequence that grows by the factor b turns sums into products. */
  ghost predicate Geometric(f: int -> real, b: real) {
    f(0) == 1.0 && forall k :: GrowsBy(f, b, k)
  }

  ghost predicate GrowsBy(f: int -> real, b: real, k: int) {
    f(k + 1) == Times(b, f(k))
  }

  lemma {:induction false} GeometricAdd(f: int -> real, b: real, j: int, k: int)
    requires Geometric(f, b) && b != 0.0
    ensures f(j + k) == Times(f(j), f(k))
    decreases if k >= 0 then k else -k
  {
    if k > 0 {
      GeometricAdd(f, b, j, k - 1);
      GeometricStep(f, b, j, k - 1);
    } else if k < 0 {
      GeometricAdd(f, b, j, k + 1);
      GeometricStep(f, b, j, k);
    }
  }

  /** The law at k and the law at k + 1 follow from each other. */
  lemma GeometricStep(f: int -> real, b: real, j: int, k: int)
    requires Geometric(f, b) && b != 0.0
    ensures f(j + k) == Times(f(j), f(k)) <==> f(j + (k + 1)) == Times(f(j), f(k + 1))
  {
    assert GrowsBy(f, b, k) && GrowsBy(f, b, j + k);
    assert j + (k + 1) == j + k + 1;
    TimesRotates(b, f(j), f(k));
    if Times(b, f(j + k)) == Times(b, Times(f(j), f(k))) {
      Cancel(b, f(j + k), Times(f(j), f(k)));
    }
  }

  /** The integer powers of a nonzero number, as a sequence. */
  function IntPowOf(b: real): (f: int -> real)
    requires b != 0.0
  {
    (k: int) => if IntPow(b, k).Some? then IntPow(b, k).value else 0.0
  }

  lemma IntPowGrows(b: real, k: int)
    requires b != 0.0
    ensures IntPow(b, k) == Some(IntPowOf(b)(k))
    ensures GrowsBy(IntPowOf(b), b, k)
  {
    if k < 0 {
      var j: nat := -k - 1;
      NatPowNonZero(b, j);
      QuotientStep(b, NatPow(b, j), NatPow(b, -k));
    }
  }

  lemma IntPowGeometric(b: real)
    requires b != 0.0
    ensures Geometric(IntPowOf(b), b)
    ensures forall k :: IntPow(b, k) == Some(IntPowOf(b)(k))
  {
    forall k
      ensures IntPow(b, k) == Some(IntPowOf(b)(k))
      ensures GrowsBy(IntPowOf(b), b, k)
    {
      IntPowGrows(b, k);
    }
  }

  lemma IntPowAdd(b: real, j: int, k: int)
    requires b != 0.0
    ensures IntPow(b, j).Some? && IntPow(b, k).Some?
    ensures IntPow(b, j + k) == Some(Times(IntPow(b, j).value, IntPow(b, k).value))
  {
    var f := IntPowOf(b);
    IntPowGeometric(b);
    GeometricAdd(f, b, j, k);
    assert IntPow(b, j) == Some(f(j)) && IntPow(b, k) == Some(f(k));
    assert IntPow(b, j + k) == Some(f(j + k));
  }

  // ----- positive bases -----

  /** On positive bases the integer and the general form of `powf` coincide. */
  lemma {:induction false} NatPowIsExp(m: Lib, b: real, k: nat)
    requires Lawful(m) && b > 0.0
    ensures NatPow(b, k) == m.fn(Exp, Times(k as real, m.fn(Ln, b))) > 0.0
  {
    var l := m.fn(Ln, b);
    if k == 0 {
      ExpAtZero(m, Times(0.0, l));
    } else {
      NatPowIsExp(m, b, k - 1);
      TimesDistributes(1.0, (k - 1) as real, l);
      ExpSum(m, Times(1.0, l), Times((k - 1) as real, l), Times(k as real, l));
      assert ExpUndoesLn(m, b);
      assert NatPow(b, k) == Times(b, NatPow(b, k - 1));
    }
  }

  lemma PowfPositive(m: Lib, b: real, e: real)
    requires Lawful(m) && b > 0.0
    ensures Powf(m, b, e) == Some(RealPow(m, b, e))
  {
    var l := m.fn(Ln, b);
    if IsInteger(e) && e < 0.0 {
      NatPowIsExp(m, b, -e.Floor);
      TimesNegates(e, l);
      ExpSum(m, Times(-e, l), Times(e, l), 0.0);
      ExpAtZero(m, 0.0);
      Reciprocal(m.fn(Exp, Times(-e, l)), m.fn(Exp, Times(e, l)));
      assert -e.Floor as real == -e;
    } else if IsInteger(e) {
      NatPowIsExp(m, b, e.Floor);
      assert e.Floor as real == e;
    }
  }

  // ----- the law of exponents -----

  lemma {:induction false} NatPowZero(k: nat)
    ensures NatPow(0.0, k) == if k == 0 then 1.0 else 0.0
  {
    if k > 0 { NatPowZero(k - 1); }
  }

  lemma PowfAtZero(m: Lib, e: real)
    ensures Powf(m, 0.0, e) == if e > 0.0 then Some(0.0) else if e == 0.0 then Some(1.0) else None
  {
    if IsInteger(e) && e >= 0.0 { NatPowZero(e.Floor); }
  }

  /** The law of exponents, for every real exponent at which both powers are defined. */
  lemma PowfAdd(m: Lib, b: real, x: real, y: real)
    requires Lawful(m)
    requires Powf(m, b, x).Some? && Powf(m, b, y).Some?
    ensures Powf(m, b, x + y) == Some(Times(Powf(m, b, x).value, Powf(m, b, y).value))
  {
    if b > 0.0 {
      var l := m.fn(Ln, b);
      PowfPositive(m, b, x);
      PowfPositive(m, b, y);
      PowfPositive(m, b, x + y);
      TimesDistributes(x, y, l);
      ExpSum(m, Times(x, l), Times(y, l), Times(x + y, l));
    } else if b == 0.0 {
      PowfAtZero(m, x);
      PowfAtZero(m, y);
      PowfAtZero(m, x + y);
    } else {
      assert (x + y).Floor == x.Floor + y.Floor;
      IntPowAdd(b, x.Floor, y.Floor);
    }
  }

  lemma PowfSmall(m: Lib, b: real, e: real)
    ensures e == 0.0 ==> Powf(m, b, e) == Some(1.0)
    ensures e == 1.0 ==> Powf(m, b, e) == Some(b)
    ensures e == 2.0 ==> Powf(m, b, e) == Some(Times(b, b))
  {
    assert NatPow(b, 1) == Times(b, NatPow(b, 0)) == b;
    assert NatPow(b, 2) == Times(b, NatPow(b, 1));
    assert e == 2.0 ==> e.Floor == 2;
  }

  /** 1 to any power is 1. */
  lemma PowfOne(m: Lib, e: real)
    requires Lawful(m)
    ensures Powf(m, 1.0, e) == Some(1.0)
  {
    PowfPositive(m, 1.0, e);
    ExpAtZero(m, 0.0);
    assert LnUndoesExp(m, 0.0);
    assert Times(e, 0.0) == 0.0;
  }
}
