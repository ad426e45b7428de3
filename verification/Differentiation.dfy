/** `SymExpr::differentiate`, and that it gives the true derivative. */
module Differentiation {
  import opened Wrappers
  import opened Expressions
  import opened RealFacts
  import opened Powers
  import opened Calculus
  import opened Simplification
  import opened SimplificationSound

  function Differentiate(e: Expr, x: string): Expr {
    match e
    case Num(_) => Num(0.0)
    case Var(v) => if v == x then Num(1.0) else Num(0.0)
    case Add(a, b) => Add(Differentiate(a, x), Differentiate(b, x))
    case Sub(a, b) => Sub(Differentiate(a, x), Differentiate(b, x))
    case Mul(a, b) => Add(Mul(Differentiate(a, x), b), Mul(a, Differentiate(b, x)))
    case Div(a, b) =>
      Div(Sub(Mul(Differentiate(a, x), b), Mul(a, Differentiate(b, x))), Pow(b, Num(2.0)))
    case Pow(u, v) =>
      if v.Num? then Mul(Mul(Num(v.n), Pow(u, Num(v.n - 1.0))), Differentiate(u, x))
      else
        Mul(Pow(u, v), Add(Mul(Differentiate(v, x), Fn(Ln, u)), Div(Mul(v, Differentiate(u, x)), u)))
    case Neg(a) => Neg(Differentiate(a, x))
    case Fn(f, u) => DifferentiateFn(f, u, Differentiate(u, x))
  }

  /** The derivative of f(u), where du is the derivative of u. */
  function DifferentiateFn(f: Func, u: Expr, du: Expr): Expr {
    match f
    case Sin => Mul(Fn(Cos, u), du)
    case Cos => Mul(Neg(Fn(Sin, u)), du)
    case Tan => Mul(Div(Num(1.0), Pow(Fn(Cos, u), Num(2.0))), du)
    case Sqrt => Div(du, Mul(Num(2.0), Fn(Sqrt, u)))
    case Exp => Mul(Fn(Exp, u), du)
    case Ln => Div(du, u)
    case Abs => Div(Mul(du, u), Fn(Abs, u))
    case Sinh => Mul(Fn(Cosh, u), du)
    case Cosh => Mul(Fn(Sinh, u), du)
    case Tanh => Mul(Sub(Num(1.0), Pow(Fn(Tanh, u), Num(2.0))), du)
    case Asin => Div(du, Fn(Sqrt, Sub(Num(1.0), Pow(u, Num(2.0)))))
    case Acos => Div(Neg(du), Fn(Sqrt, Sub(Num(1.0), Pow(u, Num(2.0)))))
    case Atan => Div(du, Add(Num(1.0), Pow(u, Num(2.0))))
  }

  // ----- what the elementary functions contribute -----

  function FnOf(m: Lib, f: Func): Partial {
    (t: real) => FnValue(m, f, Some(t))
  }

  /** Where the table of derivatives applies. */
  predicate SlopeDomain(m: Lib, f: Func, t: real) {
    match f
    case Tan => m.fn(Cos, t) != 0.0
    case Sqrt => t > 0.0 && m.fn(Sqrt, t) != 0.0
    case Ln => t > 0.0
    case Abs => t != 0.0
    case Asin => -1.0 < t < 1.0 && m.fn(Sqrt, 1.0 - Times(t, t)) != 0.0
    case Acos => -1.0 < t < 1.0 && m.fn(Sqrt, 1.0 - Times(t, t)) != 0.0
    case _ => true
  }

  /** The table of derivatives of the elementary functions. */
  function FnSlope(m: Lib, f: Func, t: real): real
    requires SlopeDomain(m, f, t)
  {
    match f
    case Sin => m.fn(Cos, t)
    case Cos => -m.fn(Sin, t)
    case Tan =>
      SquarePositive(m.fn(Cos, t));
      1.0 / Times(m.fn(Cos, t), m.fn(Cos, t))
    case Sqrt => 1.0 / (2.0 * m.fn(Sqrt, t))
    case Exp => m.fn(Exp, t)
    case Ln => 1.0 / t
    case Abs => if t < 0.0 then -1.0 else 1.0
    case Sinh => m.fn(Cosh, t)
    case Cosh => m.fn(Sinh, t)
    case Tanh => 1.0 - Times(m.fn(Tanh, t), m.fn(Tanh, t))
    case Asin => 1.0 / m.fn(Sqrt, 1.0 - Times(t, t))
    case Acos => -(1.0 / m.fn(Sqrt, 1.0 - Times(t, t)))
    case Atan =>
      SquarePositive(t);
      1.0 / (1.0 + Times(t, t))
  }

  ghost predicate SlopeLaw(m: Lib, f: Func, t: real) {
    f != Abs && SlopeDomain(m, f, t) ==> HasSlope(FnOf(m, f), t, FnSlope(m, f, t))
  }

  /** The elementary functions have their textbook derivatives, and sqrt squares back. */
  ghost predicate Smooth(m: Lib) {
    && Lawful(m)
    && (forall f: Func, t: real :: SlopeLaw(m, f, t))
    && (forall t: real :: SqrtLaw(m, t))
  }

  lemma AbsSlope(m: Lib, t: real)
    requires t != 0.0
    ensures HasSlope(FnOf(m, Abs), t, FnSlope(m, Abs, t))
  {
    var s := FnSlope(m, Abs, t);
    var delta := Least(1.0, Mag(t));
    forall h: real ensures UpTo(FnOf(m, Abs), t, s, 0.0, delta, h) {
      if Mag(h) <= delta {
        assert Times(h, 0.0) == 0.0 && Times(h, s + 0.0) == (if t < 0.0 then -h else h);
        assert Residual(FnOf(m, Abs)(t + h).value, FnOf(m, Abs)(t).value, s, h, 0.0, 0.0);
      }
    }
    assert Expands(FnOf(m, Abs), t, s, 0.0, delta);
  }

  lemma FnHasSlope(m: Lib, f: Func, t: real)
    requires Smooth(m) && SlopeDomain(m, f, t)
    ensures HasSlope(FnOf(m, f), t, FnSlope(m, f, t))
  {
    if f == Abs {
      AbsSlope(m, t);
    } else {
      assert SlopeLaw(m, f, t);
    }
  }

  // ----- powers -----

  /** s to the power n, as a function of s. */
  function PowOf(m: Lib, n: real): Partial {
    (s: real) => Powf(m, s, n)
  }

  function NatPowDerivative(t: real, k: nat): real {
    if k == 0 then 0.0 else Times(k as real, NatPow(t, k - 1))
  }

  lemma NatPowDerivativeStep(t: real, k: nat)
    requires k > 0
    ensures Times(1.0, NatPow(t, k - 1)) + Times(t, NatPowDerivative(t, k - 1)) == NatPowDerivative(t, k)
  {
    var p := NatPow(t, k - 1);
    if k == 1 {
      assert Times(t, 0.0) == 0.0;
    } else {
      TimesRotates(t, (k - 1) as real, NatPow(t, k - 2));
      TimesDistributes(1.0, (k - 1) as real, p);
    }
  }

  /** The k-th power of a function. */
  function NatPowOf(f: Partial, k: nat): Partial {
    (s: real) => if f(s).Some? then Some(NatPow(f(s).value, k)) else None
  }

  /** Natural powers of a function have their slope for the same steps as the function. */
  lemma {:induction false} NatPowSlope(f: Partial, k: nat, x: real, d: real, y: real, delta: real)
    requires HasSlopeWithin(f, x, d, delta) && f(x) == Some(y)
    ensures HasSlopeWithin(NatPowOf(f, k), x, Times(d, NatPowDerivative(y, k)), delta)
  {
    if k == 0 {
      ZerothPowerSlope(f, x, d, delta);
    } else {
      NatPowSlope(f, k - 1, x, d, y, delta);
      forall u | f(u).Some? ensures NatPowOf(f, k)(u).value == Times(f(u).value, NatPowOf(f, k - 1)(u).value) {
        assert NatPow(f(u).value, k) == Times(f(u).value, NatPow(f(u).value, k - 1));
      }
      ProductSlope(f, NatPowOf(f, k - 1), NatPowOf(f, k), x, d, Times(d, NatPowDerivative(y, k - 1)), delta);
      NatPowDerivativeStep(y, k);
      FactorSlope(d, NatPow(y, k - 1), y, NatPowDerivative(y, k - 1));
    }
  }

  lemma FactorSlope(d: real, p: real, y: real, q: real)
    ensures Times(d, p) + Times(y, Times(d, q)) == Times(d, Times(1.0, p) + Times(y, q))
  {
  }

  lemma ZerothPowerSlope(f: Partial, x: real, d: real, delta: real)
    requires HasSlopeWithin(f, x, d, delta)
    ensures HasSlopeWithin(NatPowOf(f, 0), x, Times(d, 0.0), delta)
  {
    var c :| Expands(f, x, d, c, delta);
    var k := NatPowOf(f, 0);
    assert Times(d, 0.0) == 0.0;
    forall h: real ensures UpTo(k, x, 0.0, 0.0, delta, h) {
      if Mag(h) <= delta {
        assert UpTo(f, x, d, c, delta, h);
        assert Times(h, 0.0) == 0.0 && Times(h, 0.0 + 0.0) == 0.0;
        assert Residual(1.0, 1.0, 0.0, h, 0.0, 0.0);
      }
    }
    assert Expands(k, x, 0.0, 0.0, delta);
  }

  function Identity(): Partial {
    (s: real) => Some(s)
  }

  /** The powers of the variable itself. */
  lemma NatPowerSlope(k: nat, t: real)
    ensures HasSlope(NatPowOf(Identity(), k), t, NatPowDerivative(t, k))
  {
    IdentitySlope(Identity(), t);
    NatPowSlope(Identity(), k, t, 1.0, t, 1.0);
    assert Times(1.0, NatPowDerivative(t, k)) == NatPowDerivative(t, k);
    var c :| Expands(NatPowOf(Identity(), k), t, NatPowDerivative(t, k), c, 1.0);
  }

  lemma NegativePowSlope(m: Lib, n: int, t: real)
    requires n < 0 && t != 0.0
    ensures IntPow(t, n - 1).Some? && HasSlope(PowOf(m, n as real), t, Times(n as real, IntPow(t, n - 1).value))
  {
    var k: nat := -n;
    var power := NatPowOf(Identity(), k);
    var inverse: Partial := (s: real) => if s == 0.0 then None else Some(1.0 / s);
    var p := NatPow(t, k);
    var slope := Times(k as real, NatPow(t, k - 1));
    NatPowerSlope(k, t);
    NatPowNonZero(t, k);
    ReciprocalSlope(inverse, p);
    forall s | power(s).Some? ensures PowOf(m, n as real)(s) == inverse(power(s).value) {
      NegativePow(s, k);
      assert (n as real).Floor == n;
    }
    ChainSlope(power, inverse, PowOf(m, n as real), t, slope, -(1.0 / Times(p, p)));
    NegativePowValue(t, k);
  }

  lemma NegativePow(s: real, k: nat)
    requires k > 0
    ensures IntPow(s, 0 - k) == if NatPow(s, k) == 0.0 then None else Some(1.0 / NatPow(s, k))
  {
    if s == 0.0 { NatPowZero(k); } else { NatPowNonZero(s, k); }
  }

  lemma NegativePowValue(t: real, k: nat)
    requires t != 0.0 && k > 0
    ensures var p := NatPow(t, k);
            p != 0.0 && Times(p, p) != 0.0 && IntPow(t, 0 - k - 1).Some? &&
            Times(Times(k as real, NatPow(t, k - 1)), -(1.0 / Times(p, p))) ==
            Times(-(k as real), IntPow(t, 0 - k - 1).value)
  {
    var p := NatPow(t, k);
    NatPowNonZero(t, k);
    ProductNonZero(p, p);
    var q := 1.0 / p;
    IntPowAdd(t, 0 - k, 0 - k);
    IntPowAdd(t, 0 - k - k, k - 1);
    assert IntPow(t, 0 - k) == Some(q);
    var z := IntPow(t, 0 - k - 1).value;
    assert 0 - k - k + (k - 1) == 0 - k - 1;
    assert z == Times(Times(q, q), NatPow(t, k - 1));
    SquareOfInverse(p);
    assert 1.0 / Times(p, p) == Times(q, q);
    RegroupSlope(k as real, NatPow(t, k - 1), Times(q, q));
  }

  lemma SquareOfInverse(p: real)
    requires p != 0.0 && Times(p, p) != 0.0
    ensures 1.0 / Times(p, p) == Times(1.0 / p, 1.0 / p)
  {
    var q := 1.0 / p;
    assert q * p == 1.0;
    assert (p * p) * (q * q) == (q * p) * (q * p);
    Reciprocal(Times(p, p), Times(q, q));
  }

  lemma RegroupSlope(k: real, y: real, w: real)
    ensures Times(Times(k, y), -w) == Times(-k, Times(w, y))
  {
  }

  /** Real powers of a positive number, through exp and ln. */
  lemma RealPowSlope(m: Lib, n: real, t: real)
    requires Smooth(m) && t > 0.0
    ensures Powf(m, t, n - 1.0).Some? && HasSlope(PowOf(m, n), t, Times(n, Powf(m, t, n - 1.0).value))
  {
    var l, e := FnOf(m, Ln), FnOf(m, Exp);
    var scaled: Partial := (s: real) => if s > 0.0 then Some(Times(n, m.fn(Ln, s))) else None;
    var zero: Partial := (s: real) => Some(0.0);
    var f: Partial := (s: real) => if s > 0.0 then Some(RealPow(m, s, n)) else None;
    FnHasSlope(m, Ln, t);
    FnHasSlope(m, Exp, Times(n, m.fn(Ln, t)));
    ConstantSlope(zero, t, 0.0);
    var delta := CommonSteps(l, zero, t, 1.0 / t, 0.0);
    CombinationSlope(l, zero, scaled, t, 1.0 / t, 0.0, n, 0.0, delta);
    var inner := Times(n, 1.0 / t);
    assert Times(n, 1.0 / t) + Times(0.0, 0.0) == inner;
    ChainSlope(scaled, e, f, t, inner, RealPow(m, t, n));
    forall h: real | Mag(h) <= t / 2.0 ensures PowOf(m, n)(t + h) == f(t + h) {
      PowfPositive(m, t + h, n);
    }
    SameNearby(f, PowOf(m, n), t, Times(inner, RealPow(m, t, n)), t / 2.0);
    PowfPositive(m, t, n);
    PowfPositive(m, t, n - 1.0);
    PowfSmall(m, t, 1.0);
    PowfAdd(m, t, n - 1.0, 1.0);
    assert n - 1.0 + 1.0 == n;
    PowStepDown(n, t, Powf(m, t, n - 1.0).value, RealPow(m, t, n));
  }

  lemma PowStepDown(n: real, t: real, low: real, high: real)
    requires t != 0.0 && high == Times(low, t)
    ensures Times(Times(n, 1.0 / t), high) == Times(n, low)
  {
    var q := 1.0 / t;
    assert q * t == 1.0;
    assert (n * q) * (low * t) == (n * low) * (q * t);
  }

  lemma PowSlope(m: Lib, n: real, t: real)
    requires Smooth(m) && (IsInteger(n) || t != 0.0)
    requires Powf(m, t, n).Some? && Powf(m, t, n - 1.0).Some?
    ensures HasSlope(PowOf(m, n), t, Times(n, Powf(m, t, n - 1.0).value))
  {
    var k := n.Floor;
    assert IsInteger(n) ==> (n - 1.0).Floor == k - 1 && IsInteger(n - 1.0);
    if !IsInteger(n) {
      RealPowSlope(m, n, t);
    } else if k < 0 {
      PowfAtZero(m, n);
      NegativePowSlope(m, k, t);
      assert k as real == n;
    } else {
      NatPowerSlope(k, t);
      SameNearby(NatPowOf(Identity(), k), PowOf(m, n), t, NatPowDerivative(t, k), 1.0);
      if k == 0 { assert Times(0.0, Powf(m, t, n - 1.0).value) == 0.0; }
    }
  }
}
