/** The derivative the program computes is the slope of the expression. */
module DerivativeSound {
  import opened Wrappers
  import opened Expressions
  import opened RealFacts
  import opened Powers
  import opened Calculus
  import opened Simplification
  import opened SimplificationSound
  import opened Differentiation

  /** The expression as a function of one of its variables. */
  function Along(m: Lib, env: Env, x: string, e: Expr): Partial {
    (t: real) => Evaluate(m, env[x := t], e)
  }

  /** No fractional power of a base that is 0: there the power is one-sided. */
  ghost predicate TwoSidedPowers(m: Lib, env: Env, e: Expr) {
    match e
    case Num(_) => true
    case Var(_) => true
    case Add(a, b) => TwoSidedPowers(m, env, a) && TwoSidedPowers(m, env, b)
    case Sub(a, b) => TwoSidedPowers(m, env, a) && TwoSidedPowers(m, env, b)
    case Mul(a, b) => TwoSidedPowers(m, env, a) && TwoSidedPowers(m, env, b)
    case Div(a, b) => TwoSidedPowers(m, env, a) && TwoSidedPowers(m, env, b)
    case Pow(a, b) =>
      && TwoSidedPowers(m, env, a) && TwoSidedPowers(m, env, b)
      && (b.Num? && !IsInteger(b.n) ==> Evaluate(m, env, a) != Some(0.0))
    case Neg(a) => TwoSidedPowers(m, env, a)
    case Fn(_, a) => TwoSidedPowers(m, env, a)
  }

  // ----- one rule at a time, on functions of the variable -----

  lemma AddRule(f: Partial, g: Partial, k: Partial, x: real, d: real, e: real, delta: real)
    requires HasSlopeWithin(f, x, d, delta) && HasSlopeWithin(g, x, e, delta)
    requires forall u :: k(u) == AddValues(f(u), g(u))
    ensures HasSlopeWithin(k, x, d + e, delta)
  {
    forall u | f(u).Some? && g(u).Some?
      ensures k(u).Some? && k(u).value == Times(1.0, f(u).value) + Times(1.0, g(u).value)
    {
      assert k(u) == AddValues(f(u), g(u));
      TimesOne(f(u).value);
      TimesOne(g(u).value);
    }
    CombinationSlope(f, g, k, x, d, e, 1.0, 1.0, delta);
    TimesOne(d);
    TimesOne(e);
  }

  lemma SubRule(f: Partial, g: Partial, k: Partial, x: real, d: real, e: real, delta: real)
    requires HasSlopeWithin(f, x, d, delta) && HasSlopeWithin(g, x, e, delta)
    requires forall u :: k(u) == SubValues(f(u), g(u))
    ensures HasSlopeWithin(k, x, d - e, delta)
  {
    forall u | f(u).Some? && g(u).Some?
      ensures k(u).Some? && k(u).value == Times(1.0, f(u).value) + Times(-1.0, g(u).value)
    {
      assert k(u) == SubValues(f(u), g(u));
      TimesOne(f(u).value);
      TimesOne(g(u).value);
    }
    CombinationSlope(f, g, k, x, d, e, 1.0, -1.0, delta);
    TimesOne(d);
    TimesOne(e);
  }

  lemma NegRule(f: Partial, k: Partial, x: real, d: real, delta: real)
    requires HasSlopeWithin(f, x, d, delta)
    requires forall u :: k(u) == NegValue(f(u))
    ensures HasSlopeWithin(k, x, -d, delta)
  {
    forall u | f(u).Some? && f(u).Some?
      ensures k(u).Some? && k(u).value == Times(-1.0, f(u).value) + Times(0.0, f(u).value)
    {
      assert k(u) == NegValue(f(u));
      TimesOne(f(u).value);
    }
    CombinationSlope(f, f, k, x, d, d, -1.0, 0.0, delta);
    TimesOne(d);
  }

  lemma TimesOne(x: real)
    ensures Times(1.0, x) == x && Times(-1.0, x) == -x && Times(0.0, x) == 0.0
  {
  }

  lemma MulRule(f: Partial, g: Partial, k: Partial, x: real, d: real, e: real, delta: real)
    requires HasSlopeWithin(f, x, d, delta) && HasSlopeWithin(g, x, e, delta)
    requires forall u :: k(u) == MulValues(f(u), g(u))
    ensures f(x).Some? && g(x).Some?
    ensures HasSlopeWithin(k, x, Times(d, g(x).value) + Times(f(x).value, e), delta)
  {
    forall u | f(u).Some? && g(u).Some?
      ensures k(u).Some? && k(u).value == Times(f(u).value, g(u).value)
    {
      assert k(u) == MulValues(f(u), g(u));
    }
    ProductSlope(f, g, k, x, d, e, delta);
  }

  function Inverse(): Partial {
    (t: real) => if t == 0.0 then None else Some(1.0 / t)
  }

  function InverseOf(g: Partial): Partial {
    (t: real) => if g(t).Some? then Inverse()(g(t).value) else None
  }

  lemma InverseRule(g: Partial, x: real, e: real, z: real)
    requires HasSlope(g, x, e) && g(x) == Some(z) && z != 0.0
    ensures Times(z, z) != 0.0 && HasSlope(InverseOf(g), x, Times(e, -(1.0 / Times(z, z))))
  {
    ReciprocalSlope(Inverse(), z);
    ChainSlope(g, Inverse(), InverseOf(g), x, e, -(1.0 / Times(z, z)));
  }

  lemma DivRule(f: Partial, g: Partial, k: Partial, x: real, d: real, e: real, y: real, z: real)
    requires HasSlope(f, x, d) && HasSlope(g, x, e)
    requires f(x) == Some(y) && g(x) == Some(z) && z != 0.0
    requires forall u :: k(u) == DivValues(f(u), g(u))
    ensures Times(z, z) != 0.0
    ensures HasSlope(k, x, (Times(d, z) - Times(y, e)) / Times(z, z))
  {
    InverseRule(g, x, e, z);
    forall u | f(u).Some? && InverseOf(g)(u).Some?
      ensures k(u).Some? && k(u).value == Times(f(u).value, InverseOf(g)(u).value)
    {
      assert k(u) == DivValues(f(u), g(u));
      QuotientIsProduct(f(u).value, g(u).value);
    }
    DivRuleWith(f, InverseOf(g), k, x, d, e, y, z);
  }

  lemma DivRuleWith(f: Partial, r: Partial, k: Partial, x: real, d: real, e: real, y: real, z: real)
    requires z != 0.0 && Times(z, z) != 0.0
    requires HasSlope(f, x, d) && HasSlope(r, x, Times(e, -(1.0 / Times(z, z))))
    requires f(x) == Some(y) && r(x) == Some(1.0 / z)
    requires forall u :: f(u).Some? && r(u).Some? ==> k(u).Some? && k(u).value == Times(f(u).value, r(u).value)
    ensures HasSlope(k, x, (Times(d, z) - Times(y, e)) / Times(z, z))
  {
    var delta := CommonSteps(f, r, x, d, Times(e, -(1.0 / Times(z, z))));
    ProductSlope(f, r, k, x, d, Times(e, -(1.0 / Times(z, z))), delta);
    QuotientRuleValue(d, e, y, z, Times(z, z));
  }

  lemma QuotientRuleValue(d: real, e: real, y: real, z: real, zz: real)
    requires z != 0.0 && zz == Times(z, z) && zz != 0.0
    ensures Times(d, 1.0 / z) + Times(y, Times(e, -(1.0 / zz))) == (Times(d, z) - Times(y, e)) / zz
  {
    var q, w := 1.0 / z, 1.0 / zz;
    assert q * z == 1.0 && w * zz == 1.0;
    assert q == z * w by {
      assert (z * w) * z == 1.0;
      Reciprocal(z, z * w);
    }
    var n := d * z - y * e;
    assert n / zz == n * w;
    assert n * w == d * (z * w) - (y * e) * w;
    assert y * (e * (-w)) == -((y * e) * w);
  }

  // ----- the elementary functions -----

  /** The value of the derivative expression of f(u) is the tabulated slope times du. */
  lemma FnDerivativeValue(m: Lib, env: Env, f: Func, u: Expr, du: Expr, t: real, d: real, v: real)
    requires Smooth(m) && InDomain(f, t)
    requires Evaluate(m, env, u) == Some(t) && Evaluate(m, env, du) == Some(d)
    requires Evaluate(m, env, DifferentiateFn(f, u, du)) == Some(v)
    ensures SlopeDomain(m, f, t) && v == Times(d, FnSlope(m, f, t))
  {
    match f
    case Ln => QuotientIsProduct(d, t);
    case Tan => TanDerivativeValue(m, env, u, du, t, d, v);
    case Sqrt => SqrtDerivativeValue(m, env, u, du, t, d, v);
    case Abs => AbsDerivativeValue(m, env, u, du, t, d, v);
    case Tanh => TanhDerivativeValue(m, env, u, du, t, d, v);
    case Asin => ArcDerivativeValue(m, env, f, u, du, t, d, v);
    case Acos => ArcDerivativeValue(m, env, f, u, du, t, d, v);
    case Atan => AtanDerivativeValue(m, env, u, du, t, d, v);
    case _ => FactorDerivativeValue(m, env, f, u, du, t, d, v);
  }

  /** The functions whose derivative is a function of u times the derivative of u. */
  lemma FactorDerivativeValue(m: Lib, env: Env, f: Func, u: Expr, du: Expr, t: real, d: real, v: real)
    requires f in {Sin, Cos, Exp, Sinh, Cosh}
    requires Evaluate(m, env, u) == Some(t) && Evaluate(m, env, du) == Some(d)
    requires Evaluate(m, env, DifferentiateFn(f, u, du)) == Some(v)
    ensures v == Times(d, FnSlope(m, f, t))
  {
    var factor := DifferentiateFn(f, u, du).left;
    if f == Cos { assert Evaluate(m, env, Fn(Sin, u)) == Some(m.fn(Sin, t)); }
    assert Evaluate(m, env, factor) == Some(FnSlope(m, f, t));
    ProductEvaluates(m, env, DifferentiateFn(f, u, du));
    Swap(d, FnSlope(m, f, t));
  }

  lemma SquareEvaluates(m: Lib, env: Env, u: Expr, t: real)
    requires Evaluate(m, env, u) == Some(t)
    ensures Evaluate(m, env, Pow(u, Num(2.0))) == Some(Times(t, t))
  {
    PowfSmall(m, t, 2.0);
    assert Evaluate(m, env, Num(2.0)) == Some(2.0);
  }

  lemma TanDerivativeValue(m: Lib, env: Env, u: Expr, du: Expr, t: real, d: real, v: real)
    requires Evaluate(m, env, u) == Some(t) && Evaluate(m, env, du) == Some(d)
    requires Evaluate(m, env, DifferentiateFn(Tan, u, du)) == Some(v)
    ensures SlopeDomain(m, Tan, t) && v == Times(d, FnSlope(m, Tan, t))
  {
    var c := m.fn(Cos, t);
    SquareEvaluates(m, env, Fn(Cos, u), c);
    SquarePositive(c);
    var sec := Div(Num(1.0), Pow(Fn(Cos, u), Num(2.0)));
    assert Evaluate(m, env, sec).Some?;
    assert Evaluate(m, env, sec) == Some(1.0 / Times(c, c));
    assert Times(1.0 / Times(c, c), d) == Times(d, 1.0 / Times(c, c));
  }

  lemma SqrtDerivativeValue(m: Lib, env: Env, u: Expr, du: Expr, t: real, d: real, v: real)
    requires Smooth(m) && InDomain(Sqrt, t)
    requires Evaluate(m, env, u) == Some(t) && Evaluate(m, env, du) == Some(d)
    requires Evaluate(m, env, DifferentiateFn(Sqrt, u, du)) == Some(v)
    ensures SlopeDomain(m, Sqrt, t) && v == Times(d, FnSlope(m, Sqrt, t))
  {
    var s := m.fn(Sqrt, t);
    assert Evaluate(m, env, Fn(Sqrt, u)) == Some(s);
    var twice := Mul(Num(2.0), Fn(Sqrt, u));
    assert Evaluate(m, env, twice) == Some(Times(2.0, s));
    assert Times(2.0, s) == 2.0 * s != 0.0;
    assert SqrtLaw(m, t);
    SquarePositive(s);
    QuotientIsProduct(d, 2.0 * s);
  }

  lemma AbsDerivativeValue(m: Lib, env: Env, u: Expr, du: Expr, t: real, d: real, v: real)
    requires Evaluate(m, env, u) == Some(t) && Evaluate(m, env, du) == Some(d)
    requires Evaluate(m, env, DifferentiateFn(Abs, u, du)) == Some(v)
    ensures SlopeDomain(m, Abs, t) && v == Times(d, FnSlope(m, Abs, t))
  {
    var size := if t < 0.0 then -t else t;
    assert Evaluate(m, env, Fn(Abs, u)) == Some(size);
    assert Evaluate(m, env, Mul(du, u)) == Some(Times(d, t));
    QuotientEvaluates(m, env, Div(Mul(du, u), Fn(Abs, u)));
    ProductOverSize(d, t);
  }

  lemma ProductOverSize(d: real, t: real)
    requires t != 0.0
    ensures Times(d, t) / t == d == Times(d, 1.0) && Times(d, t) / -t == -d == Times(d, -1.0)
  {
  }

  lemma TanhDerivativeValue(m: Lib, env: Env, u: Expr, du: Expr, t: real, d: real, v: real)
    requires Evaluate(m, env, u) == Some(t) && Evaluate(m, env, du) == Some(d)
    requires Evaluate(m, env, DifferentiateFn(Tanh, u, du)) == Some(v)
    ensures v == Times(d, FnSlope(m, Tanh, t))
  {
    var h := m.fn(Tanh, t);
    SquareEvaluates(m, env, Fn(Tanh, u), h);
    assert Evaluate(m, env, Sub(Num(1.0), Pow(Fn(Tanh, u), Num(2.0)))) == Some(1.0 - Times(h, h));
    assert Times(1.0 - Times(h, h), d) == Times(d, 1.0 - Times(h, h));
  }

  lemma UnitSquares(t: real)
    ensures t == 1.0 || t == -1.0 ==> Times(t, t) == 1.0
  {
  }

  lemma ArcDerivativeValue(m: Lib, env: Env, f: Func, u: Expr, du: Expr, t: real, d: real, v: real)
    requires Smooth(m) && (f == Asin || f == Acos) && InDomain(f, t)
    requires Evaluate(m, env, u) == Some(t) && Evaluate(m, env, du) == Some(d)
    requires Evaluate(m, env, DifferentiateFn(f, u, du)) == Some(v)
    ensures SlopeDomain(m, f, t) && v == Times(d, FnSlope(m, f, t))
  {
    hide Times, PowValues;
    var w := 1.0 - Times(t, t);
    SquareEvaluates(m, env, u, t);
    var under := Sub(Num(1.0), Pow(u, Num(2.0)));
    assert Evaluate(m, env, under) == Some(w);
    assert Evaluate(m, env, Fn(Sqrt, under)).Some?;
    var s := m.fn(Sqrt, w);
    assert Evaluate(m, env, Fn(Sqrt, under)) == Some(s);
    assert SqrtLaw(m, w);
    SquarePositive(s);
    UnitSquares(t);
    if f == Acos {
      assert Evaluate(m, env, Neg(du)) == Some(-d);
      ValueOfQuotient(m, env, Neg(du), Fn(Sqrt, under), -d, s, v);
      SignsMove(d, 1.0 / s);
    } else {
      ValueOfQuotient(m, env, du, Fn(Sqrt, under), d, s, v);
    }
  }

  lemma SignsMove(x: real, y: real)
    ensures Times(-x, y) == Times(x, -y)
  {
  }

  lemma AtanDerivativeValue(m: Lib, env: Env, u: Expr, du: Expr, t: real, d: real, v: real)
    requires Evaluate(m, env, u) == Some(t) && Evaluate(m, env, du) == Some(d)
    requires Evaluate(m, env, DifferentiateFn(Atan, u, du)) == Some(v)
    ensures v == Times(d, FnSlope(m, Atan, t))
  {
    var den := Add(Num(1.0), Pow(u, Num(2.0)));
    SquareEvaluates(m, env, u, t);
    assert Evaluate(m, env, Num(1.0)) == Some(1.0);
    assert Evaluate(m, env, den) == Some(1.0 + Times(t, t));
    ValueOfQuotient(m, env, du, den, d, 1.0 + Times(t, t), v);
  }

  /** A quotient that has a value is the numerator times the inverse of the denominator. */
  lemma ValueOfQuotient(m: Lib, env: Env, num: Expr, den: Expr, d: real, w: real, v: real)
    requires Evaluate(m, env, num) == Some(d) && Evaluate(m, env, den) == Some(w)
    requires Evaluate(m, env, Div(num, den)) == Some(v)
    ensures w != 0.0 && v == Times(d, 1.0 / w)
  {
    QuotientEvaluates(m, env, Div(num, den));
    QuotientIsProduct(d, w);
  }

  lemma StaysPositive(f: Partial, x: real, d: real, y: real) returns (delta: real)
    requires HasSlope(f, x, d) && f(x) == Some(y) && y > 0.0
    ensures delta > 0.0
    ensures forall h: real | Mag(h) <= delta :: f(x + h).Some? && f(x + h).value > 0.0
  {
    var c, delta0 :| Expands(f, x, d, c, delta0);
    var top := Mag(d) + c;
    delta := Least(delta0, Shrunk(y / 2.0, top));
    forall h: real | Mag(h) <= delta ensures f(x + h).Some? && f(x + h).value > 0.0 {
      assert UpTo(f, x, d, c, delta0, h);
      var rho :| Residual(f(x + h).value, y, d, h, rho, c);
      StepBound(d, h, rho, c);
      InnerStep(h, d + Times(h, rho), y / 2.0, top);
    }
  }

  /** u^v is exp(v * ln u) where u is positive. */
  lemma PowerRule(m: Lib, f: Partial, g: Partial, k: Partial, x: real, d: real, e: real, y: real, z: real)
    requires Smooth(m) && HasSlope(f, x, d) && HasSlope(g, x, e)
    requires f(x) == Some(y) && g(x) == Some(z) && y > 0.0
    requires forall u :: k(u) == PowValues(m, f(u), g(u))
    ensures Powf(m, y, z).Some?
    ensures HasSlope(k, x, Times(Powf(m, y, z).value, Times(e, m.fn(Ln, y)) + Times(z, d) / y))
  {
    var lnf: Partial := (t: real) => if f(t).Some? then FnOf(m, Ln)(f(t).value) else None;
    var w: Partial := (t: real) => MulValues(g(t), lnf(t));
    var expw: Partial := (t: real) => if w(t).Some? then FnOf(m, Exp)(w(t).value) else None;
    var l := m.fn(Ln, y);
    var inner := Times(e, l) + Times(z, Times(d, 1.0 / y));
    ExpOfProductSlope(m, f, g, lnf, w, expw, x, d, e, y, z);
    PowfPositive(m, y, z);
    PowerRuleValue(m.fn(Exp, Times(z, l)), inner, Times(e, l), z, d, y);
    PowerNearby(m, f, g, lnf, w, expw, k, x, d, e, y, Times(inner, m.fn(Exp, Times(z, l))));
  }

  /** The slope of exp(g * ln f). */
  lemma ExpOfProductSlope(m: Lib, f: Partial, g: Partial, lnf: Partial, w: Partial, expw: Partial,
                          x: real, d: real, e: real, y: real, z: real)
    requires Smooth(m) && HasSlope(f, x, d) && HasSlope(g, x, e)
    requires f(x) == Some(y) && g(x) == Some(z) && y > 0.0
    requires forall t :: lnf(t) == if f(t).Some? then FnOf(m, Ln)(f(t).value) else None
    requires forall t :: w(t) == MulValues(g(t), lnf(t))
    requires forall t :: expw(t) == if w(t).Some? then FnOf(m, Exp)(w(t).value) else None
    ensures var l := m.fn(Ln, y);
            HasSlope(expw, x, Times(Times(e, l) + Times(z, Times(d, 1.0 / y)), m.fn(Exp, Times(z, l))))
  {
    var l := m.fn(Ln, y);
    FnHasSlope(m, Ln, y);
    ChainSlope(f, FnOf(m, Ln), lnf, x, d, 1.0 / y);
    var delta := CommonSteps(g, lnf, x, e, Times(d, 1.0 / y));
    MulRule(g, lnf, w, x, e, Times(d, 1.0 / y), delta);
    FnHasSlope(m, Exp, Times(z, l));
    ChainSlope(w, FnOf(m, Exp), expw, x, Times(e, l) + Times(z, Times(d, 1.0 / y)), m.fn(Exp, Times(z, l)));
  }

  lemma PowerRuleValue(p: real, inner: real, el: real, z: real, d: real, y: real)
    requires y != 0.0 && inner == el + Times(z, Times(d, 1.0 / y))
    ensures Times(inner, p) == Times(p, el + Times(z, d) / y)
  {
    var q := 1.0 / y;
    assert (z * d) / y == (z * d) * q;
    assert z * (d * q) == (z * d) * q;
  }

  lemma PowerIsExp(m: Lib, y: Option<real>, z: Option<real>)
    requires Lawful(m) && (y.Some? ==> y.value > 0.0)
    ensures var w := MulValues(z, if y.Some? then FnOf(m, Ln)(y.value) else None);
            PowValues(m, y, z) == if w.Some? then FnOf(m, Exp)(w.value) else None
  {
    if y.Some? && z.Some? {
      PowfPositive(m, y.value, z.value);
    }
  }

  lemma PowerNearby(m: Lib, f: Partial, g: Partial, lnf: Partial, w: Partial, expw: Partial, k: Partial,
                    x: real, d: real, e: real, y: real, slope: real)
    requires Lawful(m) && HasSlope(f, x, d) && HasSlope(g, x, e) && f(x) == Some(y) && y > 0.0
    requires forall t :: lnf(t) == if f(t).Some? then FnOf(m, Ln)(f(t).value) else None
    requires forall t :: w(t) == MulValues(g(t), lnf(t))
    requires forall t :: expw(t) == if w(t).Some? then FnOf(m, Exp)(w(t).value) else None
    requires forall u :: k(u) == PowValues(m, f(u), g(u))
    requires HasSlope(expw, x, slope)
    ensures HasSlope(k, x, slope)
  {
    var delta := StaysPositive(f, x, d, y);
    forall h: real | Mag(h) <= delta ensures k(x + h) == expw(x + h) {
      PowerIsExp(m, f(x + h), g(x + h));
    }
    SameNearby(expw, k, x, slope, delta);
  }

  // ----- the theorem -----

  lemma AlongHere(m: Lib, env: Env, x: string, e: Expr)
    requires x in env
    ensures Along(m, env, x, e)(env[x]) == Evaluate(m, env, e)
  {
    assert env[x := env[x]] == env;
  }

  ghost predicate DerivativeHolds(m: Lib, env: Env, x: string, e: Expr)
    requires x in env
  {
    var d := Evaluate(m, env, Differentiate(e, x));
    d.Some? && HasSlope(Along(m, env, x, e), env[x], d.value)
  }

  lemma SumsCase(m: Lib, env: Env, x: string, a: Expr, b: Expr)
    requires x in env && DerivativeHolds(m, env, x, a) && DerivativeHolds(m, env, x, b)
    ensures DerivativeHolds(m, env, x, Add(a, b)) && DerivativeHolds(m, env, x, Sub(a, b))
  {
    var d, e := Evaluate(m, env, Differentiate(a, x)).value, Evaluate(m, env, Differentiate(b, x)).value;
    var delta := CommonSteps(Along(m, env, x, a), Along(m, env, x, b), env[x], d, e);
    AddRule(Along(m, env, x, a), Along(m, env, x, b), Along(m, env, x, Add(a, b)), env[x], d, e, delta);
    SubRule(Along(m, env, x, a), Along(m, env, x, b), Along(m, env, x, Sub(a, b)), env[x], d, e, delta);
  }

  lemma NegCase(m: Lib, env: Env, x: string, a: Expr)
    requires x in env && DerivativeHolds(m, env, x, a)
    ensures DerivativeHolds(m, env, x, Neg(a))
  {
    var f, d := Along(m, env, x, a), Evaluate(m, env, Differentiate(a, x)).value;
    var delta := CommonSteps(f, f, env[x], d, d);
    NegRule(f, Along(m, env, x, Neg(a)), env[x], d, delta);
  }

  lemma MulCase(m: Lib, env: Env, x: string, a: Expr, b: Expr)
    requires x in env && DerivativeHolds(m, env, x, a) && DerivativeHolds(m, env, x, b)
    requires Evaluate(m, env, Differentiate(Mul(a, b), x)).Some?
    ensures DerivativeHolds(m, env, x, Mul(a, b))
  {
    ProductParts(m, env, a, b, x);
    AlongHere(m, env, x, a); AlongHere(m, env, x, b);
    var d, e := Evaluate(m, env, Differentiate(a, x)).value, Evaluate(m, env, Differentiate(b, x)).value;
    var delta := CommonSteps(Along(m, env, x, a), Along(m, env, x, b), env[x], d, e);
    MulRule(Along(m, env, x, a), Along(m, env, x, b), Along(m, env, x, Mul(a, b)), env[x], d, e, delta);
  }

  lemma DivCase(m: Lib, env: Env, x: string, a: Expr, b: Expr)
    requires x in env && DerivativeHolds(m, env, x, a) && DerivativeHolds(m, env, x, b)
    requires Evaluate(m, env, Div(a, b)).Some? && Evaluate(m, env, Differentiate(Div(a, b), x)).Some?
    ensures DerivativeHolds(m, env, x, Div(a, b))
  {
    QuotientParts(m, env, a, b, x);
    AlongHere(m, env, x, a); AlongHere(m, env, x, b);
    DivRule(Along(m, env, x, a), Along(m, env, x, b), Along(m, env, x, Div(a, b)), env[x],
            Evaluate(m, env, Differentiate(a, x)).value, Evaluate(m, env, Differentiate(b, x)).value,
            Evaluate(m, env, a).value, Evaluate(m, env, b).value);
  }

  lemma LiteralPowerCase(m: Lib, env: Env, x: string, u: Expr, n: real)
    requires Smooth(m) && x in env && DerivativeHolds(m, env, x, u)
    requires IsInteger(n) || Evaluate(m, env, u) != Some(0.0)
    requires Evaluate(m, env, Pow(u, Num(n))).Some? && Evaluate(m, env, Differentiate(Pow(u, Num(n)), x)).Some?
    ensures DerivativeHolds(m, env, x, Pow(u, Num(n)))
  {
    LiteralPowerParts(m, env, u, n, x);
    AlongHere(m, env, x, u);
    forall t ensures Along(m, env, x, Pow(u, Num(n)))(t) == PowValues(m, Along(m, env, x, u)(t), Some(n)) {
      assert Evaluate(m, env[x := t], Num(n)) == Some(n);
    }
    LiteralPowerRule(m, Along(m, env, x, u), Along(m, env, x, Pow(u, Num(n))), env[x],
                     Evaluate(m, env, Differentiate(u, x)).value, Evaluate(m, env, u).value, n);
  }

  lemma PowerCase(m: Lib, env: Env, x: string, u: Expr, v: Expr)
    requires Smooth(m) && x in env && !v.Num? && DerivativeHolds(m, env, x, u) && DerivativeHolds(m, env, x, v)
    requires Evaluate(m, env, Pow(u, v)).Some? && Evaluate(m, env, Differentiate(Pow(u, v), x)).Some?
    ensures DerivativeHolds(m, env, x, Pow(u, v))
  {
    hide Times, Differentiate, PowValues;
    PowerParts(m, env, u, v, x);
    AlongHere(m, env, x, u); AlongHere(m, env, x, v);
    PowerRule(m, Along(m, env, x, u), Along(m, env, x, v), Along(m, env, x, Pow(u, v)), env[x],
              Evaluate(m, env, Differentiate(u, x)).value, Evaluate(m, env, Differentiate(v, x)).value,
              Evaluate(m, env, u).value, Evaluate(m, env, v).value);
  }

  lemma FnCase(m: Lib, env: Env, x: string, f: Func, u: Expr)
    requires Smooth(m) && x in env && DerivativeHolds(m, env, x, u)
    requires Evaluate(m, env, Fn(f, u)).Some? && Evaluate(m, env, Differentiate(Fn(f, u), x)).Some?
    ensures DerivativeHolds(m, env, x, Fn(f, u))
  {
    FnParts(m, env, f, u, Differentiate(u, x));
    AlongHere(m, env, x, u);
    var t, d := Evaluate(m, env, u).value, Evaluate(m, env, Differentiate(u, x)).value;
    FnDerivativeValue(m, env, f, u, Differentiate(u, x), t, d, Evaluate(m, env, Differentiate(Fn(f, u), x)).value);
    FnHasSlope(m, f, t);
    ChainSlope(Along(m, env, x, u), FnOf(m, f), Along(m, env, x, Fn(f, u)), env[x], d, FnSlope(m, f, t));
  }

  /**
    The computed derivative, wherever it and the expression have a value, is the slope
    of the expression in the variable.
    */
  lemma {:induction false} DefinedDerivativeIsSlope(m: Lib, env: Env, x: string, e: Expr)
    requires Smooth(m) && x in env && x != "pi" && x != "e"
    requires Evaluate(m, env, e).Some? && Evaluate(m, env, Differentiate(e, x)).Some?
    requires TwoSidedPowers(m, env, e)
    ensures HasSlope(Along(m, env, x, e), env[x], Evaluate(m, env, Differentiate(e, x)).value)
  {
    match e
    case Num(n) => ConstantSlope(Along(m, env, x, e), env[x], n);
    case Var(v) => VariableRule(m, env, x, v);
    case Add(a, b) =>
      DefinedDerivativeIsSlope(m, env, x, a); DefinedDerivativeIsSlope(m, env, x, b);
      SumsCase(m, env, x, a, b);
    case Sub(a, b) =>
      DefinedDerivativeIsSlope(m, env, x, a); DefinedDerivativeIsSlope(m, env, x, b);
      SumsCase(m, env, x, a, b);
    case Neg(a) =>
      DefinedDerivativeIsSlope(m, env, x, a);
      NegCase(m, env, x, a);
    case Mul(a, b) =>
      ProductParts(m, env, a, b, x);
      DefinedDerivativeIsSlope(m, env, x, a); DefinedDerivativeIsSlope(m, env, x, b);
      MulCase(m, env, x, a, b);
    case Div(a, b) =>
      QuotientParts(m, env, a, b, x);
      DefinedDerivativeIsSlope(m, env, x, a); DefinedDerivativeIsSlope(m, env, x, b);
      DivCase(m, env, x, a, b);
    case Pow(u, v) =>
      if v.Num? {
        LiteralPowerParts(m, env, u, v.n, x);
        DefinedDerivativeIsSlope(m, env, x, u);
        LiteralPowerCase(m, env, x, u, v.n);
      } else {
        PowerParts(m, env, u, v, x);
        DefinedDerivativeIsSlope(m, env, x, u); DefinedDerivativeIsSlope(m, env, x, v);
        PowerCase(m, env, x, u, v);
      }
    case Fn(f, u) =>
      FnParts(m, env, f, u, Differentiate(u, x));
      DefinedDerivativeIsSlope(m, env, x, u);
      FnCase(m, env, x, f, u);
  }

  lemma VariableRule(m: Lib, env: Env, x: string, v: string)
    requires x in env && x != "pi" && x != "e" && Evaluate(m, env, Var(v)).Some?
    ensures HasSlope(Along(m, env, x, Var(v)), env[x], if v == x then 1.0 else 0.0)
    ensures HasSlopeWithin(Along(m, env, x, Var(v)), env[x], if v == x then 1.0 else 0.0, 1.0)
  {
    var k := Along(m, env, x, Var(v));
    if v == x {
      IdentitySlope(k, env[x]);
    } else {
      ConstantSlope(k, env[x], Evaluate(m, env, Var(v)).value);
    }
  }

  /** The parts of the derivative of a product, and its value. */
  lemma ProductParts(m: Lib, env: Env, a: Expr, b: Expr, x: string)
    requires Evaluate(m, env, Differentiate(Mul(a, b), x)).Some?
    ensures var da, db := Evaluate(m, env, Differentiate(a, x)), Evaluate(m, env, Differentiate(b, x));
            && da.Some? && db.Some?
            && Evaluate(m, env, Differentiate(Mul(a, b), x)) ==
               AddValues(MulValues(da, Evaluate(m, env, b)), MulValues(Evaluate(m, env, a), db))
  {
    assert Evaluate(m, env, Mul(Differentiate(a, x), b)) ==
           MulValues(Evaluate(m, env, Differentiate(a, x)), Evaluate(m, env, b));
    assert Evaluate(m, env, Mul(a, Differentiate(b, x))) ==
           MulValues(Evaluate(m, env, a), Evaluate(m, env, Differentiate(b, x)));
  }

  lemma QuotientParts(m: Lib, env: Env, a: Expr, b: Expr, x: string)
    requires Evaluate(m, env, Div(a, b)).Some? && Evaluate(m, env, Differentiate(Div(a, b), x)).Some?
    ensures var y, z := Evaluate(m, env, a).value, Evaluate(m, env, b).value;
            var da, db := Evaluate(m, env, Differentiate(a, x)), Evaluate(m, env, Differentiate(b, x));
            && da.Some? && db.Some? && z != 0.0 && Times(z, z) != 0.0
            && Evaluate(m, env, Differentiate(Div(a, b), x)).value ==
               (Times(da.value, z) - Times(y, db.value)) / Times(z, z)
  {
    hide Times, Evaluate, Differentiate, SubValues, MulValues;
    var d := Differentiate(Div(a, b), x);
    DerivativeForms(a, b, x);
    QuotientEvaluates(m, env, Div(a, b));
    QuotientEvaluates(m, env, d);
    SquareEvaluates(m, env, b, Evaluate(m, env, b).value);
    NumeratorParts(m, env, a, b, Differentiate(a, x), Differentiate(b, x));
    QuotientOfValues(Evaluate(m, env, a), Evaluate(m, env, b), Evaluate(m, env, Differentiate(a, x)),
                     Evaluate(m, env, Differentiate(b, x)), Evaluate(m, env, d));
  }

  /** The derivatives of a quotient and of a power with a symbolic exponent, as trees. */
  lemma DerivativeForms(a: Expr, b: Expr, x: string)
    ensures Differentiate(Div(a, b), x) ==
            Div(Sub(Mul(Differentiate(a, x), b), Mul(a, Differentiate(b, x))), Pow(b, Num(2.0)))
    ensures !b.Num? ==>
              Differentiate(Pow(a, b), x) ==
              Mul(Pow(a, b), Add(Mul(Differentiate(b, x), Fn(Ln, a)), Div(Mul(b, Differentiate(a, x)), a)))
  {
  }

  lemma QuotientOfValues(y: Option<real>, z: Option<real>, da: Option<real>, db: Option<real>, r: Option<real>)
    requires DivValues(y, z).Some? && r.Some?
    requires r == DivValues(SubValues(MulValues(da, z), MulValues(y, db)), Some(Times(z.value, z.value)))
    ensures da.Some? && db.Some? && z.value != 0.0 && Times(z.value, z.value) != 0.0
    ensures r.value == (Times(da.value, z.value) - Times(y.value, db.value)) / Times(z.value, z.value)
  {
  }

  lemma QuotientEvaluates(m: Lib, env: Env, e: Expr)
    requires e.Div?
    ensures Evaluate(m, env, e) == DivValues(Evaluate(m, env, e.left), Evaluate(m, env, e.right))
  {
  }

  lemma NumeratorParts(m: Lib, env: Env, a: Expr, b: Expr, da: Expr, db: Expr)
    ensures Evaluate(m, env, Sub(Mul(da, b), Mul(a, db))) ==
            SubValues(MulValues(Evaluate(m, env, da), Evaluate(m, env, b)),
                      MulValues(Evaluate(m, env, a), Evaluate(m, env, db)))
  {
    hide Times, PowValues, FnValue, Lookup;
  }

  lemma LiteralPowerParts(m: Lib, env: Env, u: Expr, n: real, x: string)
    requires Evaluate(m, env, Pow(u, Num(n))).Some?
    requires Evaluate(m, env, Differentiate(Pow(u, Num(n)), x)).Some?
    ensures var y, du := Evaluate(m, env, u), Evaluate(m, env, Differentiate(u, x));
            && y.Some? && du.Some? && Powf(m, y.value, n).Some? && Powf(m, y.value, n - 1.0).Some?
            && Evaluate(m, env, Differentiate(Pow(u, Num(n)), x)).value ==
               Times(Times(n, Powf(m, y.value, n - 1.0).value), du.value)
  {
    var low := Pow(u, Num(n - 1.0));
    var scaled := Mul(Num(n), low);
    assert Evaluate(m, env, Num(n)) == Some(n) && Evaluate(m, env, Num(n - 1.0)) == Some(n - 1.0);
    assert Evaluate(m, env, low) == PowValues(m, Evaluate(m, env, u), Some(n - 1.0));
    assert Evaluate(m, env, scaled) == MulValues(Some(n), Evaluate(m, env, low));
    assert Differentiate(Pow(u, Num(n)), x) == Mul(scaled, Differentiate(u, x));
  }

  lemma LiteralPowerRule(m: Lib, f: Partial, k: Partial, x: real, d: real, y: real, n: real)
    requires Smooth(m) && HasSlope(f, x, d) && f(x) == Some(y) && (IsInteger(n) || y != 0.0)
    requires Powf(m, y, n).Some? && Powf(m, y, n - 1.0).Some?
    requires forall u :: k(u) == PowValues(m, f(u), Some(n))
    ensures HasSlope(k, x, Times(Times(n, Powf(m, y, n - 1.0).value), d))
  {
    PowSlope(m, n, y);
    ChainSlope(f, PowOf(m, n), k, x, d, Times(n, Powf(m, y, n - 1.0).value));
    Swap(d, Times(n, Powf(m, y, n - 1.0).value));
  }

  lemma Swap(x: real, y: real)
    ensures Times(x, y) == Times(y, x)
  {
  }

  lemma PowerParts(m: Lib, env: Env, u: Expr, v: Expr, x: string)
    requires !v.Num? && Evaluate(m, env, Pow(u, v)).Some?
    requires Evaluate(m, env, Differentiate(Pow(u, v), x)).Some?
    ensures var y, z := Evaluate(m, env, u), Evaluate(m, env, v);
            var du, dv := Evaluate(m, env, Differentiate(u, x)), Evaluate(m, env, Differentiate(v, x));
            && y.Some? && z.Some? && du.Some? && dv.Some? && y.value > 0.0 && Powf(m, y.value, z.value).Some?
            && Evaluate(m, env, Differentiate(Pow(u, v), x)).value ==
               Times(Powf(m, y.value, z.value).value,
                     Times(dv.value, m.fn(Ln, y.value)) + Times(z.value, du.value) / y.value)
  {
    hide Times, Evaluate, Differentiate;
    var du, dv := Differentiate(u, x), Differentiate(v, x);
    var l, r := Mul(dv, Fn(Ln, u)), Div(Mul(v, du), u);
    DerivativeForms(u, v, x);
    ProductEvaluates(m, env, Mul(Pow(u, v), Add(l, r)));
    OneLevel(m, env, Add(l, r));
    QuotientEvaluates(m, env, r);
    ProductEvaluates(m, env, Mul(v, du));
    ProductEvaluates(m, env, l);
    OneLevel(m, env, Fn(Ln, u));
    OneLevel(m, env, Pow(u, v));
  }

  /** Evaluation of a sum, a power or a function, one level down. */
  lemma OneLevel(m: Lib, env: Env, e: Expr)
    ensures e.Add? ==> Evaluate(m, env, e) == AddValues(Evaluate(m, env, e.left), Evaluate(m, env, e.right))
    ensures e.Pow? ==> Evaluate(m, env, e) == PowValues(m, Evaluate(m, env, e.base), Evaluate(m, env, e.exponent))
    ensures e.Fn? ==> Evaluate(m, env, e) == FnValue(m, e.f, Evaluate(m, env, e.arg))
  {
  }

  lemma ProductEvaluates(m: Lib, env: Env, e: Expr)
    requires e.Mul?
    ensures Evaluate(m, env, e) == MulValues(Evaluate(m, env, e.left), Evaluate(m, env, e.right))
  {
  }

  /** A derivative of f(u) that has a value contains one of u that has one. */
  lemma FnParts(m: Lib, env: Env, f: Func, u: Expr, du: Expr)
    requires Evaluate(m, env, Fn(f, u)).Some? && Evaluate(m, env, DifferentiateFn(f, u, du)).Some?
    ensures Evaluate(m, env, u).Some? && InDomain(f, Evaluate(m, env, u).value) && Evaluate(m, env, du).Some?
  {
    match f
    case Abs => assert Evaluate(m, env, Mul(du, u)).Some?;
    case Acos => assert Evaluate(m, env, Neg(du)).Some?;
    case _ =>
  }

  // ----- where the derivative has a value -----

  /** The points at which the derivative of f(u) has a value where u and its derivative have one. */
  predicate IsDerivedAt(m: Lib, f: Func, t: real) {
    match f
    case Tan => m.fn(Cos, t) != 0.0
    case Sqrt => t > 0.0
    case Ln => t != 0.0
    case Abs => t != 0.0
    case Asin => -1.0 < t < 1.0
    case Acos => -1.0 < t < 1.0
    case _ => true
  }

  /** The bases at which the derivative of the n-th power has a value. */
  predicate PowerDerivedAt(y: real, n: real) {
    y > 0.0 || (y == 0.0 && n >= 1.0) || (y < 0.0 && IsInteger(n))
  }

  /** A test on the expression, its values and its points: the derivative has a value. */
  ghost predicate HasDerivativeAt(m: Lib, env: Env, e: Expr) {
    match e
    case Num(_) => true
    case Var(_) => true
    case Add(a, b) => HasDerivativeAt(m, env, a) && HasDerivativeAt(m, env, b)
    case Sub(a, b) => HasDerivativeAt(m, env, a) && HasDerivativeAt(m, env, b)
    case Mul(a, b) =>
      && HasDerivativeAt(m, env, a) && HasDerivativeAt(m, env, b)
      && Evaluate(m, env, a).Some? && Evaluate(m, env, b).Some?
    case Div(a, b) =>
      && HasDerivativeAt(m, env, a) && HasDerivativeAt(m, env, b)
      && Evaluate(m, env, a).Some? && Evaluate(m, env, b).Some? && Evaluate(m, env, b).value != 0.0
    case Pow(u, v) =>
      && HasDerivativeAt(m, env, u) && Evaluate(m, env, u).Some?
      && if v.Num? then PowerDerivedAt(Evaluate(m, env, u).value, v.n)
         else HasDerivativeAt(m, env, v) && Evaluate(m, env, v).Some? && Evaluate(m, env, u).value > 0.0
    case Neg(a) => HasDerivativeAt(m, env, a)
    case Fn(f, u) =>
      HasDerivativeAt(m, env, u) && Evaluate(m, env, u).Some? && IsDerivedAt(m, f, Evaluate(m, env, u).value)
  }

  /** The table of derivatives applies inside the domain only at such points. */
  lemma SlopeDomainDerived(m: Lib, f: Func, t: real)
    requires SlopeDomain(m, f, t) && InDomain(f, t)
    ensures IsDerivedAt(m, f, t)
  {
  }

  /** Where u has a value, the derivative of f(u) has one exactly if that of u has, at the points of f. */
  lemma FnDerivativeDefined(m: Lib, env: Env, f: Func, u: Expr, du: Expr, t: real)
    requires Evaluate(m, env, u) == Some(t) && forall s: real :: SqrtLaw(m, s)
    ensures Evaluate(m, env, DifferentiateFn(f, u, du)).Some? <==>
            Evaluate(m, env, du).Some? && IsDerivedAt(m, f, t)
  {
    hide Times, Evaluate, PowValues;
    var d := DifferentiateFn(f, u, du);
    match f
    case Tan => TanDerivativeDefined(m, env, u, du);
    case Sqrt => SqrtDerivativeDefined(m, env, u, du, t);
    case Ln => QuotientEvaluates(m, env, d);
    case Abs => AbsDerivativeDefined(m, env, u, du, t);
    case Tanh => TanhDerivativeDefined(m, env, u, du);
    case Asin =>
      ArcRootDefined(m, env, u, t);
      QuotientEvaluates(m, env, d);
    case Acos =>
      ArcRootDefined(m, env, u, t);
      QuotientEvaluates(m, env, d);
      NegationEvaluates(m, env, du);
    case Atan => AtanDerivativeDefined(m, env, u, du, t);
    case Cos =>
      ProductEvaluates(m, env, d);
      NegationEvaluates(m, env, Fn(Sin, u));
      OneLevel(m, env, Fn(Sin, u));
    case _ =>
      ProductEvaluates(m, env, d);
      OneLevel(m, env, d.left);
  }

  lemma NegationEvaluates(m: Lib, env: Env, a: Expr)
    ensures Evaluate(m, env, Neg(a)) == NegValue(Evaluate(m, env, a))
  {
  }

  lemma DifferenceEvaluates(m: Lib, env: Env, a: Expr, b: Expr)
    ensures Evaluate(m, env, Sub(a, b)) == SubValues(Evaluate(m, env, a), Evaluate(m, env, b))
  {
  }

  lemma LiteralEvaluates(m: Lib, env: Env, n: real)
    ensures Evaluate(m, env, Num(n)) == Some(n)
  {
  }

  lemma TanDerivativeDefined(m: Lib, env: Env, u: Expr, du: Expr)
    requires Evaluate(m, env, u).Some?
    ensures Evaluate(m, env, DifferentiateFn(Tan, u, du)).Some? <==>
            Evaluate(m, env, du).Some? && m.fn(Cos, Evaluate(m, env, u).value) != 0.0
  {
    hide Times, Evaluate, PowValues;
    var c := m.fn(Cos, Evaluate(m, env, u).value);
    OneLevel(m, env, Fn(Cos, u));
    SquareEvaluates(m, env, Fn(Cos, u), c);
    SquarePositive(c);
    LiteralEvaluates(m, env, 1.0);
    var d := DifferentiateFn(Tan, u, du);
    QuotientEvaluates(m, env, d.left);
    ProductEvaluates(m, env, d);
  }

  lemma TanhDerivativeDefined(m: Lib, env: Env, u: Expr, du: Expr)
    requires Evaluate(m, env, u).Some?
    ensures Evaluate(m, env, DifferentiateFn(Tanh, u, du)).Some? <==> Evaluate(m, env, du).Some?
  {
    hide Times, Evaluate, PowValues;
    OneLevel(m, env, Fn(Tanh, u));
    SquareEvaluates(m, env, Fn(Tanh, u), m.fn(Tanh, Evaluate(m, env, u).value));
    LiteralEvaluates(m, env, 1.0);
    DifferenceEvaluates(m, env, Num(1.0), Pow(Fn(Tanh, u), Num(2.0)));
    ProductEvaluates(m, env, DifferentiateFn(Tanh, u, du));
  }

  lemma SqrtDerivativeDefined(m: Lib, env: Env, u: Expr, du: Expr, t: real)
    requires Evaluate(m, env, u) == Some(t) && SqrtLaw(m, t)
    ensures Evaluate(m, env, DifferentiateFn(Sqrt, u, du)).Some? <==> Evaluate(m, env, du).Some? && t > 0.0
  {
    hide Times, Evaluate;
    OneLevel(m, env, Fn(Sqrt, u));
    LiteralEvaluates(m, env, 2.0);
    var d := DifferentiateFn(Sqrt, u, du);
    ProductEvaluates(m, env, d.right);
    QuotientEvaluates(m, env, d);
    SquarePositive(m.fn(Sqrt, t));
    TwiceNonZero(m.fn(Sqrt, t));
  }

  lemma TwiceNonZero(s: real)
    ensures Times(2.0, s) == 0.0 <==> s == 0.0
  {
  }

  lemma AbsDerivativeDefined(m: Lib, env: Env, u: Expr, du: Expr, t: real)
    requires Evaluate(m, env, u) == Some(t)
    ensures Evaluate(m, env, DifferentiateFn(Abs, u, du)).Some? <==> Evaluate(m, env, du).Some? && t != 0.0
  {
    hide Times, Evaluate;
    OneLevel(m, env, Fn(Abs, u));
    var d := DifferentiateFn(Abs, u, du);
    ProductEvaluates(m, env, d.left);
    QuotientEvaluates(m, env, d);
  }

  /** The root of 1 - u^2 has a value other than 0 exactly strictly between -1 and 1. */
  lemma ArcRootDefined(m: Lib, env: Env, u: Expr, t: real)
    requires Evaluate(m, env, u) == Some(t) && forall s: real :: SqrtLaw(m, s)
    ensures var root := Evaluate(m, env, Fn(Sqrt, Sub(Num(1.0), Pow(u, Num(2.0)))));
            root.Some? && root.value != 0.0 <==> -1.0 < t < 1.0
  {
    hide Times, Evaluate;
    var w := 1.0 - Times(t, t);
    SquareEvaluates(m, env, u, t);
    LiteralEvaluates(m, env, 1.0);
    DifferenceEvaluates(m, env, Num(1.0), Pow(u, Num(2.0)));
    OneLevel(m, env, Fn(Sqrt, Sub(Num(1.0), Pow(u, Num(2.0)))));
    assert SqrtLaw(m, w);
    SquarePositive(m.fn(Sqrt, w));
    SquareBelowOne(t);
  }

  lemma SquareBelowOne(t: real)
    ensures 1.0 - Times(t, t) > 0.0 <==> -1.0 < t < 1.0
  {
    if t >= 1.0 {
      assert t * t >= t;
    } else if t <= -1.0 {
      assert t * t >= -t;
    } else if t >= 0.0 {
      assert t * t <= t;
    } else {
      assert t * t <= -t;
    }
  }

  lemma AtanDerivativeDefined(m: Lib, env: Env, u: Expr, du: Expr, t: real)
    requires Evaluate(m, env, u) == Some(t)
    ensures Evaluate(m, env, DifferentiateFn(Atan, u, du)).Some? <==> Evaluate(m, env, du).Some?
  {
    hide Times, Evaluate;
    SquareEvaluates(m, env, u, t);
    LiteralEvaluates(m, env, 1.0);
    OneLevel(m, env, Add(Num(1.0), Pow(u, Num(2.0))));
    QuotientEvaluates(m, env, DifferentiateFn(Atan, u, du));
    SquarePositive(t);
  }

  lemma LowerPowerDefined(m: Lib, y: real, n: real)
    ensures Powf(m, y, n - 1.0).Some? <==> PowerDerivedAt(y, n)
  {
    assert IsInteger(n) ==> (n - 1.0).Floor == n.Floor - 1;
    assert IsInteger(n - 1.0) ==> n.Floor == (n - 1.0).Floor + 1;
  }

  lemma LiteralPowerDerivative(m: Lib, env: Env, u: Expr, n: real, x: string)
    ensures Evaluate(m, env, Differentiate(Pow(u, Num(n)), x)).Some? <==>
            && Evaluate(m, env, u).Some? && Evaluate(m, env, Differentiate(u, x)).Some?
            && PowerDerivedAt(Evaluate(m, env, u).value, n)
  {
    var low := Pow(u, Num(n - 1.0));
    var scaled := Mul(Num(n), low);
    assert Differentiate(Pow(u, Num(n)), x) == Mul(scaled, Differentiate(u, x));
    hide Times, Evaluate, Differentiate, PowerDerivedAt, Powf;
    LiteralEvaluates(m, env, n);
    LiteralEvaluates(m, env, n - 1.0);
    OneLevel(m, env, low);
    ProductEvaluates(m, env, scaled);
    ProductEvaluates(m, env, Mul(scaled, Differentiate(u, x)));
    if Evaluate(m, env, u).Some? { LowerPowerDefined(m, Evaluate(m, env, u).value, n); }
  }

  lemma PowerDerivativeDefined(m: Lib, env: Env, u: Expr, v: Expr, x: string)
    requires Lawful(m) && !v.Num?
    ensures Evaluate(m, env, Differentiate(Pow(u, v), x)).Some? <==>
            && Evaluate(m, env, u).Some? && Evaluate(m, env, v).Some?
            && Evaluate(m, env, Differentiate(u, x)).Some? && Evaluate(m, env, Differentiate(v, x)).Some?
            && Evaluate(m, env, u).value > 0.0
  {
    hide Times, Evaluate, Differentiate;
    var du, dv := Differentiate(u, x), Differentiate(v, x);
    var l, r := Mul(dv, Fn(Ln, u)), Div(Mul(v, du), u);
    DerivativeForms(u, v, x);
    ProductEvaluates(m, env, Mul(Pow(u, v), Add(l, r)));
    OneLevel(m, env, Add(l, r));
    QuotientEvaluates(m, env, r);
    ProductEvaluates(m, env, Mul(v, du));
    ProductEvaluates(m, env, l);
    OneLevel(m, env, Fn(Ln, u));
    OneLevel(m, env, Pow(u, v));
    if Evaluate(m, env, u).Some? && Evaluate(m, env, v).Some? && Evaluate(m, env, u).value > 0.0 {
      PowfPositive(m, Evaluate(m, env, u).value, Evaluate(m, env, v).value);
    }
  }

  lemma QuotientDerivativeDefined(m: Lib, env: Env, a: Expr, b: Expr, x: string)
    ensures Evaluate(m, env, Differentiate(Div(a, b), x)).Some? <==>
            && Evaluate(m, env, a).Some? && Evaluate(m, env, b).Some? && Evaluate(m, env, b).value != 0.0
            && Evaluate(m, env, Differentiate(a, x)).Some? && Evaluate(m, env, Differentiate(b, x)).Some?
  {
    hide Times, Evaluate, Differentiate;
    DerivativeForms(a, b, x);
    QuotientEvaluates(m, env, Differentiate(Div(a, b), x));
    NumeratorParts(m, env, a, b, Differentiate(a, x), Differentiate(b, x));
    if Evaluate(m, env, b).Some? {
      SquareEvaluates(m, env, b, Evaluate(m, env, b).value);
      SquarePositive(Evaluate(m, env, b).value);
    }
  }

  lemma ProductDerivativeDefined(m: Lib, env: Env, a: Expr, b: Expr, x: string)
    ensures Evaluate(m, env, Differentiate(Mul(a, b), x)).Some? <==>
            && Evaluate(m, env, a).Some? && Evaluate(m, env, b).Some?
            && Evaluate(m, env, Differentiate(a, x)).Some? && Evaluate(m, env, Differentiate(b, x)).Some?
  {
    var l, r := Mul(Differentiate(a, x), b), Mul(a, Differentiate(b, x));
    assert Differentiate(Mul(a, b), x) == Add(l, r);
    hide Times, Evaluate, Differentiate;
    OneLevel(m, env, Add(l, r));
    ProductEvaluates(m, env, l);
    ProductEvaluates(m, env, r);
  }

  lemma FnDerivativeParts(m: Lib, env: Env, f: Func, u: Expr, du: Expr)
    ensures Evaluate(m, env, DifferentiateFn(f, u, du)).Some? ==> Evaluate(m, env, u).Some?
  {
    var d := DifferentiateFn(f, u, du);
    if Evaluate(m, env, u).None? {
      assert forall g :: Evaluate(m, env, Fn(g, u)).None?;
      assert Evaluate(m, env, Pow(u, Num(2.0))).None? && Evaluate(m, env, Mul(du, u)).None?;
      NothingFromNothing(m, env, f, u, du);
    }
  }

  lemma NothingFromNothing(m: Lib, env: Env, f: Func, u: Expr, du: Expr)
    requires forall g :: Evaluate(m, env, Fn(g, u)).None?
    requires Evaluate(m, env, Pow(u, Num(2.0))).None? && Evaluate(m, env, u).None?
    ensures Evaluate(m, env, DifferentiateFn(f, u, du)).None?
  {
    hide Evaluate;
    var d := DifferentiateFn(f, u, du);
    if d.Mul? { ProductEvaluates(m, env, d); } else { QuotientEvaluates(m, env, d); }
    match f
    case Cos => NegationEvaluates(m, env, Fn(Sin, u));
    case Tan =>
      OneLevel(m, env, Pow(Fn(Cos, u), Num(2.0)));
      QuotientEvaluates(m, env, d.left);
    case Sqrt => ProductEvaluates(m, env, d.right);
    case Tanh =>
      OneLevel(m, env, Pow(Fn(Tanh, u), Num(2.0)));
      DifferenceEvaluates(m, env, Num(1.0), Pow(Fn(Tanh, u), Num(2.0)));
    case Asin =>
      DifferenceEvaluates(m, env, Num(1.0), Pow(u, Num(2.0)));
      OneLevel(m, env, d.right);
    case Acos =>
      DifferenceEvaluates(m, env, Num(1.0), Pow(u, Num(2.0)));
      OneLevel(m, env, d.right);
    case Atan => OneLevel(m, env, d.right);
    case _ =>
  }

  /** The derivative has a value exactly where the test says so. */
  lemma {:induction false} DerivativeDefinedExactly(m: Lib, env: Env, x: string, e: Expr)
    requires Lawful(m) && forall t: real :: SqrtLaw(m, t)
    ensures Evaluate(m, env, Differentiate(e, x)).Some? <==> HasDerivativeAt(m, env, e)
  {
    match e
    case Num(_) =>
    case Var(_) =>
    case Add(a, b) => DerivativeDefinedExactly(m, env, x, a); DerivativeDefinedExactly(m, env, x, b);
    case Sub(a, b) => DerivativeDefinedExactly(m, env, x, a); DerivativeDefinedExactly(m, env, x, b);
    case Neg(a) => DerivativeDefinedExactly(m, env, x, a);
    case Mul(a, b) =>
      DerivativeDefinedExactly(m, env, x, a); DerivativeDefinedExactly(m, env, x, b);
      ProductDerivativeDefined(m, env, a, b, x);
    case Div(a, b) =>
      DerivativeDefinedExactly(m, env, x, a); DerivativeDefinedExactly(m, env, x, b);
      QuotientDerivativeDefined(m, env, a, b, x);
    case Pow(u, v) =>
      DerivativeDefinedExactly(m, env, x, u); DerivativeDefinedExactly(m, env, x, v);
      if v.Num? {
        LiteralPowerDerivative(m, env, u, v.n, x);
      } else {
        PowerDerivativeDefined(m, env, u, v, x);
      }
    case Fn(f, u) =>
      DerivativeDefinedExactly(m, env, x, u);
      FnDerivativeParts(m, env, f, u, Differentiate(u, x));
      if Evaluate(m, env, u).Some? {
        FnDerivativeDefined(m, env, f, u, Differentiate(u, x), Evaluate(m, env, u).value);
      }
  }

  lemma SmoothRoots(m: Lib)
    requires Smooth(m)
    ensures Lawful(m) && forall t: real :: SqrtLaw(m, t)
  {
  }

  /** Where the derivative has a value it contains a symbolic 0^0 only if the expression does. */
  lemma {:induction false} DerivativeStaysStrict(m: Lib, env: Env, x: string, e: Expr)
    requires HasDerivativeAt(m, env, e) && NoSymbolicZeroPower(m, env, e)
    ensures NoSymbolicZeroPower(m, env, Differentiate(e, x))
  {
    match e
    case Num(_) =>
    case Var(_) =>
    case Add(a, b) => DerivativeStaysStrict(m, env, x, a); DerivativeStaysStrict(m, env, x, b);
    case Sub(a, b) => DerivativeStaysStrict(m, env, x, a); DerivativeStaysStrict(m, env, x, b);
    case Neg(a) => DerivativeStaysStrict(m, env, x, a);
    case Mul(a, b) => DerivativeStaysStrict(m, env, x, a); DerivativeStaysStrict(m, env, x, b);
    case Div(a, b) =>
      DerivativeStaysStrict(m, env, x, a); DerivativeStaysStrict(m, env, x, b);
      assert NoSymbolicZeroPower(m, env, Mul(Differentiate(a, x), b));
      assert NoSymbolicZeroPower(m, env, Mul(a, Differentiate(b, x)));
    case Pow(u, v) =>
      DerivativeStaysStrict(m, env, x, u);
      if v.Num? {
        assert NoSymbolicZeroPower(m, env, Pow(u, Num(v.n - 1.0)));
        assert NoSymbolicZeroPower(m, env, Mul(Num(v.n), Pow(u, Num(v.n - 1.0))));
      } else {
        DerivativeStaysStrict(m, env, x, v);
        assert NoSymbolicZeroPower(m, env, Mul(Differentiate(v, x), Fn(Ln, u)));
        assert NoSymbolicZeroPower(m, env, Div(Mul(v, Differentiate(u, x)), u));
      }
    case Fn(f, u) =>
      DerivativeStaysStrict(m, env, x, u);
      StrictFnDerivative(m, env, f, u, Differentiate(u, x));
  }

  lemma StrictFnDerivative(m: Lib, env: Env, f: Func, u: Expr, du: Expr)
    requires NoSymbolicZeroPower(m, env, u) && NoSymbolicZeroPower(m, env, du)
    ensures NoSymbolicZeroPower(m, env, DifferentiateFn(f, u, du))
  {
    forall g ensures NoSymbolicZeroPower(m, env, Fn(g, u)) && NoSymbolicZeroPower(m, env, Pow(Fn(g, u), Num(2.0))) {}
    assert NoSymbolicZeroPower(m, env, Num(1.0)) && NoSymbolicZeroPower(m, env, Num(2.0));
    assert NoSymbolicZeroPower(m, env, Pow(u, Num(2.0)));
    assert NoSymbolicZeroPower(m, env, Sub(Num(1.0), Pow(u, Num(2.0))));
    assert NoSymbolicZeroPower(m, env, Mul(Num(2.0), Fn(Sqrt, u)));
  }

  /** Where the test holds and the expression has a value, the computed derivative has one: its slope. */
  lemma DerivativeIsSlope(m: Lib, env: Env, x: string, e: Expr)
    requires Smooth(m) && x in env && x != "pi" && x != "e"
    requires Evaluate(m, env, e).Some? && HasDerivativeAt(m, env, e) && TwoSidedPowers(m, env, e)
    ensures var d := Evaluate(m, env, Differentiate(e, x)); d.Some? && HasSlope(Along(m, env, x, e), env[x], d.value)
  {
    SmoothRoots(m);
    DerivativeDefinedExactly(m, env, x, e);
    DefinedDerivativeIsSlope(m, env, x, e);
  }

  /**
    `differentiate_at`: where the test holds, the simplified derivative has a value, and
    it is the slope of the expression.
    */
  lemma DifferentiateAt(m: Lib, env: Env, x: string, e: Expr)
    requires Smooth(m) && x in env && x != "pi" && x != "e"
    requires Evaluate(m, env, e).Some? && TwoSidedPowers(m, env, e)
    requires HasDerivativeAt(m, env, e) && NoSymbolicZeroPower(m, env, e)
    ensures var d := Evaluate(m, env, Simplify(m, Differentiate(e, x)));
            d.Some? && HasSlope(Along(m, env, x, e), env[x], d.value)
  {
    DerivativeIsSlope(m, env, x, e);
    DerivativeStaysStrict(m, env, x, e);
    SimplifyKeepsValue(m, env, Differentiate(e, x));
  }

  // ----- exponents fixed in the text -----

  lemma {:induction false} DifferentiateKeepsFixed(e: Expr, x: string)
    requires FixedExponents(e)
    ensures FixedExponents(Differentiate(e, x))
  {
    match e
    case Add(a, b) => DifferentiateKeepsFixed(a, x); DifferentiateKeepsFixed(b, x);
    case Sub(a, b) => DifferentiateKeepsFixed(a, x); DifferentiateKeepsFixed(b, x);
    case Mul(a, b) => DifferentiateKeepsFixed(a, x); DifferentiateKeepsFixed(b, x);
    case Div(a, b) => DifferentiateKeepsFixed(a, x); DifferentiateKeepsFixed(b, x);
    case Pow(a, b) =>
      DifferentiateKeepsFixed(a, x);
      FixedPowDerivative(a, b, x);
    case Neg(a) => DifferentiateKeepsFixed(a, x);
    case Fn(f, a) =>
      DifferentiateKeepsFixed(a, x);
      FixedFnDerivative(f, a, Differentiate(a, x));
    case _ =>
  }

  lemma FixedPowDerivative(a: Expr, b: Expr, x: string)
    requires FixedExponents(Pow(a, b)) && FixedExponents(Differentiate(a, x))
    ensures FixedExponents(Differentiate(Pow(a, b), x))
  {
    if b.Num? {
      assert FixedExponents(Pow(a, Num(b.n - 1.0)));
      assert FixedExponents(Mul(Num(b.n), Pow(a, Num(b.n - 1.0))));
    } else {
      var db := Differentiate(b, x);
      assert db == Neg(Differentiate(b.arg, x)) == Neg(Num(0.0));
      assert FixedExponents(db) && FixedExponents(b);
      assert FixedExponents(Mul(db, Fn(Ln, a)));
      assert FixedExponents(Div(Mul(b, Differentiate(a, x)), a));
    }
  }

  lemma FixedFnDerivative(f: Func, u: Expr, du: Expr)
    requires FixedExponents(u) && FixedExponents(du)
    ensures FixedExponents(DifferentiateFn(f, u, du))
  {
    forall g ensures FixedExponents(Fn(g, u)) && FixedExponents(Pow(Fn(g, u), Num(2.0))) {}
    assert FixedExponents(Num(1.0)) && FixedExponents(Num(2.0)) && FixedExponents(Pow(u, Num(2.0)));
    assert FixedExponents(Sub(Num(1.0), Pow(u, Num(2.0))));
    assert FixedExponents(Mul(Num(2.0), Fn(Sqrt, u)));
  }

  /** The simplified derivative of an expression with fixed exponents has the value of the derivative. */
  lemma SimplifiedDerivative(m: Lib, env: Env, x: string, e: Expr)
    requires Lawful(m) && FixedExponents(e) && Evaluate(m, env, Differentiate(e, x)).Some?
    ensures Evaluate(m, env, Simplify(m, Differentiate(e, x))) == Evaluate(m, env, Differentiate(e, x))
  {
    var d := Differentiate(e, x);
    DifferentiateKeepsFixed(e, x);
    FixedExponentsAgree(m, env, d);
    StrictAgrees(m, env, d);
    SimplifyKeepsValue(m, env, d);
  }

  /** `differentiate_at` under a test on its argument: exponents fixed in the text. */
  lemma DifferentiateAtFixedExponents(m: Lib, env: Env, x: string, e: Expr)
    requires Smooth(m) && x in env && x != "pi" && x != "e"
    requires Evaluate(m, env, e).Some? && TwoSidedPowers(m, env, e) && FixedExponents(e)
    requires HasDerivativeAt(m, env, e)
    ensures var d := Evaluate(m, env, Simplify(m, Differentiate(e, x)));
            d.Some? && HasSlope(Along(m, env, x, e), env[x], d.value)
  {
    DerivativeIsSlope(m, env, x, e);
    SimplifiedDerivative(m, env, x, e);
  }

  // ----- polynomial expressions -----

  /** Built with the operations of a ring and natural powers. */
  predicate IsPolynomialExpr(e: Expr) {
    match e
    case Num(_) => true
    case Var(_) => true
    case Add(a, b) => IsPolynomialExpr(a) && IsPolynomialExpr(b)
    case Sub(a, b) => IsPolynomialExpr(a) && IsPolynomialExpr(b)
    case Mul(a, b) => IsPolynomialExpr(a) && IsPolynomialExpr(b)
    case Pow(a, b) => IsPolynomialExpr(a) && b.Num? && IsInteger(b.n) && b.n >= 0.0
    case Neg(a) => IsPolynomialExpr(a)
    case _ => false
  }

  lemma {:induction false} PolynomialIsFixed(e: Expr)
    requires IsPolynomialExpr(e)
    ensures FixedExponents(e)
  {
    match e
    case Add(a, b) => PolynomialIsFixed(a); PolynomialIsFixed(b);
    case Sub(a, b) => PolynomialIsFixed(a); PolynomialIsFixed(b);
    case Mul(a, b) => PolynomialIsFixed(a); PolynomialIsFixed(b);
    case Pow(a, _) => PolynomialIsFixed(a);
    case Neg(a) => PolynomialIsFixed(a);
    case _ =>
  }

  /** The slope of a polynomial expression, for all steps of size at most 1. */
  lemma {:induction false} PolynomialSlope(m: Lib, env: Env, x: string, e: Expr)
    requires IsPolynomialExpr(e) && x in env && x != "pi" && x != "e"
    requires Evaluate(m, env, e).Some? && Evaluate(m, env, Differentiate(e, x)).Some?
    ensures HasSlopeWithin(Along(m, env, x, e), env[x], Evaluate(m, env, Differentiate(e, x)).value, 1.0)
  {
    match e
    case Num(n) => ConstantSlope(Along(m, env, x, e), env[x], n);
    case Var(v) => VariableRule(m, env, x, v);
    case Add(a, b) =>
      PolynomialSlope(m, env, x, a); PolynomialSlope(m, env, x, b);
      AddRule(Along(m, env, x, a), Along(m, env, x, b), Along(m, env, x, e), env[x],
              Evaluate(m, env, Differentiate(a, x)).value, Evaluate(m, env, Differentiate(b, x)).value, 1.0);
    case Sub(a, b) =>
      PolynomialSlope(m, env, x, a); PolynomialSlope(m, env, x, b);
      SubRule(Along(m, env, x, a), Along(m, env, x, b), Along(m, env, x, e), env[x],
              Evaluate(m, env, Differentiate(a, x)).value, Evaluate(m, env, Differentiate(b, x)).value, 1.0);
    case Neg(a) =>
      PolynomialSlope(m, env, x, a);
      NegRule(Along(m, env, x, a), Along(m, env, x, e), env[x], Evaluate(m, env, Differentiate(a, x)).value, 1.0);
    case Mul(a, b) =>
      ProductParts(m, env, a, b, x);
      PolynomialSlope(m, env, x, a); PolynomialSlope(m, env, x, b);
      AlongHere(m, env, x, a); AlongHere(m, env, x, b);
      MulRule(Along(m, env, x, a), Along(m, env, x, b), Along(m, env, x, e), env[x],
              Evaluate(m, env, Differentiate(a, x)).value, Evaluate(m, env, Differentiate(b, x)).value, 1.0);
    case Pow(u, v) =>
      LiteralPowerParts(m, env, u, v.n, x);
      PolynomialSlope(m, env, x, u);
      NaturalPowerCase(m, env, x, u, v.n.Floor);
  }

  lemma NaturalPowerCase(m: Lib, env: Env, x: string, u: Expr, k: nat)
    requires x in env
    requires Evaluate(m, env, Pow(u, Num(k as real))).Some?
    requires Evaluate(m, env, Differentiate(Pow(u, Num(k as real)), x)).Some?
    requires Evaluate(m, env, Differentiate(u, x)).Some?
    requires HasSlopeWithin(Along(m, env, x, u), env[x], Evaluate(m, env, Differentiate(u, x)).value, 1.0)
    ensures HasSlopeWithin(Along(m, env, x, Pow(u, Num(k as real))), env[x],
                           Evaluate(m, env, Differentiate(Pow(u, Num(k as real)), x)).value, 1.0)
  {
    var e, f, n := Pow(u, Num(k as real)), Along(m, env, x, u), k as real;
    LiteralPowerParts(m, env, u, n, x);
    AlongHere(m, env, x, u);
    var y, d := Evaluate(m, env, u).value, Evaluate(m, env, Differentiate(u, x)).value;
    NatPowSlope(f, k, env[x], d, y, 1.0);
    var c :| Expands(NatPowOf(f, k), env[x], Times(d, NatPowDerivative(y, k)), c, 1.0);
    forall t ensures Along(m, env, x, e)(t) == NatPowOf(f, k)(t) {
      assert n.Floor == k;
      assert Evaluate(m, env[x := t], Num(n)) == Some(n);
    }
    NaturalPowerValue(m, y, k, d);
    SameExpansion(NatPowOf(f, k), Along(m, env, x, e), env[x], Times(d, NatPowDerivative(y, k)), c);
  }

  lemma NaturalPowerValue(m: Lib, y: real, k: nat, d: real)
    requires Powf(m, y, k as real - 1.0).Some?
    ensures Times(d, NatPowDerivative(y, k)) == Times(Times(k as real, Powf(m, y, k as real - 1.0).value), d)
  {
    assert (k as real - 1.0).Floor == k - 1;
    if k == 0 { assert forall p: real :: Times(0.0, p) == 0.0; }
    Swap(d, NatPowDerivative(y, k));
  }

  lemma SameExpansion(f: Partial, g: Partial, x: real, d: real, c: real)
    requires Expands(f, x, d, c, 1.0) && forall t :: g(t) == f(t)
    ensures Expands(g, x, d, c, 1.0)
  {
    forall h: real ensures UpTo(g, x, d, c, 1.0, h) {
      assert UpTo(f, x, d, c, 1.0, h);
    }
  }

  /**
    On polynomial expressions one constant bounds the remainder of the derivative that
    `differentiate_at` evaluates, for every step of size at most 1.
    */
  lemma PolynomialRemainder(m: Lib, env: Env, x: string, e: Expr)
    requires Lawful(m) && IsPolynomialExpr(e) && x in env && x != "pi" && x != "e"
    requires Evaluate(m, env, e).Some? && Evaluate(m, env, Differentiate(e, x)).Some?
    ensures var d := Evaluate(m, env, Simplify(m, Differentiate(e, x)));
            d.Some? && exists c: real :: QuadraticRemainder(Along(m, env, x, e), env[x], d.value, c, 1.0)
  {
    PolynomialSlope(m, env, x, e);
    PolynomialIsFixed(e);
    SimplifiedDerivative(m, env, x, e);
    SlopeWithinBound(Along(m, env, x, e), env[x], Evaluate(m, env, Differentiate(e, x)).value, 1.0);
  }

  /** No zeroth power of a base that is 0: its derivative contains the power -1 of that base. */
  ghost predicate NoZerothPowerOfZero(m: Lib, env: Env, e: Expr) {
    match e
    case Add(a, b) => NoZerothPowerOfZero(m, env, a) && NoZerothPowerOfZero(m, env, b)
    case Sub(a, b) => NoZerothPowerOfZero(m, env, a) && NoZerothPowerOfZero(m, env, b)
    case Mul(a, b) => NoZerothPowerOfZero(m, env, a) && NoZerothPowerOfZero(m, env, b)
    case Pow(a, b) => NoZerothPowerOfZero(m, env, a) && (b == Num(0.0) ==> Evaluate(m, env, a) != Some(0.0))
    case Neg(a) => NoZerothPowerOfZero(m, env, a)
    case _ => true
  }

  /** Where a polynomial expression is defined, its derivative is exactly when no zeroth power of 0 occurs. */
  lemma {:induction false} PolynomialDerivativeDefined(m: Lib, env: Env, x: string, e: Expr)
    requires IsPolynomialExpr(e) && Evaluate(m, env, e).Some?
    ensures Evaluate(m, env, Differentiate(e, x)).Some? <==> NoZerothPowerOfZero(m, env, e)
  {
    match e
    case Num(_) =>
    case Var(_) =>
    case Add(a, b) => PolynomialDerivativeDefined(m, env, x, a); PolynomialDerivativeDefined(m, env, x, b);
    case Sub(a, b) => PolynomialDerivativeDefined(m, env, x, a); PolynomialDerivativeDefined(m, env, x, b);
    case Mul(a, b) =>
      PolynomialDerivativeDefined(m, env, x, a); PolynomialDerivativeDefined(m, env, x, b);
      ProductEvaluates(m, env, Mul(Differentiate(a, x), b));
      ProductEvaluates(m, env, Mul(a, Differentiate(b, x)));
    case Neg(a) => PolynomialDerivativeDefined(m, env, x, a);
    case Pow(u, v) =>
      PolynomialDerivativeDefined(m, env, x, u);
      NaturalPowerDefined(m, env, x, u, v.n);
  }

  lemma NaturalPowerDefined(m: Lib, env: Env, x: string, u: Expr, n: real)
    requires IsInteger(n) && n >= 0.0 && Evaluate(m, env, u).Some?
    ensures Evaluate(m, env, Differentiate(Pow(u, Num(n)), x)).Some? <==>
            Evaluate(m, env, Differentiate(u, x)).Some? && (n == 0.0 ==> Evaluate(m, env, u) != Some(0.0))
  {
    var low := Pow(u, Num(n - 1.0));
    var scaled := Mul(Num(n), low);
    assert Evaluate(m, env, Num(n)) == Some(n) && Evaluate(m, env, Num(n - 1.0)) == Some(n - 1.0);
    assert (n - 1.0).Floor == n.Floor - 1;
    OneLevel(m, env, low);
    ProductEvaluates(m, env, scaled);
    ProductEvaluates(m, env, Mul(scaled, Differentiate(u, x)));
  }

  /** The bound under a condition on the expression alone. */
  lemma PolynomialRemainderDefined(m: Lib, env: Env, x: string, e: Expr)
    requires Lawful(m) && IsPolynomialExpr(e) && x in env && x != "pi" && x != "e"
    requires Evaluate(m, env, e).Some? && NoZerothPowerOfZero(m, env, e)
    ensures var d := Evaluate(m, env, Simplify(m, Differentiate(e, x)));
            d.Some? && exists c: real :: QuadraticRemainder(Along(m, env, x, e), env[x], d.value, c, 1.0)
  {
    PolynomialDerivativeDefined(m, env, x, e);
    PolynomialRemainder(m, env, x, e);
  }
}
