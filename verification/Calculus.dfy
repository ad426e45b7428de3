/**
  First-order expansion with a quadratic remainder: f(x + h) = f(x) + h * (d + h * rho)
  with rho bounded near x. The rules of differentiation for it.
  */
module Calculus {
  import opened Wrappers
  import opened RealFacts

  type Partial = real -> Option<real>

  function Least(x: real, y: real): real {
    if x < y then x else y
  }

  // ----- magnitudes -----

  lemma MagTimes(x: real, y: real)
    ensures Mag(Times(x, y)) == Times(Mag(x), Mag(y))
  {
  }

  lemma TimesMonotone(x: real, y: real, x': real, y': real)
    requires 0.0 <= x <= x' && 0.0 <= y <= y'
    ensures 0.0 <= Times(x, y) <= Times(x', y')
  {
    assert x * y <= x' * y && x' * y <= x' * y';
  }

  /** A bound for a product from bounds for its factors. */
  lemma ProductBound(x: real, y: real, bx: real, by': real)
    requires Mag(x) <= bx && Mag(y) <= by'
    ensures Mag(Times(x, y)) <= Times(bx, by')
  {
    MagTimes(x, y);
    TimesMonotone(Mag(x), Mag(y), bx, by');
  }

  // ----- expansions -----

  /** v is y + h * (d + h * rho), with |rho| at most c. */
  ghost predicate Residual(v: real, y: real, d: real, h: real, rho: real, c: real) {
    Mag(rho) <= c && v == y + Times(h, d + Times(h, rho))
  }

  ghost predicate HasResidual(v: real, y: real, d: real, h: real, c: real) {
    exists rho: real :: Residual(v, y, d, h, rho, c)
  }

  ghost predicate ExpandsAt(f: Partial, x: real, d: real, c: real, h: real) {
    f(x).Some? && f(x + h).Some? && HasResidual(f(x + h).value, f(x).value, d, h, c)
  }

  ghost predicate UpTo(f: Partial, x: real, d: real, c: real, delta: real, h: real) {
    Mag(h) <= delta ==> ExpandsAt(f, x, d, c, h)
  }

  /** f expands around x, for every step of size at most delta. */
  ghost predicate Expands(f: Partial, x: real, d: real, c: real, delta: real) {
    0.0 < delta <= 1.0 && c >= 0.0 && forall h: real :: UpTo(f, x, d, c, delta, h)
  }

  /** f is differentiable at x with slope d, with a quadratic remainder. */
  ghost predicate HasSlope(f: Partial, x: real, d: real) {
    exists c: real, delta: real :: Expands(f, x, d, c, delta)
  }

  /** The same with a given bound on the steps. */
  ghost predicate HasSlopeWithin(f: Partial, x: real, d: real, delta: real) {
    exists c: real :: Expands(f, x, d, c, delta)
  }

  /** The remainder is at most c * h^2, as the usual definition has it. */
  lemma SlopeBound(f: Partial, x: real, d: real, c: real, delta: real, h: real)
    requires Expands(f, x, d, c, delta) && Mag(h) <= delta
    ensures f(x).Some? && f(x + h).Some?
    ensures Mag(f(x + h).value - f(x).value - Times(h, d)) <= Times(c, Times(h, h))
  {
    assert UpTo(f, x, d, c, delta, h);
    var rho :| Residual(f(x + h).value, f(x).value, d, h, rho, c);
    RemainderBound(d, h, rho, c);
  }

  lemma RemainderBound(d: real, h: real, rho: real, c: real)
    requires Mag(rho) <= c
    ensures Mag(Times(h, d + Times(h, rho)) - Times(h, d)) <= Times(c, Times(h, h))
  {
    var hh := h * h;
    assert h * (d + h * rho) - h * d == rho * hh;
    assert hh >= 0.0;
    ProductBound(rho, hh, c, hh);
  }

  /** The remainder is at most c * h^2 for every step of size at most delta. */
  ghost predicate QuadraticRemainder(f: Partial, x: real, d: real, c: real, delta: real) {
    f(x).Some? && forall h: real | Mag(h) <= delta :: RemainderAt(f, x, d, c, h)
  }

  ghost predicate RemainderAt(f: Partial, x: real, d: real, c: real, h: real)
    requires f(x).Some?
  {
    f(x + h).Some? && Mag(f(x + h).value - f(x).value - Times(h, d)) <= Times(c, Times(h, h))
  }

  lemma SlopeWithinBound(f: Partial, x: real, d: real, delta: real)
    requires HasSlopeWithin(f, x, d, delta)
    ensures exists c: real :: QuadraticRemainder(f, x, d, c, delta)
  {
    var c :| Expands(f, x, d, c, delta);
    assert UpTo(f, x, d, c, delta, 0.0);
    forall h: real | Mag(h) <= delta ensures RemainderAt(f, x, d, c, h) {
      SlopeBound(f, x, d, c, delta, h);
    }
    assert QuadraticRemainder(f, x, d, c, delta);
  }

  /** An expansion also holds for smaller steps. */
  lemma SmallerSteps(f: Partial, x: real, d: real, c: real, delta: real, delta': real)
    requires Expands(f, x, d, c, delta) && 0.0 < delta' <= delta
    ensures Expands(f, x, d, c, delta')
  {
    forall h: real ensures UpTo(f, x, d, c, delta', h) {
      assert UpTo(f, x, d, c, delta, h);
    }
  }

  /** Two functions with slopes have them for steps up to one common size. */
  lemma CommonSteps(f: Partial, g: Partial, x: real, d: real, e: real) returns (delta: real)
    requires HasSlope(f, x, d) && HasSlope(g, x, e)
    ensures HasSlopeWithin(f, x, d, delta) && HasSlopeWithin(g, x, e, delta)
  {
    var c1, delta1 :| Expands(f, x, d, c1, delta1);
    var c2, delta2 :| Expands(g, x, e, c2, delta2);
    delta := Least(delta1, delta2);
    SmallerSteps(f, x, d, c1, delta1, delta);
    SmallerSteps(g, x, e, c2, delta2, delta);
  }

  /** Only the values near x matter. */
  lemma SameNearby(f: Partial, g: Partial, x: real, d: real, delta: real)
    requires HasSlope(f, x, d) && delta > 0.0
    requires forall h: real | Mag(h) <= delta :: g(x + h) == f(x + h)
    ensures HasSlope(g, x, d)
  {
    var c, delta0 :| Expands(f, x, d, c, delta0);
    var delta1 := Least(delta, delta0);
    assert Mag(0.0) <= delta && x + 0.0 == x;
    forall h: real ensures UpTo(g, x, d, c, delta1, h) {
      if Mag(h) <= delta1 {
        assert UpTo(f, x, d, c, delta0, h);
      }
    }
    assert Expands(g, x, d, c, delta1);
  }

  lemma ConstantSlope(f: Partial, x: real, y: real)
    requires forall t :: f(t) == Some(y)
    ensures HasSlope(f, x, 0.0) && HasSlopeWithin(f, x, 0.0, 1.0)
  {
    forall h: real ensures UpTo(f, x, 0.0, 0.0, 1.0, h) {
      if Mag(h) <= 1.0 {
        assert Times(h, 0.0) == 0.0 && Times(h, 0.0 + 0.0) == 0.0;
        assert Residual(y, y, 0.0, h, 0.0, 0.0);
      }
    }
    assert Expands(f, x, 0.0, 0.0, 1.0);
  }

  lemma IdentitySlope(f: Partial, x: real)
    requires forall t :: f(t) == Some(t)
    ensures HasSlope(f, x, 1.0) && HasSlopeWithin(f, x, 1.0, 1.0)
  {
    forall h: real ensures UpTo(f, x, 1.0, 0.0, 1.0, h) {
      if Mag(h) <= 1.0 {
        assert Times(h, 0.0) == 0.0 && Times(h, 1.0 + 0.0) == h;
        assert Residual(x + h, x, 1.0, h, 0.0, 0.0);
      }
    }
    assert Expands(f, x, 1.0, 0.0, 1.0);
  }

  // ----- sums -----

  /** The slope of s * f + t * g. */
  lemma CombinationSlope(f: Partial, g: Partial, k: Partial, x: real, d: real, e: real, s: real, t: real, delta: real)
    requires HasSlopeWithin(f, x, d, delta) && HasSlopeWithin(g, x, e, delta)
    requires forall u :: f(u).Some? && g(u).Some? ==>
               k(u).Some? && k(u).value == Times(s, f(u).value) + Times(t, g(u).value)
    ensures HasSlopeWithin(k, x, Times(s, d) + Times(t, e), delta)
  {
    var c1 :| Expands(f, x, d, c1, delta);
    var c2 :| Expands(g, x, e, c2, delta);
    var c := Times(Mag(s), c1) + Times(Mag(t), c2);
    TimesMonotone(0.0, 0.0, Mag(s), c1);
    TimesMonotone(0.0, 0.0, Mag(t), c2);
    var slope := Times(s, d) + Times(t, e);
    forall h: real ensures UpTo(k, x, slope, c, delta, h) {
      if Mag(h) <= delta {
        assert UpTo(f, x, d, c1, delta, h) && UpTo(g, x, e, c2, delta, h);
        var r1 :| Residual(f(x + h).value, f(x).value, d, h, r1, c1);
        var r2 :| Residual(g(x + h).value, g(x).value, e, h, r2, c2);
        var rho := Times(s, r1) + Times(t, r2);
        ProductBound(s, r1, Mag(s), c1);
        ProductBound(t, r2, Mag(t), c2);
        Combine(s, f(x).value, d, h, r1);
        Combine(t, g(x).value, e, h, r2);
        assert Residual(k(x + h).value, k(x).value, Times(s, d) + Times(t, e), h, rho, c) by {
          TimesDistributes(Times(s, r1), Times(t, r2), h);
          CombineSum(h, Times(s, d), Times(t, e), Times(s, r1), Times(t, r2));
        }
      }
    }
    assert Expands(k, x, Times(s, d) + Times(t, e), c, delta);
  }

  lemma Combine(s: real, y: real, d: real, h: real, rho: real)
    ensures Times(s, y + Times(h, d + Times(h, rho))) ==
            Times(s, y) + Times(h, Times(s, d) + Times(h, Times(s, rho)))
  {
    var p := h * (d + h * rho);
    assert s * (y + p) == s * y + s * p;
    assert s * p == h * (s * (d + h * rho));
    assert s * (d + h * rho) == s * d + h * (s * rho);
  }

  lemma CombineSum(h: real, d: real, e: real, r1: real, r2: real)
    ensures Times(h, d + e + Times(h, r1 + r2)) == Times(h, d + Times(h, r1)) + Times(h, e + Times(h, r2))
  {
    assert h * (r1 + r2) == h * r1 + h * r2;
  }

  // ----- products -----

  /** (y + h p)(z + h q), with p = d + h r1 and q = e + h r2. */
  lemma ProductExpansion(y: real, z: real, d: real, e: real, h: real, r1: real, r2: real)
    ensures var p, q := d + Times(h, r1), e + Times(h, r2);
            var rho := Times(r1, z) + Times(y, r2) + Times(p, q);
            Times(y + Times(h, p), z + Times(h, q)) ==
            Times(y, z) + Times(h, Times(d, z) + Times(y, e) + Times(h, rho))
  {
    var p, q := d + h * r1, e + h * r2;
    assert (y + h * p) * (z + h * q) == y * z + h * (p * z + y * q) + h * (h * (p * q));
    assert p * z == d * z + h * (r1 * z);
    assert y * q == y * e + h * (y * r2);
  }

  lemma ProductSlope(f: Partial, g: Partial, k: Partial, x: real, d: real, e: real, delta: real)
    requires HasSlopeWithin(f, x, d, delta) && HasSlopeWithin(g, x, e, delta)
    requires forall u :: f(u).Some? && g(u).Some? ==> k(u).Some? && k(u).value == Times(f(u).value, g(u).value)
    ensures f(x).Some? && g(x).Some?
    ensures HasSlopeWithin(k, x, Times(d, g(x).value) + Times(f(x).value, e), delta)
  {
    var c1 :| Expands(f, x, d, c1, delta);
    var c2 :| Expands(g, x, e, c2, delta);
    assert UpTo(f, x, d, c1, delta, 0.0) && UpTo(g, x, e, c2, delta, 0.0);
    var y, z := f(x).value, g(x).value;
    var c := Times(c1, Mag(z)) + Times(Mag(y), c2) + Times(Mag(d) + c1, Mag(e) + c2);
    TimesMonotone(0.0, 0.0, c1, Mag(z));
    TimesMonotone(0.0, 0.0, Mag(y), c2);
    TimesMonotone(0.0, 0.0, Mag(d) + c1, Mag(e) + c2);
    var s := Times(d, z) + Times(y, e);
    forall h: real ensures UpTo(k, x, s, c, delta, h) {
      if Mag(h) <= delta {
        assert UpTo(f, x, d, c1, delta, h) && UpTo(g, x, e, c2, delta, h);
        var r1 :| Residual(f(x + h).value, y, d, h, r1, c1);
        var r2 :| Residual(g(x + h).value, z, e, h, r2, c2);
        var p, q := d + Times(h, r1), e + Times(h, r2);
        var rho := Times(r1, z) + Times(y, r2) + Times(p, q);
        ProductExpansion(y, z, d, e, h, r1, r2);
        ProductBound(r1, z, c1, Mag(z));
        ProductBound(y, r2, Mag(y), c2);
        StepBound(d, h, r1, c1);
        StepBound(e, h, r2, c2);
        ProductBound(p, q, Mag(d) + c1, Mag(e) + c2);
        assert Residual(k(x + h).value, k(x).value, s, h, rho, c);
      }
    }
    assert Expands(k, x, s, c, delta);
  }

  lemma StepBound(d: real, h: real, rho: real, c: real)
    requires Mag(rho) <= c && Mag(h) <= 1.0
    ensures Mag(d + Times(h, rho)) <= Mag(d) + c
  {
    ProductBound(h, rho, 1.0, c);
    assert Times(1.0, c) == c;
  }

  // ----- composition -----

  /** f(u + k) = y + k (e + k r2), where the inner step is k = h p and p = d + h r1. */
  lemma ChainExpansion(y: real, d: real, e: real, h: real, r1: real, r2: real)
    ensures var p := d + Times(h, r1);
            var k := Times(h, p);
            var rho := Times(r1, e) + Times(Times(p, p), r2);
            y + Times(k, e + Times(k, r2)) == y + Times(h, Times(d, e) + Times(h, rho))
  {
    var p := d + h * r1;
    assert (h * p) * (e + (h * p) * r2) == h * (p * e + h * ((p * p) * r2));
    assert p * e == d * e + h * (r1 * e);
  }

  lemma ChainSlope(u: Partial, f: Partial, k: Partial, x: real, d: real, e: real)
    requires HasSlope(u, x, d) && u(x).Some? && HasSlope(f, u(x).value, e)
    requires forall t :: u(t).Some? ==> k(t) == f(u(t).value)
    ensures HasSlope(k, x, Times(d, e))
  {
    var c1, delta1 :| Expands(u, x, d, c1, delta1);
    var c2, delta2 :| Expands(f, u(x).value, e, c2, delta2);
    var c := ChainConstant(d, e, c1, c2);
    var delta := Least(delta1, Shrunk(delta2, Mag(d) + c1));
    forall h: real ensures UpTo(k, x, Times(d, e), c, delta, h) {
      if Mag(h) <= delta {
        ChainStep(u, f, k, x, d, e, c1, delta1, c2, delta2, h);
      }
    }
    assert Expands(k, x, Times(d, e), c, delta);
  }

  /** A step size that an inner slope of at most `top` keeps within delta. */
  function Shrunk(delta: real, top: real): (r: real)
    requires delta > 0.0 && top >= 0.0
    ensures r > 0.0
  {
    delta / (top + 1.0)
  }

  function ChainConstant(d: real, e: real, c1: real, c2: real): (c: real)
    requires c1 >= 0.0 && c2 >= 0.0
    ensures c >= 0.0
  {
    var top := Mag(d) + c1;
    TimesMonotone(0.0, 0.0, c1, Mag(e));
    TimesMonotone(0.0, 0.0, top, top);
    TimesMonotone(0.0, 0.0, Times(top, top), c2);
    Times(c1, Mag(e)) + Times(Times(top, top), c2)
  }

  lemma ChainStep(u: Partial, f: Partial, k: Partial, x: real, d: real, e: real,
                  c1: real, delta1: real, c2: real, delta2: real, h: real)
    requires Expands(u, x, d, c1, delta1) && u(x).Some? && Expands(f, u(x).value, e, c2, delta2)
    requires forall t :: u(t).Some? ==> k(t) == f(u(t).value)
    requires Mag(h) <= delta1 && Mag(h) <= Shrunk(delta2, Mag(d) + c1)
    ensures ExpandsAt(k, x, Times(d, e), ChainConstant(d, e, c1, c2), h)
  {
    var ux := u(x).value;
    assert UpTo(u, x, d, c1, delta1, h);
    var r1 :| Residual(u(x + h).value, ux, d, h, r1, c1);
    var step := Times(h, d + Times(h, r1));
    StepBound(d, h, r1, c1);
    InnerStep(h, d + Times(h, r1), delta2, Mag(d) + c1);
    assert UpTo(f, ux, e, c2, delta2, step);
    var r2 :| Residual(f(ux + step).value, f(ux).value, e, step, r2, c2);
    ChainResidual(f(ux + step).value, f(ux).value, d, e, h, r1, r2, c1, c2);
  }

  lemma ChainResidual(v: real, y: real, d: real, e: real, h: real, r1: real, r2: real, c1: real, c2: real)
    requires Mag(h) <= 1.0 && Mag(r1) <= c1
    requires Residual(v, y, e, Times(h, d + Times(h, r1)), r2, c2)
    ensures var top := Mag(d) + c1;
            HasResidual(v, y, Times(d, e), h, Times(c1, Mag(e)) + Times(Times(top, top), c2))
  {
    var top := Mag(d) + c1;
    var p := d + Times(h, r1);
    var rho := Times(r1, e) + Times(Times(p, p), r2);
    StepBound(d, h, r1, c1);
    ChainExpansion(y, d, e, h, r1, r2);
    ProductBound(r1, e, c1, Mag(e));
    ProductBound(p, p, top, top);
    ProductBound(Times(p, p), r2, Times(top, top), c2);
    assert Residual(v, y, Times(d, e), h, rho, Times(c1, Mag(e)) + Times(Times(top, top), c2));
  }

  lemma InnerStep(h: real, p: real, delta: real, top: real)
    requires delta > 0.0 && top >= 0.0 && Mag(h) <= delta / (top + 1.0) && Mag(p) <= top
    ensures Mag(Times(h, p)) <= delta
  {
    var q := delta / (top + 1.0);
    ProductBound(h, p, q, top);
    assert q * (top + 1.0) == delta;
    assert q * top <= q * (top + 1.0);
  }

  // ----- reciprocals -----

  /** 1 / (g + k) = 1 / g + k (-1 / g^2 + k rho) with rho = 1 / (g^2 (g + k)). */
  lemma ReciprocalExpansion(g: real, k: real, gg: real)
    requires g != 0.0 && g + k != 0.0 && gg == Times(g, g)
    ensures gg > 0.0 && Times(gg, g + k) != 0.0
    ensures 1.0 / (g + k) == 1.0 / g + Times(k, -(1.0 / gg) + Times(k, 1.0 / Times(gg, g + k)))
  {
    var w := g + k;
    var a, b := 1.0 / g, 1.0 / w;
    assert gg == g * g && gg > 0.0;
    ProductNonZero(gg, w);
    assert a * g == 1.0 && b * w == 1.0;
    assert 1.0 / gg == a * a by {
      assert (a * a) * gg == (a * g) * (a * g);
      Reciprocal(gg, a * a);
    }
    assert 1.0 / (gg * w) == (a * a) * b by {
      assert ((a * a) * b) * (gg * w) == ((a * a) * gg) * (b * w);
      Reciprocal(gg * w, (a * a) * b);
    }
    assert k == w - g;
    assert k * b == 1.0 - g * b;
    assert a * (g * b) == b;
    // k * ((a a) b) == a (a - b), and then k (-(a a) + a (a - b)) == -(a b) k == b - a
    assert k * ((a * a) * b) == (a * a) * (k * b) == a * a - a * (a * (g * b)) == a * a - a * b;
    assert k * (-(a * b)) == -(a * (k * b)) == -(a * (1.0 - g * b)) == b - a;
  }

  lemma ReciprocalSlope(f: Partial, g: real)
    requires g != 0.0
    requires forall t :: f(t) == if t == 0.0 then None else Some(1.0 / t)
    ensures Times(g, g) != 0.0 && HasSlope(f, g, -(1.0 / Times(g, g)))
  {
    var gg := Times(g, g);
    ReciprocalExpansion(g, 0.0, gg);
    var half := Mag(g) / 2.0;
    var c := 1.0 / (gg * half);
    assert gg * half > 0.0;
    var delta := Least(1.0, half);
    var slope := -(1.0 / gg);
    forall h: real ensures UpTo(f, g, slope, c, delta, h) {
      if Mag(h) <= delta {
        ReciprocalExpansion(g, h, gg);
        var rho := 1.0 / Times(gg, g + h);
        InverseBound(gg, g + h, half);
        assert Residual(f(g + h).value, f(g).value, -(1.0 / gg), h, rho, c);
      }
    }
    assert Expands(f, g, -(1.0 / gg), c, delta);
  }

  lemma InverseBound(gg: real, w: real, half: real)
    requires gg > 0.0 && half > 0.0 && Mag(w) >= half
    ensures Times(gg, w) != 0.0 && gg * half > 0.0
    ensures Mag(1.0 / Times(gg, w)) <= 1.0 / (gg * half)
  {
    var t := gg * w;
    ProductNonZero(gg, w);
    MagTimes(gg, w);
    TimesMonotone(gg, half, gg, Mag(w));
    assert Mag(t) >= gg * half > 0.0;
    InverseOrder(gg * half, Mag(t));
    assert Mag(1.0 / t) == 1.0 / Mag(t);
  }

  lemma InverseOrder(x: real, y: real)
    requires 0.0 < x <= y
    ensures 1.0 / y <= 1.0 / x
  {
    var a, b := 1.0 / x, 1.0 / y;
    assert a * x == 1.0 && b * y == 1.0;
    if b > a {
      assert b * x > a * x;
      assert b * y >= b * x;
    }
  }
}
