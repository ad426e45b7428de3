/** The rational-root search of `solve_polynomial` and why it misses nothing. */
module RationalRoots {
  import opened Wrappers
  import opened RealFacts
  import opened NumberTheory
  import opened Ordering
  import opened Polynomials
  import Expressions

  // ----- divisors -----

  function IntSqrt(n: nat): (r: nat)
    ensures r * r <= n < (r + 1) * (r + 1)
  {
    if n == 0 then 0
    else
      var r := IntSqrt(n - 1);
      if (r + 1) * (r + 1) <= n then r + 1 else r
  }

  ghost predicate IsDivisorFound(n: int, i: int, d: int) {
    1 <= d && Divides(d, n) && (d < i || n / d < i)
  }

  /** `factors`: the positive divisors of n in ascending order; of 1 when n is not above 1. */
  method Factors(n: int) returns (result: seq<int>)
    ensures StrictlyAscending(result)
    ensures forall d :: d in result <==> 1 <= d && Divides(d, if n <= 1 then 1 else n)
  {
    if n <= 1 {
      forall d: int ensures d in [1] <==> 1 <= d && Divides(d, 1) {
        DividesBy(1, 1, 1);
        if 1 <= d && Divides(d, 1) { DivisorBound(d, 1); }
      }
      return [1];
    }
    result := [];
    var limit := IntSqrt(n);
    var i := 1;
    while i <= limit
      invariant 1 <= i <= limit + 1
      invariant Distinct(result)
      invariant forall d :: d in result <==> IsDivisorFound(n, i, d)
    {
      ghost var before := result;
      AtMostSqrt(n, limit, i);
      if n % i == 0 {
        result := result + [i];
        if n / i != i {
          result := result + [n / i];
        }
      }
      DivisorsAdded(n, i, before, result);
      i := i + 1;
    }
    forall d: int ensures d in result <==> 1 <= d && Divides(d, n) {
      if 1 <= d && Divides(d, n) { SmallHalf(n, limit, d); }
    }
    SortAscending(result);
    result := SortInts(result);
  }

  lemma DivisorsAdded(n: int, i: int, before: seq<int>, after: seq<int>)
    requires n > 1 && 1 <= i <= n / i && Distinct(before)
    requires forall d :: d in before <==> IsDivisorFound(n, i, d)
    requires after == if n % i != 0 then before else if n / i != i then before + [i] + [n / i] else before + [i]
    ensures Distinct(after)
    ensures forall d :: d in after <==> IsDivisorFound(n, i + 1, d)
  {
    forall d: int ensures d in after <==> IsDivisorFound(n, i + 1, d) {
      NextDivisor(n, i, d);
      assert d in after <==> d in before || (n % i == 0 && (d == i || d == n / i));
    }
    if n % i == 0 {
      DividesModulo(i, n);
      PairedDivisor(n, i);
      assert !IsDivisorFound(n, i, i) && !IsDivisorFound(n, i, n / i);
    }
  }

  lemma Monotonic(a: int, b: int, c: int)
    requires 0 <= a <= b && 0 <= c
    ensures a * c <= b * c && c * a <= c * b
  {
  }

  lemma AtMostSqrt(n: int, limit: int, i: int)
    requires 1 <= i <= limit && limit * limit <= n
    ensures i <= n / i
  {
    Monotonic(i, limit, i);
    Monotonic(i, limit, limit);
    var k := n / i;
    if k < i {
      assert n < i * k + i == i * (k + 1);
      Monotonic(k + 1, i, i);
    }
  }

  lemma PairedDivisor(n: int, i: int)
    requires n >= 1 && 1 <= i && Divides(i, n)
    ensures 1 <= n / i && Divides(n / i, n) && n / (n / i) == i
  {
    DividesModulo(i, n);
    var k := n / i;
    assert n == i * k;
    NonNegativeFactor(i, k, n);
    DividesBy(k, i, n);
    QuotientIs(n, k, i);
  }

  lemma QuotientIs(n: int, d: int, k: int)
    requires d >= 1 && n == d * k
    ensures n / d == k
  {
    SmallMultiple(d, n / d - k);
    SmallMultiple(d, k - n / d);
    assert n % d == d * (k - n / d);
  }

  lemma NextDivisor(n: int, i: int, d: int)
    requires n >= 1 && i >= 1
    ensures IsDivisorFound(n, i + 1, d)
       <==> IsDivisorFound(n, i, d) || (n % i == 0 && (d == i || d == n / i))
  {
    DividesModulo(i, n);
    if Divides(i, n) { PairedDivisor(n, i); }
    if 1 <= d && Divides(d, n) { PairedDivisor(n, d); }
  }

  lemma SmallHalf(n: int, limit: int, d: int)
    requires n >= 1 && 1 <= d && limit >= 0 && Divides(d, n) && n < (limit + 1) * (limit + 1)
    ensures d < limit + 1 || n / d < limit + 1
  {
    DividesModulo(d, n);
    var k := n / d;
    assert n == d * k;
    if d >= limit + 1 && k >= limit + 1 {
      Monotonic(limit + 1, d, k);
      Monotonic(limit + 1, k, limit + 1);
    }
  }

  // ----- integers among the reals -----

  predicate Integral(c: Poly) {
    forall i | 0 <= i < |c| :: Expressions.IsInteger(c[i])
  }

  function Ints(c: Poly): (z: seq<int>)
    ensures |z| == |c| && forall i | 0 <= i < |c| :: z[i] == c[i].Floor
  {
    seq(|c|, i requires 0 <= i < |c| => c[i].Floor)
  }

  lemma {:induction false} NatProductAsReal(a: nat, b: int)
    ensures (a * b) as real == Times(a as real, b as real)
  {
    if a > 0 {
      NatProductAsReal(a - 1, b);
      assert a * b == (a - 1) * b + b;
      TimesDistributes((a - 1) as real, 1.0, b as real);
    }
  }

  lemma ProductAsReal(a: int, b: int)
    ensures (a * b) as real == Times(a as real, b as real)
  {
    if a >= 0 {
      NatProductAsReal(a, b);
    } else {
      NatProductAsReal(-a, b);
      assert -a * b == -(a * b);
      TimesNegates(a as real, b as real);
      assert (-a) as real == -(a as real);
    }
  }

  function Ratio(p: int, q: int): real
    requires q != 0
  {
    p as real / q as real
  }

  lemma RatioTimes(p: int, q: int)
    requires q != 0
    ensures Times(q as real, Ratio(p, q)) == p as real
  {
  }

  // ----- the rational root theorem -----

  /** q^n * c(p/q), computed with integers only. */
  function Homogenized(c: seq<int>, p: int, q: int): int
    requires c != []
  {
    if |c| == 1 then c[0] else c[0] * Power(q, |c| - 1) + p * Homogenized(c[1..], p, q)
  }

  lemma {:induction false} HomogenizedValue(c: Poly, p: int, q: int)
    requires c != [] && Integral(c) && q != 0
    ensures Homogenized(Ints(c), p, q) as real == Times(Power(q, |c| - 1) as real, PolyValue(c, Ratio(p, q)))
  {
    var r := Ratio(p, q);
    if |c| == 1 {
      assert c == [c[0]];
      ConstantValue(c[0], r);
    } else {
      var n := |c| - 1;
      HomogenizedValue(c[1..], p, q);
      assert Ints(c)[1..] == Ints(c[1..]);
      ProductAsReal(Ints(c)[0], Power(q, n));
      ProductAsReal(p, Homogenized(Ints(c[1..]), p, q));
      ProductAsReal(q, Power(q, n - 1));
      RatioTimes(p, q);
      HomogenizeStep(c[0], Power(q, n) as real, Power(q, n - 1) as real, q as real, r, PolyValue(c[1..], r));
    }
  }

  lemma HomogenizeStep(c0: real, qn: real, qm: real, q: real, r: real, v: real)
    requires qn == Times(q, qm)
    ensures Times(qn, c0 + Times(r, v)) == Times(c0, qn) + Times(Times(q, r), Times(qm, v))
  {
    assert (q * qm) * (r * v) == (q * r) * (qm * v);
  }

  lemma RootHomogenizes(c: Poly, p: int, q: int)
    requires c != [] && Integral(c) && q != 0 && PolyValue(c, Ratio(p, q)) == 0.0
    ensures Homogenized(Ints(c), p, q) == 0
  {
    HomogenizedValue(c, p, q);
    assert Times(Power(q, |c| - 1) as real, 0.0) == 0.0;
  }

  lemma NumeratorDivides(c: seq<int>, p: int, q: int)
    requires c != [] && Coprime(p, q) && Homogenized(c, p, q) == 0
    ensures Divides(p, c[0])
  {
    if |c| == 1 {
      DividesBy(p, 0, 0);
    } else {
      var h := Homogenized(c[1..], p, q);
      assert Power(q, |c| - 1) * c[0] == p * -h;
      DividesBy(p, -h, Power(q, |c| - 1) * c[0]);
      CoprimeSymmetric(p, q);
      EuclidsLemmaPower(q, p, |c| - 1, c[0]);
    }
  }

  lemma {:induction false} LeadingTerm(c: seq<int>, p: int, q: int)
    requires c != []
    ensures Divides(q, Homogenized(c, p, q) - Power(p, |c| - 1) * c[|c| - 1])
  {
    if |c| == 1 {
      DividesBy(q, 0, 0);
    } else {
      var n := |c| - 1;
      var h := Homogenized(c[1..], p, q);
      LeadingTerm(c[1..], p, q);
      var k := Cofactor(q, h - Power(p, n - 1) * c[n]);
      LeadingStep(c[0], Power(q, n - 1), p, q, h, Power(p, n - 1), c[n], k);
      DividesBy(q, c[0] * Power(q, n - 1) + p * k, Homogenized(c, p, q) - Power(p, n) * c[n]);
    }
  }

  lemma LeadingStep(c0: int, qm: int, p: int, q: int, h: int, pm: int, cn: int, k: int)
    requires h - pm * cn == q * k
    ensures c0 * (q * qm) + p * h - (p * pm) * cn == q * (c0 * qm + p * k)
  {
    assert p * h == p * (pm * cn + q * k) == p * (pm * cn) + p * (q * k);
    assert p * (pm * cn) == (p * pm) * cn && p * (q * k) == q * (p * k);
    assert c0 * (q * qm) == q * (c0 * qm);
  }

  lemma DenominatorDivides(c: seq<int>, p: int, q: int)
    requires c != [] && Coprime(p, q) && Homogenized(c, p, q) == 0
    ensures Divides(q, c[|c| - 1])
  {
    var y := Power(p, |c| - 1) * c[|c| - 1];
    LeadingTerm(c, p, q);
    var k := Cofactor(q, 0 - y);
    assert y == q * -k;
    DividesBy(q, -k, y);
    EuclidsLemmaPower(p, q, |c| - 1, c[|c| - 1]);
  }

  // ----- lowest terms -----

  lemma LowestTerms(p: int, q: int) returns (a: int, b: int)
    requires q > 0
    ensures b > 0 && Coprime(a, b) && Ratio(a, b) == Ratio(p, q)
  {
    var n: nat := if p < 0 then -p else p;
    var g := Gcd(n, q);
    GcdPositive(n, q);
    GcdDivides(n, q);
    var a' := Cofactor(g, n);
    b := Cofactor(g, q);
    NonNegativeFactor(g, a', n);
    NonNegativeFactor(g, b, q);
    ReducedCoprime(n, q, a', b);
    CoprimeNegated(a', b);
    a := if p < 0 then -a' else a';
    assert p == g * a by { assert g * -a' == -(g * a'); }
    ProductAsReal(g, a);
    ProductAsReal(g, b);
    SameRatio(g as real, a as real, b as real);
  }

  lemma NonNegativeFactor(g: int, k: int, n: int)
    requires g > 0 && n == g * k
    ensures n >= 0 ==> k >= 0
    ensures n > 0 ==> k > 0
  {
  }

  lemma SameRatio(g: real, a: real, b: real)
    requires g > 0.0 && b > 0.0
    ensures Times(g, b) != 0.0 && Times(g, a) / Times(g, b) == a / b
  {
    ProductNonZero(g, b);
    var r := a / b;
    assert r * (g * b) == g * (r * b);
  }

  // ----- candidates -----

  predicate IsRoot(c: Poly, p: int, q: int)
    requires q > 0
  {
    PolyValue(c, Ratio(p, q)) == 0.0
  }

  ghost predicate NoRationalRoot(c: Poly) {
    forall p: int, q: int | q > 0 :: !IsRoot(c, p, q)
  }

  /** Integer coefficients with nonzero ends. */
  predicate Searchable(c: Poly) {
    c != [] && Integral(c) && c[0] != 0.0 && c[|c| - 1] != 0.0
  }

  /** `x.abs() as i64`. */
  function Truncated(x: real): (n: nat) {
    if x < 0.0 then (-x).Floor else x.Floor
  }

  predicate Misses(c: Poly, p: int, q: int)
    requires q > 0
  {
    !IsRoot(c, p, q) && !IsRoot(c, -p, q)
  }

  /** A rational root in lowest terms has its numerator and denominator among the divisors tried. */
  lemma RationalRootTheorem(c: Poly, p: int, q: int)
    requires Searchable(c) && q > 0 && Coprime(p, q) && IsRoot(c, p, q)
    ensures p != 0 && Divides(if p < 0 then -p else p, Truncated(c[0])) && Divides(q, Truncated(c[|c| - 1]))
  {
    RootHomogenizes(c, p, q);
    NumeratorDivides(Ints(c), p, q);
    DenominatorDivides(Ints(c), p, q);
    var n := |c| - 1;
    DividesTruncated(p, c[0]);
    DividesTruncated(q, c[n]);
  }

  lemma DividesTruncated(p: int, x: real)
    requires Expressions.IsInteger(x) && x != 0.0 && Divides(p, x.Floor)
    ensures p != 0 && Divides(if p < 0 then -p else p, Truncated(x))
  {
    var k := Cofactor(p, x.Floor);
    NonZeroFactor(p, k, x.Floor);
    assert Truncated(x) == if x < 0.0 then -x.Floor else x.Floor;
    DividesEitherSign(p, k, x.Floor);
  }

  lemma NonZeroFactor(p: int, k: int, z: int)
    requires z == p * k && z != 0
    ensures p != 0
  {
  }

  lemma DividesEitherSign(p: int, k: int, z: int)
    requires z == p * k
    ensures Divides(p, z) && Divides(p, -z) && Divides(-p, z) && Divides(-p, -z)
  {
    assert -z == p * -k && z == -p * -k && -z == -p * k;
    DividesBy(p, k, z);
    DividesBy(p, -k, -z);
    DividesBy(-p, -k, z);
    DividesBy(-p, k, -z);
  }

  /** Some pair of divisors of the ends hits a given rational root. */
  lemma RootIsHit(c: Poly, p: int, q: int) returns (d: int, b: int)
    requires Searchable(c) && q > 0 && IsRoot(c, p, q)
    ensures 1 <= d && Divides(d, Truncated(c[0]))
    ensures 1 <= b && Divides(b, Truncated(c[|c| - 1]))
    ensures !Misses(c, d, b)
  {
    var a;
    a, b := LowestTerms(p, q);
    RationalRootTheorem(c, a, b);
    d := if a < 0 then -a else a;
  }

  /** When all divisor pairs of the ends miss, there is no rational root. */
  lemma CandidatesSuffice(c: Poly, pf: seq<int>, qf: seq<int>)
    requires Searchable(c)
    requires forall d :: d in pf <==> 1 <= d && Divides(d, Truncated(c[0]))
    requires forall d :: d in qf <==> 1 <= d && Divides(d, Truncated(c[|c| - 1]))
    requires forall p, q | p in pf && q in qf :: Misses(c, p, q)
    ensures NoRationalRoot(c)
  {
    forall p: int, q: int | q > 0 ensures !IsRoot(c, p, q) {
      if IsRoot(c, p, q) {
        var d, b := RootIsHit(c, p, q);
        assert false;
      }
    }
  }

  function PositiveOrOne(n: int): int {
    if n > 0 then n else 1
  }

  /** One pass over the candidates: the first root found, or none. */
  method FindCandidate(c: Poly) returns (found: Option<real>)
    requires c != []
    ensures found.Some? ==> PolyValue(c, found.value) == 0.0
    ensures found.Some? ==> exists p: int, q: int | q > 0 :: IsRoot(c, p, q) && found.value == Ratio(p, q)
    ensures found.None? && Searchable(c) ==> NoRationalRoot(c)
  {
    var pf := Factors(PositiveOrOne(Truncated(c[0])));
    var qf := Factors(PositiveOrOne(Truncated(c[|c| - 1])));
    assert forall l | 0 <= l < |qf| :: qf[l] in qf;
    for i := 0 to |pf|
      invariant forall k, l | 0 <= k < i && 0 <= l < |qf| :: Misses(c, pf[k], qf[l])
    {
      for j := 0 to |qf|
        invariant forall l | 0 <= l < j :: Misses(c, pf[i], qf[l])
      {
        var value := EvalPoly(c, Ratio(pf[i], qf[j]));
        if value == 0.0 {
          assert IsRoot(c, pf[i], qf[j]);
          return Some(Ratio(pf[i], qf[j]));
        }
        value := EvalPoly(c, Ratio(-pf[i], qf[j]));
        if value == 0.0 {
          assert IsRoot(c, -pf[i], qf[j]);
          return Some(Ratio(-pf[i], qf[j]));
        }
      }
    }
    if Searchable(c) { CandidatesSuffice(c, pf, qf); }
    return None;
  }

  // ----- deflation keeps the coefficients integral -----

  lemma {:induction false} SplitValue(c: Poly, j: nat, x: real)
    requires j <= |c|
    ensures PolyValue(c[..j] + [PolyValue(c[j..], x)], x) == PolyValue(c, x)
  {
    if j == 0 {
      assert c[..0] + [PolyValue(c, x)] == [PolyValue(c, x)] && c[0..] == c;
      ConstantValue(PolyValue(c, x), x);
    } else {
      SplitValue(c[1..], j - 1, x);
      assert c[1..][j - 1..] == c[j..];
      assert (c[..j] + [PolyValue(c[j..], x)])[1..] == c[1..][..j - 1] + [PolyValue(c[j..], x)];
    }
  }

  lemma {:induction false} DeflationIntegral(c: Poly, p: int, q: int, j: nat)
    requires |c| >= 2 && Integral(c) && q > 0 && Coprime(p, q) && IsRoot(c, p, q) && 1 <= j < |c|
    ensures Expressions.IsInteger(PolyValue(c[j..], Ratio(p, q)))
    decreases |c| - j
  {
    var r := Ratio(p, q);
    if j == |c| - 1 {
      assert c[j..] == [c[j]];
      ConstantValue(c[j], r);
    } else {
      DeflationIntegral(c, p, q, j + 1);
      var b := PolyValue(c[j + 1..], r);
      var d := c[..j + 1] + [b];
      SplitValue(c, j + 1, r);
      RootHomogenizes(d, p, q);
      DenominatorDivides(Ints(d), p, q);
      var k := Cofactor(q, b.Floor);
      RatioOfMultiple(p, q, k, b.Floor);
      assert c[j..][1..] == c[j + 1..];
      IntegerSum(c[j], Times(r, b), p * k);
    }
  }

  lemma RatioOfMultiple(p: int, q: int, k: int, b: int)
    requires q > 0 && b == q * k
    ensures Times(Ratio(p, q), b as real) == (p * k) as real
  {
    ProductAsReal(q, k);
    ProductAsReal(p, k);
    RatioTimes(p, q);
    TimesAssociates(Ratio(p, q), q as real, k as real);
  }

  lemma IntegerSum(x: real, y: real, k: int)
    requires Expressions.IsInteger(x) && y == k as real
    ensures Expressions.IsInteger(x + y)
  {
    assert x + y == (x.Floor + k) as real;
  }

  /** Dividing by a root keeps the coefficients integral and the ends nonzero. */
  lemma DeflationSearchable(c: Poly, p: int, q: int, d: Poly)
    requires |c| >= 2 && Searchable(c) && q > 0 && IsRoot(c, p, q) && IsDeflation(c, Ratio(p, q), d)
    ensures Searchable(d)
  {
    var r := Ratio(p, q);
    var a, b := LowestTerms(p, q);
    assert IsRoot(c, a, b);
    forall i | 0 <= i < |d| ensures Expressions.IsInteger(d[i]) {
      DeflationIntegral(c, a, b, i + 1);
    }
    assert PolyValue(c, r) == c[0] + Times(r, d[0]);
    assert Times(r, 0.0) == 0.0;
    var n := |c| - 1;
    assert c[n..] == [c[n]];
    ConstantValue(c[n], r);
  }

  // ----- the search loop -----

  function RootProduct(roots: seq<real>, x: real): real {
    if roots == [] then 1.0
    else Times(RootProduct(roots[..|roots| - 1], x), x - roots[|roots| - 1])
  }

  ghost predicate IsFactored(c: Poly, roots: seq<real>, rest: Poly, x: real) {
    PolyValue(c, x) == Times(RootProduct(roots, x), PolyValue(rest, x))
  }

  lemma FactorOut(c: Poly, roots: seq<real>, rest: Poly, r: real, q: Poly, x: real)
    requires IsFactored(c, roots, rest, x) && IsDeflation(rest, r, q) && PolyValue(rest, r) == 0.0
    ensures IsFactored(c, roots + [r], q, x)
  {
    DivisionWithRemainder(rest, r, q, x);
    assert (roots + [r])[..|roots|] == roots;
    TimesAssociates(RootProduct(roots, x), x - r, PolyValue(q, x));
  }

  /** `x.round()`: halves go away from zero. */
  function RoundAway(x: real): int {
    if x < 0.0 then -(0.5 - x).Floor else (x + 0.5).Floor
  }

  /**
    The search loop for polynomials of degree 3 and above. The linear factors found,
    times what remains, are always the original polynomial; for integer coefficients
    with nonzero ends the search goes on until what remains has degree 1 or no
    rational root.
    */
  method SearchRationalRoots(coeffs: Poly) returns (roots: seq<real>, remaining: Poly)
    requires coeffs != []
    ensures forall x :: IsFactored(coeffs, roots, remaining, x)
    ensures Searchable(coeffs) ==> Searchable(remaining) && (|remaining| <= 2 || NoRationalRoot(remaining))
  {
    roots, remaining := [], coeffs;
    forall x ensures IsFactored(coeffs, roots, remaining, x) {
      assert Times(1.0, PolyValue(coeffs, x)) == PolyValue(coeffs, x);
    }
    if RoundAway(coeffs[|coeffs| - 1]) == 0 || RoundAway(coeffs[0]) == 0 {
      return;
    }
    var foundRoot := true;
    while foundRoot && |remaining| > 2
      invariant remaining != []
      invariant forall x :: IsFactored(coeffs, roots, remaining, x)
      invariant Searchable(coeffs) ==> Searchable(remaining)
      invariant !foundRoot && Searchable(coeffs) ==> NoRationalRoot(remaining)
      decreases |remaining|, foundRoot
    {
      foundRoot := false;
      var found := FindCandidate(remaining);
      if found.Some? {
        var root := found.value;
        var quotient := SyntheticDivide(remaining, root);
        assert IsDeflation(remaining, root, quotient);
        forall x ensures IsFactored(coeffs, roots + [root], quotient, x) {
          FactorOut(coeffs, roots, remaining, root, quotient, x);
        }
        if Searchable(coeffs) {
          ghost var p, q :| q > 0 && IsRoot(remaining, p, q) && root == Ratio(p, q);
          DeflationSearchable(remaining, p, q, quotient);
        }
        roots, remaining, foundRoot := roots + [root], quotient, true;
      }
    }
  }

  lemma {:induction false} ZeroOfRootProduct(roots: seq<real>, x: real)
    ensures RootProduct(roots, x) == 0.0 <==> x in roots
  {
    if roots != [] {
      var n := |roots| - 1;
      ZeroOfRootProduct(roots[..n], x);
      assert roots == roots[..n] + [roots[n]];
      var a, b := RootProduct(roots[..n], x), x - roots[n];
      if a != 0.0 && b != 0.0 { ProductNonZero(a, b); }
      assert Times(a, 0.0) == 0.0 == Times(0.0, b);
    }
  }

  /** No rational root of the original polynomial is lost. */
  lemma NothingMissed(coeffs: Poly, roots: seq<real>, remaining: Poly, p: int, q: int)
    requires q > 0 && (forall x :: IsFactored(coeffs, roots, remaining, x))
    requires |remaining| <= 2 || NoRationalRoot(remaining)
    ensures IsRoot(coeffs, p, q) <==> Ratio(p, q) in roots || (|remaining| <= 2 && IsRoot(remaining, p, q))
  {
    var x := Ratio(p, q);
    assert IsFactored(coeffs, roots, remaining, x);
    ZeroOfRootProduct(roots, x);
    var a, b := RootProduct(roots, x), PolyValue(remaining, x);
    if a != 0.0 && b != 0.0 { ProductNonZero(a, b); }
    assert Times(a, 0.0) == 0.0 == Times(0.0, b);
  }
}
