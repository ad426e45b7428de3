/** Divisibility, the Euclidean algorithm and what follows from it. */
module NumberTheory {

  /** Multiplication as a named function, so that equal factors visibly give equal products. */
  function Prod(x: int, y: int): int {
    x * y
  }

  ghost predicate Divides(d: int, n: int) {
    exists k: int :: Prod(d, k) == n
  }

  lemma DividesBy(d: int, k: int, n: int)
    requires n == d * k
    ensures Divides(d, n)
  {
    assert Prod(d, k) == n;
  }

  lemma Cofactor(d: int, n: int) returns (k: int)
    requires Divides(d, n)
    ensures n == d * k
  {
    k :| Prod(d, k) == n;
  }

  /** A divisor divides every combination. */
  lemma DividesCombination(d: int, x: int, y: int, u: int, v: int)
    requires Divides(d, x) && Divides(d, y)
    ensures Divides(d, u * x + v * y)
  {
    var j := Cofactor(d, x);
    var k := Cofactor(d, y);
    Combine(d, j, k, u, v, x, y);
    DividesBy(d, u * j + v * k, u * x + v * y);
  }

  lemma Combine(d: int, j: int, k: int, u: int, v: int, x: int, y: int)
    requires x == d * j && y == d * k
    ensures u * x + v * y == d * (u * j + v * k)
  {
    assert u * (d * j) == d * (u * j);
    assert v * (d * k) == d * (v * k);
    assert d * (u * j + v * k) == d * (u * j) + d * (v * k);
  }

  lemma DividesModulo(d: int, n: int)
    requires d > 0
    ensures Divides(d, n) <==> n % d == 0
  {
    if n % d == 0 {
      DividesBy(d, n / d, n);
    }
    if Divides(d, n) {
      var k := Cofactor(d, n);
      assert n % d == d * k - d * (n / d) == d * (k - n / d);
      SmallMultiple(d, k - n / d);
    }
  }

  /** The only multiple of d from 0 to d - 1 is 0. */
  lemma SmallMultiple(d: int, j: int)
    requires d > 0
    ensures 0 <= d * j < d ==> j == 0
    ensures 0 < d * j ==> d <= d * j
  {
    if j >= 1 {
      assert d * j >= d;
    } else if j <= -1 {
      assert d * j <= -d;
    }
  }

  lemma DivisorBound(d: int, n: int)
    requires n > 0 && Divides(d, n)
    ensures d <= n
  {
    var k := Cofactor(d, n);
    if d > 0 { SmallMultiple(d, k); }
  }

  // ----- the Euclidean algorithm -----

  function Gcd(a: nat, b: nat): nat
    decreases b
  {
    if b == 0 then a else Gcd(b, a % b)
  }

  /** `gcd` as the program runs it. */
  method GcdLoop(a: nat, b: nat) returns (g: nat)
    ensures g == Gcd(a, b)
  {
    var left, right := a, b;
    while right != 0
      invariant Gcd(left, right) == Gcd(a, b)
      decreases right
    {
      left, right := right, left % right;
    }
    g := left;
  }

  /** The greatest common divisor as a combination of the two numbers. */
  lemma {:induction false} Bezout(a: nat, b: nat) returns (u: int, v: int)
    ensures Gcd(a, b) == u * a + v * b
    decreases b
  {
    if b == 0 {
      u, v := 1, 0;
    } else {
      var s, t := Bezout(b, a % b);
      u, v := t, s - (a / b) * t;
      var q := a / b;
      assert a % b == a - b * q;
      BezoutStep(a, b, q, s, t);
    }
  }

  lemma BezoutStep(a: int, b: int, q: int, s: int, t: int)
    ensures s * b + t * (a - b * q) == t * a + (s - q * t) * b
  {
    assert t * (a - b * q) == t * a - t * (b * q);
    assert (s - q * t) * b == s * b - (q * t) * b;
    assert t * (b * q) == (q * t) * b;
  }

  lemma {:induction false} GcdDivides(a: nat, b: nat)
    ensures Divides(Gcd(a, b), a) && Divides(Gcd(a, b), b)
    decreases b
  {
    if b == 0 {
      DividesBy(a, 1, a);
      DividesBy(a, 0, 0);
    } else {
      GcdDivides(b, a % b);
      var q := a / b;
      DividesCombination(Gcd(a, b), b, a % b, q, 1);
      assert q * b + 1 * (a % b) == a;
    }
  }

  /** Every common divisor divides the greatest one. */
  lemma GcdGreatest(a: nat, b: nat, d: int)
    requires Divides(d, a) && Divides(d, b)
    ensures Divides(d, Gcd(a, b))
  {
    var u, v := Bezout(a, b);
    DividesCombination(d, a, b, u, v);
  }

  lemma GcdPositive(a: nat, b: nat)
    requires a > 0 || b > 0
    ensures Gcd(a, b) > 0
  {
    if Gcd(a, b) == 0 {
      GcdDivides(a, b);
      var j := Cofactor(0, a);
      var k := Cofactor(0, b);
      assert false;
    }
  }

  // ----- coprime numbers -----

  /** Some combination of the two is 1. */
  ghost predicate Coprime(p: int, q: int) {
    exists u: int, v: int :: Prod(u, p) + Prod(v, q) == 1
  }

  /** Euclid's lemma. */
  lemma EuclidsLemma(p: int, q: int, x: int)
    requires Coprime(p, q) && Divides(q, p * x)
    ensures Divides(q, x)
  {
    var u, v :| Prod(u, p) + Prod(v, q) == 1;
    var k := Cofactor(q, p * x);
    assert x == (u * p + v * q) * x;
    assert (u * p + v * q) * x == u * (p * x) + (v * q) * x;
    assert u * (q * k) == q * (u * k) && (v * q) * x == q * (v * x);
    assert x == q * (u * k + v * x);
    DividesBy(q, u * k + v * x, x);
  }

  function Power(b: int, k: nat): int {
    if k == 0 then 1 else b * Power(b, k - 1)
  }

  lemma {:induction false} EuclidsLemmaPower(p: int, q: int, k: nat, x: int)
    requires Coprime(p, q) && Divides(q, Power(p, k) * x)
    ensures Divides(q, x)
  {
    if k > 0 {
      var y := Power(p, k - 1) * x;
      assert Power(p, k) * x == p * y by {
        assert (p * Power(p, k - 1)) * x == p * (Power(p, k - 1) * x);
      }
      EuclidsLemma(p, q, y);
      EuclidsLemmaPower(p, q, k - 1, x);
    }
  }

  lemma CoprimeSymmetric(p: int, q: int)
    requires Coprime(p, q)
    ensures Coprime(q, p)
  {
    var u, v :| Prod(u, p) + Prod(v, q) == 1;
    assert Prod(v, q) + Prod(u, p) == 1;
  }

  lemma CoprimeNegated(p: int, q: int)
    requires Coprime(p, q)
    ensures Coprime(-p, q)
  {
    var u, v :| Prod(u, p) + Prod(v, q) == 1;
    assert Prod(-u, -p) + Prod(v, q) == 1;
  }

  lemma CancelUnit(g: int, x: int)
    requires g > 0 && g == g * x
    ensures x == 1
  {
    SmallMultiple(g, x - 1);
    assert g * (x - 1) == 0;
  }

  /** Dividing two numbers by their greatest common divisor leaves coprime numbers. */
  lemma ReducedCoprime(a: nat, b: nat, a': nat, b': nat)
    requires Gcd(a, b) > 0 && a == Gcd(a, b) * a' && b == Gcd(a, b) * b'
    ensures Coprime(a', b')
  {
    var g := Gcd(a, b);
    var u, v := Bezout(a, b);
    Combine(g, a', b', u, v, a, b);
    CancelUnit(g, u * a' + v * b');
    assert Prod(u, a') + Prod(v, b') == 1;
  }
}
