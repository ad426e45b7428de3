/** Polynomials as coefficient lists, lowest degree first: extraction, evaluation, synthetic division. */
module Polynomials {
  import opened Wrappers
  import opened Expressions
  import opened RealFacts

  type Poly = seq<real>

  function PolyValue(c: Poly, x: real): real {
    if c == [] then 0.0 else c[0] + Times(x, PolyValue(c[1..], x))
  }

  /** `eval_poly`. */
  method EvalPoly(c: Poly, x: real) returns (result: real)
    ensures result == PolyValue(c, x)
  {
    result := 0.0;
    var power := 1.0;
    for i := 0 to |c|
      invariant PolyValue(c, x) == result + Times(power, PolyValue(c[i..], x))
    {
      assert c[i..][0] == c[i] && c[i..][1..] == c[i + 1..];
      EvalStep(power, c[i], x, PolyValue(c[i + 1..], x));
      result := result + c[i] * power;
      power := power * x;
    }
  }

  lemma EvalStep(power: real, c: real, x: real, rest: real)
    ensures Times(power, c + Times(x, rest)) == c * power + Times(power * x, rest)
  {
    TimesAssociates(power, x, rest);
    TimesDistributes(c, Times(x, rest), power);
  }

  // ----- arithmetic on coefficient lists -----

  function Coefficient(c: Poly, i: nat): real {
    if i < |c| then c[i] else 0.0
  }

  function Signed(minus: bool, y: real): real {
    if minus then -y else y
  }

  /** The sum or the difference of a and b, as long as the longer of the two. */
  function AddPoly(a: Poly, b: Poly, minus: bool): (r: Poly)
    ensures |r| == if |a| < |b| then |b| else |a|
    ensures forall i: nat | i < |r| :: r[i] == Coefficient(a, i) + Signed(minus, Coefficient(b, i))
  {
    if a == [] && b == [] then []
    else
      [Coefficient(a, 0) + Signed(minus, Coefficient(b, 0))]
      + AddPoly(if a == [] then [] else a[1..], if b == [] then [] else b[1..], minus)
  }

  function Scale(c: Poly, k: real): (r: Poly)
    ensures |r| == |c| && forall i | 0 <= i < |c| :: r[i] == c[i] * k
  {
    if c == [] then [] else [c[0] * k] + Scale(c[1..], k)
  }

  /** The list without trailing zeros, keeping at least one element. */
  function Trim(c: Poly): (r: Poly)
    ensures r <= c && (c != [] ==> r != []) && (|r| > 1 ==> r[|r| - 1] != 0.0)
  {
    if |c| > 1 && c[|c| - 1] == 0.0 then Trim(c[..|c| - 1]) else c
  }

  lemma {:induction false} AddPolyValue(a: Poly, b: Poly, minus: bool, x: real)
    ensures PolyValue(AddPoly(a, b, minus), x) == PolyValue(a, x) + Signed(minus, PolyValue(b, x))
    decreases |a| + |b|
  {
    if a != [] || b != [] {
      var a' := if a == [] then [] else a[1..];
      var b' := if b == [] then [] else b[1..];
      AddPolyValue(a', b', minus, x);
      assert AddPoly(a, b, minus)[1..] == AddPoly(a', b', minus);
      HeadAndTail(a, a', x);
      HeadAndTail(b, b', x);
      AddStep(minus, x, PolyValue(a', x), PolyValue(b', x));
    }
  }

  lemma HeadAndTail(c: Poly, tail: Poly, x: real)
    requires tail == if c == [] then [] else c[1..]
    ensures PolyValue(c, x) == Coefficient(c, 0) + Times(x, PolyValue(tail, x))
  {
    assert Times(x, 0.0) == 0.0;
  }

  lemma AddStep(minus: bool, x: real, p: real, q: real)
    ensures Times(x, p + Signed(minus, q)) == Times(x, p) + Signed(minus, Times(x, q))
  {
    if minus {
      assert x * (p - q) == x * p - x * q;
    } else {
      assert x * (p + q) == x * p + x * q;
    }
  }

  lemma {:induction false} ScaleValue(c: Poly, k: real, x: real)
    ensures PolyValue(Scale(c, k), x) == Times(PolyValue(c, x), k)
  {
    if c != [] {
      ScaleValue(c[1..], k, x);
      assert Scale(c, k)[1..] == Scale(c[1..], k);
      TimesDistributes(c[0], Times(x, PolyValue(c[1..], x)), k);
      TimesAssociates(x, PolyValue(c[1..], x), k);
    } else {
      assert Times(0.0, k) == 0.0;
    }
  }

  lemma {:induction false} ZeroOnTop(c: Poly, x: real)
    ensures PolyValue(c + [0.0], x) == PolyValue(c, x)
  {
    if c == [] {
      assert (c + [0.0])[1..] == [];
      assert Times(x, 0.0) == 0.0;
    } else {
      assert (c + [0.0])[1..] == c[1..] + [0.0];
      ZeroOnTop(c[1..], x);
    }
  }

  lemma {:induction false} TrimValue(c: Poly, x: real)
    ensures PolyValue(Trim(c), x) == PolyValue(c, x)
  {
    if |c| > 1 && c[|c| - 1] == 0.0 {
      TrimValue(c[..|c| - 1], x);
      ZeroOnTop(c[..|c| - 1], x);
      assert c[..|c| - 1] + [0.0] == c;
    }
  }

  // ----- extraction -----

  /** `*n as usize`: negative numbers give 0 and fractions are cut off. */
  function Degree(n: real): nat {
    if n < 0.0 then 0 else n.Floor
  }

  function Monomial(k: nat): (r: Poly)
    ensures |r| == k + 1 && r[k] == 1.0 && forall i | 0 <= i < k :: r[i] == 0.0
  {
    if k == 0 then [1.0] else [0.0] + Monomial(k - 1)
  }

  /** What `collect_poly_coeffs` extracts. */
  function PolyOf(e: Expr, v: string): (r: Option<Poly>)
    ensures r.Some? ==> r.value != []
  {
    match e
    case Num(c) => Some([c])
    case Var(w) => if w == v then Some([0.0, 1.0]) else None
    case Add(a, b) => Combined(PolyOf(a, v), PolyOf(b, v), false)
    case Sub(a, b) => Combined(PolyOf(a, v), PolyOf(b, v), true)
    case Mul(a, b) =>
      if a.Num? then Scaled(PolyOf(b, v), a.n)
      else if b.Num? then Scaled(PolyOf(a, v), b.n)
      else None
    case Pow(a, b) => if b.Num? && a == Var(v) then Some(Monomial(Degree(b.n))) else None
    case Neg(a) => Scaled(PolyOf(a, v), -1.0)
    case Div(a, b) => if b.Num? && b.n != 0.0 then Scaled(PolyOf(a, v), 1.0 / b.n) else None
    case Fn(_, _) => None
  }

  /** Literals, the variable and its literal powers, under sums, literal multiples and literal quotients. */
  predicate IsPolynomialIn(e: Expr, v: string) {
    match e
    case Num(_) => true
    case Var(w) => w == v
    case Add(a, b) => IsPolynomialIn(a, v) && IsPolynomialIn(b, v)
    case Sub(a, b) => IsPolynomialIn(a, v) && IsPolynomialIn(b, v)
    case Mul(a, b) => (a.Num? && IsPolynomialIn(b, v)) || (b.Num? && IsPolynomialIn(a, v))
    case Pow(a, b) => a == Var(v) && b.Num?
    case Neg(a) => IsPolynomialIn(a, v)
    case Div(a, b) => IsPolynomialIn(a, v) && b.Num? && b.n != 0.0
    case Fn(_, _) => false
  }

  /** Extraction succeeds on exactly these, and a sum comes out without trailing zeros. */
  lemma {:induction false} ExtractsExactly(e: Expr, v: string)
    ensures PolyOf(e, v).Some? <==> IsPolynomialIn(e, v)
    ensures PolyOf(e, v).Some? && (e.Add? || e.Sub?) ==>
              var c := PolyOf(e, v).value; |c| == 1 || c[|c| - 1] != 0.0
  {
    hide Times, AddPoly, Scale, Monomial;
    match e
    case Add(a, b) => ExtractsExactly(a, v); ExtractsExactly(b, v);
    case Sub(a, b) => ExtractsExactly(a, v); ExtractsExactly(b, v);
    case Mul(a, b) => ExtractsExactly(a, v); ExtractsExactly(b, v);
    case Neg(a) => ExtractsExactly(a, v);
    case Div(a, _) => ExtractsExactly(a, v);
    case _ =>
  }

  function Combined(a: Option<Poly>, b: Option<Poly>, minus: bool): (r: Option<Poly>)
    ensures r.Some? ==> a.Some? && b.Some? && (a.value != [] ==> r.value != [])
  {
    if a.Some? && b.Some? then Some(Trim(AddPoly(a.value, b.value, minus))) else None
  }

  function Scaled(a: Option<Poly>, k: real): (r: Option<Poly>)
    ensures r.Some? ==> a.Some? && |r.value| == |a.value|
  {
    if a.Some? then Some(Scale(a.value, k)) else None
  }

  /** `collect_poly_coeffs` as the program runs it, updating vectors in place. */
  method CollectPolyCoeffs(e: Expr, v: string) returns (r: Option<Poly>)
    ensures r == PolyOf(e, v)
    ensures r.Some? <==> IsPolynomialIn(e, v)
    decreases e
  {
    ExtractsExactly(e, v);
    match e
    case Num(c) => r := Some([c]);
    case Var(w) => r := if w == v then Some([0.0, 1.0]) else None;
    case Add(a, b) =>
      var ca := CollectPolyCoeffs(a, v);
      if ca.None? { return None; }
      var cb := CollectPolyCoeffs(b, v);
      if cb.None? { return None; }
      var sum := AddCoeffs(ca.value, cb.value, false);
      r := Some(sum);
    case Sub(a, b) =>
      var ca := CollectPolyCoeffs(a, v);
      if ca.None? { return None; }
      var cb := CollectPolyCoeffs(b, v);
      if cb.None? { return None; }
      var difference := AddCoeffs(ca.value, cb.value, true);
      r := Some(difference);
    case Mul(a, b) =>
      r := None;
      if a.Num? {
        var cb := CollectPolyCoeffs(b, v);
        r := ScaleCoeffs(cb, a.n);
      } else if b.Num? {
        var ca := CollectPolyCoeffs(a, v);
        r := ScaleCoeffs(ca, b.n);
      }
    case Pow(a, b) =>
      r := None;
      if b.Num? && a == Var(v) {
        var degree := Degree(b.n);
        var coeffs := new real[degree + 1](_ => 0.0);
        coeffs[degree] := 1.0;
        assert coeffs[..] == Monomial(degree);
        r := Some(coeffs[..]);
      }
    case Neg(a) =>
      var ca := CollectPolyCoeffs(a, v);
      r := ScaleCoeffs(ca, -1.0);
    case Div(a, b) =>
      r := None;
      if b.Num? && b.n != 0.0 {
        var ca := CollectPolyCoeffs(a, v);
        r := ScaleCoeffs(ca, 1.0 / b.n);
      }
    case Fn(_, _) => r := None;
  }

  method AddCoeffs(ca: Poly, cb: Poly, minus: bool) returns (result: Poly)
    ensures result == Trim(AddPoly(ca, cb, minus))
  {
    result := SumCoeffs(ca, cb, minus);
    while |result| > 1 && result[|result| - 1] == 0.0
      invariant Trim(result) == Trim(AddPoly(ca, cb, minus))
    {
      result := result[..|result| - 1];
    }
  }

  method SumCoeffs(ca: Poly, cb: Poly, minus: bool) returns (result: Poly)
    ensures result == AddPoly(ca, cb, minus)
  {
    var sum := new real[if |ca| < |cb| then |cb| else |ca|](_ => 0.0);
    AddInto(sum, ca, false);
    ghost var first := sum[..];
    assert forall i: nat | i < |first| :: first[i] == Coefficient(ca, i);
    AddInto(sum, cb, minus);
    result := sum[..];
    assert |result| == |AddPoly(ca, cb, minus)|;
    forall i: nat | i < |result| ensures result[i] == AddPoly(ca, cb, minus)[i] {
      assert result[i] == first[i] + Signed(minus, Coefficient(cb, i));
    }
  }

  method AddInto(sum: array<real>, c: Poly, minus: bool)
    requires |c| <= sum.Length
    modifies sum
    ensures forall i: nat | i < sum.Length :: sum[i] == old(sum[i]) + Signed(minus, Coefficient(c, i))
  {
    for i := 0 to |c|
      invariant forall j: nat | j < i :: sum[j] == old(sum[j]) + Signed(minus, Coefficient(c, j))
      invariant forall j: nat | i <= j < sum.Length :: sum[j] == old(sum[j])
    {
      sum[i] := sum[i] + Signed(minus, c[i]);
    }
  }

  method ScaleCoeffs(c: Option<Poly>, k: real) returns (r: Option<Poly>)
    ensures r == Scaled(c, k)
  {
    if c.None? { return None; }
    var coeffs := new real[|c.value|](i requires 0 <= i < |c.value| => c.value[i]);
    for i := 0 to coeffs.Length
      invariant forall j | 0 <= j < coeffs.Length :: coeffs[j] == if j < i then c.value[j] * k else c.value[j]
    {
      coeffs[i] := coeffs[i] * k;
    }
    assert coeffs[..] == Scale(c.value, k);
    r := Some(coeffs[..]);
  }

  // ----- what the extracted coefficients mean -----

  predicate IsNatural(n: real) {
    IsInteger(n) && n >= 0.0
  }

  /** Every literal exponent is a natural number. */
  predicate NaturalExponents(e: Expr) {
    match e
    case Add(a, b) => NaturalExponents(a) && NaturalExponents(b)
    case Sub(a, b) => NaturalExponents(a) && NaturalExponents(b)
    case Mul(a, b) => NaturalExponents(a) && NaturalExponents(b)
    case Div(a, b) => NaturalExponents(a) && NaturalExponents(b)
    case Pow(a, b) => NaturalExponents(a) && (b.Num? ==> IsNatural(b.n))
    case Neg(a) => NaturalExponents(a)
    case _ => true
  }

  predicate IsPlainName(v: string) {
    v != "pi" && v != "e"
  }

  lemma {:induction false} MonomialValue(k: nat, x: real)
    ensures PolyValue(Monomial(k), x) == NatPow(x, k)
  {
    if k == 0 {
      assert Times(x, 0.0) == 0.0;
    } else {
      MonomialValue(k - 1, x);
      assert Monomial(k)[1..] == Monomial(k - 1);
    }
  }

  lemma CombinedValue(a: Option<Poly>, b: Option<Poly>, minus: bool, x: real)
    requires Combined(a, b, minus).Some?
    ensures PolyValue(Combined(a, b, minus).value, x)
         == PolyValue(a.value, x) + Signed(minus, PolyValue(b.value, x))
  {
    AddPolyValue(a.value, b.value, minus, x);
    TrimValue(AddPoly(a.value, b.value, minus), x);
  }

  lemma ConstantValue(c: real, x: real)
    ensures PolyValue([c], x) == c && PolyValue([0.0, 1.0], x) == x
  {
    assert [0.0, 1.0][1..] == [1.0];
    assert PolyValue([1.0], x) == 1.0 + Times(x, 0.0);
    assert Times(x, 0.0) == 0.0;
  }

  lemma PowerExtracted(m: Lib, env: Env, v: string, n: real)
    requires IsPlainName(v) && v in env && IsNatural(n)
    ensures Evaluate(m, env, Pow(Var(v), Num(n))) == Some(PolyValue(Monomial(Degree(n)), env[v]))
  {
    MonomialValue(Degree(n), env[v]);
    assert Evaluate(m, env, Var(v)) == Some(env[v]) && Evaluate(m, env, Num(n)) == Some(n);
    assert Powf(m, env[v], n) == IntPow(env[v], n.Floor) == Some(NatPow(env[v], n.Floor));
  }

  ghost predicate IsExtracted(m: Lib, env: Env, e: Expr, v: string) {
    v in env && PolyOf(e, v).Some? && Evaluate(m, env, e) == Some(PolyValue(PolyOf(e, v).value, env[v]))
  }

  lemma {:induction false} SumExtracted(m: Lib, env: Env, a: Expr, b: Expr, v: string)
    requires IsExtracted(m, env, a, v) && IsExtracted(m, env, b, v)
    ensures IsExtracted(m, env, Add(a, b), v)
  {
    assert PolyOf(Add(a, b), v) == Combined(PolyOf(a, v), PolyOf(b, v), false);
    hide Times, PolyOf, PolyValue, Combined, Evaluate, AddPoly, Trim, AddValues, SubValues;
    var p, q := PolyValue(PolyOf(a, v).value, env[v]), PolyValue(PolyOf(b, v).value, env[v]);
    CombinedIsSum(PolyOf(a, v), PolyOf(b, v), env[v]);
    assert Evaluate(m, env, Add(a, b)) == Some(p + q) by { SumEvaluates(m, env, a, b); }
  }

  lemma {:induction false} DifferenceExtracted(m: Lib, env: Env, a: Expr, b: Expr, v: string)
    requires IsExtracted(m, env, a, v) && IsExtracted(m, env, b, v)
    ensures IsExtracted(m, env, Sub(a, b), v)
  {
    assert PolyOf(Sub(a, b), v) == Combined(PolyOf(a, v), PolyOf(b, v), true);
    hide Times, PolyOf, PolyValue, Combined, Evaluate, AddPoly, Trim, AddValues, SubValues;
    var p, q := PolyValue(PolyOf(a, v).value, env[v]), PolyValue(PolyOf(b, v).value, env[v]);
    CombinedIsSum(PolyOf(a, v), PolyOf(b, v), env[v]);
    assert Evaluate(m, env, Sub(a, b)) == Some(p - q) by { SumEvaluates(m, env, a, b); }
  }

  lemma CombinedIsSum(a: Option<Poly>, b: Option<Poly>, x: real)
    requires a.Some? && b.Some?
    ensures Combined(a, b, false).Some? && Combined(a, b, true).Some?
    ensures PolyValue(Combined(a, b, false).value, x) == PolyValue(a.value, x) + PolyValue(b.value, x)
    ensures PolyValue(Combined(a, b, true).value, x) == PolyValue(a.value, x) - PolyValue(b.value, x)
  {
    CombinedValue(a, b, false, x);
    CombinedValue(a, b, true, x);
  }

  lemma {:induction false} SumEvaluates(m: Lib, env: Env, a: Expr, b: Expr)
    requires Evaluate(m, env, a).Some? && Evaluate(m, env, b).Some?
    ensures Evaluate(m, env, Add(a, b)) == Some(Evaluate(m, env, a).value + Evaluate(m, env, b).value)
    ensures Evaluate(m, env, Sub(a, b)) == Some(Evaluate(m, env, a).value - Evaluate(m, env, b).value)
  {
    hide Times, PowValues, FnValue, Lookup, MulValues, DivValues;
  }

  lemma MultipleExtracted(m: Lib, env: Env, k: real, b: Expr, v: string)
    requires IsExtracted(m, env, b, v)
    ensures IsExtracted(m, env, Mul(Num(k), b), v)
    ensures !b.Num? ==> IsExtracted(m, env, Mul(b, Num(k)), v)
  {
    ScaledValue(PolyOf(b, v).value, k, env[v]);
    assert Evaluate(m, env, Num(k)) == Some(k);
  }

  lemma QuotientExtracted(m: Lib, env: Env, a: Expr, d: real, v: string)
    requires IsExtracted(m, env, a, v) && d != 0.0
    ensures IsExtracted(m, env, Div(a, Num(d)), v)
  {
    DividedValue(PolyOf(a, v).value, d, env[v]);
    assert Evaluate(m, env, Num(d)) == Some(d);
  }

  lemma NegationExtracted(m: Lib, env: Env, a: Expr, v: string)
    requires IsExtracted(m, env, a, v)
    ensures IsExtracted(m, env, Neg(a), v)
  {
    NegatedValue(PolyOf(a, v).value, env[v]);
  }

  /** With natural exponents the coefficients have the value of the expression, at every assignment. */
  lemma {:induction false} ExtractedValue(m: Lib, env: Env, e: Expr, v: string)
    requires IsPlainName(v) && v in env && PolyOf(e, v).Some? && NaturalExponents(e)
    ensures IsExtracted(m, env, e, v)
  {
    match e
    case Num(c) => ConstantValue(c, env[v]);
    case Var(_) => ConstantValue(0.0, env[v]);
    case Add(a, b) => ExtractedValue(m, env, a, v); ExtractedValue(m, env, b, v); SumExtracted(m, env, a, b, v);
    case Sub(a, b) => ExtractedValue(m, env, a, v); ExtractedValue(m, env, b, v); DifferenceExtracted(m, env, a, b, v);
    case Mul(a, b) =>
      if a.Num? {
        ExtractedValue(m, env, b, v);
        MultipleExtracted(m, env, a.n, b, v);
      } else {
        ExtractedValue(m, env, a, v);
        MultipleExtracted(m, env, b.n, a, v);
      }
    case Pow(a, b) => PowerExtracted(m, env, v, b.n);
    case Neg(a) => ExtractedValue(m, env, a, v); NegationExtracted(m, env, a, v);
    case Div(a, b) => ExtractedValue(m, env, a, v); QuotientExtracted(m, env, a, b.n, v);
  }

  lemma ScaledValue(c: Poly, k: real, x: real)
    ensures PolyValue(Scale(c, k), x) == Times(PolyValue(c, x), k) == Times(k, PolyValue(c, x))
  {
    ScaleValue(c, k, x);
  }

  lemma NegatedValue(c: Poly, x: real)
    ensures PolyValue(Scale(c, -1.0), x) == -PolyValue(c, x)
  {
    ScaleValue(c, -1.0, x);
  }

  lemma DividedValue(c: Poly, d: real, x: real)
    requires d != 0.0
    ensures PolyValue(Scale(c, 1.0 / d), x) == PolyValue(c, x) / d
  {
    ScaleValue(c, 1.0 / d, x);
    QuotientIsProduct(PolyValue(c, x), d);
  }

  /** Where an exponent that is not natural makes the expression undefined: at 0 or at -1. */
  function BadPoint(e: Expr): real {
    match e
    case Add(a, b) => if NaturalExponents(a) then BadPoint(b) else BadPoint(a)
    case Sub(a, b) => if NaturalExponents(a) then BadPoint(b) else BadPoint(a)
    case Mul(a, b) => if NaturalExponents(a) then BadPoint(b) else BadPoint(a)
    case Neg(a) => BadPoint(a)
    case Div(a, _) => BadPoint(a)
    case Pow(_, b) => if b.Num? && b.n < 0.0 then 0.0 else -1.0
    case _ => 0.0
  }

  lemma {:induction false} UndefinedAtBadPoint(m: Lib, env: Env, e: Expr, v: string)
    requires IsPlainName(v) && PolyOf(e, v).Some? && !NaturalExponents(e)
    requires v in env && env[v] == BadPoint(e)
    ensures Evaluate(m, env, e).None?
  {
    match e
    case Add(a, b) =>
      if NaturalExponents(a) { UndefinedAtBadPoint(m, env, b, v); } else { UndefinedAtBadPoint(m, env, a, v); }
    case Sub(a, b) =>
      if NaturalExponents(a) { UndefinedAtBadPoint(m, env, b, v); } else { UndefinedAtBadPoint(m, env, a, v); }
    case Mul(a, b) =>
      if NaturalExponents(a) { UndefinedAtBadPoint(m, env, b, v); } else { UndefinedAtBadPoint(m, env, a, v); }
    case Neg(a) => UndefinedAtBadPoint(m, env, a, v);
    case Div(a, b) => UndefinedAtBadPoint(m, env, a, v);
    case Pow(a, b) =>
      assert Evaluate(m, env, a) == Some(env[v]) && Evaluate(m, env, b) == Some(b.n);
      assert b.n < 0.0 ==> b.n.Floor < 0;
  }

  ghost predicate HasPolyValue(m: Lib, env: Env, e: Expr, v: string, c: Poly) {
    v in env ==> Evaluate(m, env, e) == Some(PolyValue(c, env[v]))
  }

  /** Extraction keeps the value everywhere exactly when every literal exponent is natural. */
  lemma ExtractionExact(m: Lib, e: Expr, v: string)
    requires IsPlainName(v) && PolyOf(e, v).Some?
    ensures (forall env: Env :: HasPolyValue(m, env, e, v, PolyOf(e, v).value)) <==> NaturalExponents(e)
  {
    if NaturalExponents(e) {
      forall env: Env ensures HasPolyValue(m, env, e, v, PolyOf(e, v).value) {
        if v in env { ExtractedValue(m, env, e, v); }
      }
    } else {
      var env: Env := map[v := BadPoint(e)];
      UndefinedAtBadPoint(m, env, e, v);
      assert !HasPolyValue(m, env, e, v, PolyOf(e, v).value);
    }
  }

  /** x^(-1) is extracted as the constant 1. */
  lemma ReciprocalExtractedAsOne(v: string)
    ensures PolyOf(Pow(Var(v), Num(-1.0)), v) == Some([1.0])
  {
    assert Monomial(0) == [1.0];
  }

  // ----- synthetic division -----

  /** `synthetic_divide`: every quotient coefficient is the value of what lies above it. */
  method SyntheticDivide(c: Poly, r: real) returns (q: Poly)
    requires |c| >= 2
    ensures |q| == |c| - 1
    ensures forall i | 0 <= i < |q| :: q[i] == PolyValue(c[i + 1..], r)
  {
    var n := |c|;
    var result := new real[n - 1](_ => 0.0);
    result[n - 2] := c[n - 1];
    assert PolyValue(c[n - 1..], r) == c[n - 1] by {
      assert c[n - 1..] == [c[n - 1]];
      ConstantValue(c[n - 1], r);
    }
    var i := n - 2;
    while i >= 1
      invariant 0 <= i <= n - 2
      invariant forall j | i <= j < n - 1 :: result[j] == PolyValue(c[j + 1..], r)
    {
      result[i - 1] := c[i] + r * result[i];
      assert c[i..][0] == c[i] && c[i..][1..] == c[i + 1..];
      assert result[i - 1] == c[i] + Times(r, result[i]);
      i := i - 1;
    }
    q := result[..];
  }

  ghost predicate IsDeflation(c: Poly, r: real, q: Poly) {
    |c| == |q| + 1 && forall i | 0 <= i < |q| :: q[i] == PolyValue(c[i + 1..], r)
  }

  /** Division with remainder: c(x) = (x - r) * q(x) + c(r) for all x. */
  lemma {:induction false} DivisionWithRemainder(c: Poly, r: real, q: Poly, x: real)
    requires IsDeflation(c, r, q)
    ensures PolyValue(c, x) == Times(x - r, PolyValue(q, x)) + PolyValue(c, r)
  {
    if |c| == 1 {
      ConstantValue(c[0], x);
      ConstantValue(c[0], r);
      assert c == [c[0]];
      assert Times(x - r, 0.0) == 0.0;
    } else {
      assert IsDeflation(c[1..], r, q[1..]) by {
        forall i | 0 <= i < |q[1..]| ensures q[1..][i] == PolyValue(c[1..][i + 1..], r) {
          assert c[1..][i + 1..] == c[i + 2..];
        }
      }
      DivisionWithRemainder(c[1..], r, q[1..], x);
      assert q[0] == PolyValue(c[1..], r);
      DivisionStep(c[0], x, r, PolyValue(q[1..], x), PolyValue(c[1..], r));
    }
  }

  lemma DivisionStep(c0: real, x: real, r: real, q: real, p: real)
    ensures c0 + Times(x, Times(x - r, q) + p) == Times(x - r, p + Times(x, q)) + (c0 + Times(r, p))
  {
    assert x * ((x - r) * q) == (x - r) * (x * q);
    assert x * p == (x - r) * p + r * p;
  }
}
