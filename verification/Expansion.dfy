/** How far `expand` multiplies out: which products and powers of sums become sums. */
module Expansion {
  import opened Wrappers
  import opened Expressions
  import opened RealFacts
  import opened ValueAlgebra
  import opened Simplification
  import opened SimplificationSound
  import opened Rewriting
  import opened RewritingSound

  predicate IsSum(e: Expr) {
    e.Add? || e.Sub?
  }

  // ----- products -----

  /** Two sums, or a sum and a literal or variable. */
  predicate MultipliesOut(a: Expr, b: Expr) {
    (IsSum(a) && (IsSum(b) || IsAtom(b))) || (IsAtom(a) && IsSum(b))
  }

  /** Neither a product nor a power, so that expanding it does not change what it is. */
  predicate KeepsKind(e: Expr) {
    !e.Mul? && !e.Pow?
  }

  /** The summands of e are not sums and not changed into sums. */
  predicate IsFlat(e: Expr) {
    IsSum(e) ==> KeepsKind(e.left) && KeepsKind(e.right) && !IsSum(e.left) && !IsSum(e.right)
  }

  /** Below the sums and differences of e, no factor of a product is a sum. */
  predicate NoSumIsFactor(e: Expr) {
    match e
    case Add(a, b) => NoSumIsFactor(a) && NoSumIsFactor(b)
    case Sub(a, b) => NoSumIsFactor(a) && NoSumIsFactor(b)
    case Mul(a, b) => !IsSum(a) && !IsSum(b)
    case _ => true
  }

  lemma KindKept(m: Lib, e: Expr)
    requires KeepsKind(e)
    ensures var d := Distribute(Expand(m, e));
            && KeepsKind(d) && (IsSum(d) <==> IsSum(e)) && (IsAtom(d) <==> IsAtom(e))
  {
  }

  /**
    A product of two sums, or of a sum and a literal or variable, becomes a sum, and no
    other product of operands that keep their kind does. If the summands are not sums
    themselves, the result is multiplied out completely.
    */
  lemma ProductsMultipliedOut(m: Lib, a: Expr, b: Expr)
    requires KeepsKind(a) && KeepsKind(b)
    ensures var r := Expand(m, Mul(a, b));
            && (IsSum(r) <==> MultipliesOut(a, b)) && (r.Mul? <==> !MultipliesOut(a, b))
            && (IsFlat(a) && IsFlat(b) && MultipliesOut(a, b) ==> NoSumIsFactor(r))
  {
    KindKept(m, a);
    KindKept(m, b);
    if IsFlat(a) && IsFlat(b) && MultipliesOut(a, b) {
      FlatKept(m, a);
      FlatKept(m, b);
      FlatProduct(Distribute(Expand(m, a)), Distribute(Expand(m, b)));
    }
  }

  lemma FlatProduct(a: Expr, b: Expr)
    requires IsFlat(a) && IsFlat(b) && MultipliesOut(a, b)
    ensures NoSumIsFactor(DistributeProduct(a, b))
  {
    if IsSum(a) && IsSum(b) {
      var u, v, x, y := a.left, a.right, b.left, b.right;
      assert NoSumIsFactor(Mul(u, x)) && NoSumIsFactor(Mul(u, y));
      assert NoSumIsFactor(Mul(v, x)) && NoSumIsFactor(Mul(v, y));
      assert NoSumIsFactor(Add(Mul(u, x), Mul(u, y))) && NoSumIsFactor(Sub(Mul(u, x), Mul(u, y)));
      assert NoSumIsFactor(Add(Mul(v, x), Mul(v, y))) && NoSumIsFactor(Sub(Mul(v, x), Mul(v, y)));
      assert NoSumIsFactor(Add(Add(Mul(u, x), Mul(u, y)), Mul(v, x)));
    }
  }

  lemma FlatKept(m: Lib, e: Expr)
    requires KeepsKind(e) && IsFlat(e)
    ensures IsFlat(Distribute(Expand(m, e)))
  {
    if IsSum(e) {
      KindKept(m, e.left);
      KindKept(m, e.right);
    }
  }

  // ----- anywhere in an expression -----

  predicate IsPlainSummand(e: Expr) {
    IsAtom(e) || e.Div?
  }

  /** Literals, variables, quotients, and sums and differences of two of these. */
  predicate IsPlainFactor(e: Expr) {
    IsPlainSummand(e) || (IsSum(e) && IsPlainSummand(e.left) && IsPlainSummand(e.right))
  }

  /** Products of two plain factors, under sums, differences, negations and functions. */
  predicate HasPlainProducts(e: Expr) {
    match e
    case Num(_) => true
    case Var(_) => true
    case Add(a, b) => HasPlainProducts(a) && HasPlainProducts(b)
    case Sub(a, b) => HasPlainProducts(a) && HasPlainProducts(b)
    case Mul(a, b) => IsPlainFactor(a) && IsPlainFactor(b)
    case Neg(a) => HasPlainProducts(a)
    case Fn(_, a) => HasPlainProducts(a)
    case _ => false
  }

  /** No product under sums, differences, products, negations and functions could be multiplied out. */
  predicate IsMultipliedOut(e: Expr) {
    match e
    case Add(a, b) => IsMultipliedOut(a) && IsMultipliedOut(b)
    case Sub(a, b) => IsMultipliedOut(a) && IsMultipliedOut(b)
    case Mul(a, b) => !MultipliesOut(a, b) && IsMultipliedOut(a) && IsMultipliedOut(b)
    case Neg(a) => IsMultipliedOut(a)
    case Fn(_, a) => IsMultipliedOut(a)
    case _ => true
  }

  lemma PlainFactorStays(m: Lib, e: Expr)
    requires IsPlainFactor(e)
    ensures Expand(m, e) == e == Distribute(e) && IsMultipliedOut(e)
  {
  }

  lemma PlainSummands(u: Expr, v: Expr)
    requires IsPlainSummand(u) && IsPlainSummand(v)
    ensures IsMultipliedOut(u) && IsMultipliedOut(v) && IsMultipliedOut(Mul(u, v))
  {
  }

  lemma PlainProduct(a: Expr, b: Expr)
    requires IsPlainFactor(a) && IsPlainFactor(b)
    ensures IsMultipliedOut(DistributeProduct(a, b))
  {
    if IsSum(a) && IsSum(b) {
      var u, v, x, y := a.left, a.right, b.left, b.right;
      PlainSummands(u, x); PlainSummands(u, y); PlainSummands(v, x); PlainSummands(v, y);
      assert IsMultipliedOut(Add(Mul(u, x), Mul(u, y))) && IsMultipliedOut(Sub(Mul(u, x), Mul(u, y)));
      assert IsMultipliedOut(Add(Mul(v, x), Mul(v, y))) && IsMultipliedOut(Sub(Mul(v, x), Mul(v, y)));
      assert IsMultipliedOut(Add(Add(Mul(u, x), Mul(u, y)), Mul(v, x)));
    } else if IsSum(a) {
      PlainSummands(a.left, b); PlainSummands(a.right, b);
      assert IsMultipliedOut(a);
    } else if IsSum(b) {
      PlainSummands(a, b.left); PlainSummands(a, b.right);
      assert IsMultipliedOut(b);
    } else {
      PlainSummands(a, b);
    }
  }

  /** Products of plain factors are multiplied out wherever they stand, by distributing as by expanding. */
  lemma {:induction false} MultipliedOutAnywhere(m: Lib, e: Expr)
    requires HasPlainProducts(e)
    ensures IsMultipliedOut(Distribute(e)) && IsMultipliedOut(Expand(m, e))
  {
    match e
    case Add(a, b) => MultipliedOutAnywhere(m, a); MultipliedOutAnywhere(m, b);
    case Sub(a, b) => MultipliedOutAnywhere(m, a); MultipliedOutAnywhere(m, b);
    case Mul(a, b) =>
      PlainFactorStays(m, a);
      PlainFactorStays(m, b);
      PlainProduct(a, b);
    case Neg(a) => MultipliedOutAnywhere(m, a);
    case Fn(_, a) => MultipliedOutAnywhere(m, a);
    case _ =>
  }

  /** A square is expanded like the product, and the result is simplified. */
  lemma SquareIsProduct(m: Lib, e: Expr)
    ensures Expand(m, Pow(e, Num(2.0))) == Simplify(m, Simplify(m, Expand(m, Mul(e, e))))
  {
    hide Simplify, Distribute, Weight;
    var b := Expand(m, e);
    assert MultiplyOut(m, b, b, 1) == MultiplyOut(m, Simplify(m, Distribute(Mul(b, b))), b, 0);
  }

  // ----- powers -----

  /** v to the power k as it is written: a literal, the variable itself, or a power. */
  function PowerOf(v: Expr, k: nat): Expr {
    if v.Num? then Num(NatPow(v.n, k)) else if k == 1 then v else Pow(v, Num(k as real))
  }

  predicate IsVariable(e: Expr) {
    e.Var? && e.name != "pi" && e.name != "e"
  }

  /** The second summand: a literal other than 0, or another variable. */
  predicate IsOther(x: Expr, v: Expr) {
    if v.Num? then v.n != 0.0 else IsVariable(v) && v != x
  }

  lemma {:induction false} NextPower(m: Lib, v: Expr, k: nat)
    requires (v.Num? || v.Var?) && k >= 1
    ensures Simplify(m, PowerOf(v, k)) == PowerOf(v, k) == Distribute(PowerOf(v, k))
    ensures v.Var? || NatPow(v.n, k) != 0.0 ==> Simplify(m, Mul(PowerOf(v, k), v)) == PowerOf(v, k + 1)
  {
    var p := PowerOf(v, k);
    assert Simplify(m, v) == v;
    if v.Num? {
      assert Simplify(m, p) == p;
      ProductSimplified(m, p, v);
      assert NatPow(v.n, k + 1) == Times(v.n, NatPow(v.n, k));
      assert Times(v.n, NatPow(v.n, k)) == Times(NatPow(v.n, k), v.n);
      LiteralProduct(p.n, v.n);
      FoldedLiteral(m, MulRules(p, v));
    } else {
      if k > 1 {
        assert Simplify(m, Num(k as real)) == Num(k as real);
        PowerSimplified(m, v, Num(k as real));
        PowerStays(m, v, k as real);
      }
      ProductSimplified(m, p, v);
      assert MulRules(p, v) == MergePowers(p, v) == Pow(v, Num((k + 1) as real));
      PowerStays(m, v, (k + 1) as real);
    }
  }

  lemma LiteralProduct(x: real, y: real)
    ensures MulRules(Num(x), Num(y)) == Num(Times(x, y))
  {
    assert x == 0.0 || y == 0.0 ==> Times(x, y) == 0.0;
    assert x == 1.0 ==> Times(x, y) == y;
    assert y == 1.0 ==> Times(x, y) == x;
  }

  lemma PowerStays(m: Lib, v: Expr, n: real)
    requires v.Var? && n != 0.0 && n != 1.0
    ensures FoldNumeric(m, Pow(v, Num(n))) == Pow(v, Num(n)) == PowRules(m, v, Num(n))
  {
    FoldedLiteral(m, Num(n));
    assert Simplify(m, v) == v;
    assert Simplify(m, Num(n)) == FoldNumeric(m, Num(n)) == Num(n);
  }

  /** The values of the two summands at two assignments show that the sum rules leave them alone. */
  ghost predicate Separate(z0: real, w0: real, z1: real, w1: real) {
    && (z0 != 0.0 || z1 != 0.0) && (z0 != w0 || z1 != w1) && (z0 != -w0 || z1 != -w1)
    && (z0 == z1 ==> w0 != w1 || w0 == 0.0)
  }

  /** Values at two assignments. */
  datatype Points = Points(fst: Env, snd: Env)

  ghost predicate HasValues(m: Lib, ps: Points, e: Expr, x: real, y: real) {
    Strict(m, ps.fst, e) == Some(x) && Strict(m, ps.snd, e) == Some(y)
  }

  lemma ValuesKept(m: Lib, ps: Points, e: Expr, x: real, y: real)
    requires Lawful(m) && HasValues(m, ps, e, x, y)
    ensures HasValues(m, ps, Simplify(m, e), x, y) && HasValues(m, ps, Distribute(e), x, y)
  {
    SimplifyRefines(m, ps.fst, e); SimplifyRefines(m, ps.snd, e);
    DistributeRefines(m, ps.fst, e); DistributeRefines(m, ps.snd, e);
  }

  lemma SummandsStay(m: Lib, ps: Points, z: Expr, w: Expr, z0: real, w0: real, z1: real, w1: real)
    requires HasValues(m, ps, z, z0, z1) && HasValues(m, ps, w, w0, w1) && Separate(z0, w0, z1, w1)
    requires w != Num(0.0) && (w.Num? ==> z0 != z1)
    ensures AddRules(z, w) == Add(z, w)
  {
  }

  /** A sum whose last summand is simplified keeps it. */
  lemma {:induction false} LastSummandStays(m: Lib, ps: Points, a: Expr, b: Expr, w: Expr,
                                            s0: real, w0: real, s1: real, w1: real)
    requires Lawful(m) && Simplify(m, b) == w == Simplify(m, w)
    requires HasValues(m, ps, Add(a, b), s0, s1) && HasValues(m, ps, b, w0, w1)
    requires Separate(s0 - w0, w0, s1 - w1, w1) && w != Num(0.0) && (w.Num? ==> s0 - w0 != s1 - w1)
    ensures Simplify(m, Add(a, b)).Add? && Simplify(m, Add(a, b)).right == w
  {
    hide Simplify, FoldNumeric, HasValues, AddRules, Separate, Weight;
    LeftValues(m, ps, a, b, s0, w0, s1, w1);
    ValuesKept(m, ps, a, s0 - w0, s1 - w1);
    ValuesKept(m, ps, b, w0, w1);
    SummandsStay(m, ps, Simplify(m, a), w, s0 - w0, w0, s1 - w1, w1);
    SumStays(m, a, b, w);
  }

  lemma {:induction false} SumStays(m: Lib, a: Expr, b: Expr, w: Expr)
    requires Simplify(m, b) == w == Simplify(m, w)
    requires AddRules(Simplify(m, a), w) == Add(Simplify(m, a), w)
    ensures Simplify(m, Add(a, b)) == Add(Simplify(m, Simplify(m, a)), w)
  {
    SumSimplified(m, a, b);
    assert FoldNumeric(m, Add(Simplify(m, a), w)) == Add(Simplify(m, Simplify(m, a)), Simplify(m, w));
  }

  lemma LeftValues(m: Lib, ps: Points, a: Expr, b: Expr, s0: real, w0: real, s1: real, w1: real)
    requires HasValues(m, ps, Add(a, b), s0, s1) && HasValues(m, ps, b, w0, w1)
    ensures HasValues(m, ps, a, s0 - w0, s1 - w1)
  {
    assert Strict(m, ps.fst, Add(a, b)) == AddValues(Strict(m, ps.fst, a), Strict(m, ps.fst, b));
    assert Strict(m, ps.snd, Add(a, b)) == AddValues(Strict(m, ps.snd, a), Strict(m, ps.snd, b));
  }

  /** Two summands and their values at two assignments: s of the sum, v of the second summand. */
  datatype Setting = Setting(x: Expr, v: Expr, ps: Points, s0: real, v0: real, s1: real, v1: real)

  /** What the loop keeps: the last summand is the power of v, and the value is the power of the sum. */
  ghost predicate EndsIn(m: Lib, c: Setting, p: Expr, k: nat) {
    p.Add? && p.right == PowerOf(c.v, k) && HasValues(m, c.ps, p, NatPow(c.s0, k), NatPow(c.s1, k))
  }

  /** The values are those of the summands, and every power of the sum can be told from that of v. */
  ghost predicate Distinguished(m: Lib, c: Setting) {
    && IsVariable(c.x) && IsOther(c.x, c.v)
    && HasValues(m, c.ps, Add(c.x, c.v), c.s0, c.s1) && HasValues(m, c.ps, c.v, c.v0, c.v1)
    && forall k: nat | k >= 1 :: PowersApart(c, k)
  }

  ghost predicate PowersApart(c: Setting, k: nat) {
    var s0, v0, s1, v1 := NatPow(c.s0, k), NatPow(c.v0, k), NatPow(c.s1, k), NatPow(c.v1, k);
    Separate(s0 - v0, v0, s1 - v1, v1) && (c.v.Num? ==> s0 - v0 != s1 - v1 && v0 != 0.0 && c.v0 == c.v.n)
  }

  lemma PowerValues(m: Lib, ps: Points, v: Expr, v0: real, v1: real, k: nat)
    requires HasValues(m, ps, v, v0, v1) && k >= 1
    ensures HasValues(m, ps, PowerOf(v, k), NatPow(v0, k), NatPow(v1, k))
  {
    if v.Num? {
      assert v0 == v.n == v1;
    } else if k == 1 {
      FirstPower(v0);
      FirstPower(v1);
    } else {
      assert (k as real).Floor == k;
      assert Strict(m, ps.fst, Num(k as real)) == Some(k as real) == Strict(m, ps.snd, Num(k as real));
    }
  }

  lemma FirstPower(x: real)
    ensures NatPow(x, 1) == x
  {
    assert NatPow(x, 1) == Times(x, NatPow(x, 0)) == x;
  }

  function TimesSum(m: Lib, c: Setting, p: Expr): Expr {
    Simplify(m, Distribute(Mul(p, Add(c.x, c.v))))
  }

  /** Multiplying by the sum once more. */
  lemma {:induction false} OneMoreFactorOut(m: Lib, c: Setting, p: Expr, k: nat)
    requires Lawful(m) && Distinguished(m, c) && EndsIn(m, c, p, k) && k >= 1
    ensures EndsIn(m, c, TimesSum(m, c, p), k + 1)
  {
    var next := Mul(p, Add(c.x, c.v));
    var d := Distribute(next);
    hide Simplify, Distribute, HasValues, Separate, NatPow;
    assert PowersApart(c, k) && PowersApart(c, k + 1);
    NextPower(m, c.v, k);
    NextPower(m, c.v, k + 1);
    DistributedProduct(p, c.x, c.v);
    NextPowerValues(m, c.ps, p, Add(c.x, c.v), c.s0, c.s1, k);
    PowerValues(m, c.ps, c.v, c.v0, c.v1, k);
    NextPowerValues(m, c.ps, PowerOf(c.v, k), c.v, c.v0, c.v1, k);
    ValuesKept(m, c.ps, next, NatPow(c.s0, k + 1), NatPow(c.s1, k + 1));
    ValuesKept(m, c.ps, d, NatPow(c.s0, k + 1), NatPow(c.s1, k + 1));
    LastSummandStays(m, c.ps, d.left, d.right, PowerOf(c.v, k + 1),
                     NatPow(c.s0, k + 1), NatPow(c.v0, k + 1), NatPow(c.s1, k + 1), NatPow(c.v1, k + 1));
  }

  lemma NextPowerValues(m: Lib, ps: Points, p: Expr, b: Expr, x: real, y: real, k: nat)
    requires HasValues(m, ps, p, NatPow(x, k), NatPow(y, k)) && HasValues(m, ps, b, x, y)
    ensures HasValues(m, ps, Mul(p, b), NatPow(x, k + 1), NatPow(y, k + 1))
  {
    MulCommutes(Some(NatPow(x, k)), Some(x));
    MulCommutes(Some(NatPow(y, k)), Some(y));
  }

  lemma DistributedProduct(p: Expr, x: Expr, v: Expr)
    requires p.Add? && Distribute(p.right) == p.right && IsAtom(x) && IsAtom(v)
    ensures var d := Distribute(Mul(p, Add(x, v))); d.Add? && d.right == Mul(p.right, v)
  {
    assert Distribute(Add(x, v)) == Add(x, v);
    assert Distribute(p) == Add(Distribute(p.left), p.right);
  }

  ghost predicate LoopEndsIn(m: Lib, c: Setting, p: Expr, j: nat, k: nat) {
    EndsIn(m, c, MultiplyOut(m, p, Add(c.x, c.v), k), j + k)
  }

  lemma {:induction false} LoopStep(m: Lib, c: Setting, p: Expr, j: nat, k: nat)
    requires k > 0 && LoopEndsIn(m, c, TimesSum(m, c, p), j + 1, k - 1)
    ensures LoopEndsIn(m, c, p, j, k)
  {
    hide Simplify, Distribute, EndsIn, Weight;
    assert j + 1 + (k - 1) == j + k;
  }

  lemma {:induction false} LoopKeepsEnd(m: Lib, c: Setting, p: Expr, j: nat, k: nat)
    requires Lawful(m) && Distinguished(m, c) && EndsIn(m, c, p, j) && j >= 1
    ensures LoopEndsIn(m, c, p, j, k)
    decreases k
  {
    if k > 0 {
      hide *;
      OneMoreFactorOut(m, c, p, j);
      LoopKeepsEnd(m, c, TimesSum(m, c, p), j + 1, k - 1);
      LoopStep(m, c, p, j, k);
    }
  }

  lemma PowerIsLoop(m: Lib, b: Expr, n: real)
    requires IsSmallPower(n) && Expand(m, b) == b
    ensures Expand(m, Pow(b, Num(n))) == Simplify(m, MultiplyOut(m, b, b, n.Floor - 1))
  {
    hide Simplify, MultiplyOut, Distribute, Weight;
  }

  lemma LoopStart(m: Lib, c: Setting)
    requires Distinguished(m, c)
    ensures Expand(m, Add(c.x, c.v)) == Add(c.x, c.v) && EndsIn(m, c, Add(c.x, c.v), 1)
  {
    FirstPower(c.s0); FirstPower(c.s1);
    if c.v.Num? { FirstPower(c.v.n); }
  }

  lemma {:induction false} PowerEndsIn(m: Lib, c: Setting, n: real)
    requires Lawful(m) && IsSmallPower(n) && Distinguished(m, c)
    ensures var r := Expand(m, Pow(Add(c.x, c.v), Num(n))); r.Add? && r.right == PowerOf(c.v, n.Floor)
  {
    LoopStart(m, c);
    LoopKeepsEnd(m, c, Add(c.x, c.v), 1, n.Floor - 1);
    LoopEnds(m, c, n);
  }

  lemma LoopEnds(m: Lib, c: Setting, n: real)
    requires Lawful(m) && IsSmallPower(n) && Distinguished(m, c) && Expand(m, Add(c.x, c.v)) == Add(c.x, c.v)
    requires LoopEndsIn(m, c, Add(c.x, c.v), 1, n.Floor - 1)
    ensures var r := Expand(m, Pow(Add(c.x, c.v), Num(n))); r.Add? && r.right == PowerOf(c.v, n.Floor)
  {
    var b := Add(c.x, c.v);
    assert 1 + (n.Floor - 1) == n.Floor;
    PowerIsLoop(m, b, n);
    hide Distinguished, Simplify, Expand, EndsIn, NatPow, MultiplyOut;
    SimplifiedEnd(m, c, MultiplyOut(m, b, b, n.Floor - 1), n.Floor);
  }

  lemma SimplifiedEnd(m: Lib, c: Setting, p: Expr, k: nat)
    requires Lawful(m) && Distinguished(m, c) && EndsIn(m, c, p, k) && k >= 1
    ensures Simplify(m, p).Add? && Simplify(m, p).right == PowerOf(c.v, k)
  {
    hide Simplify, Distribute, HasValues, Separate, NatPow;
    assert PowersApart(c, k);
    NextPower(m, c.v, k);
    PowerValues(m, c.ps, c.v, c.v0, c.v1, k);
    LastSummandStays(m, c.ps, p.left, p.right, PowerOf(c.v, k),
                     NatPow(c.s0, k), NatPow(c.v0, k), NatPow(c.s1, k), NatPow(c.v1, k));
  }

  // ----- powers of x + a and x + y -----

  lemma {:induction false} PowersOfZeroAndOne(k: nat)
    requires k >= 1
    ensures NatPow(0.0, k) == 0.0 && NatPow(1.0, k) == 1.0
  {
    assert NatPow(0.0, k) == Times(0.0, NatPow(0.0, k - 1)) == 0.0;
    assert NatPow(1.0, k) == Times(1.0, NatPow(1.0, k - 1)) == NatPow(1.0, k - 1);
    if k > 1 { PowersOfZeroAndOne(k - 1); }
  }

  lemma LiteralDistinguished(m: Lib, x: Expr, a: real)
    requires IsVariable(x) && a != 0.0
    ensures Distinguished(m, Setting(x, Num(a), Points(map[x.name := 0.0], map[x.name := -a]), a, a, 0.0, a))
  {
    var c := Setting(x, Num(a), Points(map[x.name := 0.0], map[x.name := -a]), a, a, 0.0, a);
    assert Strict(m, c.ps.fst, x) == Some(0.0) && Strict(m, c.ps.snd, x) == Some(-a);
    assert HasValues(m, c.ps, Num(a), a, a);
    forall k: nat | k >= 1 ensures PowersApart(c, k) {
      NatPowNonZero(a, k);
      PowersOfZeroAndOne(k);
    }
  }

  lemma VariableDistinguished(m: Lib, x: Expr, y: Expr, env: Env)
    requires IsVariable(x) && IsVariable(y) && x != y && env == map[x.name := 1.0, y.name := 0.0]
    ensures Distinguished(m, Setting(x, y, Points(env, env), 1.0, 0.0, 1.0, 0.0))
  {
    var c := Setting(x, y, Points(env, env), 1.0, 0.0, 1.0, 0.0);
    forall k: nat | k >= 1 ensures PowersApart(c, k) {
      PowersOfZeroAndOne(k);
    }
  }

  // x + 0 is simplified on the way, so that its powers are those of x.

  function TimesPadded(m: Lib, x: Expr, p: Expr): Expr {
    Simplify(m, Distribute(Mul(p, Add(x, Num(0.0)))))
  }

  lemma {:induction false} PaddedStep(m: Lib, x: Expr, p: Expr, k: nat)
    requires x.Var? && k >= 1 && p == if k == 1 then Add(x, Num(0.0)) else PowerOf(x, k)
    ensures TimesPadded(m, x, p) == PowerOf(x, k + 1)
  {
    var zero, b := Num(0.0), Add(x, Num(0.0));
    LiteralStays(m, 0.0);
    assert Simplify(m, x) == x;
    NextPower(m, x, k);
    NextPower(m, x, k + 1);
    assert Distribute(b) == b;
    if k == 1 {
      PaddedSquare(m, x);
    } else {
      assert Distribute(Mul(p, b)) == DistributeProduct(p, b) == Mul(p, b);
      hide Simplify, FoldNumeric, Distribute;
      assert Simplify(m, b) == x by { PaddedSum(m, x, zero, x); }
      ProductSimplified(m, p, b);
      ProductSimplified(m, p, x);
    }
  }

  lemma {:induction false} PaddedSum(m: Lib, a: Expr, b: Expr, r: Expr)
    requires Simplify(m, a) == r == FoldNumeric(m, r) && Simplify(m, b) == Num(0.0)
    ensures Simplify(m, Add(a, b)) == r
  {
    hide Simplify, FoldNumeric;
    SumSimplified(m, a, b);
    assert AddRules(r, Num(0.0)) == r;
  }

  lemma {:induction false} PaddedSquare(m: Lib, x: Expr)
    requires x.Var?
    ensures var b := Add(x, Num(0.0)); Simplify(m, Distribute(Mul(b, b))) == PowerOf(x, 2)
  {
    var zero, b := Num(0.0), Add(x, Num(0.0));
    assert Distribute(b) == b;
    assert Distribute(Mul(b, b)) == Add(Add(Add(Mul(x, x), Mul(x, zero)), Mul(zero, x)), Mul(zero, zero));
    LiteralStays(m, 0.0);
    assert Simplify(m, x) == x;
    NextPower(m, x, 1);
    PowerStays(m, x, 2.0);
    hide Simplify, FoldNumeric, Distribute;
    ProductSimplified(m, x, zero);
    ProductSimplified(m, zero, x);
    ProductSimplified(m, zero, zero);
    PaddedSum(m, Mul(x, x), Mul(x, zero), PowerOf(x, 2));
    PaddedSum(m, Add(Mul(x, x), Mul(x, zero)), Mul(zero, x), PowerOf(x, 2));
    PaddedSum(m, Add(Add(Mul(x, x), Mul(x, zero)), Mul(zero, x)), Mul(zero, zero), PowerOf(x, 2));
  }

  ghost predicate PaddedLoopGives(m: Lib, x: Expr, p: Expr, k: nat, r: Expr) {
    MultiplyOut(m, p, Add(x, Num(0.0)), k) == r
  }

  lemma {:induction false} PaddedLoopStep(m: Lib, x: Expr, p: Expr, k: nat, r: Expr)
    ensures k > 0 && PaddedLoopGives(m, x, TimesPadded(m, x, p), k - 1, r) ==> PaddedLoopGives(m, x, p, k, r)
    ensures PaddedLoopGives(m, x, p, 0, p)
  {
    hide Simplify, Distribute, Weight;
  }

  lemma {:induction false} PaddedLoop(m: Lib, x: Expr, p: Expr, j: nat, k: nat)
    requires x.Var? && j >= 1 && p == if j == 1 then Add(x, Num(0.0)) else PowerOf(x, j)
    ensures PaddedLoopGives(m, x, p, k, if j + k == 1 then p else PowerOf(x, j + k))
    decreases k
  {
    hide *;
    PaddedLoopStep(m, x, p, k, if j + k == 1 then p else PowerOf(x, j + k));
    if k > 0 {
      PaddedStep(m, x, p, j);
      assert j + 1 + (k - 1) == j + k;
      PaddedLoop(m, x, PowerOf(x, j + 1), j + 1, k - 1);
    }
  }

  lemma PaddedPower(m: Lib, x: Expr, n: real)
    requires x.Var? && IsSmallPower(n)
    ensures Expand(m, Pow(Add(x, Num(0.0)), Num(n))) == PowerOf(x, n.Floor)
  {
    assert n.Floor >= 1;
    hide *;
    PaddedLoop(m, x, Add(x, Num(0.0)), 1, n.Floor - 1);
    PaddedLoopEnds(m, x, n, if 1 + (n.Floor - 1) == 1 then Add(x, Num(0.0)) else PowerOf(x, 1 + (n.Floor - 1)));
    assert 1 + (n.Floor - 1) == n.Floor;
    PaddedEnd(m, x, n.Floor);
  }

  lemma PaddedLoopEnds(m: Lib, x: Expr, n: real, r: Expr)
    requires x.Var? && IsSmallPower(n) && PaddedLoopGives(m, x, Add(x, Num(0.0)), n.Floor - 1, r)
    ensures Expand(m, Pow(Add(x, Num(0.0)), Num(n))) == Simplify(m, r)
  {
    var b := Add(x, Num(0.0));
    LiteralStays(m, 0.0);
    assert Expand(m, b) == b;
    hide Simplify, FoldNumeric, Expand, MultiplyOut, Weight;
    PowerIsLoop(m, b, n);
  }

  lemma PaddedEnd(m: Lib, x: Expr, k: nat)
    requires x.Var? && k >= 1
    ensures Simplify(m, if k == 1 then Add(x, Num(0.0)) else PowerOf(x, k)) == PowerOf(x, k)
  {
    LiteralStays(m, 0.0);
    assert Simplify(m, x) == x == FoldNumeric(m, x);
    hide Simplify, FoldNumeric, Weight;
    NextPower(m, x, k);
    PaddedSum(m, x, Num(0.0), x);
  }

  lemma LiteralStays(m: Lib, n: real)
    ensures Simplify(m, Num(n)) == Num(n) == FoldNumeric(m, Num(n))
    ensures Distribute(Num(n)) == Num(n) == Expand(m, Num(n))
  {
    FoldedLiteral(m, Num(n));
    assert Simplify(m, Num(n)) == FoldNumeric(m, Num(n));
  }

  /**
    (x + v)^n, for n from 1 to 10 and v a literal or another variable, becomes a sum that
    ends in v^n exactly when v is not 0, and x^n otherwise.
    */
  lemma PowersMultipliedOut(m: Lib, x: Expr, v: Expr, n: real)
    requires Lawful(m) && IsVariable(x) && (v.Num? || (IsVariable(v) && v != x)) && IsInteger(n) && 1.0 <= n <= 10.0
    ensures var r := Expand(m, Pow(Add(x, v), Num(n)));
            && (r.Add? <==> v != Num(0.0)) && (r.Add? ==> r.right == PowerOf(v, n.Floor))
            && (!r.Add? ==> r == PowerOf(x, n.Floor))
  {
    if v == Num(0.0) {
      PaddedPower(m, x, n);
    } else if v.Num? {
      LiteralDistinguished(m, x, v.n);
      PowerEndsIn(m, Setting(x, v, Points(map[x.name := 0.0], map[x.name := -v.n]), v.n, v.n, 0.0, v.n), n);
    } else {
      var env := map[x.name := 1.0, v.name := 0.0];
      VariableDistinguished(m, x, v, env);
      PowerEndsIn(m, Setting(x, v, Points(env, env), 1.0, 0.0, 1.0, 0.0), n);
    }
  }

  /** Powers of other sums need not become sums: (0 + (x + 1))^2 becomes (x + 1)*(x + 1). */
  lemma NestedSumStays(m: Lib, x: Expr)
    requires IsVariable(x)
    ensures var s := Add(x, Num(1.0)); Expand(m, Pow(Add(Num(0.0), s), Num(2.0))) == Mul(s, s)
  {
    var zero, s := Num(0.0), Add(x, Num(1.0));
    var b, p := Add(zero, s), Mul(s, s);
    LiteralStays(m, 0.0);
    LiteralStays(m, 1.0);
    assert Distribute(s) == s && Expand(m, s) == s;
    assert Distribute(b) == b && Expand(m, b) == b;
    assert Distribute(Mul(b, b)) == Add(Add(Add(Mul(zero, zero), Mul(zero, s)), Mul(s, zero)), Mul(s, s));
    assert Simplify(m, x) == x;
    assert FoldNumeric(m, s) == s && AddRules(x, Num(1.0)) == s;
    SumSimplified(m, x, Num(1.0));
    assert FoldNumeric(m, p) == p && MulRules(s, s) == p;
    ProductSimplified(m, s, s);
    hide Simplify, FoldNumeric, Distribute;
    ProductSimplified(m, zero, zero);
    ProductSimplified(m, zero, s);
    ProductSimplified(m, s, zero);
    PaddedSum(m, Mul(zero, zero), Mul(zero, s), zero);
    PaddedSum(m, Add(Mul(zero, zero), Mul(zero, s)), Mul(s, zero), zero);
    SumSimplified(m, Add(Add(Mul(zero, zero), Mul(zero, s)), Mul(s, zero)), Mul(s, s));
    assert AddRules(zero, p) == p;
    SquareIsProduct(m, b);
    assert Expand(m, Mul(b, b)) == Distribute(Mul(b, b));
  }

  /** Other powers stay powers. */
  lemma OtherPowersStay(m: Lib, e: Expr, exp: Expr)
    requires !(exp.Num? && IsInteger(exp.n) && 1.0 <= exp.n <= 10.0)
    ensures Expand(m, Pow(e, exp)) == Pow(Expand(m, e), exp)
  {
  }
}
